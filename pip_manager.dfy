/** The PyPI manager (`src/PipManager.ts`): reads a `requirements*.txt` file line
    by line, takes the package name out of every line that is not a comment, asks
    the PyPI API for the project's links and sorts them into a repository link and
    other links.

    The file content is given as a string; the API is a function from the request
    URL to the response, and `encodeURIComponent` is a function parameter. */
module PipManager {
  import opened Wrappers
  import opened Types
  import opened Strings
  import RepoUrl

  const Name := "pip"
  const FilePattern := "requirements.txt"
  const GlobPattern := "**/requirements*.txt"

  /* ---------------------------------------------------------------------------
     extractPackageName: the first match of /([^\s<>=!]+)/ in the line without its
     comment.
     --------------------------------------------------------------------------- */

  /** The characters the name pattern stops at: `\s`, `<`, `>`, `=` and `!`. */
  predicate IsExcluded(c: char)
  {
    IsSpace(c) || c == '<' || c == '>' || c == '=' || c == '!'
  }

  /** `[^\s<>=!]` */
  predicate IsNameChar(c: char)
  {
    !IsExcluded(c)
  }

  /** The match of the name pattern in `text`: it starts at the first character
      the class admits and, being greedy, runs as far as the class admits. */
  function MatchName(text: string): string
  {
    var start := RunLength(text, 0, IsExcluded);
    text[start..start + RunLength(text, start, IsNameChar)]
  }

  /** `extractPackageName(line)`: the match in the line's text before `#`,
      trimmed; `''` when there is none. */
  function ExtractPackageName(line: string): string
  {
    MatchName(Trim(BeforeHash(line)))
  }

  /** `name` stands at `p` in `text`, is made of name characters, cannot be
      extended to the right and has no name character before it. */
  ghost predicate IsLeftmostRun(text: string, p: nat, name: string)
  {
    && p + |name| <= |text| && text[p..p + |name|] == name
    && (forall k :: 0 <= k < |name| ==> IsNameChar(name[k]))
    && (forall k :: 0 <= k < p ==> !IsNameChar(text[k]))
    && (p + |name| < |text| ==> !IsNameChar(text[p + |name|]))
  }

  /** The match is the leftmost longest run of name characters, and `''` exactly
      when the text has no name character. */
  lemma MatchNameSpec(text: string)
    ensures MatchName(text) != "" ==> exists p: nat :: IsLeftmostRun(text, p, MatchName(text))
    ensures MatchName(text) == "" <==> forall k :: 0 <= k < |text| ==> !IsNameChar(text[k])
  {
    var start := RunLength(text, 0, IsExcluded);
    var n := RunLength(text, start, IsNameChar);
    var name := text[start..start + n];
    assert MatchName(text) == name;
    assert forall k :: 0 <= k < |name| ==> name[k] == text[start + k];
    if name == "" {
      assert start == |text|;
    } else {
      assert IsLeftmostRun(text, start, name);
    }
  }

  /** The name read from a line is the leftmost longest run of name characters in
      its text before `#`, trimmed, and `''` exactly when that text has none. */
  lemma ExtractPackageNameSpec(line: string)
    ensures var text := Trim(BeforeHash(line));
            var name := ExtractPackageName(line);
            && (name != "" ==> exists p: nat :: IsLeftmostRun(text, p, name))
            && (name == "" <==> forall k :: 0 <= k < |text| ==> !IsNameChar(text[k]))
  {
    MatchNameSpec(Trim(BeforeHash(line)));
  }

  /** A requirement `name` followed by a version specifier (or nothing), with or
      without a trailing comment, gives back `name`: `requests>=2.31 # http`
      gives `requests`. */
  lemma ExtractFromRequirement(name: string, specifier: string, comment: string)
    requires 1 <= |name| && forall k :: 0 <= k < |name| ==> IsNameChar(name[k]) && name[k] != '#'
    requires specifier == [] || IsExcluded(specifier[0])
    requires '#' !in specifier
    ensures ExtractPackageName(name + specifier) == name
    ensures ExtractPackageName(name + specifier + "#" + comment) == name
  {
    RequirementCut(name, specifier, comment);
    RequirementText(name, specifier);
  }

  /** Neither the name nor the specifier holds `#`, so only a comment is cut off. */
  lemma RequirementCut(name: string, specifier: string, comment: string)
    requires forall k :: 0 <= k < |name| ==> name[k] != '#'
    requires '#' !in specifier
    ensures BeforeHash(name + specifier) == name + specifier
    ensures BeforeHash(name + specifier + "#" + comment) == name + specifier
  {
    var line := name + specifier;
    forall k | 0 <= k < |line| ensures line[k] != '#' {
      if k < |name| { assert line[k] == name[k]; } else { assert line[k] == specifier[k - |name|]; }
    }
    assert '#' !in line;
    assert name + specifier + "#" + comment == line + ['#'] + comment;
    IndexOfPrefix(line, '#', comment);
  }

  /** A text that starts with a name followed by nothing or an excluded character
      matches that name. */
  lemma RequirementMatch(text: string, name: string)
    requires 1 <= |name| && forall k :: 0 <= k < |name| ==> IsNameChar(name[k])
    requires |name| <= |text| && text[..|name|] == name
    requires |name| < |text| ==> IsExcluded(text[|name|])
    ensures MatchName(text) == name
  {
    assert text[0] == name[0];
    RunUpTo(text, 0, 0, IsExcluded);
    assert forall k :: 0 <= k < |name| ==> text[k] == name[k];
    RunUpTo(text, 0, |name|, IsNameChar);
  }

  /** Trimming a requirement keeps its name at the front, followed by the
      specifier's first character if anything follows, so the name is matched. */
  lemma RequirementText(name: string, specifier: string)
    requires 1 <= |name| && forall k :: 0 <= k < |name| ==> IsNameChar(name[k])
    requires specifier == [] || IsExcluded(specifier[0])
    ensures MatchName(Trim(name + specifier)) == name
  {
    var line := name + specifier;
    assert line[0] == name[0];
    assert TrimStart(line) == line;
    var text := TrimEnd(line);
    assert line[|name| - 1] == name[|name| - 1];
    assert |name| <= |text|;
    assert text[..|name|] == line[..|name|] == name;
    if |name| < |text| {
      assert text[|name|] == line[|name|] == specifier[0];
    }
    RequirementMatch(text, name);
  }

  /* ---------------------------------------------------------------------------
     fetchPyPIRepoUrl: the project links of the package, sorted into the
     repository link (the last one the repository pattern accepts) and the other
     links.
     --------------------------------------------------------------------------- */

  /** The PyPI answer: `info.project_urls` as its key/link pairs in the order
      `for...in` visits them, `None` when it is missing. */
  datatype Response = NotOk | Ok(projectUrls: Option<seq<(string, string)>>)

  /** `https://pypi.org/pypi/${encodeURIComponent(packageName)}/json` */
  function ApiUrl(packageName: string, encode: string -> string): string
  {
    "https://pypi.org/pypi/" + encode(packageName) + "/json"
  }

  datatype Links = Links(repoUrl: Option<string>, otherUrls: map<string, string>)

  /** `repoUrlRegex` of this manager: the shared pattern with `https://` and `git@` only. */
  const RepoPattern: string -> bool := RepoUrl.Pattern(RepoUrl.PipSchemes)

  /** The sorting loop, over the links visited so far. Unlike the RubyGems lookup,
      a link is not tested for truthiness: an empty link is filed as another link. */
  function Sorted(links: seq<(string, string)>, isRepo: string -> bool): Links
  {
    if links == [] then Links(None, map[])
    else
      var before := Sorted(links[..|links| - 1], isRepo);
      var (key, url) := links[|links| - 1];
      if isRepo(url) then Links(Some(url), before.otherUrls)
      else Links(before.repoUrl, before.otherUrls[key := url])
  }

  /** Link `i` is the last link the pattern accepts. */
  predicate IsLastRepoLink(links: seq<(string, string)>, i: nat, isRepo: string -> bool)
  {
    i < |links| && isRepo(links[i].1) && forall j :: i < j < |links| ==> !isRepo(links[j].1)
  }

  /** The repository link is the last link the pattern accepts, and there is none
      when it accepts none. */
  lemma {:induction false} SortedRepoUrl(links: seq<(string, string)>, isRepo: string -> bool)
    ensures var r := Sorted(links, isRepo);
            && (r.repoUrl.Some? ==> exists i: nat :: IsLastRepoLink(links, i, isRepo) && links[i].1 == r.repoUrl.value)
            && (r.repoUrl.None? ==> forall i :: 0 <= i < |links| ==> !isRepo(links[i].1))
  {
    if links != [] {
      var n := |links| - 1;
      var prefix := links[..n];
      SortedRepoUrl(prefix, isRepo);
      var before, r := Sorted(prefix, isRepo), Sorted(links, isRepo);
      assert forall i :: 0 <= i < n ==> prefix[i] == links[i];
      if isRepo(links[n].1) {
        assert IsLastRepoLink(links, n, isRepo);
      } else if r.repoUrl.Some? {
        var i: nat :| IsLastRepoLink(prefix, i, isRepo) && prefix[i].1 == before.repoUrl.value;
        assert IsLastRepoLink(links, i, isRepo);
      }
    }
  }

  /** Some link of `links` is filed under `key`, is `url` and is not accepted by
      the pattern. */
  predicate IsOtherLink(links: seq<(string, string)>, key: string, url: string, isRepo: string -> bool)
  {
    exists i :: 0 <= i < |links| && links[i] == (key, url) && !isRepo(url)
  }

  /** The other links are exactly the links the pattern rejects, each under its key. */
  lemma {:induction false} SortedOtherUrls(links: seq<(string, string)>, isRepo: string -> bool)
    ensures forall key :: key in Sorted(links, isRepo).otherUrls ==>
              IsOtherLink(links, key, Sorted(links, isRepo).otherUrls[key], isRepo)
    ensures forall i :: 0 <= i < |links| && !isRepo(links[i].1) ==> links[i].0 in Sorted(links, isRepo).otherUrls
  {
    if links != [] {
      var n := |links| - 1;
      var prefix := links[..n];
      SortedOtherUrls(prefix, isRepo);
      var before, r := Sorted(prefix, isRepo), Sorted(links, isRepo);
      assert forall i :: 0 <= i < n ==> prefix[i] == links[i];
      forall key | key in r.otherUrls ensures IsOtherLink(links, key, r.otherUrls[key], isRepo) {
        if key == links[n].0 && !isRepo(links[n].1) {
          assert links[n] == (key, r.otherUrls[key]);
        } else {
          assert key in before.otherUrls && r.otherUrls[key] == before.otherUrls[key];
          var i :| 0 <= i < |prefix| && prefix[i] == (key, before.otherUrls[key]) && !isRepo(before.otherUrls[key]);
          assert links[i] == prefix[i];
        }
      }
    }
  }

  /** The keys of a JSON object are distinct. */
  predicate DistinctKeys(links: seq<(string, string)>)
  {
    forall i, j :: 0 <= i < j < |links| ==> links[i].0 != links[j].0
  }

  /** With distinct keys, every link the pattern rejects is kept as it is. */
  lemma {:induction false} SortedOtherUrlsDistinct(links: seq<(string, string)>, isRepo: string -> bool)
    requires DistinctKeys(links)
    ensures forall i :: 0 <= i < |links| && !isRepo(links[i].1) ==>
              links[i].0 in Sorted(links, isRepo).otherUrls &&
              Sorted(links, isRepo).otherUrls[links[i].0] == links[i].1
  {
    if links != [] {
      var n := |links| - 1;
      var prefix := links[..n];
      assert forall i :: 0 <= i < n ==> prefix[i] == links[i];
      SortedOtherUrlsDistinct(prefix, isRepo);
      var before, r := Sorted(prefix, isRepo), Sorted(links, isRepo);
      forall i | 0 <= i < |links| && !isRepo(links[i].1)
        ensures links[i].0 in r.otherUrls && r.otherUrls[links[i].0] == links[i].1
      {
        if i < n {
          assert prefix[i] == links[i];
          assert links[i].0 != links[n].0;
        }
      }
    }
  }

  /** `fetchPyPIRepoUrl(packageName)` */
  method FetchPyPIRepoUrl(packageName: string, fetch: string -> Response, encode: string -> string)
    returns (links: Links)
    ensures links == PyPILinks(packageName, fetch, encode)
  {
    var response := fetch(ApiUrl(packageName, encode));
    if !response.Ok? {
      return Links(None, map[]);
    }
    var repoUrl: Option<string> := None;
    var otherUrls: map<string, string> := map[];
    if response.projectUrls.Some? {
      var projectUrls := response.projectUrls.value;
      for i := 0 to |projectUrls|
        invariant Links(repoUrl, otherUrls) == Sorted(projectUrls[..i], RepoPattern)
      {
        var (key, url) := projectUrls[i];
        if RepoUrl.Matches(RepoUrl.PipSchemes, url) {
          repoUrl := Some(url);
        } else {
          otherUrls := otherUrls[key := url];
        }
        SliceSnoc(projectUrls, i);
      }
      assert projectUrls[..|projectUrls|] == projectUrls;
    }
    links := Links(repoUrl, otherUrls);
  }

  /** What `fetchPyPIRepoUrl` returns: nothing when the response is not ok or has
      no project links. */
  function PyPILinks(packageName: string, fetch: string -> Response, encode: string -> string): Links
  {
    match fetch(ApiUrl(packageName, encode))
    case NotOk => Links(None, map[])
    case Ok(None) => Links(None, map[])
    case Ok(Some(projectUrls)) => Sorted(projectUrls, RepoPattern)
  }

  /** Whatever the API answers, the repository link is one the pattern accepts. */
  lemma PyPILinksSpec(packageName: string, fetch: string -> Response, encode: string -> string)
    ensures var links := PyPILinks(packageName, fetch, encode);
            links.repoUrl.Some? ==> RepoUrl.Matches(RepoUrl.PipSchemes, links.repoUrl.value)
  {
    var response := fetch(ApiUrl(packageName, encode));
    if response.Ok? && response.projectUrls.Some? {
      SortedRepoUrl(response.projectUrls.value, RepoPattern);
    }
  }

  /* ---------------------------------------------------------------------------
     getDependencies
     --------------------------------------------------------------------------- */

  function PackageUrl(packageName: string): string
  {
    "https://pypi.org/project/" + packageName
  }

  /** `{ package: packageUrl, ...otherUrls }`, then `repo` when there is a
      repository link. A project link filed under `package` or `repo` takes that
      key over. */
  function UrlsOf(packageName: string, links: Links): Urls
  {
    var urls := map["package" := Some(PackageUrl(packageName))] +
                map key | key in links.otherUrls :: Some(links.otherUrls[key]);
    if Truthy(links.repoUrl) then urls["repo" := links.repoUrl] else urls
  }

  /** The links of one dependency: the PyPI page unless a project link is itself
      labelled `package`, every other link under its label, and `repo` from the
      repository link when there is one, from a link labelled `repo` otherwise. */
  lemma UrlsOfSpec(packageName: string, links: Links)
    ensures var urls := UrlsOf(packageName, links);
            && "package" in urls
            && urls["package"] == (if "package" in links.otherUrls then Some(links.otherUrls["package"])
                                   else Some(PackageUrl(packageName)))
            && ("repo" in urls <==> Truthy(links.repoUrl) || "repo" in links.otherUrls)
            && (Truthy(links.repoUrl) ==> urls["repo"] == links.repoUrl)
            && (!Truthy(links.repoUrl) && "repo" in links.otherUrls ==> urls["repo"] == Some(links.otherUrls["repo"]))
            && (forall key :: key != "package" && key != "repo" ==>
                  (key in urls <==> key in links.otherUrls) &&
                  (key in urls ==> urls[key] == Some(links.otherUrls[key])))
  {
  }

  /** The dependency the manager builds for package `packageName`. */
  function PipDependency(packageName: string, fetch: string -> Response, encode: string -> string): Dependency
  {
    Dependency(packageName, UrlsOf(packageName, PyPILinks(packageName, fetch, encode)))
  }

  /** The dependency one trimmed line yields: one for every line that is not a
      comment, even when no name can be read from it. */
  function LineDependency(line: string, fetch: string -> Response, encode: string -> string): Option<Dependency>
  {
    if IsContentLine(line) then Some(PipDependency(ExtractPackageName(line), fetch, encode)) else None
  }

  function LineDependencyOf(fetch: string -> Response, encode: string -> string): string -> Option<Dependency>
  {
    (line: string) => LineDependency(line, fetch, encode)
  }

  /** The dependencies of the lines, in line order. */
  function Dependencies(lines: seq<string>, fetch: string -> Response, encode: string -> string): seq<Dependency>
  {
    FilterMap(lines, LineDependencyOf(fetch, encode))
  }

  /** `getDependencies(filePath)`, with the file's content given. */
  method GetDependencies(content: string, fetch: string -> Response, encode: string -> string)
    returns (dependencies: seq<Dependency>)
    ensures dependencies == Dependencies(TrimmedLines(content), fetch, encode)
  {
    var lines := TrimmedLines(content);
    dependencies := [];
    for i := 0 to |lines|
      invariant dependencies == FilterMap(lines[..i], LineDependencyOf(fetch, encode))
    {
      var found := VisitLine(lines[i], fetch, encode);
      if found.Some? {
        dependencies := dependencies + [found.value];
      }
      SliceSnoc(lines, i);
    }
    assert lines[..|lines|] == lines;
  }

  /** The body of the loop of `getDependencies` for one trimmed line. */
  method VisitLine(line: string, fetch: string -> Response, encode: string -> string)
    returns (found: Option<Dependency>)
    ensures found == LineDependency(line, fetch, encode)
  {
    found := None;
    if line != "" && !StartsWith(line, "#") {
      var packageName := ExtractPackageName(line);
      var packageUrl := PackageUrl(packageName);
      var links := FetchPyPIRepoUrl(packageName, fetch, encode);
      var urls := map["package" := Some(packageUrl)] +
                  map key | key in links.otherUrls :: Some(links.otherUrls[key]);
      if Truthy(links.repoUrl) {
        urls := urls["repo" := links.repoUrl];
      }
      found := Some(Dependency(packageName, urls));
    }
  }

  /** Every dependency is the one a non-comment line of the file gives, and every
      non-comment line gives one that is among the dependencies. */
  lemma DependenciesSpec(lines: seq<string>, fetch: string -> Response, encode: string -> string)
    ensures forall d :: d in Dependencies(lines, fetch, encode) ==>
              exists line :: line in lines && IsContentLine(line) && d == PipDependency(ExtractPackageName(line), fetch, encode)
    ensures forall line :: line in lines && IsContentLine(line) ==>
              PipDependency(ExtractPackageName(line), fetch, encode) in Dependencies(lines, fetch, encode)
  {
    var f := LineDependencyOf(fetch, encode);
    FilterMapSound(lines, f);
    FilterMapComplete(lines, f);
  }

  /** Lines that give dependencies give one each, in line order: a package
      listed on two lines is listed twice. */
  lemma DependenciesInLineOrder(lines: seq<string>, fetch: string -> Response, encode: string -> string, i: nat, j: nat)
    requires i < j < |lines|
    requires LineDependency(lines[i], fetch, encode).Some? && LineDependency(lines[j], fetch, encode).Some?
    ensures var deps := Dependencies(lines, fetch, encode);
            exists a, b :: && 0 <= a < b < |deps|
                           && deps[a] == LineDependency(lines[i], fetch, encode).value
                           && deps[b] == LineDependency(lines[j], fetch, encode).value
  {
    var f := LineDependencyOf(fetch, encode);
    FilterMapAt(lines, i, f);
    FilterMapAt(lines, j, f);
    FilterMapOrder(lines, i, j, f);
    var a, b := |FilterMap(lines[..i], f)|, |FilterMap(lines[..j], f)|;
    assert Dependencies(lines, fetch, encode)[a] == LineDependency(lines[i], fetch, encode).value;
  }
}
