/** The RubyGems manager (`src/GemManager.ts`): reads a `Gemfile` line by line,
    takes the gem name out of each `gem '...'` line, asks the RubyGems API for the
    gem's links and sorts them into a repository link and other links.

    The file content is given as a string; the API is a function from the request
    URL to the response, and `encodeURIComponent` is a function parameter. */
module GemManager {
  import opened Wrappers
  import opened Types
  import opened Strings
  import RepoUrl

  const Name := "gems"
  const FilePattern := "Gemfile"
  const GlobPattern := "**/Gemfile"

  /* ---------------------------------------------------------------------------
     extractPackageName: the first match of /gem\s+['"]([^'"]+)['"]/ in the line
     without its comment.
     --------------------------------------------------------------------------- */

  predicate IsQuote(c: char)
  {
    c == '\'' || c == '"'
  }

  predicate NotQuote(c: char)
  {
    !IsQuote(c)
  }

  /** What the pattern matches when it is tried at position `p`: `\s+` and
      `[^'"]+` are greedy and each is followed by a character they cannot consume,
      so each takes its longest run and there is nothing to backtrack to. */
  function MatchAt(s: string, p: nat): Option<string>
    requires p <= |s|
  {
    if p + 3 <= |s| && s[p..p + 3] == "gem" then
      var w := RunLength(s, p + 3, IsSpace);
      var q := p + 3 + w;
      if 1 <= w && q < |s| && IsQuote(s[q]) then
        var n := RunLength(s, q + 1, NotQuote);
        if 1 <= n && q + 1 + n < |s| then Some(s[q + 1..q + 1 + n]) else None
      else None
    else None
  }

  /** The regular expression read as a language, with the whitespace run's length
      `w` made explicit: at `p` stand `gem`, `w >= 1` whitespace characters, a
      quote, the capture `name` (one or more non-quotes) and a quote. */
  ghost predicate MatchWith(s: string, p: nat, w: nat, name: string)
  {
    && 1 <= w && p + 3 + w + |name| + 2 <= |s| && 1 <= |name|
    && s[p..p + 3] == "gem"
    && (forall k :: p + 3 <= k < p + 3 + w ==> IsSpace(s[k]))
    && IsQuote(s[p + 3 + w])
    && s[p + 4 + w..p + 4 + w + |name|] == name
    && (forall k :: 0 <= k < |name| ==> NotQuote(name[k]))
    && IsQuote(s[p + 4 + w + |name|])
  }

  /** The pattern matches at `p` with capture `name`. */
  ghost predicate IsMatch(s: string, p: nat, name: string)
  {
    exists w: nat :: MatchWith(s, p, w, name)
  }

  /** The matcher at one position finds exactly the matches of the pattern there. */
  lemma MatchAtIff(s: string, p: nat, name: string)
    requires p <= |s|
    ensures MatchAt(s, p) == Some(name) <==> IsMatch(s, p, name)
  {
    if MatchAt(s, p) == Some(name) {
      MatchAtSound(s, p);
    }
    if IsMatch(s, p, name) {
      var w: nat :| MatchWith(s, p, w, name);
      MatchAtComplete(s, p, w, name);
    }
  }

  lemma MatchAtSound(s: string, p: nat)
    requires p <= |s| && MatchAt(s, p).Some?
    ensures MatchWith(s, p, RunLength(s, p + 3, IsSpace), MatchAt(s, p).value)
  {
    var w := RunLength(s, p + 3, IsSpace);
    var q := p + 3 + w;
    var n := RunLength(s, q + 1, NotQuote);
    var name := s[q + 1..q + 1 + n];
    assert MatchAt(s, p) == Some(name);
    forall k | 0 <= k < |name| ensures NotQuote(name[k]) {
      assert name[k] == s[q + 1 + k];
    }
    assert !NotQuote(s[q + 1 + n]);
  }

  lemma MatchAtComplete(s: string, p: nat, w: nat, name: string)
    requires p <= |s| && MatchWith(s, p, w, name)
    ensures MatchAt(s, p) == Some(name)
  {
    RunUpTo(s, p + 3, w, IsSpace);
    forall k | p + 4 + w <= k < p + 4 + w + |name| ensures NotQuote(s[k]) {
      assert s[k] == name[k - (p + 4 + w)];
    }
    RunUpTo(s, p + 4 + w, |name|, NotQuote);
  }

  /** The first of `f(p)`, `f(p + 1)`, ..., `f(end)` that holds a value. */
  function Leftmost<T>(f: nat -> Option<T>, p: nat, end: nat): Option<T>
    decreases end - p
  {
    if end < p then None
    else if f(p).Some? then f(p)
    else Leftmost(f, p + 1, end)
  }

  /** The search returns the value at the least position that has one, and
      nothing when no position has one. */
  lemma {:induction false} LeftmostSpec<T>(f: nat -> Option<T>, p: nat, end: nat)
    ensures Leftmost(f, p, end).Some? ==>
      exists q: nat :: p <= q <= end && f(q) == Leftmost(f, p, end) &&
        forall r: nat :: p <= r < q ==> f(r).None?
    ensures Leftmost(f, p, end).None? ==> forall q: nat :: p <= q <= end ==> f(q).None?
    decreases end - p
  {
    if p <= end && f(p).None? {
      LeftmostSpec(f, p + 1, end);
      if Leftmost(f, p + 1, end).Some? {
        var q: nat :| p + 1 <= q <= end && f(q) == Leftmost(f, p + 1, end) &&
          forall r: nat :: p + 1 <= r < q ==> f(r).None?;
        assert f(q) == Leftmost(f, p, end);
      }
    }
  }

  /** The pattern tried at every position of `s` (none past its end). */
  function Matcher(s: string): nat -> Option<string>
  {
    (p: nat) => if p <= |s| then MatchAt(s, p) else None
  }

  /** `extractPackageName(line)`: the capture of the leftmost match, or `''`. */
  function ExtractPackageName(line: string): string
  {
    var text := Trim(BeforeHash(line));
    match Leftmost(Matcher(text), 0, |text|)
    case Some(name) => name
    case None => ""
  }

  /** The name taken from a line is the capture of the leftmost match of the
      pattern in the line's text before `#`, trimmed; `''` when it matches nowhere. */
  lemma ExtractPackageNameSpec(line: string)
    ensures var text := Trim(BeforeHash(line));
            var name := ExtractPackageName(line);
            && (name != "" ==> exists p: nat :: p <= |text| && IsMatch(text, p, name) &&
                                  forall q: nat, other :: q < p ==> !IsMatch(text, q, other))
            && (name == "" ==> forall p: nat, other :: p <= |text| ==> !IsMatch(text, p, other))
  {
    var text := Trim(BeforeHash(line));
    if Leftmost(Matcher(text), 0, |text|).Some? {
      LeftmostFound(text);
    } else {
      LeftmostNone(text);
    }
  }

  lemma LeftmostFound(text: string)
    requires Leftmost(Matcher(text), 0, |text|).Some?
    ensures var name := Leftmost(Matcher(text), 0, |text|).value;
            && name != ""
            && exists p: nat :: p <= |text| && IsMatch(text, p, name) &&
                 forall q: nat, other :: q < p ==> !IsMatch(text, q, other)
  {
    var f := Matcher(text);
    var name := Leftmost(f, 0, |text|).value;
    LeftmostSpec(f, 0, |text|);
    var p: nat :| p <= |text| && f(p) == Leftmost(f, 0, |text|) && forall r: nat :: r < p ==> f(r).None?;
    assert MatchAt(text, p) == Some(name);
    MatchAtIff(text, p, name);
    MatchAtSound(text, p);
    forall q: nat, other | q < p ensures !IsMatch(text, q, other) {
      NoMatchAt(text, q, other);
    }
  }

  lemma NoMatchAt(s: string, q: nat, other: string)
    requires q <= |s| && Matcher(s)(q).None?
    ensures !IsMatch(s, q, other)
  {
    MatchAtIff(s, q, other);
  }

  lemma LeftmostNone(text: string)
    requires Leftmost(Matcher(text), 0, |text|).None?
    ensures forall p: nat, other :: p <= |text| ==> !IsMatch(text, p, other)
  {
    var f := Matcher(text);
    LeftmostSpec(f, 0, |text|);
    forall p: nat, other | p <= |text| ensures !IsMatch(text, p, other) {
      NoMatchAt(text, p, other);
    }
  }

  /** The line `gem 'name'` that `bundle add` writes, with or without a trailing
      comment, gives back `name`. */
  lemma ExtractFromGemLine(name: string, comment: string)
    requires 1 <= |name| && forall k :: 0 <= k < |name| ==> NotQuote(name[k]) && name[k] != '#'
    ensures ExtractPackageName("gem '" + name + "'") == name
    ensures ExtractPackageName("gem '" + name + "' #" + comment) == name
  {
    var line := "gem '" + name + "'";
    GemLineText(name, comment);
    GemLineMatch(name);
    assert Matcher(line)(0) == Some(name);
  }

  lemma GemLineText(name: string, comment: string)
    requires 1 <= |name| && forall k :: 0 <= k < |name| ==> name[k] != '#'
    ensures var line := "gem '" + name + "'";
            && Trim(BeforeHash(line)) == line
            && Trim(BeforeHash("gem '" + name + "' #" + comment)) == line
  {
    var line := "gem '" + name + "'";
    GemLineUnhashed(name);
    GemLineCut(line, comment);
    assert "gem '" + name + "' #" + comment == line + " #" + comment;
    TrimUnspaced(line);
    TrimSpaceAfter(line);
  }

  lemma TrimSpaceAfter(s: string)
    requires s != [] && !IsSpace(s[0]) && !IsSpace(s[|s| - 1])
    ensures Trim(s + " ") == s
  {
    assert TrimStart(s + " ") == s + " ";
    assert (s + " ")[..|s|] == s;
    assert TrimEnd(s + " ") == TrimEnd(s);
    TrimUnspaced(s);
  }

  lemma GemLineUnhashed(name: string)
    requires forall k :: 0 <= k < |name| ==> name[k] != '#'
    ensures BeforeHash("gem '" + name + "'") == "gem '" + name + "'"
  {
    var line := "gem '" + name + "'";
    forall k | 0 <= k < |line| ensures line[k] != '#' {
      if 5 <= k < 5 + |name| { assert line[k] == name[k - 5]; }
    }
    assert '#' !in line;
  }

  lemma GemLineCut(line: string, comment: string)
    requires BeforeHash(line) == line
    ensures BeforeHash(line + " #" + comment) == line + " "
  {
    assert line + " #" + comment == (line + " ") + ['#'] + comment;
    IndexOfPrefix(line + " ", '#', comment);
  }

  lemma GemLineMatch(name: string)
    requires 1 <= |name| && forall k :: 0 <= k < |name| ==> NotQuote(name[k])
    ensures MatchAt("gem '" + name + "'", 0) == Some(name)
  {
    var line := "gem '" + name + "'";
    assert MatchWith(line, 0, 1, name) by {
      assert line[0..3] == "gem";
      assert line[5..5 + |name|] == name;
    }
    MatchAtComplete(line, 0, 1, name);
  }

  /* ---------------------------------------------------------------------------
     fetchRubyGemsRepoUrl: the three links of the gem, sorted into the repository
     link (the last one the repository pattern accepts) and the other links.
     --------------------------------------------------------------------------- */

  /** The fields of the RubyGems API answer that are read; `None` stands for a
      missing field (and for `null`, which is falsy too). */
  datatype GemInfo = GemInfo(sourceCodeUri: Option<string>, homepageUri: Option<string>, projectUri: Option<string>)

  datatype Response = NotOk | Ok(info: GemInfo)

  /** `https://rubygems.org/api/v1/gems/${encodeURIComponent(packageName)}.json` */
  function ApiUrl(packageName: string, encode: string -> string): string
  {
    "https://rubygems.org/api/v1/gems/" + encode(packageName) + ".json"
  }

  /** `urlsToCheck`, in the order `for...in` visits its keys. */
  function UrlsToCheck(info: GemInfo): seq<(string, Option<string>)>
  {
    [("source_code_uri", info.sourceCodeUri), ("homepage_uri", info.homepageUri), ("project_uri", info.projectUri)]
  }

  datatype Links = Links(repoUrl: Option<string>, otherUrls: map<string, string>)

  /** `repoUrlRegex` of this manager: the shared pattern with `http://` admitted. */
  const RepoPattern: string -> bool := RepoUrl.Pattern(RepoUrl.GemSchemes)

  /** A link is the repository link when it is truthy and `isRepo` accepts it. */
  predicate IsRepoLink(url: Option<string>, isRepo: string -> bool)
  {
    Truthy(url) && isRepo(url.value)
  }

  /** The sorting loop, over the links visited so far. */
  function Sorted(links: seq<(string, Option<string>)>, isRepo: string -> bool): Links
  {
    if links == [] then Links(None, map[])
    else
      var before := Sorted(links[..|links| - 1], isRepo);
      var (key, url) := links[|links| - 1];
      if IsRepoLink(url, isRepo) then Links(url, before.otherUrls)
      else if Truthy(url) then Links(before.repoUrl, before.otherUrls[key := url.value])
      else before
  }

  /** The repository link is the last link the pattern accepts, and there is none
      when it accepts none. */
  lemma {:induction false} SortedRepoUrl(links: seq<(string, Option<string>)>, isRepo: string -> bool)
    ensures var r := Sorted(links, isRepo);
            && (r.repoUrl.Some? ==> exists i :: 0 <= i < |links| && links[i].1 == r.repoUrl && IsRepoLink(r.repoUrl, isRepo) &&
                                      forall j :: i < j < |links| ==> !IsRepoLink(links[j].1, isRepo))
            && (r.repoUrl.None? ==> forall i :: 0 <= i < |links| ==> !IsRepoLink(links[i].1, isRepo))
  {
    if links != [] {
      var n := |links| - 1;
      var prefix := links[..n];
      SortedRepoUrl(prefix, isRepo);
      var before, r := Sorted(prefix, isRepo), Sorted(links, isRepo);
      assert forall i :: 0 <= i < n ==> prefix[i] == links[i];
      if IsRepoLink(links[n].1, isRepo) {
        assert links[n].1 == r.repoUrl;
      } else if r.repoUrl.Some? {
        var i :| 0 <= i < n && prefix[i].1 == before.repoUrl && IsRepoLink(before.repoUrl, isRepo) &&
          forall j :: i < j < n ==> !IsRepoLink(prefix[j].1, isRepo);
        assert links[i].1 == r.repoUrl;
      }
    }
  }

  /** Some link of `links` is filed under `key`, holds the truthy `url` and is not
      the repository link. */
  predicate IsOtherLink(links: seq<(string, Option<string>)>, key: string, url: string, isRepo: string -> bool)
  {
    exists i :: 0 <= i < |links| && links[i] == (key, Some(url)) && Truthy(links[i].1) && !IsRepoLink(links[i].1, isRepo)
  }

  /** The other links are exactly the truthy links the pattern rejects, each under
      its key. */
  lemma {:induction false} SortedOtherUrls(links: seq<(string, Option<string>)>, isRepo: string -> bool)
    ensures forall key :: key in Sorted(links, isRepo).otherUrls ==>
              IsOtherLink(links, key, Sorted(links, isRepo).otherUrls[key], isRepo)
    ensures forall i :: 0 <= i < |links| && Truthy(links[i].1) && !IsRepoLink(links[i].1, isRepo) ==>
              links[i].0 in Sorted(links, isRepo).otherUrls
  {
    if links != [] {
      var n := |links| - 1;
      var prefix := links[..n];
      SortedOtherUrls(prefix, isRepo);
      var before, r := Sorted(prefix, isRepo), Sorted(links, isRepo);
      assert forall i :: 0 <= i < n ==> prefix[i] == links[i];
      forall key | key in r.otherUrls ensures IsOtherLink(links, key, r.otherUrls[key], isRepo) {
        if key == links[n].0 && Truthy(links[n].1) && !IsRepoLink(links[n].1, isRepo) {
          assert links[n] == (key, Some(r.otherUrls[key]));
        } else {
          assert key in before.otherUrls && r.otherUrls[key] == before.otherUrls[key];
          assert IsOtherLink(prefix, key, before.otherUrls[key], isRepo);
          var i :| 0 <= i < |prefix| && prefix[i] == (key, Some(before.otherUrls[key])) &&
            Truthy(prefix[i].1) && !IsRepoLink(prefix[i].1, isRepo);
          assert links[i] == prefix[i];
        }
      }
    }
  }

  /** `fetchRubyGemsRepoUrl(packageName)` */
  method FetchRubyGemsRepoUrl(packageName: string, fetch: string -> Response, encode: string -> string)
    returns (links: Links)
    ensures links == RubyGemsLinks(packageName, fetch, encode)
  {
    var response := fetch(ApiUrl(packageName, encode));
    if !response.Ok? {
      return Links(None, map[]);
    }
    var urlsToCheck := UrlsToCheck(response.info);
    var repoUrl: Option<string> := None;
    var otherUrls: map<string, string> := map[];
    for i := 0 to |urlsToCheck|
      invariant Links(repoUrl, otherUrls) == Sorted(urlsToCheck[..i], RepoPattern)
    {
      var (key, url) := urlsToCheck[i];
      assert urlsToCheck[..i + 1][..i] == urlsToCheck[..i];
      if Truthy(url) && RepoUrl.Matches(RepoUrl.GemSchemes, url.value) {
        repoUrl := url;
      } else if Truthy(url) {
        otherUrls := otherUrls[key := url.value];
      }
    }
    assert urlsToCheck[..|urlsToCheck|] == urlsToCheck;
    links := Links(repoUrl, otherUrls);
  }

  /** What `fetchRubyGemsRepoUrl` returns: nothing when the response is not ok. */
  function RubyGemsLinks(packageName: string, fetch: string -> Response, encode: string -> string): Links
  {
    match fetch(ApiUrl(packageName, encode))
    case NotOk => Links(None, map[])
    case Ok(info) => Sorted(UrlsToCheck(info), RepoPattern)
  }

  /** Whatever the API answers, the repository link is one the pattern accepts and
      the other links are filed under the three API key names. */
  lemma RubyGemsLinksSpec(packageName: string, fetch: string -> Response, encode: string -> string)
    ensures var links := RubyGemsLinks(packageName, fetch, encode);
            && (links.repoUrl.Some? ==> IsRepoLink(links.repoUrl, RepoPattern))
            && links.otherUrls.Keys <= {"source_code_uri", "homepage_uri", "project_uri"}
  {
    var response := fetch(ApiUrl(packageName, encode));
    if response.Ok? {
      var checked := UrlsToCheck(response.info);
      SortedRepoUrl(checked, RepoPattern);
      SortedOtherUrls(checked, RepoPattern);
      forall key | key in Sorted(checked, RepoPattern).otherUrls ensures key in {"source_code_uri", "homepage_uri", "project_uri"} {
        var i :| 0 <= i < |checked| && checked[i].0 == key;
      }
    }
  }

  /* ---------------------------------------------------------------------------
     getDependencies
     --------------------------------------------------------------------------- */

  function PackageUrl(packageName: string): string
  {
    "https://rubygems.org/gems/" + packageName
  }

  /** `{ package: packageUrl, ...otherUrls }`, then `repo` when there is a repository link. */
  function UrlsOf(packageName: string, links: Links): Urls
  {
    var urls := map["package" := Some(PackageUrl(packageName))] +
                map key | key in links.otherUrls :: Some(links.otherUrls[key]);
    if Truthy(links.repoUrl) then urls["repo" := links.repoUrl] else urls
  }

  /** The dependency one trimmed line yields, if any. */
  function LineDependency(line: string, fetch: string -> Response, encode: string -> string): Option<Dependency>
  {
    if IsContentLine(line) then
      var packageName := ExtractPackageName(line);
      if packageName != "" then
        Some(Dependency(packageName, UrlsOf(packageName, RubyGemsLinks(packageName, fetch, encode))))
      else None
    else None
  }

  function LineDependencyOf(fetch: string -> Response, encode: string -> string): string -> Option<Dependency>
  {
    (line: string) => LineDependency(line, fetch, encode)
  }

  /** The dependencies of the lines, in line order. */
  function Dependencies(lines: seq<string>, fetch: string -> Response, encode: string -> string): seq<Dependency>
  {
    FilterMap(lines, LineDependencyOf(fetch, encode))
  }

  /** `getDependencies(filePath)`, with the file's content given. */
  method GetDependencies(content: string, fetch: string -> Response, encode: string -> string)
    returns (dependencies: seq<Dependency>)
    ensures dependencies == Dependencies(TrimmedLines(content), fetch, encode)
  {
    var lines := TrimmedLines(content);
    dependencies := [];
    for i := 0 to |lines|
      invariant dependencies == FilterMap(lines[..i], LineDependencyOf(fetch, encode))
    {
      var found := VisitLine(lines[i], fetch, encode);
      if found.Some? {
        dependencies := dependencies + [found.value];
      }
      SliceSnoc(lines, i);
    }
    assert lines[..|lines|] == lines;
  }

  /** The body of the loop of `getDependencies` for one trimmed line. */
  method VisitLine(line: string, fetch: string -> Response, encode: string -> string)
    returns (found: Option<Dependency>)
    ensures found == LineDependency(line, fetch, encode)
  {
    found := None;
    if line != "" && !StartsWith(line, "#") {
      var packageName := ExtractPackageName(line);
      if packageName != "" {
        var packageUrl := PackageUrl(packageName);
        var links := FetchRubyGemsRepoUrl(packageName, fetch, encode);
        var urls := map["package" := Some(packageUrl)] +
                    map key | key in links.otherUrls :: Some(links.otherUrls[key]);
        if Truthy(links.repoUrl) {
          urls := urls["repo" := links.repoUrl];
        }
        found := Some(Dependency(packageName, urls));
      }
    }
  }

  /** The dependency the manager builds for gem `packageName`. */
  function GemDependency(packageName: string, fetch: string -> Response, encode: string -> string): Dependency
  {
    Dependency(packageName, UrlsOf(packageName, RubyGemsLinks(packageName, fetch, encode)))
  }

  /** A line gives a dependency exactly when it is non-empty, does not start with
      `#`, and the `gem` pattern matches somewhere in its trimmed text before any
      `#`. The dependency is then the one built for the name the leftmost match
      captures. */
  lemma LineDependencySpec(line: string, fetch: string -> Response, encode: string -> string)
    ensures var r := LineDependency(line, fetch, encode);
            var text := Trim(BeforeHash(line));
            && (r.Some? <==> && line != "" && !StartsWith(line, "#")
                             && exists p: nat, name :: p <= |text| && IsMatch(text, p, name))
            && (r.Some? ==>
                  && r.value == GemDependency(r.value.name, fetch, encode)
                  && exists p: nat :: && p <= |text| && IsMatch(text, p, r.value.name)
                                      && forall q: nat, other :: q < p ==> !IsMatch(text, q, other))
  {
    var text, name := Trim(BeforeHash(line)), ExtractPackageName(line);
    assert LineDependency(line, fetch, encode) ==
           if IsContentLine(line) && name != "" then Some(GemDependency(name, fetch, encode)) else None;
    ExtractPackageNameSpec(line);
    if name != "" {
      var p: nat :| p <= |text| && IsMatch(text, p, name) && forall q: nat, other :: q < p ==> !IsMatch(text, q, other);
    }
  }

  /** Every dependency is the one a line of the file gives, and every line that
      gives one has it among the dependencies: the dependencies are the gems of
      the file and nothing else. */
  lemma DependenciesSpec(lines: seq<string>, fetch: string -> Response, encode: string -> string)
    ensures forall d :: d in Dependencies(lines, fetch, encode) ==>
              exists line :: line in lines && LineDependency(line, fetch, encode) == Some(d)
    ensures forall line :: line in lines && LineDependency(line, fetch, encode).Some? ==>
              LineDependency(line, fetch, encode).value in Dependencies(lines, fetch, encode)
  {
    var f := LineDependencyOf(fetch, encode);
    FilterMapSound(lines, f);
    FilterMapComplete(lines, f);
  }

  /** Lines that give dependencies give one each, in line order: a package
      listed on two lines is listed twice. */
  lemma DependenciesInLineOrder(lines: seq<string>, fetch: string -> Response, encode: string -> string, i: nat, j: nat)
    requires i < j < |lines|
    requires LineDependency(lines[i], fetch, encode).Some? && LineDependency(lines[j], fetch, encode).Some?
    ensures var deps := Dependencies(lines, fetch, encode);
            exists a, b :: && 0 <= a < b < |deps|
                           && deps[a] == LineDependency(lines[i], fetch, encode).value
                           && deps[b] == LineDependency(lines[j], fetch, encode).value
  {
    var f := LineDependencyOf(fetch, encode);
    FilterMapAt(lines, i, f);
    FilterMapAt(lines, j, f);
    FilterMapOrder(lines, i, j, f);
    var a, b := |FilterMap(lines[..i], f)|, |FilterMap(lines[..j], f)|;
    assert Dependencies(lines, fetch, encode)[a] == LineDependency(lines[i], fetch, encode).value;
  }

  /** The links of a gem's dependency: the RubyGems page, the links of the API under
      their own keys and, when the API gave one, the repository link. */
  lemma GemDependencySpec(packageName: string, fetch: string -> Response, encode: string -> string)
    ensures var d := GemDependency(packageName, fetch, encode);
            var links := RubyGemsLinks(packageName, fetch, encode);
            && d.urls["package"] == Some(PackageUrl(packageName))
            && ("repo" in d.urls ==> IsRepoLink(d.urls["repo"], RepoPattern))
            && ("repo" in d.urls <==> links.repoUrl.Some?)
            && (forall key :: key in d.urls && key != "package" && key != "repo" ==>
                  key in links.otherUrls && d.urls[key] == Some(links.otherUrls[key]))
  {
    var links := RubyGemsLinks(packageName, fetch, encode);
    RubyGemsLinksSpec(packageName, fetch, encode);
    UrlsOfSpec(packageName, links);
  }

  /** The links of one dependency: `package` is never overwritten, since the other
      links use the API's key names. */
  lemma UrlsOfSpec(packageName: string, links: Links)
    requires links.otherUrls.Keys <= {"source_code_uri", "homepage_uri", "project_uri"}
    ensures var urls := UrlsOf(packageName, links);
            && urls["package"] == Some(PackageUrl(packageName))
            && ("repo" in urls <==> Truthy(links.repoUrl))
            && ("repo" in urls ==> urls["repo"] == links.repoUrl)
            && (forall key :: key in links.otherUrls ==> key in urls && urls[key] == Some(links.otherUrls[key]))
            && (forall key :: key in urls && key != "package" && key != "repo" ==>
                  key in links.otherUrls && urls[key] == Some(links.otherUrls[key]))
  {
  }
}
