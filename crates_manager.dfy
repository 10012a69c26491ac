/** The Cargo manager (`src/CratesManager.ts`): walks the `dependencies`,
    `dev-dependencies` and `build-dependencies` tables of `Cargo.toml` and, for
    every entry, checks that the crate exists on crates.io and finds its
    repository link: the entry's `git` value, else the `origin` remote of the
    repository holding the entry's `path`, else the link crates.io gives.

    The parsed manifest is given as datatypes; crates.io, the git repository
    lookups, `new URL(...).toString()` and the path arithmetic are function
    parameters. */
module CratesManager {
  import opened Wrappers
  import opened Types

  const Name := "crates"
  const FilePattern := "Cargo.toml"
  const GlobPattern := "**/Cargo.toml"

  /** An entry's configuration: a bare version string, or a table whose `git` and
      `path` fields are read. */
  datatype DepConfig = Version(version: string) | Table(git: Option<string>, path: Option<string>)

  type Entry = (string, DepConfig)

  /** The three tables that are read, as their entries in key order; `None` when a
      table is missing. */
  datatype Manifest = Manifest(dependencies: Option<seq<Entry>>, devDependencies: Option<seq<Entry>>,
                               buildDependencies: Option<seq<Entry>>)

  /** `packageInfo.crate.repository`: `crate` may be missing from the answer. */
  datatype Crate = Crate(repository: Option<string>)

  datatype CratesResponse = CratesResponse(status: int, crate: Option<Crate>)

  /** `response.ok` */
  predicate IsOk(response: CratesResponse)
  {
    200 <= response.status <= 299
  }

  datatype Remote = Remote(remote: string, url: string)

  /** The lookups `getDependencies` depends on, for one manifest file:
      - `fetch`: crates.io, from the request URL to the answer;
      - `locate`: `path.join(path.dirname(filePath), p)` for the manifest's path;
      - `findRoot`: `git.findRoot`, `None` where it throws;
      - `listRemotes`: `git.listRemotes` of a repository root;
      - `parseUrl`: `new URL(u).toString()`, `None` where the constructor throws. */
  datatype Env = Env(fetch: string -> CratesResponse, locate: string -> string, findRoot: string -> Option<string>,
                     listRemotes: string -> seq<Remote>, parseUrl: string -> Option<string>)

  /** `https://crates.io/api/v1/crates/${packageName}`: the name is not encoded. */
  function ApiUrl(packageName: string): string
  {
    "https://crates.io/api/v1/crates/" + packageName
  }

  /* ---------------------------------------------------------------------------
     packageExistsOnCrates
     --------------------------------------------------------------------------- */

  /** `packageExistsOnCrates`: `false` on 404 and on any answer that is not ok. */
  function PackageExists(response: CratesResponse): (exists_: bool)
    ensures exists_ <==> 200 <= response.status <= 299
    ensures response.status == 404 ==> !exists_
  {
    if response.status == 404 then false
    else if !IsOk(response) then false
    else true
  }

  /** The package link: the crate's page when it exists, `''` otherwise. */
  function PackageUrl(packageName: string, env: Env): (url: string)
    ensures url != "" <==> IsOk(env.fetch(ApiUrl(packageName)))
    ensures url != "" ==> url == "https://crates.io/crates/" + packageName
  {
    if PackageExists(env.fetch(ApiUrl(packageName))) then "https://crates.io/crates/" + packageName else ""
  }

  /* ---------------------------------------------------------------------------
     getGitRepoUrlFromPath
     --------------------------------------------------------------------------- */

  /** `remotes.find((remote) => remote.remote === 'origin')` */
  function FindOrigin(remotes: seq<Remote>): Option<Remote>
  {
    if remotes == [] then None
    else if remotes[0].remote == "origin" then Some(remotes[0])
    else FindOrigin(remotes[1..])
  }

  /** The remote found is the first one named `origin`, and there is none exactly
      when no remote has that name. */
  lemma {:induction false} FindOriginSpec(remotes: seq<Remote>)
    ensures FindOrigin(remotes).Some? ==>
              exists i :: 0 <= i < |remotes| && remotes[i] == FindOrigin(remotes).value && remotes[i].remote == "origin"
                && forall j :: 0 <= j < i ==> remotes[j].remote != "origin"
    ensures FindOrigin(remotes).None? <==> forall i :: 0 <= i < |remotes| ==> remotes[i].remote != "origin"
  {
    if remotes != [] && remotes[0].remote != "origin" {
      var rest := remotes[1..];
      FindOriginSpec(rest);
      assert forall i :: 0 <= i < |rest| ==> rest[i] == remotes[i + 1];
      if FindOrigin(rest).Some? {
        var i :| 0 <= i < |rest| && rest[i] == FindOrigin(rest).value && rest[i].remote == "origin"
                 && forall j :: 0 <= j < i ==> rest[j].remote != "origin";
        assert remotes[i + 1] == FindOrigin(remotes).value;
      }
      if FindOrigin(remotes).None? {
        forall i | 0 <= i < |remotes| ensures remotes[i].remote != "origin" {
          if i > 0 { assert remotes[i] == rest[i - 1]; }
        }
      }
    }
  }

  /** `getGitRepoUrlFromPath(repoPath)`: the normalised URL of the `origin` remote
      of the repository holding `repoPath`; it throws when there is no such
      repository or the remote's URL is not a valid URL. */
  function GitRepoUrlFromPath(repoPath: string, env: Env): Result<Option<string>, Error>
  {
    match env.findRoot(repoPath)
    case None => Failure(GitRootNotFound(repoPath))
    case Some(rootDir) =>
      match FindOrigin(env.listRemotes(rootDir))
      case None => Success(None)
      case Some(origin) =>
        match env.parseUrl(origin.url)
        case None => Failure(InvalidUrl(origin.url))
        case Some(href) => Success(Some(href))
  }

  /* ---------------------------------------------------------------------------
     getRepoUrl
     --------------------------------------------------------------------------- */

  /** The crates.io answer's repository link: nothing when the answer is not ok,
      and a `TypeError` when an ok answer has no `crate`. */
  function RegistryRepoUrl(packageName: string, env: Env): Result<Option<string>, Error>
  {
    var response := env.fetch(ApiUrl(packageName));
    if IsOk(response) then
      if response.crate.Some? then Success(response.crate.value.repository)
      else Failure(TypeError("crate"))
    else Success(None)
  }

  /** `dependencyConfig.git`, `undefined` for a bare version string. */
  function GitOf(config: DepConfig): Option<string>
  {
    if config.Table? then config.git else None
  }

  /** `dependencyConfig.path`, `undefined` for a bare version string. */
  function PathOf(config: DepConfig): Option<string>
  {
    if config.Table? then config.path else None
  }

  /** `getRepoUrl(packageName, dependencyConfig, filePath)` */
  function RepoUrlFor(packageName: string, config: DepConfig, env: Env): Result<Option<string>, Error>
  {
    if Truthy(GitOf(config)) then Success(GitOf(config))
    else if Truthy(PathOf(config)) then
      match GitRepoUrlFromPath(env.locate(PathOf(config).value), env)
      case Failure(e) => Failure(e)
      case Success(repoUrl) => if Truthy(repoUrl) then Success(repoUrl) else RegistryRepoUrl(packageName, env)
    else RegistryRepoUrl(packageName, env)
  }

  /** The link comes from the first source that has one. A truthy `git` is the
      link whatever the file system and crates.io hold. A `path` whose `origin`
      remote gives a link makes crates.io irrelevant. An entry with neither `git`
      nor `path` never looks at the file system. So crates.io can change the
      outcome only when `git` is falsy and the path, if any, gives no link. */
  lemma RepoUrlPrecedence(packageName: string, config: DepConfig, env: Env, other: Env)
    ensures Truthy(GitOf(config)) ==>
              && RepoUrlFor(packageName, config, env) == Success(GitOf(config))
              && RepoUrlFor(packageName, config, other) == RepoUrlFor(packageName, config, env)
    ensures !Truthy(GitOf(config)) && Truthy(PathOf(config)) ==>
              var local := GitRepoUrlFromPath(env.locate(PathOf(config).value), env);
              local.Success? && Truthy(local.value) ==>
                && RepoUrlFor(packageName, config, env) == local
                && RepoUrlFor(packageName, config, env.(fetch := other.fetch)) == RepoUrlFor(packageName, config, env)
    ensures !Truthy(GitOf(config)) && !Truthy(PathOf(config)) ==>
              RepoUrlFor(packageName, config, other.(fetch := env.fetch)) == RepoUrlFor(packageName, config, env)
    ensures RepoUrlFor(packageName, config, env.(fetch := other.fetch)) != RepoUrlFor(packageName, config, env) ==>
              && !Truthy(GitOf(config))
              && (Truthy(PathOf(config)) ==>
                    var local := GitRepoUrlFromPath(env.locate(PathOf(config).value), env);
                    local.Success? && !Truthy(local.value))
  {
    var moved := env.(fetch := other.fetch);
    if Truthy(PathOf(config)) {
      var repoPath := env.locate(PathOf(config).value);
      assert GitRepoUrlFromPath(repoPath, moved) == GitRepoUrlFromPath(repoPath, env);
    }
  }

  /** Where a link can come from: the `git` value, the normalised URL of an
      `origin` remote, or crates.io's `repository` of an ok answer. */
  lemma RepoUrlSources(packageName: string, config: DepConfig, env: Env)
    ensures var r := RepoUrlFor(packageName, config, env);
            r.Success? && r.value.Some? ==>
              || r.value == GitOf(config)
              || (Truthy(PathOf(config)) &&
                  exists root, remote ::
                    && env.findRoot(env.locate(PathOf(config).value)) == Some(root)
                    && FindOrigin(env.listRemotes(root)) == Some(remote)
                    && r.value == env.parseUrl(remote.url))
              || (IsOk(env.fetch(ApiUrl(packageName))) && env.fetch(ApiUrl(packageName)).crate.Some? &&
                  r.value == env.fetch(ApiUrl(packageName)).crate.value.repository)
  {
    var r := RepoUrlFor(packageName, config, env);
    if r.Success? && r.value.Some? && r.value != GitOf(config) && Truthy(PathOf(config)) {
      var repoPath := env.locate(PathOf(config).value);
      var local := GitRepoUrlFromPath(repoPath, env);
      if local.Success? && Truthy(local.value) {
        var root := env.findRoot(repoPath).value;
        var remote := FindOrigin(env.listRemotes(root)).value;
        assert r.value == env.parseUrl(remote.url);
      }
    }
  }

  /** An entry makes the manifest fail only through the path lookup or through an
      ok crates.io answer without `crate`. */
  lemma RepoUrlFailures(packageName: string, config: DepConfig, env: Env)
    ensures RepoUrlFor(packageName, config, env).Failure? ==>
              || (Truthy(PathOf(config)) && GitRepoUrlFromPath(env.locate(PathOf(config).value), env).Failure?)
              || (IsOk(env.fetch(ApiUrl(packageName))) && env.fetch(ApiUrl(packageName)).crate.None?)
  {
  }

  /* ---------------------------------------------------------------------------
     getDependencies
     --------------------------------------------------------------------------- */

  /** `{ package: packageUrl }`, then `repo` when the link is truthy. */
  function UrlsOf(packageUrl: string, repoUrl: Option<string>): (urls: Urls)
    ensures urls.Keys == {"package"} + (if Truthy(repoUrl) then {"repo"} else {})
    ensures urls["package"] == Some(packageUrl)
    ensures "repo" in urls ==> urls["repo"] == repoUrl
  {
    var urls := map["package" := Some(packageUrl)];
    if Truthy(repoUrl) then urls["repo" := repoUrl] else urls
  }

  /** The dependency one entry gives, or the error its lookups throw. */
  function EntryDependency(entry: Entry, env: Env): Result<Dependency, Error>
  {
    var (packageName, config) := entry;
    match RepoUrlFor(packageName, config, env)
    case Failure(e) => Failure(e)
    case Success(repoUrl) => Success(Dependency(packageName, UrlsOf(PackageUrl(packageName, env), repoUrl)))
  }

  function EntryDependencyOf(env: Env): Entry -> Result<Dependency, Error>
  {
    (entry: Entry) => EntryDependency(entry, env)
  }

  /** The tables in the order `dependencyTypes` lists them. */
  function Sections(manifest: Manifest): seq<Option<seq<Entry>>>
  {
    [manifest.dependencies, manifest.devDependencies, manifest.buildDependencies]
  }

  /** The entries of a manifest, in visiting order. */
  function AllEntries(manifest: Manifest): seq<Entry>
  {
    Flatten(Sections(manifest))
  }

  /** The entries are those of `dependencies`, then `dev-dependencies`, then
      `build-dependencies`, a missing table giving none. */
  lemma AllEntriesSpec(manifest: Manifest)
    ensures AllEntries(manifest) == Present(manifest.dependencies) + Present(manifest.devDependencies) +
                                    Present(manifest.buildDependencies)
  {
    var s := Sections(manifest);
    assert s[..2] == [s[0], s[1]] && s[..2][..1] == [s[0]] && [s[0]][..0] == [];
    assert Flatten([s[0]]) == Present(s[0]);
    assert Flatten(s[..2]) == Present(s[0]) + Present(s[1]);
  }

  /** What `getDependencies` returns or throws. */
  function Dependencies(manifest: Manifest, env: Env): Result<seq<Dependency>, Error>
  {
    CollectAll(AllEntries(manifest), EntryDependencyOf(env))
  }

  /** `getDependencies(filePath)`, with the parsed manifest given. */
  method GetDependencies(manifest: Manifest, env: Env) returns (result: Result<seq<Dependency>, Error>)
    ensures result == Dependencies(manifest, env)
  {
    var f := EntryDependencyOf(env);
    var sections := Sections(manifest);
    var dependencies: seq<Dependency> := [];
    for j := 0 to |sections|
      invariant CollectAll(Flatten(sections[..j]), f) == Success(dependencies)
    {
      var entries := Present(sections[j]);
      ghost var before := Flatten(sections[..j]);
      if sections[j].Some? {
        assert before + entries[..0] == before;
        for i := 0 to |entries|
          invariant CollectAll(before + entries[..i], f) == Success(dependencies)
        {
          var found := VisitEntry(entries[i], env);
          if found.Failure? {
            ThrowInside(sections, j, i, f);
            return Failure(found.error);
          }
          dependencies := dependencies + [found.value];
          CollectAllStep(before + entries[..i], entries[i], f);
          SnocJoin(before, entries, i);
        }
        assert entries[..|entries|] == entries;
      } else {
        assert before + entries == before;
      }
      FlattenNext(sections, j);
    }
    assert sections[..|sections|] == sections;
    result := Success(dependencies);
  }

  /** The body of the inner loop of `getDependencies` for one entry. */
  method VisitEntry(entry: Entry, env: Env) returns (found: Result<Dependency, Error>)
    ensures found == EntryDependency(entry, env)
  {
    var (packageName, config) := entry;
    var packageExists := PackageExists(env.fetch(ApiUrl(packageName)));
    var packageUrl := if packageExists then "https://crates.io/crates/" + packageName else "";
    var repoUrl := RepoUrlFor(packageName, config, env);
    if repoUrl.Failure? {
      return Failure(repoUrl.error);
    }
    var urls := map["package" := Some(packageUrl)];
    if Truthy(repoUrl.value) {
      urls := urls["repo" := repoUrl.value];
    }
    found := Success(Dependency(packageName, urls));
  }

  /** Nothing thrown: one dependency per entry of the three tables, in visiting
      order, named by the entry's key and linking the crate page and the link
      `getRepoUrl` found. */
  lemma DependenciesSpec(manifest: Manifest, env: Env)
    ensures var r := Dependencies(manifest, env);
            var entries := AllEntries(manifest);
            && (r.Success? <==> forall i :: 0 <= i < |entries| ==> RepoUrlFor(entries[i].0, entries[i].1, env).Success?)
            && (r.Success? ==> |r.value| == |entries|)
            && (r.Success? ==>
                  forall i :: 0 <= i < |entries| ==>
                    && r.value[i].name == entries[i].0
                    && r.value[i].urls == UrlsOf(PackageUrl(entries[i].0, env), RepoUrlFor(entries[i].0, entries[i].1, env).value))
            && (r.Failure? ==>
                  exists i :: && 0 <= i < |entries| && RepoUrlFor(entries[i].0, entries[i].1, env) == Failure(r.error)
                              && forall j :: 0 <= j < i ==> RepoUrlFor(entries[j].0, entries[j].1, env).Success?)
  {
    var entries := AllEntries(manifest);
    var f := EntryDependencyOf(env);
    assert forall i :: 0 <= i < |entries| ==> (f(entries[i]).Success? <==> RepoUrlFor(entries[i].0, entries[i].1, env).Success?);
  }
}
