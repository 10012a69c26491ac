/** The npm manager (`src/NpmManager.ts`): reads `package.json`, and for every
    entry of `dependencies` and then of `devDependencies` asks the npm registry for
    the package's repository link.

    The parsed manifest is given as the entry names of its two sections; the
    registry is a function from the request URL to the response. */
module NpmManager {
  import opened Wrappers
  import opened Types

  const Name := "npm"
  const FilePattern := "package.json"
  const GlobPattern := "**/package.json"

  /** The two sections of `package.json` that are read, as their entry names in the
      order `Object.entries` lists them; `None` when a section is missing. */
  datatype Manifest = Manifest(dependencies: Option<seq<string>>, devDependencies: Option<seq<string>>)

  /** The registry answer: `packageData.repository?.url`, `None` when the
      repository is missing or has no `url`. */
  datatype Response = NotOk | Ok(repositoryUrl: Option<string>)

  /** `https://registry.npmjs.org/${packageName}`: the name is not encoded. */
  function RegistryUrl(packageName: string): string
  {
    "https://registry.npmjs.org/" + packageName
  }

  function PackageUrl(packageName: string): string
  {
    "https://www.npmjs.com/package/" + packageName
  }

  /** `fetchNpmRepoUrl(packageName)`: the repository link of the registry answer,
      nothing when the answer is not ok. */
  method FetchNpmRepoUrl(packageName: string, fetch: string -> Response) returns (repoUrl: Option<string>)
    ensures repoUrl.Some? <==> fetch(RegistryUrl(packageName)).Ok? && fetch(RegistryUrl(packageName)).repositoryUrl.Some?
    ensures repoUrl.Some? ==> repoUrl == fetch(RegistryUrl(packageName)).repositoryUrl
    ensures repoUrl == RegistryRepoUrl(packageName, fetch)
  {
    var response := fetch(RegistryUrl(packageName));
    if !response.Ok? {
      return None;
    }
    repoUrl := response.repositoryUrl;
  }

  /** What `fetchNpmRepoUrl` returns. */
  function RegistryRepoUrl(packageName: string, fetch: string -> Response): Option<string>
  {
    match fetch(RegistryUrl(packageName))
    case NotOk => None
    case Ok(repositoryUrl) => repositoryUrl
  }

  /** `{ name, urls: { package: packageUrl, repo: repoUrl } }`: `repo` is always
      present, holding `undefined` when the registry gave no link. */
  function NpmDependency(packageName: string, fetch: string -> Response): Dependency
  {
    Dependency(packageName, map["package" := Some(PackageUrl(packageName)), "repo" := RegistryRepoUrl(packageName, fetch)])
  }

  /** The links of a dependency are the package page and the registry's link. */
  lemma NpmDependencySpec(packageName: string, fetch: string -> Response)
    ensures var d := NpmDependency(packageName, fetch);
            && d.name == packageName
            && d.urls.Keys == {"package", "repo"}
            && d.urls["package"] == Some(PackageUrl(packageName))
            && (d.urls["repo"].Some? <==> fetch(RegistryUrl(packageName)).Ok? && fetch(RegistryUrl(packageName)).repositoryUrl.Some?)
  {
  }

  /** One loop over the entries of a section, over the entries visited so far. */
  function Visit(names: seq<string>, fetch: string -> Response): seq<Dependency>
  {
    if names == [] then []
    else Visit(names[..|names| - 1], fetch) + [NpmDependency(names[|names| - 1], fetch)]
  }

  /** A loop gives one dependency per entry, in entry order. */
  lemma {:induction false} VisitSpec(names: seq<string>, fetch: string -> Response)
    ensures |Visit(names, fetch)| == |names|
    ensures forall i :: 0 <= i < |names| ==> Visit(names, fetch)[i] == NpmDependency(names[i], fetch)
  {
    if names != [] {
      var n := |names| - 1;
      VisitSpec(names[..n], fetch);
      forall i | 0 <= i < |names| ensures Visit(names, fetch)[i] == NpmDependency(names[i], fetch) {
        if i < n {
          assert names[..n][i] == names[i];
        }
      }
    }
  }

  /** The entry names of a section, none when it is missing. */
  function Entries(section: Option<seq<string>>): seq<string>
  {
    if section.Some? then section.value else []
  }

  /** The dependencies of a manifest: those of `dependencies`, then those of
      `devDependencies`. */
  function Dependencies(manifest: Manifest, fetch: string -> Response): seq<Dependency>
  {
    Visit(Entries(manifest.dependencies), fetch) + Visit(Entries(manifest.devDependencies), fetch)
  }

  /** `getDependencies(filePath)`, with the parsed manifest given. */
  method GetDependencies(manifest: Manifest, fetch: string -> Response) returns (dependencies: seq<Dependency>)
    ensures dependencies == Dependencies(manifest, fetch)
  {
    dependencies := [];
    if manifest.dependencies.Some? {
      var names := manifest.dependencies.value;
      for i := 0 to |names|
        invariant dependencies == Visit(names[..i], fetch)
      {
        var name := names[i];
        var packageUrl := PackageUrl(name);
        var repoUrl := FetchNpmRepoUrl(name, fetch);
        dependencies := dependencies + [Dependency(name, map["package" := Some(packageUrl), "repo" := repoUrl])];
        SliceSnoc(names, i);
      }
      assert names[..|names|] == names;
    }
    var first := dependencies;
    if manifest.devDependencies.Some? {
      var names := manifest.devDependencies.value;
      for i := 0 to |names|
        invariant dependencies == first + Visit(names[..i], fetch)
      {
        var name := names[i];
        var packageUrl := PackageUrl(name);
        var repoUrl := FetchNpmRepoUrl(name, fetch);
        dependencies := dependencies + [Dependency(name, map["package" := Some(packageUrl), "repo" := repoUrl])];
        SliceSnoc(names, i);
      }
      assert names[..|names|] == names;
    } else {
      assert dependencies == first + [];
    }
  }

  /** Every entry of `dependencies` and then every entry of `devDependencies` gives
      one dependency, in order, even when a package is listed in both sections. */
  lemma DependenciesSpec(manifest: Manifest, fetch: string -> Response)
    ensures var deps := Dependencies(manifest, fetch);
            var main, dev := Entries(manifest.dependencies), Entries(manifest.devDependencies);
            && |deps| == |main| + |dev|
            && (forall i :: 0 <= i < |main| ==> deps[i] == NpmDependency(main[i], fetch))
            && (forall i :: 0 <= i < |dev| ==> deps[|main| + i] == NpmDependency(dev[i], fetch))
  {
    VisitSpec(Entries(manifest.dependencies), fetch);
    VisitSpec(Entries(manifest.devDependencies), fetch);
  }

  /** A package listed in both sections appears twice. */
  lemma ListedTwice(manifest: Manifest, fetch: string -> Response, packageName: string)
    requires packageName in Entries(manifest.dependencies) && packageName in Entries(manifest.devDependencies)
    ensures exists i, j :: 0 <= i < j < |Dependencies(manifest, fetch)| &&
              Dependencies(manifest, fetch)[i].name == packageName && Dependencies(manifest, fetch)[j].name == packageName
  {
    var main, dev := Entries(manifest.dependencies), Entries(manifest.devDependencies);
    DependenciesSpec(manifest, fetch);
    var i :| 0 <= i < |main| && main[i] == packageName;
    var j :| 0 <= j < |dev| && dev[j] == packageName;
    assert Dependencies(manifest, fetch)[i] == NpmDependency(main[i], fetch);
    assert Dependencies(manifest, fetch)[|main| + j] == NpmDependency(dev[j], fetch);
  }
}
