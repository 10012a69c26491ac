/** The NuGet manager (`src/NugetManager.ts`): walks the `PackageReference`
    elements of every `ItemGroup` of a `.csproj` project and, for each, reads the
    repository link from the package's `.nuspec` file on the NuGet API.

    The parsed project and the parsed `.nuspec` answers are given as datatypes;
    the API is a function from the request URL to the answer, and
    `encodeURIComponent` and `toLowerCase` are function parameters. */
module NugetManager {
  import opened Wrappers
  import opened Types

  const Name := "nuget"
  const FilePattern := ".csproj"
  const GlobPattern := "**/*.csproj"

  /** The attributes of a `PackageReference` that are read: `Include` and `Version`. */
  datatype Attributes = Attributes(packageId: Option<string>, version: Option<string>)

  /** A `PackageReference` element; `attributes` is `None` when it has none, so
      that the parser gives it no `$`. */
  datatype PackageReference = PackageReference(attributes: Option<Attributes>)

  /** An `ItemGroup`, as its `PackageReference` elements; `None` when it has none. */
  type ItemGroup = Option<seq<PackageReference>>

  /** The parsed project: `None` when there is no `Project`, and `itemGroups` is
      `None` when the project has no `ItemGroup`. */
  datatype Project = Project(itemGroups: Option<seq<ItemGroup>>)

  /** The `$` of a `<repository>` element of the metadata. */
  datatype Repository = Repository(url: Option<string>)

  /** The parsed `.nuspec`: `metadata` stands for `package.metadata[0]` and is
      `None` when any step of that path is missing; `repository` lists the
      `<repository>` elements. */
  datatype Metadata = Metadata(repository: seq<Repository>)

  datatype NuspecResponse = NotOk | Ok(metadata: Option<Metadata>)

  /** The functions the walk depends on: the NuGet API, `encodeURIComponent` and
      `String.prototype.toLowerCase`. */
  datatype Env = Env(fetch: string -> NuspecResponse, encode: string -> string, lower: string -> string)

  /* ---------------------------------------------------------------------------
     fetchNuGetNuspec and fetchNuGetRepoUrl
     --------------------------------------------------------------------------- */

  /** The `.nuspec` address: the lower-cased id, the version and the lower-cased id
      again, each encoded. A missing version is rendered `undefined`. */
  function NuspecUrl(packageName: string, packageVersion: Option<string>, env: Env): string
  {
    var id := env.encode(env.lower(packageName));
    "https://api.nuget.org/v3-flatcontainer/" + id + "/" + env.encode(Render(packageVersion)) + "/" + id + ".nuspec"
  }

  /** The `.nuspec` address keeps its fixed parts whatever the package: the
      flat-container prefix, then the encoded lower-cased id, and the suffix
      `.nuspec`. */
  lemma NuspecUrlSpec(packageName: string, packageVersion: Option<string>, env: Env)
    ensures var url := NuspecUrl(packageName, packageVersion, env);
            var id := env.encode(env.lower(packageName));
            var prefix := "https://api.nuget.org/v3-flatcontainer/";
            && |prefix| + |id| <= |url| && url[..|prefix|] == prefix && url[|prefix|..|prefix| + |id|] == id
            && url[|url| - 7..] == ".nuspec"
            && url[|prefix| + |id|] == '/'
  {
    var id := env.encode(env.lower(packageName));
    var prefix := "https://api.nuget.org/v3-flatcontainer/";
    var rest := "/" + env.encode(Render(packageVersion)) + "/" + id + ".nuspec";
    var url := NuspecUrl(packageName, packageVersion, env);
    assert url == prefix + id + rest;
    assert url[..|prefix|] == prefix;
    assert url[|prefix|..|prefix| + |id|] == id;
    assert url[|prefix| + |id|] == rest[0];
  }

  /** `metadata.repository && metadata.repository[0] && metadata.repository[0].$.url`:
      the first repository element's `url`, nothing when there is none. */
  function RepositoryUrl(metadata: Option<Metadata>): (url: Option<string>)
    ensures url.Some? ==> metadata.Some? && |metadata.value.repository| > 0 && url == metadata.value.repository[0].url
    ensures metadata.Some? && |metadata.value.repository| > 0 ==> url == metadata.value.repository[0].url
  {
    if metadata.None? then None
    else if |metadata.value.repository| == 0 then None
    else metadata.value.repository[0].url
  }

  /** `fetchNuGetRepoUrl(packageName, packageVersion)`: a `.nuspec` answer that is
      not ok throws. */
  function NuGetRepoUrl(packageName: string, packageVersion: Option<string>, env: Env): Result<Option<string>, Error>
  {
    var url := NuspecUrl(packageName, packageVersion, env);
    match env.fetch(url)
    case NotOk => Failure(HttpNotOk(url))
    case Ok(metadata) => Success(RepositoryUrl(metadata))
  }

  /* ---------------------------------------------------------------------------
     getDependencies
     --------------------------------------------------------------------------- */

  function PackageUrl(packageName: string): string
  {
    "https://www.nuget.org/packages/" + packageName
  }

  /** The dependency one `PackageReference` gives, or the error it throws: reading
      `$.Include` with no `$`, lower-casing a missing `Include`, or a `.nuspec`
      answer that is not ok. */
  function ReferenceDependency(reference: PackageReference, env: Env): Result<Dependency, Error>
  {
    match reference.attributes
    case None => Failure(TypeError("$"))
    case Some(Attributes(packageId, version)) =>
      match packageId
      case None => Failure(TypeError("toLowerCase"))
      case Some(packageName) =>
        match NuGetRepoUrl(packageName, version, env)
        case Failure(e) => Failure(e)
        case Success(repoUrl) =>
          Success(Dependency(packageName, map["package" := Some(PackageUrl(packageName)), "repo" := repoUrl]))
  }

  /** The reference has its attributes and an `Include`, and its `.nuspec`
      answer is ok. */
  predicate Resolves(reference: PackageReference, env: Env)
  {
    && reference.attributes.Some? && reference.attributes.value.packageId.Some?
    && env.fetch(NuspecUrl(reference.attributes.value.packageId.value, reference.attributes.value.version, env)).Ok?
  }

  /** A reference gives a dependency exactly when it resolves. */
  lemma ReferenceSucceeds(reference: PackageReference, env: Env)
    ensures ReferenceDependency(reference, env).Success? <==> Resolves(reference, env)
  {
  }

  function ReferenceDependencyOf(env: Env): PackageReference -> Result<Dependency, Error>
  {
    (reference: PackageReference) => ReferenceDependency(reference, env)
  }

  /** The item groups to walk: none without a project or without item groups. */
  function ItemGroups(project: Option<Project>): seq<ItemGroup>
  {
    if project.Some? && project.value.itemGroups.Some? then project.value.itemGroups.value else []
  }

  /** What `getDependencies` returns or throws. */
  function Dependencies(project: Option<Project>, env: Env): Result<seq<Dependency>, Error>
  {
    CollectAll(Flatten(ItemGroups(project)), ReferenceDependencyOf(env))
  }

  /** `getDependencies(filePath)`, with the parsed project given. */
  method GetDependencies(project: Option<Project>, env: Env) returns (result: Result<seq<Dependency>, Error>)
    ensures result == Dependencies(project, env)
  {
    if project.None? || project.value.itemGroups.None? {
      return Success([]);
    }
    var f := ReferenceDependencyOf(env);
    var itemGroups := project.value.itemGroups.value;
    var dependencies: seq<Dependency> := [];
    for j := 0 to |itemGroups|
      invariant CollectAll(Flatten(itemGroups[..j]), f) == Success(dependencies)
    {
      var references := Present(itemGroups[j]);
      ghost var before := Flatten(itemGroups[..j]);
      if itemGroups[j].Some? {
        assert before + references[..0] == before;
        for i := 0 to |references|
          invariant CollectAll(before + references[..i], f) == Success(dependencies)
        {
          var found := VisitReference(references[i], env);
          if found.Failure? {
            ThrowInside(itemGroups, j, i, f);
            return Failure(found.error);
          }
          dependencies := dependencies + [found.value];
          CollectAllStep(before + references[..i], references[i], f);
          SnocJoin(before, references, i);
        }
        assert references[..|references|] == references;
      } else {
        assert before + references == before;
      }
      FlattenNext(itemGroups, j);
    }
    assert itemGroups[..|itemGroups|] == itemGroups;
    result := Success(dependencies);
  }

  /** The body of the inner loop of `getDependencies` for one `PackageReference`. */
  method VisitReference(reference: PackageReference, env: Env) returns (found: Result<Dependency, Error>)
    ensures found == ReferenceDependency(reference, env)
  {
    if reference.attributes.None? {
      return Failure(TypeError("$"));
    }
    var packageName := reference.attributes.value.packageId;
    var packageVersion := reference.attributes.value.version;
    if packageName.None? {
      return Failure(TypeError("toLowerCase"));
    }
    var packageUrl := PackageUrl(packageName.value);
    var repoUrl := NuGetRepoUrl(packageName.value, packageVersion, env);
    if repoUrl.Failure? {
      return Failure(repoUrl.error);
    }
    found := Success(Dependency(packageName.value, map["package" := Some(packageUrl), "repo" := repoUrl.value]));
  }

  /** A project with no `Project` or no `ItemGroup` has no dependencies. */
  lemma NoItemGroups(project: Option<Project>, env: Env)
    requires project.None? || project.value.itemGroups.None?
    ensures Dependencies(project, env) == Success([])
  {
  }

  /** The walk succeeds exactly when every `PackageReference` has its attributes
      and an `Include`, and its `.nuspec` answer is ok. Nothing thrown: one
      dependency per `PackageReference`, in document order,
      named by its `Include`, linking its NuGet page (with the name's case kept)
      and the `.nuspec` repository link; a `.nuspec` answer that is not ok fails
      the whole project. */
  lemma DependenciesSpec(project: Option<Project>, env: Env)
    ensures var r := Dependencies(project, env);
            var references := Flatten(ItemGroups(project));
            && (r.Success? <==> forall i :: 0 <= i < |references| ==> Resolves(references[i], env))
            && (r.Success? ==> |r.value| == |references|)
            && (r.Success? ==>
                  forall i :: 0 <= i < |references| ==>
                    && references[i].attributes.Some? && references[i].attributes.value.packageId.Some?
                    && var packageName := references[i].attributes.value.packageId.value;
                       && r.value[i].name == packageName
                       && r.value[i].urls.Keys == {"package", "repo"}
                       && r.value[i].urls["package"] == Some(PackageUrl(packageName))
                       && r.value[i].urls["repo"] == NuGetRepoUrl(packageName, references[i].attributes.value.version, env).value)
            && (forall i ::
                  (&& 0 <= i < |references| && references[i].attributes.Some?
                   && references[i].attributes.value.packageId.Some?
                   && env.fetch(NuspecUrl(references[i].attributes.value.packageId.value,
                                          references[i].attributes.value.version, env)).NotOk?)
                  ==> r.Failure?)
  {
    WalkSpec(Flatten(ItemGroups(project)), env);
  }

  /** `DependenciesSpec` for the references of any project, in walk order. */
  lemma WalkSpec(references: seq<PackageReference>, env: Env)
    ensures var r := CollectAll(references, ReferenceDependencyOf(env));
            && (r.Success? <==> forall i :: 0 <= i < |references| ==> Resolves(references[i], env))
            && (r.Success? ==> |r.value| == |references|)
            && (r.Success? ==>
                  forall i :: 0 <= i < |references| ==>
                    && references[i].attributes.Some? && references[i].attributes.value.packageId.Some?
                    && var packageName := references[i].attributes.value.packageId.value;
                       && r.value[i].name == packageName
                       && r.value[i].urls.Keys == {"package", "repo"}
                       && r.value[i].urls["package"] == Some(PackageUrl(packageName))
                       && r.value[i].urls["repo"] == NuGetRepoUrl(packageName, references[i].attributes.value.version, env).value)
            && (forall i ::
                  (&& 0 <= i < |references| && references[i].attributes.Some?
                   && references[i].attributes.value.packageId.Some?
                   && env.fetch(NuspecUrl(references[i].attributes.value.packageId.value,
                                          references[i].attributes.value.version, env)).NotOk?)
                  ==> r.Failure?)
  {
    var f := ReferenceDependencyOf(env);
    var r := CollectAll(references, f);
    forall i | 0 <= i < |references|
      ensures f(references[i]).Success? <==> Resolves(references[i], env)
    {
      ReferenceSucceeds(references[i], env);
    }
    if r.Success? {
      forall i | 0 <= i < |references|
        ensures && references[i].attributes.Some? && references[i].attributes.value.packageId.Some?
                && var packageName := references[i].attributes.value.packageId.value;
                   && r.value[i].name == packageName
                   && r.value[i].urls.Keys == {"package", "repo"}
                   && r.value[i].urls["package"] == Some(PackageUrl(packageName))
                   && r.value[i].urls["repo"] == NuGetRepoUrl(packageName, references[i].attributes.value.version, env).value
      {
        ResolvedDependency(references[i], env);
      }
    }
  }

  /** What a reference that resolves gives. */
  lemma ResolvedDependency(reference: PackageReference, env: Env)
    requires Resolves(reference, env)
    ensures var d := ReferenceDependency(reference, env);
            var packageName := reference.attributes.value.packageId.value;
            && d.Success?
            && d.value.name == packageName
            && d.value.urls.Keys == {"package", "repo"}
            && d.value.urls["package"] == Some(PackageUrl(packageName))
            && d.value.urls["repo"] == NuGetRepoUrl(packageName, reference.attributes.value.version, env).value
  {
  }
}
