/** The Maven manager (`src/PomManager.ts`): walks the `dependency` elements of a
    `pom.xml`, looks each `groupId:artifactId` up on Maven Central's search for
    its latest version, and reads the repository link from the `scm` element of
    that version's `.pom`.

    The parsed project and the parsed answers are given as datatypes; the search
    and the repository are functions from the request URL to the answer, and
    `encodeURIComponent` is a function parameter. */
module PomManager {
  import opened Wrappers
  import opened Types

  const Name := "maven"
  const FilePattern := "pom.xml"
  const GlobPattern := "**/pom.xml"

  /** A `dependency` element, as the text of its first `groupId` and `artifactId`. */
  datatype DependencyXml = DependencyXml(groupId: Option<string>, artifactId: Option<string>)

  /** The parsed `project`: `dependencies` is `dependencies[0].dependency`, `None`
      when any step of that path is missing. */
  datatype PomProject = PomProject(dependencies: Option<seq<DependencyXml>>)

  /** A document of the search answer, as its `latestVersion`. */
  datatype Doc = Doc(latestVersion: Option<string>)

  /** The search answer's `response`: `numFound` and `docs`. */
  datatype SearchAnswer = SearchAnswer(numFound: int, docs: seq<Doc>)

  /** The first `scm` element of a `.pom`, as its `url` elements; `urls` is `None`
      when it has none. */
  datatype Scm = Scm(urls: Option<seq<string>>)

  /** A `.pom` answer; `scm` is `None` when `project.scm[0]` is missing. */
  datatype PomResponse = NotOk | Ok(scm: Option<Scm>)

  /** The functions the walk depends on: the search, the repository and
      `encodeURIComponent`. */
  datatype Env = Env(search: string -> SearchAnswer, fetchPom: string -> PomResponse, encode: string -> string)

  /** What `getMavenPackageInfo` returns when the search finds the artifact. */
  datatype PackageInfo = PackageInfo(groupId: string, artifactId: string, version: Option<string>)

  /* ---------------------------------------------------------------------------
     getMavenPackageInfo
     --------------------------------------------------------------------------- */

  function SearchUrl(groupId: string, artifactId: string, encode: string -> string): string
  {
    "https://search.maven.org/solrsearch/select?q=g:%22" + encode(groupId) + "%22+AND+a:%22" + encode(artifactId) +
    "%22&rows=1&wt=json"
  }

  /** `getMavenPackageInfo(groupId, artifactId)`: nothing when the search finds
      nothing, the first document's latest version otherwise; reading the first
      document of an empty list throws. */
  function MavenPackageInfo(groupId: string, artifactId: string, env: Env): Result<Option<PackageInfo>, Error>
  {
    var answer := env.search(SearchUrl(groupId, artifactId, env.encode));
    if answer.numFound == 0 then Success(None)
    else if |answer.docs| == 0 then Failure(TypeError("latestVersion"))
    else Success(Some(PackageInfo(groupId, artifactId, answer.docs[0].latestVersion)))
  }

  /* ---------------------------------------------------------------------------
     getRepoUrl
     --------------------------------------------------------------------------- */

  /** `groupId.replace(/\./g, '/')`: every dot becomes a slash, nothing else
      changes, so no dot survives. */
  function ReplaceDots(s: string): (r: string)
    ensures |r| == |s|
    ensures forall i :: 0 <= i < |s| ==> r[i] == if s[i] == '.' then '/' else s[i]
    ensures '.' !in r
  {
    if s == [] then []
    else [if s[0] == '.' then '/' else s[0]] + ReplaceDots(s[1..])
  }

  /** The `.pom` address of a version: the group with its dots turned into
      slashes, the artifact, the version, and `<artifact>-<version>.pom`. */
  function PomUrl(info: PackageInfo): string
  {
    var version := Render(info.version);
    "https://repo1.maven.org/maven2/" + ReplaceDots(info.groupId) + "/" + info.artifactId + "/" + version + "/" +
    info.artifactId + "-" + version + ".pom"
  }

  /** `scm[0].url[0]` when `scm[0].url` is there. */
  function ScmUrl(scm: Option<Scm>): (url: Option<string>)
    ensures url.Some? <==> scm.Some? && scm.value.urls.Some? && |scm.value.urls.value| > 0
    ensures url.Some? ==> url.value == scm.value.urls.value[0]
  {
    if scm.Some? && scm.value.urls.Some? && |scm.value.urls.value| > 0 then Some(scm.value.urls.value[0]) else None
  }

  /** `getRepoUrl(packageInfo)`: destructuring a missing package info throws;
      otherwise the `.pom`'s `scm` link, nothing when the answer is not ok. */
  function RepoUrlFor(info: Option<PackageInfo>, env: Env): Result<Option<string>, Error>
  {
    match info
    case None => Failure(TypeError("groupId"))
    case Some(packageInfo) =>
      match env.fetchPom(PomUrl(packageInfo))
      case NotOk => Success(None)
      case Ok(scm) => Success(ScmUrl(scm))
  }

  /* ---------------------------------------------------------------------------
     getDependencies
     --------------------------------------------------------------------------- */

  /** `groupId && artifactId` */
  predicate HasIds(dependency: DependencyXml)
  {
    Truthy(dependency.groupId) && Truthy(dependency.artifactId)
  }

  function PackageUrl(groupId: string, artifactId: string, version: Option<string>): string
  {
    "https://central.sonatype.com/artifact/" + groupId + "/" + artifactId + "/" + Render(version)
  }

  /** The dependency one element with both ids gives, or the error it throws. */
  function ElementDependency(dependency: DependencyXml, env: Env): Result<Dependency, Error>
    requires HasIds(dependency)
  {
    var groupId, artifactId := dependency.groupId.value, dependency.artifactId.value;
    match MavenPackageInfo(groupId, artifactId, env)
    case Failure(e) => Failure(e)
    case Success(info) =>
      match RepoUrlFor(info, env)
      case Failure(e) => Failure(e)
      case Success(repoUrl) =>
        Success(Dependency(groupId + ":" + artifactId,
                           map["package" := Some(PackageUrl(groupId, artifactId, info.value.version)), "repo" := repoUrl]))
  }

  /** `ElementDependency` as a total function for `CollectAll`. `Dependencies`
      only hands it elements that passed the `HasIds` filter, so the `else`
      branch is never taken. */
  function ElementDependencyOf(env: Env): DependencyXml -> Result<Dependency, Error>
  {
    (dependency: DependencyXml) =>
      if HasIds(dependency) then ElementDependency(dependency, env) else Failure(TypeError("unreachable"))
  }

  /** The `dependency` elements, none when the `dependencies` block is missing. */
  function Elements(project: PomProject): seq<DependencyXml>
  {
    if project.dependencies.Some? then project.dependencies.value else []
  }

  /** What `getDependencies` returns or throws; a file without `project` throws. */
  function Dependencies(project: Option<PomProject>, env: Env): Result<seq<Dependency>, Error>
  {
    match project
    case None => Failure(TypeError("dependencies"))
    case Some(p) => CollectAll(Filter(Elements(p), HasIds), ElementDependencyOf(env))
  }

  /** `getDependencies(filePath)`, with the parsed file given. */
  method GetDependencies(project: Option<PomProject>, env: Env) returns (result: Result<seq<Dependency>, Error>)
    ensures result == Dependencies(project, env)
  {
    if project.None? {
      return Failure(TypeError("dependencies"));
    }
    var f := ElementDependencyOf(env);
    var dependenciesXml := Elements(project.value);
    var dependencies: seq<Dependency> := [];
    for i := 0 to |dependenciesXml|
      invariant CollectAll(Filter(dependenciesXml[..i], HasIds), f) == Success(dependencies)
    {
      var depXml := dependenciesXml[i];
      FilterNext(dependenciesXml, i, HasIds);
      if Truthy(depXml.groupId) && Truthy(depXml.artifactId) {
        var found := VisitElement(depXml, env);
        if found.Failure? {
          ThrowAtKept(dependenciesXml, i, HasIds, f);
          return Failure(found.error);
        }
        CollectAllStep(Filter(dependenciesXml[..i], HasIds), depXml, f);
        dependencies := dependencies + [found.value];
      } else {
        assert Filter(dependenciesXml[..i], HasIds) + [] == Filter(dependenciesXml[..i], HasIds);
      }
    }
    assert dependenciesXml[..|dependenciesXml|] == dependenciesXml;
    result := Success(dependencies);
  }

  /** The body of the loop of `getDependencies` for one element with both ids. */
  method VisitElement(depXml: DependencyXml, env: Env) returns (found: Result<Dependency, Error>)
    requires HasIds(depXml)
    ensures found == ElementDependency(depXml, env)
  {
    var groupId, artifactId := depXml.groupId.value, depXml.artifactId.value;
    var packageInfo := MavenPackageInfo(groupId, artifactId, env);
    if packageInfo.Failure? {
      return Failure(packageInfo.error);
    }
    var repoUrl := RepoUrlFor(packageInfo.value, env);
    if repoUrl.Failure? {
      return Failure(repoUrl.error);
    }
    var packageUrl := PackageUrl(groupId, artifactId, packageInfo.value.value.version);
    var urls := map["package" := Some(packageUrl), "repo" := repoUrl.value];
    found := Success(Dependency(groupId + ":" + artifactId, urls));
  }

  /** An artifact the search does not find fails the whole file, since its package
      info is destructured. */
  lemma NotFoundThrows(depXml: DependencyXml, env: Env)
    requires HasIds(depXml)
    requires env.search(SearchUrl(depXml.groupId.value, depXml.artifactId.value, env.encode)).numFound == 0
    ensures ElementDependency(depXml, env).Failure?
  {
  }

  /** A dependency found is named `groupId:artifactId`, always has the `repo` key,
      links the latest version's page and holds the `.pom`'s `scm` link, nothing
      when the `.pom` answer is not ok. */
  lemma ElementDependencySpec(depXml: DependencyXml, env: Env)
    requires HasIds(depXml)
    ensures var r := ElementDependency(depXml, env);
            var groupId, artifactId := depXml.groupId.value, depXml.artifactId.value;
            var answer := env.search(SearchUrl(groupId, artifactId, env.encode));
            && (r.Success? <==> answer.numFound != 0 && |answer.docs| > 0)
            && (r.Success? ==>
                  var info := PackageInfo(groupId, artifactId, answer.docs[0].latestVersion);
                  && r.value.name == groupId + ":" + artifactId
                  && r.value.urls.Keys == {"package", "repo"}
                  && r.value.urls["package"] == Some(PackageUrl(groupId, artifactId, info.version))
                  && (env.fetchPom(PomUrl(info)).NotOk? ==> r.value.urls["repo"].None?)
                  && (env.fetchPom(PomUrl(info)).Ok? ==> r.value.urls["repo"] == ScmUrl(env.fetchPom(PomUrl(info)).scm)))
  {
  }

  /** Elements without both ids give nothing; the others give one dependency
      each, in order, unless one of them throws. */
  lemma DependenciesSpec(project: PomProject, env: Env)
    ensures var r := Dependencies(Some(project), env);
            var kept := Filter(Elements(project), HasIds);
            && (forall d :: d in kept <==> d in Elements(project) && HasIds(d))
            && (forall i :: 0 <= i < |kept| ==> HasIds(kept[i]))
            && (r.Success? <==> forall i :: 0 <= i < |kept| ==> ElementDependency(kept[i], env).Success?)
            && (r.Success? ==> |r.value| == |kept|)
            && (r.Success? ==> forall i :: 0 <= i < |kept| ==> r.value[i] == ElementDependency(kept[i], env).value)
  {
    var kept := Filter(Elements(project), HasIds);
    FilterSpec(Elements(project), HasIds);
    assert forall i :: 0 <= i < |kept| ==> kept[i] in kept;
  }
}
