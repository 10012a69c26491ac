# git-dep-url in Dafny

A Dafny model of git-dep-url, a tool that clones a git repository, finds its
dependency manifests and, for every dependency they declare, collects the link
of the package's registry page and the link of its source repository.

The model covers:

- **The orchestrator** (`DepUrlExtractor`).
  - Each manifest found goes to the first registered package manager whose file
    pattern ends its path.
  - The managers' results are grouped by manager name.
  - Each group is de-duplicated by dependency name, first one wins.
  - One whole attempt is wrapped in a retry loop with doubling waits.
- **The two line-oriented managers.** Ruby `Gemfile` (`GemManager`) and pip
  `requirements.txt` (`PipManager`).
  - The line filter.
  - Reading the package name off a line: the two regular expressions are given
    as explicit matchers and proved equivalent to their patterns.
  - Sorting the registry's links into the repository link and the other links,
    with the shared repository-URL pattern (`RepoUrl`).
- **The four structured-manifest managers.** npm (`NpmManager`), Cargo
  (`CratesManager`), NuGet (`NugetManager`) and Maven (`PomManager`).
  - They walk an already parsed manifest in document order.
  - They build each dependency's links from fixed URL templates and the registry
    answers.
  - Cargo has the precedence rule for the repository link: `git`, then the
    `origin` remote of a local `path`, then crates.io.
  - The errors that abort a whole manifest are modelled.

How the model is built:

- **Loops.** Each loop of the source is a `method` with that loop. Its
  postcondition ties the result to a specification function, and the properties
  are lemmas about that function.
- **Errors.** A thrown error is a `Result` failure (`Types.Error`). A loop that
  stops at the first throw is `Types.CollectAll`.
- **Links.** A dependency's links are a `map<string, Option<string>>`. `None`
  stands for a key that is present and holds `undefined`, as npm, NuGet and Maven
  produce for `repo`.
- **Outside world.** Every registry request is a function parameter from the
  request URL to the parsed answer. The manifest parsers' output is given as
  datatypes. `encodeURIComponent`, `toLowerCase`, `new URL(...).toString()`,
  `path.join`/`path.dirname`, `git.findRoot` and `git.listRemotes` are function
  parameters too.
- **Concurrency.** `Promise.all` is modelled in file enumeration order. The waits
  of `setTimeout` are returned as a sequence of delays.

Where a reader might expect more than the code does, the model follows the code:

- No repository link is normalised: `git+`, `git://` and `.git` are kept as they
  are.
- One manifest that throws voids the whole attempt, rather than only that
  manifest, because `Promise.all` rejects and `tryGetDependencies` catches the
  rejection.
- The Maven manager exists, but the constructor does not register it. A
  `pom.xml` therefore reaches no manager.

## Model

| member | source | states |
|---|---|---|
| DepUrlExtractor.FindSpec | src/DepUrlExtractor.ts:52 | `find` returns a manager of the list whose pattern ends the path and none earlier does; none found means no pattern of the list ends the path |
| DepUrlExtractor.FindManagerSpec | src/DepUrlExtractor.ts:17-23 | the manager a file goes to is one of the five registered, in the order npm, nuget, pip, crates, gems, and its pattern ends the path; no manager exactly when no registered pattern ends it |
| DepUrlExtractor.PatternsExclusive | src/DepUrlExtractor.ts:17-23 | no path ends with two registered patterns, so the registration order never decides |
| DepUrlExtractor.FindManagerIff | src/DepUrlExtractor.ts:51-53 | a file goes to manager m exactly when m is registered and its pattern ends the path |
| DepUrlExtractor.PipGlobWiderThanPattern | src/DepUrlExtractor.ts:51-53 | a `requirements-dev.txt`, which the pip glob finds, reaches no manager |
| DepUrlExtractor.RequirementsToPip | src/DepUrlExtractor.ts:51-53 | a `requirements.txt` goes to pip |
| DepUrlExtractor.PomUnclaimed | src/DepUrlExtractor.ts:17-23 | Maven is not registered: a `pom.xml` reaches no manager |
| DepUrlExtractor.DispatchFiles | src/DepUrlExtractor.ts:51-60 | the `forEach` loop pushes exactly the jobs of the specification `Jobs` |
| DepUrlExtractor.JobsAppend | src/DepUrlExtractor.ts:51-60 | dispatch keeps file order: the jobs of a concatenation are the concatenated jobs |
| DepUrlExtractor.JobsSound | src/DepUrlExtractor.ts:51-60 | every job is for a found file, goes to the manager that claims it, and never to Maven |
| DepUrlExtractor.JobsComplete | src/DepUrlExtractor.ts:51-60 | every claimed file gets a job |
| DepUrlExtractor.FirstIndex | src/DepUrlExtractor.ts:125 | the position `acc.find` stops at: the first dependency with that name |
| DepUrlExtractor.DedupNames | src/DepUrlExtractor.ts:123-131 | de-duplication keeps every input name and adds none |
| DepUrlExtractor.DedupUnique | src/DepUrlExtractor.ts:123-131 | no two dependencies of the result share a name |
| DepUrlExtractor.DedupFirstOccurrences | src/DepUrlExtractor.ts:124-130 | each kept dependency, `urls` included, is the first input dependency with its name, and the kept ones keep input order |
| DepUrlExtractor.DedupOfUnique | src/DepUrlExtractor.ts:123-131 | a list whose names are already unique is returned unchanged |
| DepUrlExtractor.DedupIdempotent | src/DepUrlExtractor.ts:123-131 | de-duplicating twice equals de-duplicating once |
| DepUrlExtractor.DedupAppend | src/DepUrlExtractor.ts:73-82 | de-duplicating after each appended batch equals de-duplicating the whole concatenation |
| DepUrlExtractor.RemoveDuplicateDependencies | src/DepUrlExtractor.ts:123-131 | the `reduce`/`find`/`push` loops compute the first-wins de-duplication, with unique names |
| DepUrlExtractor.PushAll | src/DepUrlExtractor.ts:73-78 | pushing a result's dependencies appends them in order |
| DepUrlExtractor.Aggregate | src/DepUrlExtractor.ts:64-85 | the aggregation loop computes the specification `Aggregated` |
| DepUrlExtractor.AggregatedStep | src/DepUrlExtractor.ts:66-83 | one iteration creates the group on first sight, appends the result's dependencies and de-duplicates the group |
| DepUrlExtractor.AggregatedFirstOccurrences | src/DepUrlExtractor.ts:64-85 | within a manager's group the first result wins: each entry is the first dependency of its name in everything the manager returned, in result order, and entries keep the order of those first occurrences |
| DepUrlExtractor.AggregatedSpec | src/DepUrlExtractor.ts:64-85 | the keys are the managers with a result, even an empty one; each group has unique names and names exactly what the manager returned |
| DepUrlExtractor.CollectedAbsent | src/DepUrlExtractor.ts:66-83 | a manager without a result contributes nothing |
| DepUrlExtractor.BackoffAt | src/DepUrlExtractor.ts:103-116 | the k-th wait (from 0) is `initialDelayMs * 2^k` |
| DepUrlExtractor.BackoffLength | src/DepUrlExtractor.ts:113-116 | n failed attempts before the last give n waits |
| DepUrlExtractor.BackoffTotal | src/DepUrlExtractor.ts:113-116 | the waits add up to `initialDelayMs * (2^n - 1)` |
| DepUrlExtractor.DefaultBackoff | src/DepUrlExtractor.ts:100-101 | with the defaults the waits are 1000, 2000 and 4000 ms, 7000 ms in all |
| DepUrlExtractor.Retry | src/DepUrlExtractor.ts:98-121 | at most `retries + 1` calls; the result is the first success, or the last error after `retries + 1` failures; every earlier call failed; a wait only between calls, doubling |
| DepUrlExtractor.AwaitAll | src/DepUrlExtractor.ts:62 | awaiting the jobs gives every manager result in job order, or the first error |
| DepUrlExtractor.ResultsSucceed | src/DepUrlExtractor.ts:62 | the results are there exactly when no job's `getDependencies` throws |
| DepUrlExtractor.ResultsNames | src/DepUrlExtractor.ts:54-57 | the results carry exactly the names of the managers that received a file |
| DepUrlExtractor.TryGetDependencies | src/DepUrlExtractor.ts:37-89 | one attempt computes `AttemptOutcome`: every error caught and turned into `undefined` |
| DepUrlExtractor.AttemptOutcomeSpec | src/DepUrlExtractor.ts:37-89 | an attempt yields a record exactly when the clone worked and no claimed manifest threw; the keys are the managers that received a file; every group has unique names |
| DepUrlExtractor.DiscoverUrls | src/DepUrlExtractor.ts:26-35 | as written, `retry` never sees an error, so there is exactly one attempt and no wait |
| DepUrlExtractor.NoRetryAfterCloneFailure | src/DepUrlExtractor.ts:86-88 | a failed clone followed by a working one gives `undefined`: the second attempt never happens |
| DepUrlExtractor.AttemptResult | src/DepUrlExtractor.ts:37-89 | an attempt whose errors reach the caller succeeds exactly when the attempt yields a record, and with that record |
| DepUrlExtractor.DiscoverUrlsRetrying | src/DepUrlExtractor.ts:98-121 | with the errors reaching `retry`: at most four attempts; a record exactly when some attempt of the four works, and then the first such one; doubling waits from 1000 ms |
| Strings.TrimStart | src/GemManager.ts:12 | only leading whitespace is dropped, and the result does not start with whitespace |
| Strings.TrimEnd | src/GemManager.ts:12 | only trailing whitespace is dropped, and the result does not end with whitespace |
| Strings.IndexOf | src/GemManager.ts:41 | the first occurrence of the character, or the length when there is none |
| Strings.Split | src/GemManager.ts:12 | splitting on a character gives at least one piece, and no piece holds the separator |
| Strings.JoinSplit | src/GemManager.ts:12 | joining the pieces with the separator gives the string back |
| Strings.SplitJoin | src/GemManager.ts:12 | pieces without the separator are recovered by splitting their join |
| Strings.BeforeHash | src/GemManager.ts:41 | `split('#')[0]` is the text before the first `#`, and holds no `#` |
| Strings.TrimmedLines | src/GemManager.ts:12 | the lines are the pieces of the split on newline, each trimmed |
| Strings.RunLength | src/PipManager.ts:40 | the longest run of characters of a class starting at a position: all of them in the class, the next one not |
| Strings.RunUpTo | src/PipManager.ts:40 | a run that ends at the end or at a character outside the class is the longest run |
| Strings.TrimUnspaced | src/GemManager.ts:41 | trimming text with no whitespace at either end changes nothing |
| RepoUrl.MatchesIffShape | src/GemManager.ts:65-66 | the matcher accepts exactly a scheme, a host among github.com, gitlab.com and bitbucket.org, `/`, a non-empty segment without `/`, `/`, a non-empty segment without `/` |
| RepoUrl.ShapeMatches | src/PipManager.ts:60-61 | every URL of that shape is accepted |
| RepoUrl.MatchIsShape | src/GemManager.ts:65-66 | every accepted URL has that shape |
| RepoUrl.HttpAcceptedForGems | src/GemManager.ts:65-66 | `http://` counts for RubyGems |
| RepoUrl.HttpRejectedForPip | src/PipManager.ts:60-61 | `http://` does not count for PyPI |
| RepoUrl.ScpFormRejected | src/GemManager.ts:65-66 | the `git@host:owner/name` form is rejected: the pattern wants `/` after the host |
| GemManager.MatchAtIff | src/GemManager.ts:42 | the matcher at one position finds exactly the captures of `gem\s+['"]([^'"]+)['"]` there |
| GemManager.MatchAtSound | src/GemManager.ts:42 | what the matcher returns at a position is a match there |
| GemManager.MatchAtComplete | src/GemManager.ts:42 | every match at a position is what the matcher returns there |
| GemManager.LeftmostSpec | src/GemManager.ts:42 | the search returns the value at the least position that has one, and nothing when none has |
| GemManager.ExtractPackageNameSpec | src/GemManager.ts:40-47 | the name is the capture of the leftmost match in the trimmed text before `#`, and `''` when nothing matches |
| GemManager.LeftmostFound | src/GemManager.ts:42-45 | a found name is non-empty and is the capture of the leftmost match |
| GemManager.LeftmostNone | src/GemManager.ts:42-46 | nothing found means no match anywhere |
| GemManager.ExtractFromGemLine | src/GemManager.ts:40-47 | `gem 'name'`, with or without a trailing comment, gives back `name` |
| GemManager.SortedRepoUrl | src/GemManager.ts:71-78 | the repository link is the last link the pattern accepts, none when it accepts none |
| GemManager.SortedOtherUrls | src/GemManager.ts:71-78 | the other links are exactly the truthy links the pattern rejects, each under its key |
| GemManager.FetchRubyGemsRepoUrl | src/GemManager.ts:49-81 | the lookup computes `RubyGemsLinks`, which is empty on an answer that is not ok |
| GemManager.RubyGemsLinksSpec | src/GemManager.ts:49-81 | the repository link is always accepted by the pattern, and the other links are under the three API keys only |
| GemManager.UrlsOfSpec | src/GemManager.ts:23-30 | `package` is the RubyGems page and never overwritten; `repo` exactly when the repository link is truthy; every other link under its own key and nothing more |
| GemManager.GemDependencySpec | src/GemManager.ts:18-32 | a gem's dependency links its RubyGems page, has `repo` exactly when the API gave an accepted link, and its other keys are the API's other links |
| GemManager.LineDependencySpec | src/GemManager.ts:16-19 | a line gives a dependency exactly when it is non-empty, does not start with `#` and the `gem` pattern matches its trimmed text before `#`; the dependency is then the one built for the name the leftmost match captures |
| GemManager.GetDependencies | src/GemManager.ts:10-38 | the line loop computes the specification `Dependencies` |
| GemManager.VisitLine | src/GemManager.ts:17-33 | one loop iteration computes the line's dependency |
| GemManager.DependenciesSpec | src/GemManager.ts:16-35 | every dependency comes from a line of the file, and every line that gives one has it among the dependencies |
| GemManager.DependenciesInLineOrder | src/GemManager.ts:16-35 | two lines that give dependencies give one each, at positions in line order; a gem listed twice is listed twice |
| PipManager.MatchNameSpec | src/PipManager.ts:40 | the match is the leftmost longest run of characters other than whitespace and `<>=!`, and `''` exactly when there is none |
| PipManager.ExtractPackageNameSpec | src/PipManager.ts:38-45 | the name is that run in the trimmed text before `#`, and `''` exactly when there is none |
| PipManager.ExtractFromRequirement | src/PipManager.ts:38-45 | a name followed by a version specifier, with or without a comment, gives back the name |
| PipManager.SortedRepoUrl | src/PipManager.ts:66-75 | the repository link is the last link the pattern accepts, none when it accepts none |
| PipManager.SortedOtherUrls | src/PipManager.ts:66-75 | the other links are exactly the links the pattern rejects, each under its key |
| PipManager.SortedOtherUrlsDistinct | src/PipManager.ts:66-75 | with distinct keys every rejected link is kept as it is |
| PipManager.FetchPyPIRepoUrl | src/PipManager.ts:47-78 | the lookup computes `PyPILinks`, empty on an answer that is not ok or without `project_urls` |
| PipManager.PyPILinksSpec | src/PipManager.ts:47-78 | the repository link is always accepted by the pip pattern |
| PipManager.UrlsOfSpec | src/PipManager.ts:22-29 | `package` is the PyPI page unless a project link is labelled `package`; `repo` is present exactly when the repository link is truthy or a link is labelled `repo`, and holds the repository link when it is truthy, the link labelled `repo` otherwise; every other link under its label |
| PipManager.GetDependencies | src/PipManager.ts:10-36 | the line loop computes the specification `Dependencies` |
| PipManager.VisitLine | src/PipManager.ts:17-32 | one loop iteration computes the line's dependency |
| PipManager.DependenciesSpec | src/PipManager.ts:16-33 | every dependency comes from a non-comment line, and every non-comment line gives one, even with an empty name |
| PipManager.DependenciesInLineOrder | src/PipManager.ts:16-33 | two non-comment lines give one dependency each, at positions in line order; a package listed twice is listed twice |
| NpmManager.FetchNpmRepoUrl | src/NpmManager.ts:35-45 | the registry's `repository.url` of an ok answer, nothing otherwise |
| NpmManager.NpmDependencySpec | src/NpmManager.ts:18-20 | the links are the npm page and `repo`, always present, set exactly when the registry gave a link |
| NpmManager.VisitSpec | src/NpmManager.ts:17-21 | a section loop gives one dependency per entry, in entry order |
| NpmManager.GetDependencies | src/NpmManager.ts:10-33 | the two loops compute the specification `Dependencies` |
| NpmManager.DependenciesSpec | src/NpmManager.ts:16-30 | the entries of `dependencies`, then of `devDependencies`, one dependency each, a missing section giving none |
| NpmManager.ListedTwice | src/NpmManager.ts:16-30 | a package in both sections appears twice |
| CratesManager.PackageExists | src/CratesManager.ts:93-105 | a crate exists exactly when the status is 200 to 299, never on 404 |
| CratesManager.PackageUrl | src/CratesManager.ts:26-27 | the crate page when the crate exists, `''` otherwise |
| CratesManager.FindOriginSpec | src/CratesManager.ts:83-86 | the remote used is the first named `origin`, and there is none exactly when no remote has that name |
| CratesManager.RepoUrlPrecedence | src/CratesManager.ts:44-75 | a truthy `git` is the link whatever the file system and crates.io hold; a path whose `origin` remote gives a link makes crates.io irrelevant; without `git` or `path` the file system is never consulted; so changing crates.io's answers changes the link only when `git` is falsy and the path, if any, gives none |
| CratesManager.RepoUrlSources | src/CratesManager.ts:44-91 | a link comes from `git`, from the normalised URL of an `origin` remote, or from `crate.repository` of an ok crates.io answer |
| CratesManager.RepoUrlFailures | src/CratesManager.ts:44-91 | an entry throws only in the path lookup or on an ok crates.io answer without `crate` |
| CratesManager.UrlsOf | src/CratesManager.ts:31-34 | `package` always; `repo` exactly when the link is truthy |
| CratesManager.AllEntriesSpec | src/CratesManager.ts:16-23 | the entries of `dependencies`, `dev-dependencies`, `build-dependencies` in that order, a missing table giving none |
| CratesManager.GetDependencies | src/CratesManager.ts:13-42 | the nested loops compute the specification `Dependencies` |
| CratesManager.VisitEntry | src/CratesManager.ts:23-36 | one inner-loop iteration computes the entry's dependency |
| CratesManager.DependenciesSpec | src/CratesManager.ts:13-42 | nothing thrown: one dependency per entry, in order, named by its key with the crate page and the link found; otherwise the error of the first entry that throws, every earlier entry succeeding |
| NugetManager.NuspecUrlSpec | src/NugetManager.ts:56-61 | the `.nuspec` address starts with the flat-container prefix and the encoded lower-cased id, and ends in `.nuspec` |
| NugetManager.RepositoryUrl | src/NugetManager.ts:43-53 | the first `<repository>` element's `url`, nothing when there is none |
| NugetManager.GetDependencies | src/NugetManager.ts:11-34 | the nested loops compute the specification `Dependencies` |
| NugetManager.VisitReference | src/NugetManager.ts:23-29 | one inner-loop iteration computes the reference's dependency |
| NugetManager.NoItemGroups | src/NugetManager.ts:15-17 | no `Project` or no `ItemGroup` gives no dependency |
| NugetManager.ReferenceSucceeds | src/NugetManager.ts:24-27 | a `PackageReference` gives a dependency exactly when it has `$`, an `Include`, and an ok `.nuspec` answer |
| NugetManager.ResolvedDependency | src/NugetManager.ts:24-28 | such a reference gives the dependency named by its `Include`, with exactly the `package` and `repo` keys: the NuGet page and the `.nuspec` link |
| NugetManager.DependenciesSpec | src/NugetManager.ts:11-72 | the walk succeeds exactly when every `PackageReference` has attributes and an `Include` and its `.nuspec` answer is ok; then one dependency per `PackageReference` in document order, named by `Include`, linking the NuGet page and the `.nuspec` link; a `.nuspec` answer that is not ok fails the manifest |
| PomManager.ReplaceDots | src/PomManager.ts:66-69 | every dot of the group becomes a slash, nothing else changes, and no dot is left |
| PomManager.ScmUrl | src/PomManager.ts:79-84 | `scm[0].url[0]` when that `url` list exists and is non-empty, nothing otherwise |
| PomManager.GetDependencies | src/PomManager.ts:11-37 | the loop computes the specification `Dependencies` |
| PomManager.VisitElement | src/PomManager.ts:19-33 | one loop iteration computes the element's dependency |
| PomManager.NotFoundThrows | src/PomManager.ts:47-49 | an artifact the search does not find makes the manifest throw |
| PomManager.ElementDependencySpec | src/PomManager.ts:23-32 | a dependency is produced exactly when the search finds documents; it is named `groupId:artifactId`, links the latest version's page, and always has `repo`: the `.pom`'s `scm` link, nothing on an answer that is not ok |
| PomManager.DependenciesSpec | src/PomManager.ts:14-34 | only elements with both ids are used, each giving one dependency in order, unless one throws |
| Types.CollectAll | src/DepUrlExtractor.ts:62 | visiting in order and stopping at the first throw: all values when nothing throws, otherwise the first error |
| Types.CollectAllStops | src/DepUrlExtractor.ts:62 | once an error is thrown, later elements change nothing |
| Types.FilterMapSound | src/GemManager.ts:16-35 | everything pushed comes from an element |
| Types.FilterMapComplete | src/GemManager.ts:16-35 | every element that gives a value has it pushed |
| Types.FilterMapAt | src/GemManager.ts:16-35 | the value of an element is pushed right after the values of the elements before it |
| Types.FilterMapOrder | src/GemManager.ts:16-35 | an element's value is pushed before anything a later element pushes |
| Types.FilterSpec | src/PomManager.ts:22 | the kept elements are exactly those the condition accepts |
| Types.ThrowInside | src/NugetManager.ts:21-31 | an element that throws inside a nested walk ends the walk with its error |
| Types.ThrowAtKept | src/PomManager.ts:18-34 | a kept element that throws ends the walk with its error |

## Left out

- Cloning, the temporary directory and its removal are I/O.
- The manifest search (`glob`) is I/O: the files found are an input sequence.
- `console` logging is left out.
- `Promise.all` concurrency is modelled in file enumeration order.
- `setTimeout` waits are returned as delays rather than taken.
- Every `fetch`, `readFile`, `JSON.parse`, `toml.parse` and `xml2js` call is left
  out. Parsed files and answers are datatypes holding only the fields the code
  reads, and a registry is a function from the request URL to its answer.
- A network or read error is left out (rejected promises from `fetch`, a file
  that cannot be read or parsed). The errors modelled are the ones the code
  raises on data it received.
- `encodeURIComponent`, `toLowerCase`, `new URL(...).toString()`,
  `path.join`/`path.dirname`, `git.findRoot` and `git.listRemotes` are function
  parameters.
- A `git.findRoot` that finds no root throws (`GitRootNotFound`). A
  `git.listRemotes` that throws is not modelled.
- CratesManager.PackageUrl and CratesManager.RepoUrlFor read the same crates.io
  URL. Both read one answer, whereas the code fetches twice and two answers could
  differ.
- Object key order (`Object.entries`, `for ... in`) is given by the input
  sequences. JavaScript's placement of integer-like keys first is not modelled.
- Dafny maps have no key order. The order in which the aggregated record gains
  its manager keys (src/DepUrlExtractor.ts:69-71) and the order of a gem's link
  keys (`package`, then the others, then `repo`, src/GemManager.ts:23-30) are not
  modelled; the keys and values are.
- PipManager.PyPILinks: `project_urls` values are strings. A non-string JSON
  value tested against the pattern is not modelled.
- NugetManager.RepositoryUrl: a `<repository>` element with text content but no
  attributes, whose `$.url` would throw, is not modelled. An empty
  `<repository/>` parses as `''` and the `&&` chain gives `''`; the model has no
  case of its own for it, and `Repository(Some(""))` gives the same link `''`.
- PomManager.MavenPackageInfo:
  - the search answer's `repository_url` is read by the code but never used;
  - a search answer that is not ok, or without `response`, is not modelled: it
    is parsed as whatever JSON it holds.
- A reader might expect repository links to be normalised, or one failing
  manifest to leave the others' results intact; the code does neither, and
  neither is modelled.

## Findings

| source | as written | input that shows it | evidently intended | confidence | as-written member | corrected member |
|---|---|---|---|---|---|---|
| src/DepUrlExtractor.ts:86-88 | `tryGetDependencies` catches every error and returns `undefined`, so the `retry` around it at lines 28 and 98-121 never sees a failure and never retries | a first attempt whose clone fails and a second that would work: the result is `undefined` after one attempt | a failed attempt is retried up to three times with waits of 1000, 2000 and 4000 ms | medium, not executed | DepUrlExtractor.NoRetryAfterCloneFailure | DepUrlExtractor.DiscoverUrlsRetrying |
