/** The orchestrator: it hands every manifest file found in the cloned repository
    to the package manager whose file pattern it ends with, groups the resulting
    dependencies by manager name, drops repeated names (first one wins), and wraps
    one whole attempt in a retry loop with exponential backoff.

    The clone, the manifest search and each manager's `getDependencies` are I/O: an
    attempt is given as the outcome of the clone, the files found and a function
    standing for `getDependencies`. Concurrent `Promise.all` work is modelled in
    file enumeration order; the waits of the backoff are recorded as values. */
module DepUrlExtractor {
  import opened Wrappers
  import opened Types
  import opened Strings
  import NpmManager
  import NugetManager
  import PipManager
  import CratesManager
  import GemManager
  import PomManager

  /** The package managers of the repository. */
  datatype Manager = Npm | Nuget | Pip | Crates | Gems | Maven
  {
    function Name(): string
    {
      match this
      case Npm => NpmManager.Name
      case Nuget => NugetManager.Name
      case Pip => PipManager.Name
      case Crates => CratesManager.Name
      case Gems => GemManager.Name
      case Maven => PomManager.Name
    }

    function FilePattern(): string
    {
      match this
      case Npm => NpmManager.FilePattern
      case Nuget => NugetManager.FilePattern
      case Pip => PipManager.FilePattern
      case Crates => CratesManager.FilePattern
      case Gems => GemManager.FilePattern
      case Maven => PomManager.FilePattern
    }
  }

  /** The managers the constructor registers, in this order. The Maven manager is
      never registered. */
  const PackageManagers: seq<Manager> := [Npm, Nuget, Pip, Crates, Gems]

  /* ---------------------------------------------------------------------------
     Dispatch: each found file goes to the first registered manager whose
     `filePattern` it ends with; a file matching none is dropped.
     --------------------------------------------------------------------------- */

  /** `managers.find((pm) => filePath.endsWith(pm.filePattern))` */
  function Find(managers: seq<Manager>, filePath: string): Option<Manager>
  {
    if managers == [] then None
    else if EndsWith(filePath, managers[0].FilePattern()) then Some(managers[0])
    else Find(managers[1..], filePath)
  }

  /** The manager a file is handed to, if any. */
  function FindManager(filePath: string): Option<Manager>
  {
    Find(PackageManagers, filePath)
  }

  /** The found manager is one of the list, its pattern ends the path and no earlier
      one's does; when none is found, no pattern of the list ends the path. */
  lemma {:induction false} FindSpec(managers: seq<Manager>, filePath: string)
    ensures Find(managers, filePath).Some? ==>
      exists i :: 0 <= i < |managers| && managers[i] == Find(managers, filePath).value &&
        EndsWith(filePath, managers[i].FilePattern()) &&
        forall j :: 0 <= j < i ==> !EndsWith(filePath, managers[j].FilePattern())
    ensures Find(managers, filePath).None? ==>
      forall m :: m in managers ==> !EndsWith(filePath, m.FilePattern())
  {
    if managers != [] && !EndsWith(filePath, managers[0].FilePattern()) {
      var rest := managers[1..];
      FindSpec(rest, filePath);
      if Find(rest, filePath).Some? {
        var i :| 0 <= i < |rest| && rest[i] == Find(rest, filePath).value &&
          EndsWith(filePath, rest[i].FilePattern()) &&
          forall j :: 0 <= j < i ==> !EndsWith(filePath, rest[j].FilePattern());
        assert managers[i + 1] == rest[i];
        forall j | 0 <= j < i + 1 ensures !EndsWith(filePath, managers[j].FilePattern()) {
          if j > 0 { assert managers[j] == rest[j - 1]; }
        }
      } else {
        forall m | m in managers ensures !EndsWith(filePath, m.FilePattern()) {
          if m != managers[0] {
            var k :| 0 <= k < |managers| && managers[k] == m;
            assert rest[k - 1] == m;
          }
        }
      }
    } else if managers != [] {
      assert managers[0] == Find(managers, filePath).value;
    }
  }

  /** The found manager is registered and its pattern ends the path; when none is
      found, no registered pattern ends the path. */
  lemma FindManagerSpec(filePath: string)
    ensures FindManager(filePath).Some? ==>
      FindManager(filePath).value in PackageManagers && EndsWith(filePath, FindManager(filePath).value.FilePattern())
    ensures FindManager(filePath).None? <==>
      forall m :: m in PackageManagers ==> !EndsWith(filePath, m.FilePattern())
  {
    FindSpec(PackageManagers, filePath);
  }

  /** The registered patterns end in five different characters, so no path ends
      with two of them: the registration order never decides anything. */
  lemma PatternsExclusive(filePath: string, m1: Manager, m2: Manager)
    requires m1 in PackageManagers && m2 in PackageManagers
    requires EndsWith(filePath, m1.FilePattern()) && EndsWith(filePath, m2.FilePattern())
    ensures m1 == m2
  {
    var last := filePath[|filePath| - 1];
    var p1, p2 := m1.FilePattern(), m2.FilePattern();
    assert last == p1[|p1| - 1] by { assert filePath[|filePath| - |p1|..][|p1| - 1] == last; }
    assert last == p2[|p2| - 1] by { assert filePath[|filePath| - |p2|..][|p2| - 1] == last; }
  }

  /** Which manager receives a file, without reference to the order. */
  lemma FindManagerIff(filePath: string, m: Manager)
    ensures FindManager(filePath) == Some(m) <==> m in PackageManagers && EndsWith(filePath, m.FilePattern())
  {
    var r := FindManager(filePath);
    FindManagerSpec(filePath);
    if m in PackageManagers && EndsWith(filePath, m.FilePattern()) {
      assert r.Some?;
      PatternsExclusive(filePath, m, r.value);
    }
  }

  /** A file the pip glob `requirements*.txt` finds but the pip pattern does not end
      reaches no manager. */
  lemma PipGlobWiderThanPattern(dir: string)
    ensures FindManager(dir + "requirements-dev.txt").None?
  {
    var path := dir + "requirements-dev.txt";
    FindManagerSpec(path);
    forall m | m in PackageManagers ensures !EndsWith(path, m.FilePattern()) {
      Mismatch(path, m.FilePattern(), if m == Pip then 5 else 1);
    }
  }

  /** The file the pip pattern is written for goes to pip. */
  lemma RequirementsToPip(dir: string)
    ensures FindManager(dir + "requirements.txt") == Some(Pip)
  {
    var path := dir + "requirements.txt";
    assert path[|path| - |Pip.FilePattern()|..] == Pip.FilePattern();
    FindManagerIff(path, Pip);
  }

  /** The Maven manager is not registered, so a `pom.xml` reaches no manager. */
  lemma PomUnclaimed(dir: string)
    ensures FindManager(dir + "pom.xml").None?
  {
    var path := dir + "pom.xml";
    FindManagerSpec(path);
    forall m | m in PackageManagers ensures !EndsWith(path, m.FilePattern()) {
      Mismatch(path, m.FilePattern(), if m == Crates then 3 else 1);
    }
  }

  lemma Mismatch(s: string, suffix: string, k: nat)
    requires 1 <= k <= |suffix| && k <= |s| && s[|s| - k] != suffix[|suffix| - k]
    ensures !EndsWith(s, suffix)
  {
    if |suffix| <= |s| {
      assert s[|s| - |suffix|..][|suffix| - k] == s[|s| - k];
    }
  }

  /** One `getDependencies` call the dispatch schedules. */
  datatype Job = Job(manager: Manager, filePath: string)

  function JobFor(filePath: string): seq<Job>
  {
    match FindManager(filePath)
    case Some(m) => [Job(m, filePath)]
    case None => []
  }

  /** The jobs for the found files, in file order. */
  function Jobs(files: seq<string>): seq<Job>
  {
    if files == [] then [] else Jobs(files[..|files| - 1]) + JobFor(files[|files| - 1])
  }

  /** `dependencyFiles.forEach(...)`: the loop that pushes one promise per claimed file. */
  method DispatchFiles(files: seq<string>) returns (jobs: seq<Job>)
    ensures jobs == Jobs(files)
  {
    jobs := [];
    for i := 0 to |files|
      invariant jobs == Jobs(files[..i])
    {
      assert files[..i + 1][..i] == files[..i];
      var packageManager := FindManager(files[i]);
      if packageManager.Some? {
        jobs := jobs + [Job(packageManager.value, files[i])];
      }
    }
    assert files[..|files|] == files;
  }

  /** Dispatch keeps the order of the files: the jobs of a concatenation are the
      concatenation of the jobs. */
  lemma {:induction false} JobsAppend(a: seq<string>, b: seq<string>)
    ensures Jobs(a + b) == Jobs(a) + Jobs(b)
    decreases |b|
  {
    if b == [] {
      assert a + b == a;
    } else {
      var n := |b| - 1;
      JobsAppend(a, b[..n]);
      assert (a + b)[..|a + b| - 1] == a + b[..n];
    }
  }

  /** Every job is for a found file and goes to the manager that claims it (so never to Maven). */
  lemma {:induction false} JobsSound(files: seq<string>)
    ensures forall j :: j in Jobs(files) ==> j.filePath in files && FindManager(j.filePath) == Some(j.manager)
    ensures forall j :: j in Jobs(files) ==> j.manager in PackageManagers && j.manager != Maven
  {
    if files != [] {
      var n := |files| - 1;
      JobsSound(files[..n]);
      forall j | j in Jobs(files) ensures j.filePath in files && FindManager(j.filePath) == Some(j.manager) {
        if j in Jobs(files[..n]) {
          assert j.filePath in files[..n];
        }
      }
    }
    forall j | j in Jobs(files) ensures j.manager in PackageManagers && j.manager != Maven {
      FindManagerIff(j.filePath, j.manager);
    }
  }

  /** Every claimed file gets a job. */
  lemma JobsComplete(files: seq<string>)
    ensures forall f :: f in files && FindManager(f).Some? ==> Job(FindManager(f).value, f) in Jobs(files)
  {
    forall f | f in files && FindManager(f).Some? ensures Job(FindManager(f).value, f) in Jobs(files) {
      JobsHas(files, f);
    }
  }

  lemma {:induction false} JobsHas(files: seq<string>, f: string)
    requires f in files && FindManager(f).Some?
    ensures Job(FindManager(f).value, f) in Jobs(files)
  {
    var n := |files| - 1;
    if files[n] != f {
      var k :| 0 <= k < |files| && files[k] == f;
      assert files[..n][k] == f;
      JobsHas(files[..n], f);
    }
  }

  /* ---------------------------------------------------------------------------
     removeDuplicateDependencies: first occurrence of each name wins.
     --------------------------------------------------------------------------- */

  predicate HasName(deps: seq<Dependency>, name: string)
  {
    exists i | 0 <= i < |deps| :: deps[i].name == name
  }

  predicate UniqueNames(deps: seq<Dependency>)
  {
    forall i, j | 0 <= i < j < |deps| :: deps[i].name != deps[j].name
  }

  /** The `reduce`: keep a dependency when no kept one has its name. */
  function Dedup(deps: seq<Dependency>): seq<Dependency>
  {
    if deps == [] then []
    else
      var kept := Dedup(deps[..|deps| - 1]);
      var dependency := deps[|deps| - 1];
      if HasName(kept, dependency.name) then kept else kept + [dependency]
  }

  /** The position of the first dependency called `name`. */
  function FirstIndex(deps: seq<Dependency>, name: string): (k: nat)
    requires HasName(deps, name)
    ensures k < |deps| && deps[k].name == name
    ensures forall j :: 0 <= j < k ==> deps[j].name != name
  {
    if deps[0].name == name then 0
    else
      assert HasName(deps[1..], name) by {
        var i :| 0 <= i < |deps| && deps[i].name == name;
        assert deps[1..][i - 1].name == name;
      }
      1 + FirstIndex(deps[1..], name)
  }

  lemma HasNameAppend(deps: seq<Dependency>, d: Dependency, name: string)
    ensures HasName(deps + [d], name) <==> HasName(deps, name) || d.name == name
  {
    if HasName(deps, name) {
      var i :| 0 <= i < |deps| && deps[i].name == name;
      assert (deps + [d])[i].name == name;
    }
    if HasName(deps + [d], name) && d.name != name {
      var i :| 0 <= i < |deps + [d]| && (deps + [d])[i].name == name;
      assert deps[i].name == name;
    }
    if d.name == name {
      assert (deps + [d])[|deps|].name == name;
    }
  }

  /** The result names exactly the names of the input. */
  lemma {:induction false} DedupNames(deps: seq<Dependency>, name: string)
    ensures HasName(Dedup(deps), name) <==> HasName(deps, name)
  {
    if deps != [] {
      var n := |deps| - 1;
      var prefix, last := deps[..n], deps[n];
      assert deps == prefix + [last];
      DedupNames(prefix, name);
      HasNameAppend(prefix, last, name);
      HasNameAppend(Dedup(prefix), last, name);
      if HasName(Dedup(prefix), last.name) && last.name == name {
        DedupNames(prefix, last.name);
      }
    }
  }

  /** No two dependencies of the result share a name. */
  lemma {:induction false} DedupUnique(deps: seq<Dependency>)
    ensures UniqueNames(Dedup(deps))
  {
    if deps != [] {
      var n := |deps| - 1;
      DedupUnique(deps[..n]);
      var kept := Dedup(deps[..n]);
      if !HasName(kept, deps[n].name) {
        forall i | 0 <= i < |kept| ensures kept[i].name != deps[n].name {
        }
      }
    }
  }

  lemma FirstIndexAppend(deps: seq<Dependency>, d: Dependency, name: string)
    requires HasName(deps, name)
    ensures HasName(deps + [d], name) && FirstIndex(deps + [d], name) == FirstIndex(deps, name)
  {
    HasNameAppend(deps, d, name);
    var k := FirstIndex(deps, name);
    assert (deps + [d])[k].name == name;
  }

  lemma FirstIndexLast(deps: seq<Dependency>, d: Dependency)
    requires !HasName(deps, d.name)
    ensures HasName(deps + [d], d.name) && FirstIndex(deps + [d], d.name) == |deps|
  {
    HasNameAppend(deps, d, d.name);
    assert forall k :: 0 <= k < |deps| ==> (deps + [d])[k] == deps[k];
  }

  /** The result is the subsequence of first occurrences: every kept dependency,
      `urls` included, is the first one in the input with its name, and they keep
      their input order. */
  lemma {:induction false} DedupFirstOccurrences(deps: seq<Dependency>)
    ensures forall i :: 0 <= i < |Dedup(deps)| ==>
              HasName(deps, Dedup(deps)[i].name) && Dedup(deps)[i] == deps[FirstIndex(deps, Dedup(deps)[i].name)]
    ensures forall i, j :: 0 <= i < j < |Dedup(deps)| ==>
              FirstIndex(deps, Dedup(deps)[i].name) < FirstIndex(deps, Dedup(deps)[j].name)
  {
    if deps != [] {
      var n := |deps| - 1;
      var prefix, last := deps[..n], deps[n];
      assert deps == prefix + [last];
      DedupFirstOccurrences(prefix);
      var kept, out := Dedup(prefix), Dedup(deps);
      forall i | 0 <= i < |kept|
        ensures HasName(deps, kept[i].name) && kept[i] == deps[FirstIndex(deps, kept[i].name)]
        ensures FirstIndex(deps, kept[i].name) == FirstIndex(prefix, kept[i].name)
      {
        FirstIndexAppend(prefix, last, kept[i].name);
      }
      if HasName(kept, last.name) {
        assert out == kept;
      } else {
        assert out == kept + [last];
        DedupNames(prefix, last.name);
        FirstIndexLast(prefix, last);
        forall i | 0 <= i < |kept| ensures FirstIndex(deps, kept[i].name) < |prefix| {
        }
      }
    }
  }

  /** A list whose names are already unique is left as it is. */
  lemma {:induction false} DedupOfUnique(deps: seq<Dependency>)
    requires UniqueNames(deps)
    ensures Dedup(deps) == deps
  {
    if deps != [] {
      var n := |deps| - 1;
      var prefix, last := deps[..n], deps[n];
      assert UniqueNames(prefix) by {
        forall i, j | 0 <= i < j < |prefix| ensures prefix[i].name != prefix[j].name {
          assert prefix[i] == deps[i] && prefix[j] == deps[j];
        }
      }
      DedupOfUnique(prefix);
      assert !HasName(prefix, last.name) by {
        forall i | 0 <= i < |prefix| ensures prefix[i].name != last.name {
          assert prefix[i] == deps[i];
        }
      }
      assert prefix + [last] == deps;
    }
  }

  /** De-duplicating twice is de-duplicating once. */
  lemma DedupIdempotent(deps: seq<Dependency>)
    ensures Dedup(Dedup(deps)) == Dedup(deps)
  {
    DedupUnique(deps);
    DedupOfUnique(Dedup(deps));
  }

  /** De-duplicating after every appended batch gives what de-duplicating the whole
      concatenation once gives. */
  lemma {:induction false} DedupAppend(a: seq<Dependency>, b: seq<Dependency>)
    ensures Dedup(Dedup(a) + b) == Dedup(a + b)
    decreases |b|
  {
    if b == [] {
      assert Dedup(a) + b == Dedup(a);
      assert a + b == a;
      DedupIdempotent(a);
    } else {
      var n := |b| - 1;
      DedupAppend(a, b[..n]);
      assert (Dedup(a) + b)[..|Dedup(a) + b| - 1] == Dedup(a) + b[..n];
      assert (a + b)[..|a + b| - 1] == a + b[..n];
    }
  }

  /** `removeDuplicateDependencies`, with the `reduce` and its `acc.find` written as loops. */
  method RemoveDuplicateDependencies(dependencies: seq<Dependency>) returns (acc: seq<Dependency>)
    ensures acc == Dedup(dependencies)
    ensures UniqueNames(acc)
  {
    acc := [];
    for i := 0 to |dependencies|
      invariant acc == Dedup(dependencies[..i])
    {
      var dependency := dependencies[i];
      var existing := false;
      var j := 0;
      while j < |acc| && !existing
        invariant 0 <= j <= |acc|
        invariant existing ==> HasName(acc, dependency.name)
        invariant !existing ==> forall k :: 0 <= k < j ==> acc[k].name != dependency.name
      {
        existing := acc[j].name == dependency.name;
        j := j + 1;
      }
      if !existing {
        acc := acc + [dependency];
      }
      SliceSnoc(dependencies, i);
    }
    assert dependencies[..|dependencies|] == dependencies;
    DedupUnique(dependencies);
  }

  /* ---------------------------------------------------------------------------
     Aggregation: results grouped by manager name, each group de-duplicated.
     --------------------------------------------------------------------------- */

  /** What one awaited `getDependencies` promise resolved to. */
  datatype ManagerResult = ManagerResult(packageManager: string, dependencies: seq<Dependency>)

  /** The dependencies of every result of manager `pm`, concatenated in result order. */
  function Collected(results: seq<ManagerResult>, pm: string): seq<Dependency>
  {
    if results == [] then []
    else
      var last := results[|results| - 1];
      Collected(results[..|results| - 1], pm) + (if last.packageManager == pm then last.dependencies else [])
  }

  function ResultNames(results: seq<ManagerResult>): set<string>
  {
    set r | r in results :: r.packageManager
  }

  /** The aggregated record: one key per manager that produced a result. */
  function Aggregated(results: seq<ManagerResult>): map<string, seq<Dependency>>
  {
    map pm | pm in ResultNames(results) :: Dedup(Collected(results, pm))
  }

  lemma {:induction false} CollectedAbsent(results: seq<ManagerResult>, pm: string)
    requires pm !in ResultNames(results)
    ensures Collected(results, pm) == []
  {
    if results != [] {
      var n := |results| - 1;
      assert ResultNames(results[..n]) <= ResultNames(results) by {
        forall r | r in results[..n] ensures r in results { }
      }
      CollectedAbsent(results[..n], pm);
      assert results[n] in results;
    }
  }

  lemma ResultNamesAppend(results: seq<ManagerResult>, r: ManagerResult)
    ensures ResultNames(results + [r]) == ResultNames(results) + {r.packageManager}
  {
    forall x | x in results + [r] ensures x in results || x == r { }
    forall x | x in results ensures x in results + [r] { }
  }

  lemma CollectedAppend(results: seq<ManagerResult>, r: ManagerResult, pm: string)
    ensures Collected(results + [r], pm) == Collected(results, pm) + (if r.packageManager == pm then r.dependencies else [])
  {
    assert (results + [r])[..|results|] == results;
  }

  /** One iteration of the aggregation loop. */
  lemma AggregatedStep(results: seq<ManagerResult>, r: ManagerResult)
    ensures var before := Aggregated(results);
            var start := if r.packageManager in before then before[r.packageManager] else [];
            Aggregated(results + [r]) == before[r.packageManager := Dedup(start + r.dependencies)]
  {
    var pm := r.packageManager;
    var before := Aggregated(results);
    var after := Aggregated(results + [r]);
    var start := if pm in before then before[pm] else [];
    var expected := before[pm := Dedup(start + r.dependencies)];
    ResultNamesAppend(results, r);
    assert after.Keys == expected.Keys;
    forall q | q in after ensures after[q] == expected[q] {
      AggregatedStepAt(results, r, q);
    }
  }

  lemma AggregatedStepAt(results: seq<ManagerResult>, r: ManagerResult, q: string)
    requires q in Aggregated(results + [r])
    ensures var before := Aggregated(results);
            var start := if r.packageManager in before then before[r.packageManager] else [];
            Aggregated(results + [r])[q] == before[r.packageManager := Dedup(start + r.dependencies)][q]
  {
    var pm := r.packageManager;
    var c := Collected(results, q);
    CollectedAppend(results, r, q);
    ResultNamesAppend(results, r);
    AggregatedAt(results + [r], q);
    AggregatedAt(results, q);
    if q != pm {
      assert c + [] == c;
    } else if q in ResultNames(results) {
      DedupAppend(c, r.dependencies);
    } else {
      CollectedAbsent(results, q);
      assert c + r.dependencies == [] + r.dependencies;
    }
  }

  /** A lookup in the aggregated record. */
  lemma AggregatedAt(results: seq<ManagerResult>, q: string)
    ensures q in Aggregated(results) <==> q in ResultNames(results)
    ensures q in Aggregated(results) ==> Aggregated(results)[q] == Dedup(Collected(results, q))
  {
  }

  /** `for (const dependency of dependencies) group.push({ name, urls })` */
  method PushAll(group: seq<Dependency>, dependencies: seq<Dependency>) returns (pushed: seq<Dependency>)
    ensures pushed == group + dependencies
  {
    pushed := group;
    for k := 0 to |dependencies|
      invariant pushed == group + dependencies[..k]
    {
      pushed := pushed + [Dependency(dependencies[k].name, dependencies[k].urls)];
      SliceSnoc(dependencies, k);
    }
    assert dependencies[..|dependencies|] == dependencies;
  }

  /** The aggregation loop of `tryGetDependencies`: create the group on first sight,
      push the result's dependencies, de-duplicate the group. */
  method Aggregate(results: seq<ManagerResult>) returns (aggregated: map<string, seq<Dependency>>)
    ensures aggregated == Aggregated(results)
  {
    aggregated := map[];
    for i := 0 to |results|
      invariant aggregated == Aggregated(results[..i])
    {
      var packageManager, dependencies := results[i].packageManager, results[i].dependencies;
      ghost var before := aggregated;
      ghost var start := if packageManager in before then before[packageManager] else [];
      if packageManager !in aggregated {
        aggregated := aggregated[packageManager := []];
      }
      var group := PushAll(aggregated[packageManager], dependencies);
      group := RemoveDuplicateDependencies(group);
      aggregated := aggregated[packageManager := group];
      assert aggregated == before[packageManager := Dedup(start + dependencies)];
      AggregatedStep(results[..i], results[i]);
      SliceSnoc(results, i);
    }
    assert results[..|results|] == results;
  }

  /** The keys are the managers with a result, even a result with no dependency;
      each group is the first-wins de-duplication of everything that manager returned. */
  lemma AggregatedSpec(results: seq<ManagerResult>)
    ensures Aggregated(results).Keys == ResultNames(results)
    ensures forall pm :: pm in Aggregated(results) ==> UniqueNames(Aggregated(results)[pm])
    ensures forall pm, name :: pm in Aggregated(results) ==>
              (HasName(Aggregated(results)[pm], name) <==> HasName(Collected(results, pm), name))
  {
    forall pm | pm in Aggregated(results) ensures UniqueNames(Aggregated(results)[pm]) {
      DedupUnique(Collected(results, pm));
    }
    forall pm, name | pm in Aggregated(results)
      ensures HasName(Aggregated(results)[pm], name) <==> HasName(Collected(results, pm), name)
    {
      DedupNames(Collected(results, pm), name);
    }
  }

  /** Within a group, the first result wins: each entry is the first dependency of
      that name among everything the manager returned, in result order, and the
      entries keep the order of those first occurrences. */
  lemma AggregatedFirstOccurrences(results: seq<ManagerResult>, pm: string)
    requires pm in ResultNames(results)
    ensures pm in Aggregated(results)
    ensures var group, all := Aggregated(results)[pm], Collected(results, pm);
            && (forall i :: 0 <= i < |group| ==>
                  HasName(all, group[i].name) && group[i] == all[FirstIndex(all, group[i].name)])
            && (forall i, j :: 0 <= i < j < |group| ==>
                  FirstIndex(all, group[i].name) < FirstIndex(all, group[j].name))
  {
    AggregatedAt(results, pm);
    DedupFirstOccurrences(Collected(results, pm));
  }

  /* ---------------------------------------------------------------------------
     retry: at most retries + 1 calls, waits doubling from initialDelayMs between
     them, the first success or else the last error.
     --------------------------------------------------------------------------- */

  function Pow2(n: nat): (p: nat)
    ensures p >= 1
  {
    if n == 0 then 1 else 2 * Pow2(n - 1)
  }

  /** The waits after the first `n` failed attempts: initialDelayMs, twice that, ... */
  function Backoff(initialDelayMs: nat, n: nat): seq<nat>
  {
    if n == 0 then [] else Backoff(initialDelayMs, n - 1) + [initialDelayMs * Pow2(n - 1)]
  }

  function Sum(s: seq<nat>): nat
  {
    if s == [] then 0 else Sum(s[..|s| - 1]) + s[|s| - 1]
  }

  /** The k-th wait (from 0) is initialDelayMs * 2^k. */
  lemma {:induction false} BackoffAt(initialDelayMs: nat, n: nat, k: nat)
    requires k < n
    ensures |Backoff(initialDelayMs, n)| == n && Backoff(initialDelayMs, n)[k] == initialDelayMs * Pow2(k)
  {
    BackoffLength(initialDelayMs, n);
    if k < n - 1 {
      BackoffAt(initialDelayMs, n - 1, k);
    }
  }

  lemma {:induction false} BackoffLength(initialDelayMs: nat, n: nat)
    ensures |Backoff(initialDelayMs, n)| == n
  {
    if n > 0 {
      BackoffLength(initialDelayMs, n - 1);
    }
  }

  /** The waits of `n` failed attempts add up to initialDelayMs * (2^n - 1). */
  lemma {:induction false} BackoffTotal(initialDelayMs: nat, n: nat)
    ensures Sum(Backoff(initialDelayMs, n)) == initialDelayMs * (Pow2(n) - 1)
  {
    if n > 0 {
      BackoffTotal(initialDelayMs, n - 1);
      var d, p := initialDelayMs, Pow2(n - 1);
      var prev := Backoff(d, n - 1);
      var b := prev + [d * p];
      assert b[..|b| - 1] == prev;
      assert Sum(b) == Sum(prev) + d * p;
      DoublingStep(d, p);
    }
  }

  lemma DoublingStep(d: int, p: int)
    ensures d * (p - 1) + d * p == d * (2 * p - 1)
  {
    calc {
      d * (p - 1) + d * p;
      (d * p - d) + d * p;
      d * (2 * p) - d;
    }
  }

  /** With the defaults the waits are 1000, 2000 and 4000 ms, 7000 ms in all. */
  lemma DefaultBackoff()
    ensures Backoff(1000, 3) == [1000, 2000, 4000]
    ensures Sum(Backoff(1000, 3)) == 7000
  {
    BackoffTotal(1000, 3);
  }

  /** `retry(asyncFn, retries, initialDelayMs)`. `asyncFn(k)` is the outcome of the
      k-th call (from 1); `calls` is how many calls were made and `waits` the
      `setTimeout` delays in order. */
  method Retry<T>(asyncFn: nat -> Result<T, Error>, retries: nat, initialDelayMs: nat)
    returns (r: Result<T, Error>, calls: nat, waits: seq<nat>)
    ensures 1 <= calls <= retries + 1
    ensures r == asyncFn(calls)
    ensures forall k :: 1 <= k < calls ==> asyncFn(k).Failure?
    ensures r.Failure? ==> calls == retries + 1
    ensures waits == Backoff(initialDelayMs, calls - 1)
  {
    var delay := initialDelayMs;
    var lastError: Option<Error> := None;
    waits := [];
    var attempt := 1;
    while attempt <= retries + 1
      invariant 1 <= attempt <= retries + 2
      invariant forall k :: 1 <= k < attempt ==> asyncFn(k).Failure?
      invariant attempt > 1 ==> lastError == Some(asyncFn(attempt - 1).error)
      invariant delay == initialDelayMs * Pow2(if attempt <= retries + 1 then attempt - 1 else retries)
      invariant waits == Backoff(initialDelayMs, if attempt <= retries + 1 then attempt - 1 else retries)
    {
      var outcome := asyncFn(attempt);
      if outcome.Success? {
        return outcome, attempt, waits;
      }
      lastError := Some(outcome.error);
      if attempt < retries + 1 {
        waits := waits + [delay];
        assert initialDelayMs * Pow2(attempt) == initialDelayMs * Pow2(attempt - 1) * 2;
        delay := delay * 2;
      }
      attempt := attempt + 1;
    }
    r, calls := Failure(lastError.value), retries + 1;
  }

  /* ---------------------------------------------------------------------------
     tryGetDependencies and discoverUrls.
     --------------------------------------------------------------------------- */

  /** What the world does during one attempt: the clone fails, or it succeeds and
      the managers' globs find `files` (flattened in manager order) and
      `getDependencies(m, path)` is what manager `m` resolves or throws for `path`. */
  datatype Attempt =
    | NotCloned(error: Error)
    | Cloned(files: seq<string>, getDependencies: (Manager, string) -> Result<seq<Dependency>, Error>)

  function Resolve(getDependencies: (Manager, string) -> Result<seq<Dependency>, Error>, job: Job): Result<ManagerResult, Error>
  {
    match getDependencies(job.manager, job.filePath)
    case Failure(e) => Failure(e)
    case Success(deps) => Success(ManagerResult(job.manager.Name(), deps))
  }

  function Resolver(getDependencies: (Manager, string) -> Result<seq<Dependency>, Error>): Job -> Result<ManagerResult, Error>
  {
    (job: Job) => Resolve(getDependencies, job)
  }

  /** `Promise.all(dependenciesPromises)`: every result in job order, or an error. */
  function Results(attempt: Attempt): Result<seq<ManagerResult>, Error>
    requires attempt.Cloned?
  {
    CollectAll(Jobs(attempt.files), Resolver(attempt.getDependencies))
  }

  /** What `tryGetDependencies` returns: `None` (`undefined`) when anything threw. */
  function AttemptOutcome(attempt: Attempt): Option<map<string, seq<Dependency>>>
  {
    match attempt
    case NotCloned(_) => None
    case Cloned(_, _) =>
      match Results(attempt)
      case Failure(_) => None
      case Success(results) => Some(Aggregated(results))
  }

  /** `await Promise.all(dependenciesPromises)`, in job order. */
  method AwaitAll(jobs: seq<Job>, getDependencies: (Manager, string) -> Result<seq<Dependency>, Error>)
    returns (all: Result<seq<ManagerResult>, Error>)
    ensures all == CollectAll(jobs, Resolver(getDependencies))
  {
    var f := Resolver(getDependencies);
    var results: seq<ManagerResult> := [];
    for i := 0 to |jobs|
      invariant CollectAll(jobs[..i], f) == Success(results)
    {
      var outcome := getDependencies(jobs[i].manager, jobs[i].filePath);
      if outcome.Failure? {
        CollectAllFailsAt(jobs, i, f);
        return Failure(outcome.error);
      }
      CollectAllNext(jobs, i, f);
      results := results + [ManagerResult(jobs[i].manager.Name(), outcome.value)];
    }
    assert jobs[..|jobs|] == jobs;
    all := Success(results);
  }

  /** `tryGetDependencies`: dispatch, await every `getDependencies`, aggregate;
      every error is caught and turned into `undefined`. */
  method TryGetDependencies(attempt: Attempt) returns (r: Option<map<string, seq<Dependency>>>)
    ensures r == AttemptOutcome(attempt)
  {
    if attempt.NotCloned? {
      return None;
    }
    var jobs := DispatchFiles(attempt.files);
    var all := AwaitAll(jobs, attempt.getDependencies);
    if all.Failure? {
      return None;
    }
    var aggregated := Aggregate(all.value);
    r := Some(aggregated);
  }

  /** An attempt yields a record exactly when the clone worked and no claimed file's
      `getDependencies` threw: one failing manifest voids the whole attempt. Its keys
      are the names of the managers that received a file, even one without
      dependencies, and every group has unique names. */
  lemma AttemptOutcomeSpec(files: seq<string>, getDependencies: (Manager, string) -> Result<seq<Dependency>, Error>)
    ensures var outcome := AttemptOutcome(Cloned(files, getDependencies));
            && (outcome.Some? <==> forall j :: j in Jobs(files) ==> getDependencies(j.manager, j.filePath).Success?)
            && (outcome.Some? ==> outcome.value.Keys == set j | j in Jobs(files) :: j.manager.Name())
            && (outcome.Some? ==> forall pm :: pm in outcome.value ==> UniqueNames(outcome.value[pm]))
  {
    var jobs := Jobs(files);
    var results := CollectAll(jobs, Resolver(getDependencies));
    ResultsSucceed(jobs, getDependencies);
    if results.Success? {
      ResultsNames(jobs, getDependencies, results.value);
      AggregatedSpec(results.value);
    }
  }

  lemma ResultsSucceed(jobs: seq<Job>, getDependencies: (Manager, string) -> Result<seq<Dependency>, Error>)
    ensures CollectAll(jobs, Resolver(getDependencies)).Success? <==>
              forall j :: j in jobs ==> getDependencies(j.manager, j.filePath).Success?
  {
    var f := Resolver(getDependencies);
    if !CollectAll(jobs, f).Success? {
      var i :| 0 <= i < |jobs| && f(jobs[i]).Failure?;
      assert jobs[i] in jobs;
    } else {
      forall j | j in jobs ensures getDependencies(j.manager, j.filePath).Success? {
        var i :| 0 <= i < |jobs| && jobs[i] == j;
        assert f(jobs[i]).Success?;
      }
    }
  }

  lemma ResultsNames(jobs: seq<Job>, getDependencies: (Manager, string) -> Result<seq<Dependency>, Error>, rs: seq<ManagerResult>)
    requires CollectAll(jobs, Resolver(getDependencies)) == Success(rs)
    ensures ResultNames(rs) == set j | j in jobs :: j.manager.Name()
  {
    var f := Resolver(getDependencies);
    forall r | r in rs ensures exists j :: j in jobs && j.manager.Name() == r.packageManager {
      var i :| 0 <= i < |rs| && rs[i] == r;
      assert rs[i] == f(jobs[i]).value;
      assert jobs[i] in jobs;
    }
    forall j | j in jobs ensures j.manager.Name() in ResultNames(rs) {
      var i :| 0 <= i < |jobs| && jobs[i] == j;
      assert rs[i] == f(jobs[i]).value;
      assert rs[i] in rs;
    }
  }

  /** `discoverUrls`: three retries from 1000 ms around `tryGetDependencies`; a final
      error is caught and gives `undefined`. `attempts(k)` is what the world does
      during the k-th attempt. */
  method DiscoverUrls(attempts: nat -> Attempt) returns (r: Option<map<string, seq<Dependency>>>, calls: nat, waits: seq<nat>)
    ensures calls == 1 && waits == []
    ensures r == AttemptOutcome(attempts(1))
  {
    var tryGetDependencies := (k: nat) => Success(AttemptOutcome(attempts(k)));
    var outcome;
    outcome, calls, waits := Retry(tryGetDependencies, 3, 1000);
    assert tryGetDependencies(1).Success?;
    r := if outcome.Success? then outcome.value else None;
  }

  /* ---------------------------------------------------------------------------
     Finding: because tryGetDependencies catches every error, retry never sees a
     failure. Below, the attempt with its errors propagated, as the retry evidently
     intends.
     --------------------------------------------------------------------------- */

  /** A failed clone, then a working one: as written, the second attempt never happens. */
  lemma NoRetryAfterCloneFailure()
    ensures var attempts := (k: nat) => if k == 1 then NotCloned(CloneFailed("https://example.org/r.git"))
                                        else Cloned([], (m: Manager, p: string) => Success([]));
            && AttemptOutcome(attempts(1)).None?
            && AttemptOutcome(attempts(2)) == Some(map[])
  {
    var attempts := (k: nat) => if k == 1 then NotCloned(CloneFailed("https://example.org/r.git"))
                                else Cloned([], (m: Manager, p: string) => Success([]));
    var a := attempts(2);
    assert Jobs(a.files) == [];
    assert Results(a) == Success([]);
    assert Aggregated([]) == map[];
  }

  /** One attempt with its errors propagated to the caller. */
  function AttemptResult(attempt: Attempt): (r: Result<map<string, seq<Dependency>>, Error>)
    ensures r.Success? <==> AttemptOutcome(attempt).Some?
    ensures r.Success? ==> AttemptOutcome(attempt) == Some(r.value)
  {
    match attempt
    case NotCloned(e) => Failure(e)
    case Cloned(_, _) =>
      match Results(attempt)
      case Failure(e) => Failure(e)
      case Success(results) => Success(Aggregated(results))
  }

  /** `discoverUrls` with the errors of an attempt reaching `retry`: it returns the
      record of the first attempt that works, trying at most four times, and
      `undefined` only when all four fail. */
  method DiscoverUrlsRetrying(attempts: nat -> Attempt) returns (r: Option<map<string, seq<Dependency>>>, calls: nat, waits: seq<nat>)
    ensures 1 <= calls <= 4
    ensures r.Some? <==> exists k :: 1 <= k <= 4 && AttemptOutcome(attempts(k)).Some?
    ensures r.Some? ==> r == AttemptOutcome(attempts(calls))
    ensures forall k :: 1 <= k < calls ==> AttemptOutcome(attempts(k)).None?
    ensures waits == Backoff(1000, calls - 1)
  {
    var tryGetDependencies := (k: nat) => AttemptResult(attempts(k));
    var outcome;
    outcome, calls, waits := Retry(tryGetDependencies, 3, 1000);
    r := if outcome.Success? then Some(outcome.value) else None;
    forall k | 1 <= k < calls ensures AttemptOutcome(attempts(k)).None? {
      assert tryGetDependencies(k).Failure?;
    }
    if outcome.Success? {
      assert tryGetDependencies(calls) == AttemptResult(attempts(calls));
    } else {
      forall k | 1 <= k <= 4 ensures AttemptOutcome(attempts(k)).None? {
        assert tryGetDependencies(k).Failure?;
      }
    }
  }
}
