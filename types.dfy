/** The records every package manager produces (`src/types.ts`) and the error
    model shared by the managers whose loops stop at the first thrown error. */
module Types {
  import opened Wrappers

  /** `DependencyUrls`: URL kind to URL. A key bound to `None` is present but holds
      `undefined`, as `{ package, repo: repoUrl }` does when no repository was found. */
  type Urls = map<string, Option<string>>

  datatype Dependency = Dependency(name: string, urls: Urls)

  /** What a thrown error is about. Messages and stack traces are not modelled. */
  datatype Error =
    | CloneFailed(gitUrl: string)     // the clone of the target repository failed
    | ManifestUnreadable(path: string) // reading or parsing a manifest failed
    | HttpNotOk(url: string)          // a response the code treats as fatal
    | TypeError(detail: string)       // a property read on `undefined`
    | GitRootNotFound(path: string)   // `git.findRoot` found no repository
    | InvalidUrl(url: string)         // `new URL(...)` rejected its input

  /** JavaScript truthiness of a string that may be `undefined`. */
  predicate Truthy(v: Option<string>)
  {
    v.Some? && v.value != ""
  }

  /** How a template literal renders a string that may be `undefined`. */
  function Render(v: Option<string>): string
  {
    if v.Some? then v.value else "undefined"
  }

  /** A loop that visits `xs` in order, awaits `f` on each element and stops at the
      first error thrown: the values in order when nothing throws, otherwise the
      first error. */
  function CollectAll<X, T>(xs: seq<X>, f: X -> Result<T, Error>): (r: Result<seq<T>, Error>)
    ensures r.Success? <==> forall i :: 0 <= i < |xs| ==> f(xs[i]).Success?
    ensures r.Success? ==> |r.value| == |xs| && forall i :: 0 <= i < |xs| ==> r.value[i] == f(xs[i]).value
    ensures r.Failure? ==> exists i :: 0 <= i < |xs| && f(xs[i]).Failure? && f(xs[i]).error == r.error
                                       && forall j :: 0 <= j < i ==> f(xs[j]).Success?
  {
    if xs == [] then Success([])
    else
      var n := |xs| - 1;
      assert forall i :: 0 <= i < n ==> xs[..n][i] == xs[i];
      match CollectAll(xs[..n], f)
      case Failure(e) => Failure(e)
      case Success(vs) =>
        match f(xs[n])
        case Failure(e) => Failure(e)
        case Success(v) => Success(vs + [v])
  }

  /** Once an error is thrown, visiting more elements changes nothing. */
  lemma {:induction false} CollectAllStops<X, T>(xs: seq<X>, ys: seq<X>, f: X -> Result<T, Error>)
    requires CollectAll(xs, f).Failure?
    ensures CollectAll(xs + ys, f).Failure? && CollectAll(xs + ys, f).error == CollectAll(xs, f).error
    decreases |ys|
  {
    if ys == [] {
      assert xs + ys == xs;
    } else {
      var m := |ys| - 1;
      CollectAllStops(xs, ys[..m], f);
      assert (xs + ys)[..|xs + ys| - 1] == xs + ys[..m];
    }
  }

  /** Visiting one more element that does not throw appends its value. */
  lemma CollectAllStep<X, T>(xs: seq<X>, x: X, f: X -> Result<T, Error>)
    requires CollectAll(xs, f).Success? && f(x).Success?
    ensures CollectAll(xs + [x], f) == Success(CollectAll(xs, f).value + [f(x).value])
  {
    assert (xs + [x])[..|xs|] == xs;
  }

  /** Visiting one more element that throws ends with its error. */
  lemma CollectAllThrow<X, T>(xs: seq<X>, x: X, f: X -> Result<T, Error>)
    requires CollectAll(xs, f).Success? && f(x).Failure?
    ensures CollectAll(xs + [x], f).Failure? && CollectAll(xs + [x], f).error == f(x).error
  {
    assert (xs + [x])[..|xs|] == xs;
  }

  /** A left-to-right loop over `xs` that has reached `i` without a throw and
      succeeds at `xs[i]` extends its values by one. */
  lemma CollectAllNext<X, T>(xs: seq<X>, i: nat, f: X -> Result<T, Error>)
    requires i < |xs| && CollectAll(xs[..i], f).Success? && f(xs[i]).Success?
    ensures CollectAll(xs[..i + 1], f) == Success(CollectAll(xs[..i], f).value + [f(xs[i]).value])
  {
    CollectAllStep(xs[..i], xs[i], f);
    SliceSnoc(xs, i);
  }

  /** A left-to-right loop over `xs` that has reached `i` without a throw and
      throws at `xs[i]` ends the whole visit with that error. */
  lemma CollectAllFailsAt<X, T>(xs: seq<X>, i: nat, f: X -> Result<T, Error>)
    requires i < |xs| && CollectAll(xs[..i], f).Success? && f(xs[i]).Failure?
    ensures CollectAll(xs, f) == Failure(f(xs[i]).error)
  {
    CollectAllThrow(xs[..i], xs[i], f);
    SliceSnoc(xs, i);
    CollectAllStops(xs[..i + 1], xs[i + 1..], f);
    SliceJoin(xs, i + 1);
  }

  /* Two facts about slices, kept apart from the functions above so that proving
     them does not unfold those functions. */

  lemma SliceSnoc<X>(xs: seq<X>, i: nat)
    requires i < |xs|
    ensures xs[..i] + [xs[i]] == xs[..i + 1]
  {
  }

  lemma SliceJoin<X>(xs: seq<X>, i: nat)
    requires i <= |xs|
    ensures xs[..i] + xs[i..] == xs
  {
  }

  /** A loop that visits `xs` in order and pushes `f(x)` whenever there is one. */
  function FilterMap<X, Y>(xs: seq<X>, f: X -> Option<Y>): seq<Y>
  {
    if xs == [] then []
    else
      var last := f(xs[|xs| - 1]);
      FilterMap(xs[..|xs| - 1], f) + (if last.Some? then [last.value] else [])
  }

  /** Everything pushed comes from an element. */
  lemma {:induction false} FilterMapSound<X, Y>(xs: seq<X>, f: X -> Option<Y>)
    ensures forall y :: y in FilterMap(xs, f) ==> exists x :: x in xs && f(x) == Some(y)
  {
    if xs != [] {
      var n := |xs| - 1;
      FilterMapSound(xs[..n], f);
      forall y | y in FilterMap(xs, f) ensures exists x :: x in xs && f(x) == Some(y) {
        if y in FilterMap(xs[..n], f) {
          var x :| x in xs[..n] && f(x) == Some(y);
          assert x in xs;
        } else {
          assert xs[n] in xs;
        }
      }
    }
  }

  /** Every element that has a value gets it pushed. */
  lemma {:induction false} FilterMapComplete<X, Y>(xs: seq<X>, f: X -> Option<Y>)
    ensures forall x :: x in xs && f(x).Some? ==> f(x).value in FilterMap(xs, f)
  {
    if xs != [] {
      var n := |xs| - 1;
      FilterMapComplete(xs[..n], f);
      forall x | x in xs && f(x).Some? ensures f(x).value in FilterMap(xs, f) {
        if x != xs[n] {
          var k :| 0 <= k < |xs| && xs[k] == x;
          assert xs[..n][k] == x;
        }
      }
    }
  }

  /** Nothing is pushed twice for one element: at most one value per element. */
  lemma {:induction false} FilterMapLength<X, Y>(xs: seq<X>, f: X -> Option<Y>)
    ensures |FilterMap(xs, f)| <= |xs|
  {
    if xs != [] {
      FilterMapLength(xs[..|xs| - 1], f);
    }
  }

  lemma FilterMapNext<X, Y>(xs: seq<X>, i: nat, f: X -> Option<Y>)
    requires i < |xs|
    ensures FilterMap(xs[..i + 1], f) == FilterMap(xs[..i], f) + (if f(xs[i]).Some? then [f(xs[i]).value] else [])
  {
    assert xs[..i + 1][..i] == xs[..i];
  }

  /** What the walk has pushed after the first `i` elements stays at the front. */
  lemma {:induction false} FilterMapPrefix<X, Y>(xs: seq<X>, i: nat, f: X -> Option<Y>)
    requires i <= |xs|
    ensures FilterMap(xs[..i], f) <= FilterMap(xs, f)
    decreases |xs| - i
  {
    if i == |xs| {
      assert xs[..i] == xs;
    } else {
      FilterMapPrefix(xs, i + 1, f);
      FilterMapNext(xs, i, f);
    }
  }

  /** The value of element `i` is pushed right after the values of the elements
      before it. */
  lemma FilterMapAt<X, Y>(xs: seq<X>, i: nat, f: X -> Option<Y>)
    requires i < |xs| && f(xs[i]).Some?
    ensures |FilterMap(xs[..i], f)| < |FilterMap(xs, f)|
    ensures FilterMap(xs, f)[|FilterMap(xs[..i], f)|] == f(xs[i]).value
  {
    FilterMapNext(xs, i, f);
    FilterMapPrefix(xs, i + 1, f);
  }

  /** An element with a value pushes it before anything a later element pushes. */
  lemma FilterMapOrder<X, Y>(xs: seq<X>, i: nat, j: nat, f: X -> Option<Y>)
    requires i < j <= |xs| && f(xs[i]).Some?
    ensures |FilterMap(xs[..i], f)| < |FilterMap(xs[..j], f)|
  {
    var prefix := xs[..j];
    assert prefix[..i] == xs[..i] && prefix[i] == xs[i];
    FilterMapAt(prefix, i, f);
  }

  /* A walk over sections, each of which may be missing, that stops at the first
     error thrown: the shape of the nested loops of the structured-manifest
     walkers. */

  /** The elements of a section, none when it is missing. */
  function Present<X>(section: Option<seq<X>>): seq<X>
  {
    if section.Some? then section.value else []
  }

  /** The elements of the sections, one section after the other. */
  function Flatten<X>(sections: seq<Option<seq<X>>>): seq<X>
  {
    if sections == [] then []
    else Flatten(sections[..|sections| - 1]) + Present(sections[|sections| - 1])
  }

  lemma {:induction false} FlattenAppend<X>(xs: seq<Option<seq<X>>>, ys: seq<Option<seq<X>>>)
    ensures Flatten(xs + ys) == Flatten(xs) + Flatten(ys)
    decreases |ys|
  {
    if ys == [] {
      assert xs + ys == xs;
    } else {
      var m := |ys| - 1;
      FlattenAppend(xs, ys[..m]);
      AppendLast(xs, ys);
      FlattenLast(xs + ys);
      FlattenLast(ys);
      Assoc(Flatten(xs), Flatten(ys[..m]), Present(ys[m]));
    }
  }

  lemma FlattenLast<X>(sections: seq<Option<seq<X>>>)
    requires sections != []
    ensures Flatten(sections) == Flatten(sections[..|sections| - 1]) + Present(sections[|sections| - 1])
  {
  }

  lemma AppendLast<X>(xs: seq<X>, ys: seq<X>)
    requires ys != []
    ensures (xs + ys)[..|xs + ys| - 1] == xs + ys[..|ys| - 1]
    ensures (xs + ys)[|xs + ys| - 1] == ys[|ys| - 1]
  {
  }

  lemma Assoc<X>(a: seq<X>, b: seq<X>, c: seq<X>)
    ensures (a + b) + c == a + (b + c)
  {
  }

  lemma FlattenNext<X>(sections: seq<Option<seq<X>>>, j: nat)
    requires j < |sections|
    ensures Flatten(sections[..j + 1]) == Flatten(sections[..j]) + Present(sections[j])
  {
    assert sections[..j + 1][..j] == sections[..j];
  }

  lemma SnocJoin<X>(xs: seq<X>, ys: seq<X>, i: nat)
    requires i < |ys|
    ensures (xs + ys[..i]) + [ys[i]] == xs + ys[..i + 1]
  {
    assert ys[..i] + [ys[i]] == ys[..i + 1];
  }

  lemma Regroup<X>(a: seq<X>, b: seq<X>, c: seq<X>, d: seq<X>)
    ensures (a + (b + c)) + d == (a + b) + (c + d)
  {
  }

  /** The elements of all sections, cut after element `i` of section `j`. */
  lemma WalkSplit<X>(sections: seq<Option<seq<X>>>, j: nat, i: nat)
    requires j < |sections| && i < |Present(sections[j])|
    ensures var before, section := Flatten(sections[..j]), Present(sections[j]);
            Flatten(sections) == (before + section[..i + 1]) + (section[i + 1..] + Flatten(sections[j + 1..]))
  {
    var before, section, after := Flatten(sections[..j]), Present(sections[j]), Flatten(sections[j + 1..]);
    FlattenNext(sections, j);
    FlattenAppend(sections[..j + 1], sections[j + 1..]);
    SliceJoin(sections, j + 1);
    SliceJoin(section, i + 1);
    Regroup(before, section[..i + 1], section[i + 1..], after);
  }

  /** An element that throws ends the whole walk with its error. */
  lemma ThrowInside<X, T>(sections: seq<Option<seq<X>>>, j: nat, i: nat, f: X -> Result<T, Error>)
    requires j < |sections| && i < |Present(sections[j])|
    requires CollectAll(Flatten(sections[..j]) + Present(sections[j])[..i], f).Success?
    requires f(Present(sections[j])[i]).Failure?
    ensures CollectAll(Flatten(sections), f) == Failure(f(Present(sections[j])[i]).error)
  {
    var before, section := Flatten(sections[..j]), Present(sections[j]);
    CollectAllThrow(before + section[..i], section[i], f);
    SnocJoin(before, section, i);
    var rest := section[i + 1..] + Flatten(sections[j + 1..]);
    CollectAllStops(before + section[..i + 1], rest, f);
    WalkSplit(sections, j, i);
  }

  /* A walk that skips the elements a test rejects and stops at the first error
     thrown on the others. */

  /** The elements that `p` accepts, in order. */
  function Filter<X>(xs: seq<X>, p: X -> bool): seq<X>
  {
    if xs == [] then []
    else Filter(xs[..|xs| - 1], p) + (if p(xs[|xs| - 1]) then [xs[|xs| - 1]] else [])
  }

  /** The elements kept are exactly the elements `p` accepts. */
  lemma {:induction false} FilterSpec<X>(xs: seq<X>, p: X -> bool)
    ensures forall x :: x in Filter(xs, p) <==> x in xs && p(x)
  {
    if xs != [] {
      var n := |xs| - 1;
      FilterSpec(xs[..n], p);
      assert xs == xs[..n] + [xs[n]];
    }
  }

  lemma FilterNext<X>(xs: seq<X>, i: nat, p: X -> bool)
    requires i < |xs|
    ensures Filter(xs[..i + 1], p) == Filter(xs[..i], p) + (if p(xs[i]) then [xs[i]] else [])
  {
    assert xs[..i + 1][..i] == xs[..i];
  }

  lemma {:induction false} FilterAppend<X>(xs: seq<X>, ys: seq<X>, p: X -> bool)
    ensures Filter(xs + ys, p) == Filter(xs, p) + Filter(ys, p)
    decreases |ys|
  {
    if ys == [] {
      assert xs + ys == xs;
    } else {
      var m := |ys| - 1;
      FilterAppend(xs, ys[..m], p);
      AppendLast(xs, ys);
      FilterLast(xs + ys, p);
      FilterLast(ys, p);
      Assoc(Filter(xs, p), Filter(ys[..m], p), if p(ys[m]) then [ys[m]] else []);
    }
  }

  lemma FilterLast<X>(xs: seq<X>, p: X -> bool)
    requires xs != []
    ensures Filter(xs, p) == Filter(xs[..|xs| - 1], p) + (if p(xs[|xs| - 1]) then [xs[|xs| - 1]] else [])
  {
  }

  /** A kept element that throws ends the whole walk with its error. */
  lemma ThrowAtKept<X, T>(xs: seq<X>, i: nat, p: X -> bool, f: X -> Result<T, Error>)
    requires i < |xs| && p(xs[i])
    requires CollectAll(Filter(xs[..i], p), f).Success? && f(xs[i]).Failure?
    ensures CollectAll(Filter(xs, p), f) == Failure(f(xs[i]).error)
  {
    CollectAllThrow(Filter(xs[..i], p), xs[i], f);
    FilterNext(xs, i, p);
    CollectAllStops(Filter(xs[..i + 1], p), Filter(xs[i + 1..], p), f);
    FilterAppend(xs[..i + 1], xs[i + 1..], p);
    SliceJoin(xs, i + 1);
  }
}

