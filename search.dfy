/** The backtracking coordinator `match_all`: specs are matched in order
    against a private copy of the line pool; after every match that bound new
    variables a choice point is remembered, and when a spec fails the choice
    points are retried, newest first, one recursion level deeper. */
module Search {
  import opened Outcomes
  import opened Text
  import opened Matcher

  // ---------------------------------------------------------------------------
  // Publishing `$$name` variables (lines 200-205).

  /** The variable is one of the `$`-prefixed keys that `$$name` specs bind. */
  predicate Marked(k: string) {
    k != [] && k[0] == '$'
  }

  /** The `$`-prefixed keys of `arr`, each under its name without the `$`. */
  function Exported(arr: Vars): (r: Vars)
    ensures forall d :: d in arr && Marked(d) ==> d[1..] in r && r[d[1..]] == arr[d]
    ensures forall k :: k in r ==> "$" + k in arr && r[k] == arr["$" + k]
  {
    assert forall d :: Marked(d) ==> d == "$" + d[1..];
    map d | d in arr && Marked(d) :: d[1..] := arr[d]
  }

  /** `arr` with every `$`-prefixed key replaced by its name without the `$`;
      a renamed key takes the place of an unmarked key of the same name. */
  function Published(arr: Vars): (r: Vars)
    ensures forall d :: d in arr && Marked(d) ==> d[1..] in r && r[d[1..]] == arr[d]
    ensures forall k :: k in r ==> ("$" + k in arr && r[k] == arr["$" + k]) || (k in arr && !Marked(k) && r[k] == arr[k])
    ensures forall k :: k in arr && !Marked(k) && "$" + k !in arr ==> k in r && r[k] == arr[k]
  {
    (map k | k in arr && !Marked(k) :: arr[k]) + Exported(arr)
  }

  /** The rename at the end of a successful `match_all`, done over the keys as
      they are before it starts: every `$k` leaves `arr` for `k`, and `k` is
      also written into `arr2`. The empty key, which a spec field `$` binds,
      fails the `key[0]` test with `IndexError`. */
  function Rename(arr: Vars, arr2: Vars): (r: Result<(Vars, Vars)>)
    ensures r.Raise? <==> "" in arr
    ensures r.Raise? ==> r.error == IndexError
  {
    if "" in arr then Raise(IndexError) else Ok((Published(arr), arr2 + Exported(arr)))
  }

  /** After the rename, each `$k` of `arr` is found under `k` in both
      dictionaries, `arr2` keeps every other entry, and no unmarked key of
      `arr` is lost unless a renamed key took its place. */
  lemma RenameMoves(arr: Vars, arr2: Vars)
    requires "" !in arr
    ensures var (a, b) := Rename(arr, arr2).value;
      && (forall d :: d in arr && Marked(d) ==> d[1..] in a && a[d[1..]] == arr[d] && d[1..] in b && b[d[1..]] == arr[d])
      && (forall k :: k in arr2 && "$" + k !in arr ==> k in b && b[k] == arr2[k])
      && (forall k :: k in arr && !Marked(k) && "$" + k !in arr ==> k in a && a[k] == arr[k])
      && (forall k :: k in a ==> "$" + k in arr || k in arr)
  {
  }

  // ---------------------------------------------------------------------------
  // The coordinator (lines 161-206).

  /** `match_spec(spec, lines, arr)` for the coordinator, which always uses
      `_adder`. It is a parameter of the coordinator's definition so that the
      properties proved about the coordinator hold for any matcher with the
      pool behaviour of `match_spec`. */
  type Matching = (Vars, Fields, seq<Fields>) -> Step

  /** The matcher the coordinator calls. */
  function SpecMatcher(ext: Expr.Foreign): Matching {
    (vars: Vars, spec: Fields, lines: seq<Fields>) => SpecMatch(ext, Overwrite, vars, spec, lines)
  }

  /** A found line leaves the pool one line shorter; nothing found leaves it
      as it was. */
  ghost predicate PoolSafe(m: Matching) {
    forall vars: Vars, spec: Fields, lines: seq<Fields> ::
      var st := m(vars, spec, lines);
      (Found(st) ==> |st.lines| == |lines| - 1) && (st.found == Ok(None) ==> st.lines == lines)
  }

  lemma SpecMatcherPoolSafe(ext: Expr.Foreign)
    ensures PoolSafe(SpecMatcher(ext))
  {
  }

  /** The recursion depth at which `match_all` gives up. */
  const MaxLevel: nat := 50

  /** A choice point: the pool with the matched line put back at its end, the
      specs from the one that matched on, and the dictionary as it was before
      that match. */
  datatype Point = Point(lines: seq<Fields>, specs: seq<Fields>, arr: Vars)

  /** What a call of `match_all` leaves behind: its result and the two
      dictionaries it was given. */
  datatype Outcome = Outcome(result: Result<bool>, arr: Vars, arr2: Vars)

  /** How a successful retry hands its bindings to `arr`: as written, the
      retry's dictionary is laid over `arr` (lines 185-186); the evidently
      intended hand-over replaces `arr` by it. */
  datatype Handover = Overlay | Replace

  /** `arr` after a retry that returned `True` with the dictionary `newArr`. */
  function Merge(h: Handover, arr: Vars, newArr: Vars): (r: Vars)
    ensures forall k :: k in newArr ==> k in r && r[k] == newArr[k]
    ensures h == Overlay ==> r.Keys == arr.Keys + newArr.Keys && forall k :: k in arr && k !in newArr ==> r[k] == arr[k]
    ensures h == Replace ==> r.Keys == newArr.Keys
  {
    match h
    case Overlay => arr + newArr
    case Replace => newArr
  }

  /** `match_all(lines, specs, arr, arr2, level=level)`. */
  function Run(m: Matching, h: Handover, lines: seq<Fields>, specs: seq<Fields>, arr: Vars, arr2: Vars, level: nat): (r: Outcome)
    requires level <= MaxLevel
    ensures level == MaxLevel ==> r == Outcome(Ok(false), arr, arr2)
    decreases MaxLevel - level, 2, 0
  {
    if level == MaxLevel then Outcome(Ok(false), arr, arr2)
    else Loop(m, h, lines, specs, arr, arr2, level, arr, [])
  }

  /** The `while len(specs) > 0` loop with the remaining pool `lines`, the
      remaining `specs`, the dictionary `arr` as it is now, `copyArr` as it
      was after the last match that changed it, and the choice points. */
  function Loop(m: Matching, h: Handover, lines: seq<Fields>, specs: seq<Fields>, arr: Vars, arr2: Vars, level: nat,
                copyArr: Vars, points: seq<Point>): (r: Outcome)
    requires level < MaxLevel
    decreases MaxLevel - level, 1, |specs|
  {
    if specs == [] then
      match Rename(arr, arr2)
      case Raise(e) => Outcome(Raise(e), arr, arr2)
      case Ok(published) => Outcome(Ok(true), published.0, published.1)
    else
      var st := m(arr, specs[0], lines);
      match st.found
      case Raise(e) => Outcome(Raise(e), st.vars, arr2)
      case Ok(None) => Retry(m, h, points, st.vars, arr2, level)
      case Ok(Some(line)) =>
        if st.vars != copyArr then
          Loop(m, h, st.lines, specs[1..], st.vars, arr2, level, st.vars, points + [Point(st.lines + [line], specs, copyArr)])
        else
          Loop(m, h, st.lines, specs[1..], st.vars, arr2, level, copyArr, points)
  }

  /** The `while len(points) > 0` loop: the newest choice point is retried one
      level deeper on its own copy of the dictionary; when that succeeds, the
      copy is handed over to `arr`. */
  function Retry(m: Matching, h: Handover, points: seq<Point>, arr: Vars, arr2: Vars, level: nat): (r: Outcome)
    requires level < MaxLevel
    decreases MaxLevel - level, 0, |points|
  {
    if points == [] then Outcome(Ok(false), arr, arr2)
    else
      var p := points[|points| - 1];
      var sub := Run(m, h, p.lines, p.specs, p.arr, arr2, level + 1);
      match sub.result
      case Raise(e) => Outcome(Raise(e), arr, sub.arr2)
      case Ok(true) => Outcome(Ok(true), Merge(h, arr, sub.arr), sub.arr2)
      case Ok(false) => Retry(m, h, points[..|points| - 1], arr, sub.arr2, level)
  }

  /** `arr2` as publishing some dictionary `pre` into it leaves it, with the
      published bindings of `pre` all in `arr` (and, with the replacing
      hand-over, exactly them). */
  ghost predicate PublishedFrom(h: Handover, arr2: Vars, r: Outcome) {
    exists pre: Vars :: PublishedBy(h, arr2, r, pre)
  }

  /** The same, for the dictionary `pre`. */
  predicate PublishedBy(h: Handover, arr2: Vars, r: Outcome, pre: Vars) {
    && Rename(pre, arr2) == Ok((Published(pre), r.arr2))
    && Extends(r.arr, Published(pre))
    && (h == Replace ==> r.arr == Published(pre))
  }

  /** `arr2` is written only by the rename that ends a successful call:
      unless the result is `True` it is given back unchanged, and when it is
      `True` it is what the rename of some dictionary makes of it, and the
      published bindings are in `arr`. */
  lemma {:induction false} RunPublishes(m: Matching, h: Handover, lines: seq<Fields>, specs: seq<Fields>, arr: Vars, arr2: Vars, level: nat)
    requires level <= MaxLevel
    ensures var r := Run(m, h, lines, specs, arr, arr2, level);
      (r.result == Ok(true) ==> PublishedFrom(h, arr2, r)) && (r.result != Ok(true) ==> r.arr2 == arr2)
    decreases MaxLevel - level, 2, 0
  {
    if level < MaxLevel {
      LoopPublishes(m, h, lines, specs, arr, arr2, level, arr, []);
    }
  }

  /** A call that does not return `True` leaves `arr2` as it was. */
  lemma RunKeeps(m: Matching, h: Handover, lines: seq<Fields>, specs: seq<Fields>, arr: Vars, arr2: Vars, level: nat)
    requires level <= MaxLevel
    ensures var r := Run(m, h, lines, specs, arr, arr2, level); r.result != Ok(true) ==> r.arr2 == arr2
  {
    RunPublishes(m, h, lines, specs, arr, arr2, level);
  }

  lemma {:induction false} LoopPublishes(m: Matching, h: Handover, lines: seq<Fields>, specs: seq<Fields>, arr: Vars, arr2: Vars, level: nat,
                                         copyArr: Vars, points: seq<Point>)
    requires level < MaxLevel
    ensures var r := Loop(m, h, lines, specs, arr, arr2, level, copyArr, points);
      (r.result == Ok(true) ==> PublishedFrom(h, arr2, r)) && (r.result != Ok(true) ==> r.arr2 == arr2)
    decreases MaxLevel - level, 1, |specs|
  {
    if specs == [] {
      var r := Loop(m, h, lines, specs, arr, arr2, level, copyArr, points);
      if r.result == Ok(true) {
        assert PublishedBy(h, arr2, r, arr);
      }
    } else {
      var st := m(arr, specs[0], lines);
      match st.found
      case Raise(e) =>
      case Ok(None) => RetryPublishes(m, h, points, st.vars, arr2, level);
      case Ok(Some(line)) =>
        if st.vars != copyArr {
          LoopPublishes(m, h, st.lines, specs[1..], st.vars, arr2, level, st.vars, points + [Point(st.lines + [line], specs, copyArr)]);
        } else {
          LoopPublishes(m, h, st.lines, specs[1..], st.vars, arr2, level, copyArr, points);
        }
    }
  }

  lemma {:induction false} RetryPublishes(m: Matching, h: Handover, points: seq<Point>, arr: Vars, arr2: Vars, level: nat)
    requires level < MaxLevel
    ensures var r := Retry(m, h, points, arr, arr2, level);
      (r.result == Ok(true) ==> PublishedFrom(h, arr2, r)) && (r.result != Ok(true) ==> r.arr2 == arr2)
    decreases MaxLevel - level, 0, |points|
  {
    if points != [] {
      var p := points[|points| - 1];
      RunPublishes(m, h, p.lines, p.specs, p.arr, arr2, level + 1);
      var sub := Run(m, h, p.lines, p.specs, p.arr, arr2, level + 1);
      if sub.result == Ok(true) {
        var pre: Vars :| PublishedBy(h, arr2, sub, pre);
        var r := Retry(m, h, points, arr, arr2, level);
        assert r == Outcome(Ok(true), Merge(h, arr, sub.arr), sub.arr2);
        assert PublishedBy(h, arr2, r, pre);
      } else if sub.result == Ok(false) {
        RetryPublishes(m, h, points[..|points| - 1], arr, arr2, level);
      }
    }
  }

  /** Every spec consumes a line of its own: a call returns `True` only when
      there are at least as many lines as specs. */
  lemma {:induction false} RunNeedsLines(m: Matching, h: Handover, lines: seq<Fields>, specs: seq<Fields>, arr: Vars, arr2: Vars, level: nat)
    requires PoolSafe(m) && level <= MaxLevel
    ensures Run(m, h, lines, specs, arr, arr2, level).result == Ok(true) ==> |specs| <= |lines|
    decreases MaxLevel - level, 2, 0
  {
    if level < MaxLevel {
      LoopNeedsLines(m, h, lines, specs, arr, arr2, level, arr, []);
    }
  }

  /** The choice points all leave as many spare lines as the loop has now. */
  predicate Balanced(points: seq<Point>, lines: seq<Fields>, specs: seq<Fields>) {
    forall i :: 0 <= i < |points| ==> |points[i].lines| - |points[i].specs| == |lines| - |specs|
  }

  lemma {:induction false} LoopNeedsLines(m: Matching, h: Handover, lines: seq<Fields>, specs: seq<Fields>, arr: Vars, arr2: Vars, level: nat,
                                          copyArr: Vars, points: seq<Point>)
    requires PoolSafe(m) && level < MaxLevel && Balanced(points, lines, specs)
    ensures Loop(m, h, lines, specs, arr, arr2, level, copyArr, points).result == Ok(true) ==> |specs| <= |lines|
    decreases MaxLevel - level, 1, |specs|
  {
    if specs != [] {
      var st := m(arr, specs[0], lines);
      match st.found
      case Raise(e) =>
      case Ok(None) =>
        RetryNeedsLines(m, h, points, st.vars, arr2, level);
      case Ok(Some(line)) =>
        assert |st.lines| == |lines| - 1;
        if st.vars != copyArr {
          var next := points + [Point(st.lines + [line], specs, copyArr)];
          assert Balanced(next, st.lines, specs[1..]) by {
            forall i | 0 <= i < |next|
              ensures |next[i].lines| - |next[i].specs| == |st.lines| - |specs[1..]|
            {
              if i < |points| {
                assert next[i] == points[i];
              }
            }
          }
          LoopNeedsLines(m, h, st.lines, specs[1..], st.vars, arr2, level, st.vars, next);
        } else {
          LoopNeedsLines(m, h, st.lines, specs[1..], st.vars, arr2, level, copyArr, points);
        }
    }
  }

  lemma {:induction false} RetryNeedsLines(m: Matching, h: Handover, points: seq<Point>, arr: Vars, arr2: Vars, level: nat)
    requires PoolSafe(m) && level < MaxLevel
    ensures Retry(m, h, points, arr, arr2, level).result == Ok(true) ==>
      exists i :: 0 <= i < |points| && |points[i].specs| <= |points[i].lines|
    decreases MaxLevel - level, 0, |points|
  {
    if points != [] {
      var p := points[|points| - 1];
      RunNeedsLines(m, h, p.lines, p.specs, p.arr, arr2, level + 1);
      var sub := Run(m, h, p.lines, p.specs, p.arr, arr2, level + 1);
      if sub.result == Ok(false) {
        RetryNeedsLines(m, h, points[..|points| - 1], arr, sub.arr2, level);
        var r := Retry(m, h, points[..|points| - 1], arr, sub.arr2, level);
        if r.result == Ok(true) {
          var i :| 0 <= i < |points| - 1 && |points[..|points| - 1][i].specs| <= |points[..|points| - 1][i].lines|;
          assert points[..|points| - 1][i] == points[i];
        }
      }
    }
  }

  // ---------------------------------------------------------------------------
  // What a call that returns `True` has found.

  /** Every spec binds each name at most once. */
  predicate AllNoRepeat(specs: seq<Fields>) {
    forall i :: 0 <= i < |specs| ==> NoRepeat(specs[i])
  }

  /** A successful call of `match_all` with `_adder`: some dictionary `pre`,
      holding every binding the call started with, was published into `arr2`
      to give `after2` and its published bindings are all in `after`, the
      caller's `arr` after the call; and each spec has a line of the pool of
      its own (no line is taken twice) that fits it under `pre`. */
  ghost predicate Solved(ext: Expr.Foreign, lines: seq<Fields>, specs: seq<Fields>, arr: Vars, arr2: Vars, after: Vars, after2: Vars) {
    exists pre: Vars, taken: seq<Fields> :: SolvedBy(ext, lines, specs, arr, arr2, after, after2, pre, taken)
  }

  /** The same, for the dictionary `pre` and the lines `taken`. */
  predicate SolvedBy(ext: Expr.Foreign, lines: seq<Fields>, specs: seq<Fields>, arr: Vars, arr2: Vars, after: Vars, after2: Vars,
                     pre: Vars, taken: seq<Fields>) {
    && Rename(pre, arr2) == Ok((Published(pre), after2))
    && Extends(after, Published(pre))
    && Extends(pre, arr)
    && |taken| == |specs| && multiset(taken) <= multiset(lines)
    && forall i :: 0 <= i < |specs| ==> Fits(ext, pre, specs[i], taken[i])
  }

  /** The spec loop of a call on `lines0`, `specs0` and `arr0` after matching
      the first `|taken|` specs with the lines `taken`: the pool holds the
      other lines, `specs` the other specs, and the taken lines fit their specs
      under `arr`, which keeps every binding of `arr0`. */
  predicate Progress(ext: Expr.Foreign, lines0: seq<Fields>, specs0: seq<Fields>, arr0: Vars,
                     taken: seq<Fields>, lines: seq<Fields>, specs: seq<Fields>, arr: Vars) {
    && |taken| + |specs| == |specs0| && specs0[|taken|..] == specs
    && multiset(taken) + multiset(lines) == multiset(lines0)
    && Extends(arr, arr0)
    && forall i :: 0 <= i < |taken| ==> Fits(ext, arr, specs0[i], taken[i])
  }

  /** Each choice point is such a state of the loop, with the lines in `tks`. */
  predicate PointsProgress(ext: Expr.Foreign, lines0: seq<Fields>, specs0: seq<Fields>, arr0: Vars,
                           tks: seq<seq<Fields>>, points: seq<Point>) {
    |tks| == |points| &&
    forall i :: 0 <= i < |points| ==> Progress(ext, lines0, specs0, arr0, tks[i], points[i].lines, points[i].specs, points[i].arr)
  }

  /** A match that takes `line` and leaves `vars` moves the loop on. */
  lemma Advance(ext: Expr.Foreign, lines0: seq<Fields>, specs0: seq<Fields>, arr0: Vars,
                taken: seq<Fields>, lines: seq<Fields>, specs: seq<Fields>, arr: Vars, line: Fields, rest: seq<Fields>, vars: Vars)
    requires Progress(ext, lines0, specs0, arr0, taken, lines, specs, arr) && specs != []
    requires multiset(rest) + multiset{line} == multiset(lines)
    requires Fits(ext, vars, specs[0], line) && Extends(vars, arr)
    ensures Progress(ext, lines0, specs0, arr0, taken + [line], rest, specs[1..], vars)
  {
    var next := taken + [line];
    assert specs0[|next|..] == specs[1..] by {
      assert specs0[|next|..] == specs0[|taken|..][1..];
    }
    assert multiset(next) + multiset(rest) == multiset(lines0) by {
      assert multiset(next) == multiset(taken) + multiset{line};
    }
    forall i | 0 <= i < |next|
      ensures Fits(ext, vars, specs0[i], next[i])
    {
      if i < |taken| {
        assert next[i] == taken[i];
        FitsExtend(ext, arr, vars, specs0[i], taken[i]);
      } else {
        assert specs0[i] == specs0[|taken|..][0];
      }
    }
  }

  /** A successful call from a state of the loop completes it. */
  lemma Complete(ext: Expr.Foreign, lines0: seq<Fields>, specs0: seq<Fields>, arr0: Vars,
                 taken: seq<Fields>, lines: seq<Fields>, specs: seq<Fields>, arr: Vars, arr2: Vars, after: Vars, after2: Vars)
    requires Progress(ext, lines0, specs0, arr0, taken, lines, specs, arr)
    requires Solved(ext, lines, specs, arr, arr2, after, after2)
    ensures Solved(ext, lines0, specs0, arr0, arr2, after, after2)
  {
    var pre: Vars, rest: seq<Fields> :| SolvedBy(ext, lines, specs, arr, arr2, after, after2, pre, rest);
    var all := taken + rest;
    assert multiset(all) == multiset(taken) + multiset(rest);
    forall i | 0 <= i < |specs0|
      ensures Fits(ext, pre, specs0[i], all[i])
    {
      if i < |taken| {
        assert all[i] == taken[i];
        FitsExtend(ext, arr, pre, specs0[i], taken[i]);
      } else {
        assert all[i] == rest[i - |taken|];
        assert specs0[i] == specs0[|taken|..][i - |taken|];
      }
    }
    assert SolvedBy(ext, lines0, specs0, arr0, arr2, after, after2, pre, all);
  }

  /** What a solution puts in `arr` stays in any dictionary that keeps all of
      `arr`, such as the one a successful retry hands over (`Merge`). */
  lemma SolvedWider(ext: Expr.Foreign, lines: seq<Fields>, specs: seq<Fields>, arr: Vars, arr2: Vars, after: Vars, wider: Vars, after2: Vars)
    requires Solved(ext, lines, specs, arr, arr2, after, after2) && Extends(wider, after)
    ensures Solved(ext, lines, specs, arr, arr2, wider, after2)
  {
    var pre: Vars, taken: seq<Fields> :| SolvedBy(ext, lines, specs, arr, arr2, after, after2, pre, taken);
    assert SolvedBy(ext, lines, specs, arr, arr2, wider, after2, pre, taken);
  }

  /** A match that takes a line takes one of the pool that fits the spec
      under the bindings it leaves, and drops no binding. */
  predicate StepFits(ext: Expr.Foreign, vars: Vars, spec: Fields, lines: seq<Fields>, st: Step) {
    Found(st) ==>
      && Fits(ext, st.vars, spec, st.found.value.value) && Extends(st.vars, vars)
      && multiset(st.lines) + multiset{st.found.value.value} == multiset(lines)
  }

  /** Every match of `m` with a spec that binds each name once does so. */
  ghost predicate FitsSafe(ext: Expr.Foreign, m: Matching) {
    forall vars: Vars, spec: Fields, lines: seq<Fields> :: NoRepeat(spec) ==> StepFits(ext, vars, spec, lines, m(vars, spec, lines))
  }

  /** `match_spec` with `_adder` is such a matcher. */
  lemma SpecMatcherFits(ext: Expr.Foreign)
    ensures FitsSafe(ext, SpecMatcher(ext))
  {
    forall vars: Vars, spec: Fields, lines: seq<Fields> | NoRepeat(spec)
      ensures StepFits(ext, vars, spec, lines, SpecMatcher(ext)(vars, spec, lines))
    {
      MatchFits(ext, vars, spec, lines);
    }
  }

  /** A call that returns `True` has found a line for each spec, as `Solved`
      states, whichever hand-over the retries use, for any matcher whose
      matches fit as `match_spec`'s do (`SpecMatcherFits`). */
  lemma {:induction false} RunSound(ext: Expr.Foreign, m: Matching, h: Handover, lines: seq<Fields>, specs: seq<Fields>, arr: Vars, arr2: Vars, level: nat)
    requires level <= MaxLevel && AllNoRepeat(specs) && FitsSafe(ext, m)
    ensures var r := Run(m, h, lines, specs, arr, arr2, level);
      r.result == Ok(true) ==> Solved(ext, lines, specs, arr, arr2, r.arr, r.arr2)
    decreases MaxLevel - level, 2, 0
  {
    if level < MaxLevel {
      assert specs[0..] == specs;
      LoopSound(ext, m, h, lines, specs, arr, [], [], lines, specs, arr, arr2, level, arr, []);
    }
  }

  lemma {:induction false} LoopSound(ext: Expr.Foreign, m: Matching, h: Handover, lines0: seq<Fields>, specs0: seq<Fields>, arr0: Vars,
                                     taken: seq<Fields>, tks: seq<seq<Fields>>,
                                     lines: seq<Fields>, specs: seq<Fields>, arr: Vars, arr2: Vars, level: nat,
                                     copyArr: Vars, points: seq<Point>)
    requires level < MaxLevel && AllNoRepeat(specs0) && copyArr == arr && FitsSafe(ext, m)
    requires Progress(ext, lines0, specs0, arr0, taken, lines, specs, arr)
    requires PointsProgress(ext, lines0, specs0, arr0, tks, points)
    ensures var r := Loop(m, h, lines, specs, arr, arr2, level, copyArr, points);
      r.result == Ok(true) ==> Solved(ext, lines0, specs0, arr0, arr2, r.arr, r.arr2)
    decreases MaxLevel - level, 1, |specs|
  {
    if specs == [] {
      if "" !in arr {
        var none: seq<Fields> := [];
        assert SolvedBy(ext, lines, specs, arr, arr2, Published(arr), arr2 + Exported(arr), arr, none);
        Complete(ext, lines0, specs0, arr0, taken, lines, specs, arr, arr2, Published(arr), arr2 + Exported(arr));
      }
    } else {
      var st := m(arr, specs[0], lines);
      match st.found
      case Raise(e) =>
      case Ok(None) =>
        RetrySound(ext, m, h, lines0, specs0, arr0, tks, points, st.vars, arr2, level);
      case Ok(Some(line)) =>
        assert NoRepeat(specs[0]) by {
          assert specs[0] == specs0[|taken|];
        }
        assert StepFits(ext, arr, specs[0], lines, st);
        Advance(ext, lines0, specs0, arr0, taken, lines, specs, arr, line, st.lines, st.vars);
        if st.vars != copyArr {
          var p := Point(st.lines + [line], specs, copyArr);
          assert multiset(p.lines) == multiset(lines);
          assert PointsProgress(ext, lines0, specs0, arr0, tks + [taken], points + [p]) by {
            forall i | 0 <= i < |points| + 1
              ensures Progress(ext, lines0, specs0, arr0, (tks + [taken])[i], (points + [p])[i].lines, (points + [p])[i].specs, (points + [p])[i].arr)
            {
              if i < |points| {
                assert (tks + [taken])[i] == tks[i] && (points + [p])[i] == points[i];
              }
            }
          }
          LoopSound(ext, m, h, lines0, specs0, arr0, taken + [line], tks + [taken], st.lines, specs[1..], st.vars, arr2, level,
                    st.vars, points + [p]);
        } else {
          LoopSound(ext, m, h, lines0, specs0, arr0, taken + [line], tks, st.lines, specs[1..], st.vars, arr2, level,
                    copyArr, points);
        }
    }
  }

  lemma {:induction false} RetrySound(ext: Expr.Foreign, m: Matching, h: Handover, lines0: seq<Fields>, specs0: seq<Fields>, arr0: Vars,
                                      tks: seq<seq<Fields>>, points: seq<Point>, arr: Vars, arr2: Vars, level: nat)
    requires level < MaxLevel && AllNoRepeat(specs0) && FitsSafe(ext, m)
    requires PointsProgress(ext, lines0, specs0, arr0, tks, points)
    ensures var r := Retry(m, h, points, arr, arr2, level);
      r.result == Ok(true) ==> Solved(ext, lines0, specs0, arr0, arr2, r.arr, r.arr2)
    decreases MaxLevel - level, 0, |points|, 2
  {
    if points != [] {
      var n := |points| - 1;
      PointAt(ext, lines0, specs0, arr0, tks, points);
      RetrySound(ext, m, h, lines0, specs0, arr0, tks[..n], points[..n], arr, arr2, level);
      RetryNewest(ext, m, h, lines0, specs0, arr0, tks, points, arr, arr2, level);
    }
  }

  /** The retry of the newest choice point either succeeds with a line for
      each spec or leaves the older choice points to be retried as before. */
  lemma {:induction false} RetryNewest(ext: Expr.Foreign, m: Matching, h: Handover, lines0: seq<Fields>, specs0: seq<Fields>, arr0: Vars,
                                       tks: seq<seq<Fields>>, points: seq<Point>, arr: Vars, arr2: Vars, level: nat)
    requires level < MaxLevel && AllNoRepeat(specs0) && points != [] && FitsSafe(ext, m)
    requires PointsProgress(ext, lines0, specs0, arr0, tks, points)
    ensures var r := Retry(m, h, points, arr, arr2, level);
      r.result == Ok(true) ==>
        Solved(ext, lines0, specs0, arr0, arr2, r.arr, r.arr2) || r == Retry(m, h, points[..|points| - 1], arr, arr2, level)
    decreases MaxLevel - level, 0, |points|, 1
  {
    var n := |points| - 1;
    var p := points[n];
    PointAt(ext, lines0, specs0, arr0, tks, points);
    var sub := Run(m, h, p.lines, p.specs, p.arr, arr2, level + 1);
    var r := Retry(m, h, points, arr, arr2, level);
    RetryLast(m, h, points, arr, arr2, level);
    match sub.result
    case Raise(_) =>
      assert r.result == sub.result;
    case Ok(true) =>
      assert r.arr2 == sub.arr2 && r.arr == Merge(h, arr, sub.arr);
      HitSound(ext, m, h, lines0, specs0, arr0, tks[n], p, arr2, level);
      SolvedWider(ext, lines0, specs0, arr0, arr2, sub.arr, r.arr, sub.arr2);
    case Ok(false) =>
      RunKeeps(m, h, p.lines, p.specs, p.arr, arr2, level + 1);
      assert r == Retry(m, h, points[..n], arr, arr2, level);
  }

  /** A retried choice point that succeeds completes the loop state it
      was remembered in. */
  lemma {:induction false} HitSound(ext: Expr.Foreign, m: Matching, h: Handover, lines0: seq<Fields>, specs0: seq<Fields>, arr0: Vars,
                                    taken: seq<Fields>, p: Point, arr2: Vars, level: nat)
    requires level < MaxLevel && AllNoRepeat(p.specs) && FitsSafe(ext, m)
    requires Progress(ext, lines0, specs0, arr0, taken, p.lines, p.specs, p.arr)
    ensures var sub := Run(m, h, p.lines, p.specs, p.arr, arr2, level + 1);
      sub.result == Ok(true) ==> Solved(ext, lines0, specs0, arr0, arr2, sub.arr, sub.arr2)
    decreases MaxLevel - level, 0, 0, 0
  {
    RunSound(ext, m, h, p.lines, p.specs, p.arr, arr2, level + 1);
    var sub := Run(m, h, p.lines, p.specs, p.arr, arr2, level + 1);
    if sub.result == Ok(true) {
      Complete(ext, lines0, specs0, arr0, taken, p.lines, p.specs, p.arr, arr2, sub.arr, sub.arr2);
    }
  }

  /** The retry of the newest choice point: a success ends the retries with
      its `arr2`, and a failure that leaves `arr2` alone goes on to the older
      ones. */
  lemma RetryLast(m: Matching, h: Handover, points: seq<Point>, arr: Vars, arr2: Vars, level: nat)
    requires level < MaxLevel && points != []
    ensures var p := points[|points| - 1];
      var sub := Run(m, h, p.lines, p.specs, p.arr, arr2, level + 1);
      var r := Retry(m, h, points, arr, arr2, level);
      && (sub.result.Raise? ==> r == Outcome(sub.result, arr, sub.arr2))
      && (sub.result == Ok(true) ==> r == Outcome(Ok(true), Merge(h, arr, sub.arr), sub.arr2))
      && (sub.result == Ok(false) ==> r == Retry(m, h, points[..|points| - 1], arr, sub.arr2, level))
  {
  }

  /** The newest choice point is a state of the loop whose specs bind each
      name at most once, and the older ones stay choice points. */
  lemma PointAt(ext: Expr.Foreign, lines0: seq<Fields>, specs0: seq<Fields>, arr0: Vars, tks: seq<seq<Fields>>, points: seq<Point>)
    requires AllNoRepeat(specs0) && PointsProgress(ext, lines0, specs0, arr0, tks, points) && points != []
    ensures var n := |points| - 1;
      && Progress(ext, lines0, specs0, arr0, tks[n], points[n].lines, points[n].specs, points[n].arr)
      && AllNoRepeat(points[n].specs)
      && PointsProgress(ext, lines0, specs0, arr0, tks[..n], points[..n])
  {
    var n := |points| - 1;
    var p := points[n];
    assert Progress(ext, lines0, specs0, arr0, tks[n], p.lines, p.specs, p.arr);
    forall i | 0 <= i < |p.specs|
      ensures NoRepeat(p.specs[i])
    {
      assert p.specs[i] == specs0[|tks[n]| + i];
    }
    forall i | 0 <= i < n
      ensures Progress(ext, lines0, specs0, arr0, tks[..n][i], points[..n][i].lines, points[..n][i].specs, points[..n][i].arr)
    {
      assert tks[..n][i] == tks[i] && points[..n][i] == points[i];
    }
  }

  // ---------------------------------------------------------------------------
  // The rename loop as written: `for key in arr` while `arr` is changed.

  /** One slot of a CPython dictionary's entry table, `None` once deleted. */
  datatype Entry = Entry(key: string, value: Option<Binding>)

  /** The live slots of the table. */
  function Size(tab: seq<Entry>): (r: nat)
    ensures r <= |tab|
  {
    if tab == [] then 0 else Size(tab[..|tab| - 1]) + (if tab[|tab| - 1].value.Some? then 1 else 0)
  }

  /** The slot holding `k`, if `k` is in the dictionary. */
  function Slot(tab: seq<Entry>, k: string, from: nat): (r: Option<nat>)
    requires from <= |tab|
    ensures r.Some? ==> from <= r.value < |tab| && tab[r.value].key == k && tab[r.value].value.Some?
    ensures r.None? ==> forall j :: from <= j < |tab| && tab[j].key == k ==> tab[j].value.None?
    decreases |tab| - from
  {
    if from == |tab| then None
    else if tab[from].key == k && tab[from].value.Some? then Some(from)
    else Slot(tab, k, from + 1)
  }

  /** `d[k] = v`: an existing key keeps its slot, a new key takes a new slot
      at the end (the table is assumed never to be resized). */
  function SetItem(tab: seq<Entry>, k: string, v: Binding): (r: seq<Entry>)
    ensures |r| == |tab| || r == tab + [Entry(k, Some(v))]
  {
    match Slot(tab, k, 0)
    case Some(j) => tab[j := Entry(k, Some(v))]
    case None => tab + [Entry(k, Some(v))]
  }

  /** The first live slot from `pos` on, or the end of the table. */
  function NextLive(tab: seq<Entry>, pos: nat): (r: nat)
    requires pos <= |tab|
    ensures pos <= r <= |tab| && (r < |tab| ==> tab[r].value.Some?)
    ensures forall j :: pos <= j < r ==> tab[j].value.None?
    decreases |tab| - pos
  {
    if pos == |tab| || tab[pos].value.Some? then pos else NextLive(tab, pos + 1)
  }

  /** What the rename loop leaves behind: how it ended, the table of `arr`
      and `arr2`. */
  datatype Renamed = Renamed(result: Result<()>, tab: seq<Entry>, arr2: Vars)

  /** Lines 200-205 under CPython 3.8 or later. The iterator remembers the
      size the dictionary had when the loop started (`used`) and how many keys
      it may still yield (`left`); a change of size raises `RuntimeError`, and
      so does a key found after `left` keys have been yielded. */
  function RenameAsWritten(tab: seq<Entry>, arr2: Vars, pos: nat, left: nat, used: nat): (r: Renamed)
    requires pos <= |tab|
    decreases left
  {
    if Size(tab) != used then Renamed(Raise(RuntimeError), tab, arr2)
    else
      var i := NextLive(tab, pos);
      if i == |tab| then Renamed(Ok(()), tab, arr2)
      else if left == 0 then Renamed(Raise(RuntimeError), tab, arr2)
      else
        var key := tab[i].key;
        if key == [] then Renamed(Raise(IndexError), tab, arr2)
        else if key[0] != '$' then RenameAsWritten(tab, arr2, i + 1, left - 1, used)
        else
          var v := tab[i].value.value;
          var grown := SetItem(tab, key[1..], v);
          var next := grown[i := Entry(key, None)];
          RenameAsWritten(next, arr2[key[1..] := v], i + 1, left - 1, used)
  }

  /** A dictionary holding the single variable `$x` (bound by a spec field
      `$$x`): the loop renames it, writes `x` into `arr2`, and then raises
      `RuntimeError` when the iterator meets the new key `x`. */
  lemma RenameRaises()
    ensures RenameAsWritten([Entry("$x", Some(Scalar("1")))], map[], 0, 1, 1)
      == Renamed(Raise(RuntimeError), [Entry("$x", None), Entry("x", Some(Scalar("1")))], map["x" := Scalar("1")])
  {
    var v := Scalar("1");
    var tab := [Entry("$x", Some(v))];
    assert tab[..0] == [];
    assert Size(tab) == 1;
    assert NextLive(tab, 0) == 0;
    assert "$x"[1..] == "x";
    assert Slot(tab, "x", 0) == None by {
      assert Slot(tab, "x", 1) == None;
    }
    assert SetItem(tab, "x", v) == tab + [Entry("x", Some(v))];
    var next := [Entry("$x", None), Entry("x", Some(v))];
    assert (tab + [Entry("x", Some(v))])[0 := Entry("$x", None)] == next;
    assert next[..1] == [Entry("$x", None)] && next[..1][..0] == [];
    assert Size(next) == 1;
    assert NextLive(next, 1) == 1;
    assert RenameAsWritten(next, map["x" := v], 1, 0, 1) == Renamed(Raise(RuntimeError), next, map["x" := v]);
    assert RenameAsWritten(tab, map[], 0, 1, 1) == RenameAsWritten(next, map[]["x" := v], 1, 0, 1);
  }

  /** The same dictionary under the simultaneous rename: `x` is published in
      both dictionaries and `$x` is gone. */
  lemma RenameSucceeds()
    ensures var r := Rename(map["$x" := Scalar("1")], map[]);
      && r.Ok?
      && "x" in r.value.0 && r.value.0["x"] == Scalar("1") && "$x" !in r.value.0
      && "x" in r.value.1 && r.value.1["x"] == Scalar("1")
  {
    var arr := map["$x" := Scalar("1")];
    assert "$x"[1..] == "x" && Marked("$x");
    RenameMoves(arr, map[]);
    assert "$$x" !in arr;
  }

  // ---------------------------------------------------------------------------
  // A call that backtracks (lines 179-189).

  /** Two specs that both bind `$id` (spec field `$$id`), and three lines:
      two for the first spec and one for the second, which agrees only with
      the second line on `$id`. */
  const IdFirst: Fields := ["n", "s", "t", "$$id"]
  const IdSecond: Fields := ["m", "x", "y", "$$id"]
  const IdSpecs: seq<Fields> := [IdFirst, IdSecond]
  const Line1: Fields := ["n", "s", "t", "1"]
  const Line2: Fields := ["n", "s", "t", "2"]
  const Line3: Fields := ["m", "x", "y", "2"]
  const IdLines: seq<Fields> := [Line1, Line2, Line3]

  /** Both specs are three literals and the variable `$id`. */
  lemma IdShape()
    ensures forall j :: 0 <= j < 3 ==> IdFirst[j] != [] && IdFirst[j][0] != '$' && IdFirst[j][|IdFirst[j]| - 1] != ')'
    ensures forall j :: 0 <= j < 3 ==> IdSecond[j] != [] && IdSecond[j][0] != '$' && IdSecond[j][|IdSecond[j]| - 1] != ')'
    ensures IdFirst[3] == "$" + "$id" && IdSecond[3] == "$" + "$id"
    ensures "$id" != [] && '=' !in "$id" && "$id"[|"$id"| - 1] != ')'
  {
  }

  /** `match_spec` with `IdFirst` takes the first line of `lines` when it
      starts like `IdFirst` and `$id` is unbound or agrees. */
  lemma TakeFirst(ext: Expr.Foreign, vars: Vars, spec: Fields, lines: seq<Fields>)
    requires spec == IdFirst || spec == IdSecond
    requires lines != [] && lines[0][..3] == spec[..3] && spec !in lines
    requires "$id" in vars ==> vars["$id"] == Scalar(lines[0][3])
    ensures SpecMatcher(ext)(vars, spec, lines) == Step(Ok(Some(lines[0])), vars["$id" := Scalar(lines[0][3])], lines[1..])
  {
    IdShape();
    TaggedLine(ext, vars, spec, lines, "$id");
  }

  /** A spec loop whose next spec takes `line`. */
  lemma LoopTakes(m: Matching, h: Handover, lines: seq<Fields>, specs: seq<Fields>, arr: Vars, arr2: Vars, level: nat,
                  copyArr: Vars, points: seq<Point>, line: Fields, vars: Vars, rest: seq<Fields>)
    requires level < MaxLevel && specs != [] && m(arr, specs[0], lines) == Step(Ok(Some(line)), vars, rest)
    ensures Loop(m, h, lines, specs, arr, arr2, level, copyArr, points) ==
      if vars != copyArr then Loop(m, h, rest, specs[1..], vars, arr2, level, vars, points + [Point(rest + [line], specs, copyArr)])
      else Loop(m, h, rest, specs[1..], vars, arr2, level, copyArr, points)
  {
  }

  /** A spec loop whose next spec finds no line goes on to the retries. */
  lemma LoopFails(m: Matching, h: Handover, lines: seq<Fields>, specs: seq<Fields>, arr: Vars, arr2: Vars, level: nat,
                  copyArr: Vars, points: seq<Point>, vars: Vars)
    requires level < MaxLevel && specs != [] && m(arr, specs[0], lines) == Step(Ok(None), vars, lines)
    ensures Loop(m, h, lines, specs, arr, arr2, level, copyArr, points) == Retry(m, h, points, vars, arr2, level)
  {
  }

  /** A retry of the only choice point that succeeds ends the retries. */
  lemma RetryHit(m: Matching, h: Handover, lines: seq<Fields>, specs: seq<Fields>, pointArr: Vars, arr: Vars, arr2: Vars,
                 level: nat, newArr: Vars, newArr2: Vars)
    requires level < MaxLevel && Run(m, h, lines, specs, pointArr, arr2, level + 1) == Outcome(Ok(true), newArr, newArr2)
    ensures Retry(m, h, [Point(lines, specs, pointArr)], arr, arr2, level) == Outcome(Ok(true), Merge(h, arr, newArr), newArr2)
  {
  }

  /** Publishing a dictionary that holds only `key = "$" + k` into an empty
      one. */
  lemma RenameOne(key: string, k: string, v: Binding)
    requires key != [] && key[0] == '$' && key[1..] == k && (k == [] || k[0] != '$')
    ensures Rename(map[key := v], map[]) == Ok((map[k := v], map[k := v]))
  {
    var arr := map[key := v];
    assert Marked(key);
    assert "" !in arr;
    assert Exported(arr).Keys == {k};
    assert Exported(arr) == map[k := v];
    assert Published(arr) == map[k := v];
    var empty: Vars := map[];
    assert empty + map[k := v] == map[k := v];
  }

  /** The four calls of `match_spec` the example makes, as `IdMatcher`
      proves them of `SpecMatcher`. */
  predicate IdSteps(m: Matching) {
    && m(map[], IdFirst, IdLines) == Step(Ok(Some(Line1)), map["$id" := Scalar("1")], [Line2, Line3])
    && m(map["$id" := Scalar("1")], IdSecond, [Line2, Line3]) == Step(Ok(None), map["$id" := Scalar("1")], [Line2, Line3])
    && m(map[], IdFirst, [Line2, Line3, Line1]) == Step(Ok(Some(Line2)), map["$id" := Scalar("2")], [Line3, Line1])
    && m(map["$id" := Scalar("2")], IdSecond, [Line3, Line1]) == Step(Ok(Some(Line3)), map["$id" := Scalar("2")], [Line1])
  }

  /** `match_spec` on the example: `IdFirst` takes the first line of each pool
      it is given, and `IdSecond` fails under `$id = 1` and takes `Line3`
      under `$id = 2`. */
  lemma IdMatcher(ext: Expr.Foreign)
    ensures IdSteps(SpecMatcher(ext))
  {
    FirstTakes(ext);
    SecondFails(ext);
    SecondTakes(ext);
  }

  /** `IdFirst` takes `Line1` from `IdLines` and `Line2` from the retried pool. */
  lemma FirstTakes(ext: Expr.Foreign)
    ensures SpecMatcher(ext)(map[], IdFirst, IdLines) == Step(Ok(Some(Line1)), map["$id" := Scalar("1")], [Line2, Line3])
    ensures SpecMatcher(ext)(map[], IdFirst, [Line2, Line3, Line1]) == Step(Ok(Some(Line2)), map["$id" := Scalar("2")], [Line3, Line1])
  {
    var empty: Vars := map[];
    TakeFirst(ext, empty, IdFirst, IdLines);
    TakeFirst(ext, empty, IdFirst, [Line2, Line3, Line1]);
    assert IdLines[1..] == [Line2, Line3];
    assert [Line2, Line3, Line1][1..] == [Line3, Line1];
  }

  /** With `$id = 2`, `IdSecond` takes `Line3`. */
  lemma SecondTakes(ext: Expr.Foreign)
    ensures SpecMatcher(ext)(map["$id" := Scalar("2")], IdSecond, [Line3, Line1])
      == Step(Ok(Some(Line3)), map["$id" := Scalar("2")], [Line1])
  {
    var bound := map["$id" := Scalar("2")];
    TakeFirst(ext, bound, IdSecond, [Line3, Line1]);
    assert bound["$id" := Scalar("2")] == bound;
    assert [Line3, Line1][1..] == [Line1];
  }

  /** With `$id = 1`, `IdSecond` fails on `Line2` and `Line3`. */
  lemma SecondFails(ext: Expr.Foreign)
    ensures SpecMatcher(ext)(map["$id" := Scalar("1")], IdSecond, [Line2, Line3])
      == Step(Ok(None), map["$id" := Scalar("1")], [Line2, Line3])
  {
    var bound := map["$id" := Scalar("1")];
    var pool := [Line2, Line3];
    SecondRejects(ext);
    assert IdSecond != Line2 by {
      assert IdSecond[0] != Line2[0];
    }
    assert IdSecond != Line3 by {
      assert IdSecond[3] != Line3[3];
    }
    assert forall i :: 0 <= i < |pool| ==> CheckLine(ext, Overwrite, bound, IdSecond, pool[i]) == Ok(None);
    NoMatchIff(ext, Overwrite, bound, IdSecond, pool);
  }

  /** With `$id = 1`, `IdSecond` rejects `Line2` (a literal differs) and
      `Line3` (`$id` differs). */
  lemma SecondRejects(ext: Expr.Foreign)
    ensures CheckLine(ext, Overwrite, map["$id" := Scalar("1")], IdSecond, Line2) == Ok(None)
    ensures CheckLine(ext, Overwrite, map["$id" := Scalar("1")], IdSecond, Line3) == Ok(None)
  {
    var bound := map["$id" := Scalar("1")];
    IdShape();
    assert Line2[..3] != IdSecond[..3] by {
      assert Line2[0] != IdSecond[0];
    }
    TaggedReject(ext, bound, IdSecond, Line2, "$id");
    TaggedReject(ext, bound, IdSecond, Line3, "$id");
  }

  /** Level 0 of the example: `IdFirst` takes `Line1`, a choice point is
      remembered, and `IdSecond` fails. */
  lemma FirstPath(m: Matching, h: Handover)
    requires IdSteps(m)
    ensures Run(m, h, IdLines, IdSpecs, map[], map[], 0)
      == Retry(m, h, [Point([Line2, Line3, Line1], IdSpecs, map[])], map["$id" := Scalar("1")], map[], 0)
  {
    var empty: Vars := map[];
    var bound := map["$id" := Scalar("1")];
    var p := Point([Line2, Line3, Line1], IdSpecs, empty);
    assert IdSpecs[1..] == [IdSecond];
    assert [Line2, Line3] + [Line1] == [Line2, Line3, Line1];
    assert "$id" in bound && bound != empty;
    LoopTakes(m, h, IdLines, IdSpecs, empty, empty, 0, empty, [], Line1, bound, [Line2, Line3]);
    LoopFails(m, h, [Line2, Line3], [IdSecond], bound, empty, 0, bound, [p], bound);
  }

  /** The retry at level 1: the first spec takes `Line2`, the second spec
      `Line3`, and `id = 2` is published. */
  lemma RetriedRun(m: Matching, h: Handover)
    requires IdSteps(m)
    ensures Run(m, h, [Line2, Line3, Line1], IdSpecs, map[], map[], 1)
      == Outcome(Ok(true), map["id" := Scalar("2")], map["id" := Scalar("2")])
  {
    RetriedHead(m, h);
    RetriedTail(m, h);
  }

  /** The first spec of the retry takes `Line2` and binds `$id = 2`. */
  lemma RetriedHead(m: Matching, h: Handover)
    requires IdSteps(m)
    ensures Run(m, h, [Line2, Line3, Line1], IdSpecs, map[], map[], 1)
      == Loop(m, h, [Line3, Line1], [IdSecond], map["$id" := Scalar("2")], map[], 1,
              map["$id" := Scalar("2")], [Point([Line3, Line1, Line2], IdSpecs, map[])])
  {
    var empty: Vars := map[];
    var bound := map["$id" := Scalar("2")];
    assert IdSpecs[1..] == [IdSecond];
    assert [Line3, Line1] + [Line2] == [Line3, Line1, Line2];
    assert "$id" in bound && bound != empty;
    LoopTakes(m, h, [Line2, Line3, Line1], IdSpecs, empty, empty, 1, empty, [], Line2, bound, [Line3, Line1]);
  }

  /** The second spec of the retry takes `Line3`, and `id = 2` is published. */
  lemma RetriedTail(m: Matching, h: Handover)
    requires IdSteps(m)
    ensures Loop(m, h, [Line3, Line1], [IdSecond], map["$id" := Scalar("2")], map[], 1,
                 map["$id" := Scalar("2")], [Point([Line3, Line1, Line2], IdSpecs, map[])])
      == Outcome(Ok(true), map["id" := Scalar("2")], map["id" := Scalar("2")])
  {
    var empty: Vars := map[];
    var bound := map["$id" := Scalar("2")];
    var published := map["id" := Scalar("2")];
    assert "$id"[1..] == "id";
    RenameOne("$id", "id", Scalar("2"));
    LoopLast(m, h, [Line3, Line1], IdSecond, bound, empty, 1, [Point([Line3, Line1, Line2], IdSpecs, empty)], Line3, [Line1],
             published, published);
  }

  /** A spec loop whose last spec takes a line without binding anything new
      renames its dictionary and succeeds. */
  lemma LoopLast(m: Matching, h: Handover, lines: seq<Fields>, spec: Fields, arr: Vars, arr2: Vars, level: nat,
                 points: seq<Point>, line: Fields, rest: seq<Fields>, newArr: Vars, newArr2: Vars)
    requires level < MaxLevel && m(arr, spec, lines) == Step(Ok(Some(line)), arr, rest)
    requires Rename(arr, arr2) == Ok((newArr, newArr2))
    ensures Loop(m, h, lines, [spec], arr, arr2, level, arr, points) == Outcome(Ok(true), newArr, newArr2)
  {
    assert [spec][1..] == [];
  }

  /** The example on any matcher that makes its four calls of `match_spec`. */
  lemma BacktracksWith(m: Matching, h: Handover)
    requires IdSteps(m)
    ensures Run(m, h, IdLines, IdSpecs, map[], map[], 0)
      == Outcome(Ok(true), Merge(h, map["$id" := Scalar("1")], map["id" := Scalar("2")]), map["id" := Scalar("2")])
  {
    var empty: Vars := map[];
    var published := map["id" := Scalar("2")];
    FirstPath(m, h);
    RetriedRun(m, h);
    RetryHit(m, h, [Line2, Line3, Line1], IdSpecs, empty, map["$id" := Scalar("1")], empty, 0, published, published);
  }

  /** `match_all(IdLines, IdSpecs, {}, {})`: the first spec takes the first
      line and binds `$id = 1`, the second spec then fails on every line, and
      the choice point is retried one level deeper, where the retry publishes
      `id = 2` and hands its dictionary over to the caller's, in which `$id`
      is still `1`. */
  lemma Backtracks(ext: Expr.Foreign, h: Handover)
    ensures Run(SpecMatcher(ext), h, IdLines, IdSpecs, map[], map[], 0)
      == Outcome(Ok(true), Merge(h, map["$id" := Scalar("1")], map["id" := Scalar("2")]), map["id" := Scalar("2")])
  {
    IdMatcher(ext);
    BacktracksWith(SpecMatcher(ext), h);
  }

  /** Lines 185-186 as written keep the abandoned path's `$id` in `arr` next to
      the published `id`, although no spec binds a key with two `$`. */
  lemma StaleKeyKept(ext: Expr.Foreign)
    ensures var r := Run(SpecMatcher(ext), Overlay, IdLines, IdSpecs, map[], map[], 0);
      && r.result == Ok(true)
      && "$id" in r.arr && r.arr["$id"] == Scalar("1")
      && "id" in r.arr && r.arr["id"] == Scalar("2")
  {
    Backtracks(ext, Overlay);
  }

  /** Replacing `arr` by the retry's dictionary leaves the published `id` and
      no `$` key. */
  lemma StaleKeyGone(ext: Expr.Foreign)
    ensures var r := Run(SpecMatcher(ext), Replace, IdLines, IdSpecs, map[], map[], 0);
      && r.result == Ok(true)
      && r.arr == map["id" := Scalar("2")]
      && forall k :: k in r.arr ==> !Marked(k)
  {
    Backtracks(ext, Replace);
  }

  /** Publishing never produces a `$` key unless the dictionary had one with
      two `$`: so after a successful call `arr` holds no `$` key when no spec
      binds a key with two `$`. */
  lemma PublishedUnmarked(pre: Vars)
    requires forall d :: d in pre && Marked(d) ==> !Marked(d[1..])
    ensures forall k :: k in Published(pre) ==> !Marked(k)
  {
    forall k | k in Published(pre)
      ensures !Marked(k)
    {
      if "$" + k in pre {
        assert ("$" + k)[1..] == k;
      }
    }
  }

  // ---------------------------------------------------------------------------
  // `match_all` on the caller's list and dictionaries.

  /** `match_all(lines, specs, arr, arr2, level=level)`: the caller's list is
      only read (the call works on a copy of it), `arr` and `arr2` are changed
      in place, and each retry gets a fresh copy of its choice point's
      dictionary. */
  method MatchAllAt(ext: Expr.Foreign, lines: Pool, specs: seq<Fields>, arr: Env, arr2: Env, level: nat) returns (r: Result<bool>)
    requires arr != arr2 && level <= MaxLevel
    modifies arr, arr2
    ensures Outcome(r, arr.vars, arr2.vars) == Run(SpecMatcher(ext), Overlay, lines.lines, specs, old(arr.vars), old(arr2.vars), level)
    decreases MaxLevel - level
  {
    var pool := new Pool(lines.lines);
    var todo := specs;
    var copyArr := arr.vars;
    var points: seq<Point> := [];
    if level == MaxLevel {
      return Ok(false);
    }
    ghost var m := SpecMatcher(ext);
    while todo != []
      invariant fresh(pool)
      invariant arr2.vars == old(arr2.vars)
      invariant Run(m, Overlay, lines.lines, specs, old(arr.vars), old(arr2.vars), level)
        == Loop(m, Overlay, pool.lines, todo, arr.vars, arr2.vars, level, copyArr, points)
      decreases |todo|
    {
      var copySpecs := todo;
      var spec := todo[0];
      todo := todo[1..];
      var found := MatchSpec(ext, Overwrite, spec, pool, arr);
      match found {
        case Raise(e) =>
          return Raise(e);
        case Ok(None) =>
          r := RetryPoints(ext, points, arr, arr2, level);
          return;
        case Ok(Some(line)) =>
          if arr.vars != copyArr {
            points := points + [Point(pool.lines + [line], copySpecs, copyArr)];
            copyArr := arr.vars;
          }
      }
    }
    match Rename(arr.vars, arr2.vars) {
      case Raise(e) =>
        return Raise(e);
      case Ok(published) =>
        arr.vars, arr2.vars := published.0, published.1;
        return Ok(true);
    }
  }

  /** Lines 180-192: the choice points retried newest first, each on a fresh
      copy of its pool and dictionary one level deeper; the first retry that
      succeeds has its bindings copied into `arr`. */
  method RetryPoints(ext: Expr.Foreign, points: seq<Point>, arr: Env, arr2: Env, level: nat) returns (r: Result<bool>)
    requires arr != arr2 && level < MaxLevel
    modifies arr, arr2
    ensures Outcome(r, arr.vars, arr2.vars) == Retry(SpecMatcher(ext), Overlay, points, old(arr.vars), old(arr2.vars), level)
    decreases MaxLevel - level, 1
  {
    var left := points;
    ghost var m := SpecMatcher(ext);
    while left != []
      invariant arr.vars == old(arr.vars)
      invariant Retry(m, Overlay, points, old(arr.vars), old(arr2.vars), level)
        == Retry(m, Overlay, left, arr.vars, arr2.vars, level)
      decreases |left|
    {
      RetryLast(m, Overlay, left, arr.vars, arr2.vars, level);
      var p := left[|left| - 1];
      left := left[..|left| - 1];
      var sub, newArr := RetryPoint(ext, p, arr2, level);
      match sub {
        case Raise(e) =>
          return Raise(e);
        case Ok(true) =>
          CopyInto(arr, newArr);
          return Ok(true);
        case Ok(false) =>
      }
    }
    return Ok(false);
  }

  /** Lines 182-184: one choice point retried one level deeper, on fresh
      copies of its pool and dictionary; `newArr` is the copy afterwards. */
  method RetryPoint(ext: Expr.Foreign, p: Point, arr2: Env, level: nat) returns (r: Result<bool>, newArr: Vars)
    requires level < MaxLevel
    modifies arr2
    ensures Outcome(r, newArr, arr2.vars) == Run(SpecMatcher(ext), Overlay, p.lines, p.specs, p.arr, old(arr2.vars), level + 1)
    decreases MaxLevel - level, 0
  {
    var subLines := new Pool(p.lines);
    var copy := new Env(p.arr);
    r := MatchAllAt(ext, subLines, p.specs, copy, arr2, level + 1);
    newArr := copy.vars;
  }

  /** Lines 185-186: `for k in new_arr: arr[k] = new_arr[k]`. */
  method CopyInto(arr: Env, newArr: Vars)
    modifies arr
    ensures arr.vars == Merge(Overlay, old(arr.vars), newArr)
  {
    var todo := newArr.Keys;
    while todo != {}
      invariant todo <= newArr.Keys
      invariant arr.vars == old(arr.vars) + (map k | k in newArr && k !in todo :: newArr[k])
      decreases todo
    {
      var k :| k in todo;
      arr.vars := arr.vars[k := newArr[k]];
      todo := todo - {k};
    }
    assert (map k | k in newArr && k !in todo :: newArr[k]) == newArr;
  }

  /** `match_all(lines, specs, arr, arr2)` as the callers call it, at level 0:
      `False` leaves `arr2` as it was, `True` needs a line per spec, and, when
      no spec binds a name twice, `True` means that some dictionary holding
      the caller's bindings was published into `arr2`, with its published
      bindings all left in `arr`, and that each spec has a line of the list
      of its own fitting it under that dictionary. */
  method MatchAll(ext: Expr.Foreign, lines: Pool, specs: seq<Fields>, arr: Env, arr2: Env) returns (r: Result<bool>)
    requires arr != arr2
    modifies arr, arr2
    ensures Outcome(r, arr.vars, arr2.vars) == Run(SpecMatcher(ext), Overlay, lines.lines, specs, old(arr.vars), old(arr2.vars), 0)
    ensures r != Ok(true) ==> arr2.vars == old(arr2.vars)
    ensures r == Ok(true) ==> |specs| <= |lines.lines|
    ensures r == Ok(true) && AllNoRepeat(specs) ==> Solved(ext, lines.lines, specs, old(arr.vars), old(arr2.vars), arr.vars, arr2.vars)
  {
    r := MatchAllAt(ext, lines, specs, arr, arr2, 0);
    RunPublishes(SpecMatcher(ext), Overlay, lines.lines, specs, old(arr.vars), old(arr2.vars), 0);
    SpecMatcherPoolSafe(ext);
    RunNeedsLines(SpecMatcher(ext), Overlay, lines.lines, specs, old(arr.vars), old(arr2.vars), 0);
    if AllNoRepeat(specs) {
      SpecMatcherFits(ext);
      RunSound(ext, SpecMatcher(ext), Overlay, lines.lines, specs, old(arr.vars), old(arr2.vars), 0);
    }
  }
}
