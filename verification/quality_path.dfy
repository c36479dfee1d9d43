/** Exactly when the quality search finds the least quality that reaches the target, and when it finds none. */
module QualityPath {
  import opened Wrappers
  import opened QualitySearch

  /** The midpoints of the halvings that close in on `m`, `m` last. */
  function HalvingPath(low: nat, high: nat, m: nat): (path: seq<nat>)
    requires 1 <= low <= m <= high
    ensures forall i | 0 <= i < |path| :: low <= path[i] <= high
    decreases high - low
  {
    var mid := low + (high - low) / 2;
    if mid == m then [mid]
    else if mid > m then [mid] + HalvingPath(low, mid - 1, m)
    else [mid] + HalvingPath(mid + 1, high, m)
  }

  /** Every midpoint of the path above `m` reaches the target. */
  predicate Clear<T, E>(probe: nat -> Probe<T, E>, target: real, path: seq<nat>, m: nat) {
    forall i | 0 <= i < |path| && path[i] > m :: Reaches(probe, target, path[i])
  }

  ghost predicate AllEncoded<T(!new), E(!new)>(probe: nat -> Probe<T, E>, top: nat) {
    forall q | 1 <= q <= top :: probe(q).Encoded?
  }

  /** `m` reaches the target and nothing below it does. */
  ghost predicate Least<T(!new), E(!new)>(probe: nat -> Probe<T, E>, target: real, m: nat) {
    Reaches(probe, target, m) && forall q | 1 <= q < m :: !Reaches(probe, target, q)
  }

  lemma ClearStep<T(!new), E(!new)>(probe: nat -> Probe<T, E>, target: real, mid: nat, rest: seq<nat>, m: nat)
    ensures Clear(probe, target, [mid] + rest, m)
            <==> (mid > m ==> Reaches(probe, target, mid)) && Clear(probe, target, rest, m)
  {
    var path := [mid] + rest;
    if Clear(probe, target, path, m) {
      assert path[0] == mid;
      forall i | 0 <= i < |rest| && rest[i] > m
        ensures Reaches(probe, target, rest[i])
      {
        assert path[i + 1] == rest[i];
      }
    }
  }

  predicate IsMet<T, E>(r: Search<T, E>, m: nat) {
    r.Met? && r.quality == m
  }

  lemma BelowLeast<T(!new), E(!new)>(probe: nat -> Probe<T, E>, target: real, m: nat, q: nat)
    requires Least(probe, target, m) && 1 <= q < m
    ensures !Reaches(probe, target, q)
  {
  }

  /** One turn of the search, in terms of whether its midpoint reaches the target. */
  lemma NextState<T(!new), E(!new)>(probe: nat -> Probe<T, E>, target: real, top: nat, s: State<T>)
    returns (next: State<T>)
    requires Running(s) && s.low <= s.high <= top && AllEncoded(probe, top)
    ensures s.low <= Middle(s) <= s.high
    ensures Running(next) && Searched(probe, target, s) == Searched(probe, target, next)
    ensures Reaches(probe, target, Middle(s)) ==>
              next.low == s.low && next.high == Middle(s) - 1 && next.met.Some? && next.met.value.0 == Middle(s)
    ensures !Reaches(probe, target, Middle(s)) ==>
              next.low == Middle(s) + 1 && next.high == s.high && next.met == s.met
  {
    MiddleInside(s);
    var p := probe(Middle(s));
    next := Turn(s, target, p.output, p.score);
    hide Searched;
    SearchedStep(probe, target, s, next);
  }

  /** Once the range is below the quality that met the target, and nothing in it does, that is the answer. */
  lemma {:induction false} StaysMet<T(!new), E(!new)>(probe: nat -> Probe<T, E>, target: real, top: nat, s: State<T>,
                                                     m: nat)
    requires Running(s) && s.high < m <= top && AllEncoded(probe, top) && Least(probe, target, m)
    requires s.met.Some? && s.met.value.0 == m
    ensures IsMet(Searched(probe, target, s), m)
    decreases s.high + 1 - s.low
  {
    if s.low <= s.high {
      hide AllEncoded, Least, Searched;
      var next := NextState(probe, target, top, s);
      BelowLeast(probe, target, m, Middle(s));
      StaysMet(probe, target, top, next, m);
    }
  }

  /** Once the range is above a quality, that quality is not the answer any more. */
  lemma {:induction false} NeverMet<T(!new), E(!new)>(probe: nat -> Probe<T, E>, target: real, s: State<T>, m: nat)
    requires Running(s) && m < s.low && (s.met.Some? ==> s.met.value.0 != m)
    ensures !IsMet(Searched(probe, target, s), m)
    decreases s.high + 1 - s.low
  {
    if s.low <= s.high {
      var p := probe(Middle(s));
      MiddleInside(s);
      if p.Encoded? {
        NeverMet(probe, target, Turn(s, target, p.output, p.score), m);
      }
    }
  }

  lemma PathStep(low: nat, high: nat, m: nat)
    requires 1 <= low <= m <= high
    ensures var mid := low + (high - low) / 2;
            HalvingPath(low, high, m)
            == [mid] + if mid == m then []
                       else if mid > m then HalvingPath(low, mid - 1, m)
                       else HalvingPath(mid + 1, high, m)
  {
  }

  lemma {:induction false} PathDecides<T(!new), E(!new)>(probe: nat -> Probe<T, E>, target: real, top: nat, s: State<T>,
                                                        m: nat)
    requires Running(s) && s.low <= m <= s.high <= top && AllEncoded(probe, top) && Least(probe, target, m)
    requires s.met.Some? ==> s.met.value.0 != m
    ensures IsMet(Searched(probe, target, s), m) <==> Clear(probe, target, HalvingPath(s.low, s.high, m), m)
    decreases s.high + 1 - s.low
  {
    hide AllEncoded, Searched, HalvingPath, Clear, IsMet, Reaches;
    var mid := Middle(s);
    var next := NextState(probe, target, top, s);
    PathStep(s.low, s.high, m);
    if mid == m {
      ClearStep(probe, target, mid, [], m);
      NothingLeft(probe, target, m);
      StaysMet(probe, target, top, next, m);
    } else if mid < m {
      BelowLeast(probe, target, m, mid);
      ClearStep(probe, target, mid, HalvingPath(mid + 1, s.high, m), m);
      PathDecides(probe, target, top, next, m);
    } else {
      ClearStep(probe, target, mid, HalvingPath(s.low, mid - 1, m), m);
      if Reaches(probe, target, mid) {
        PathDecides(probe, target, top, next, m);
      } else {
        NeverMet(probe, target, next, m);
      }
    }
  }

  lemma NothingLeft<T(!new), E(!new)>(probe: nat -> Probe<T, E>, target: real, m: nat)
    ensures Clear(probe, target, [], m)
  {
  }

  /**
   With every probe encoded, the search finds the least quality that reaches the target if and
   only if every midpoint above it, on the halvings that close in on it, reaches the target too.
   Those midpoints depend on the range and on that quality alone.
   */
  lemma FindsLeastIffPathClear<T(!new), E(!new)>(probe: nat -> Probe<T, E>, target: real, top: nat, m: nat)
    requires 1 <= m <= top < U8_MAX && AllEncoded(probe, top) && Least(probe, target, m)
    ensures IsMet(Searched(probe, target, Start(top)), m)
            <==> Clear(probe, target, HalvingPath(1, top, m), m)
  {
    PathDecides(probe, target, top, Start(top), m);
  }

  /** Monotone scores clear every path. */
  lemma MonotoneFindsLeast<T(!new), E(!new)>(probe: nat -> Probe<T, E>, target: real, top: nat, m: nat)
    requires 1 <= m <= top < U8_MAX && AllEncoded(probe, top) && Least(probe, target, m)
    requires Monotone(probe, target, top)
    ensures IsMet(Searched(probe, target, Start(top)), m)
  {
    FindsLeastIffPathClear(probe, target, top, m);
  }

  // ---------- when the answer is a shortfall ----------

  /** No midpoint of the path reaches the target. */
  predicate NoneReaches<T, E>(probe: nat -> Probe<T, E>, target: real, path: seq<nat>) {
    forall i | 0 <= i < |path| :: !Reaches(probe, target, path[i])
  }

  lemma NoneReachesStep<T(!new), E(!new)>(probe: nat -> Probe<T, E>, target: real, mid: nat, rest: seq<nat>)
    ensures NoneReaches(probe, target, [mid] + rest)
            <==> !Reaches(probe, target, mid) && NoneReaches(probe, target, rest)
  {
    var path := [mid] + rest;
    if NoneReaches(probe, target, path) {
      assert path[0] == mid;
      forall i | 0 <= i < |rest|
        ensures !Reaches(probe, target, rest[i])
      {
        assert path[i + 1] == rest[i];
      }
    }
  }

  /** A search that has met the target ends with a quality that does. */
  lemma {:induction false} EndsMet<T(!new), E(!new)>(probe: nat -> Probe<T, E>, target: real, top: nat, s: State<T>)
    requires Running(s) && s.high <= top && AllEncoded(probe, top) && s.met.Some?
    ensures Searched(probe, target, s).Met?
    decreases s.high + 1 - s.low
  {
    if s.low <= s.high {
      hide AllEncoded, Searched;
      var next := NextState(probe, target, top, s);
      EndsMet(probe, target, top, next);
    }
  }

  lemma {:induction false} MissesDecide<T(!new), E(!new)>(probe: nat -> Probe<T, E>, target: real, top: nat,
                                                         s: State<T>)
    requires Running(s) && s.low <= s.high == top && AllEncoded(probe, top) && s.met.None?
    ensures Searched(probe, target, s).Shortfall? <==> NoneReaches(probe, target, HalvingPath(s.low, top, top))
    decreases s.high + 1 - s.low
  {
    hide AllEncoded, Searched, HalvingPath, NoneReaches, Reaches;
    var mid := Middle(s);
    var next := NextState(probe, target, top, s);
    PathStep(s.low, top, top);
    var rest := if mid == top then [] else HalvingPath(mid + 1, top, top);
    NoneReachesStep(probe, target, mid, rest);
    if Reaches(probe, target, mid) {
      EndsMet(probe, target, top, next);
    } else if mid == top {
      NothingReaches(probe, target);
      SearchedEnd(probe, target, next);
    } else {
      MissesDecide(probe, target, top, next);
    }
  }

  lemma NothingReaches<T(!new), E(!new)>(probe: nat -> Probe<T, E>, target: real)
    ensures NoneReaches(probe, target, [])
  {
  }

  /**
   With every probe encoded, the answer is a shortfall if and only if every midpoint of the
   halvings that close in on the top of the range misses. It hides a quality exactly when those
   midpoints miss and some other quality reaches the target.
   */
  lemma ShortfallIffTopPathMisses<T(!new), E(!new)>(probe: nat -> Probe<T, E>, target: real, top: nat)
    requires 1 <= top < U8_MAX && AllEncoded(probe, top)
    ensures Searched(probe, target, Start(top)).Shortfall?
            <==> NoneReaches(probe, target, HalvingPath(1, top, top))
    ensures Searched(probe, target, Start(top)).Shortfall? && (exists q | 1 <= q <= top :: Reaches(probe, target, q))
            <==> && NoneReaches(probe, target, HalvingPath(1, top, top))
                 && exists q | 1 <= q <= top && q !in HalvingPath(1, top, top) :: Reaches(probe, target, q)
  {
    var path := HalvingPath(1, top, top);
    MissesDecide(probe, target, top, Start(top));
    if NoneReaches(probe, target, path) {
      forall q | 1 <= q <= top && Reaches(probe, target, q)
        ensures q !in path
      {
      }
    }
  }

  // ---------- a cap of 255 ----------

  /** The turns of the loop with the cap at the ceiling of `u8`: whether the `n`th leaves the range empty. */
  ghost predicate EmptyAfter<T(!new), E(!new)>(probe: nat -> Probe<T, E>, target: real, n: nat) {
    var s := After(probe, target, U8_MAX, n);
    s.Some? && s.value.low > s.value.high
  }

  lemma AfterStep<T(!new), E(!new)>(probe: nat -> Probe<T, E>, target: real, n: nat, s: State<T>)
    returns (next: State<T>)
    requires AllEncoded(probe, U8_MAX) && After(probe, target, U8_MAX, n) == Some(s)
    requires 1 <= s.low <= s.high <= U8_MAX
    ensures s.low <= Middle(s) <= s.high && After(probe, target, U8_MAX, n + 1) == Some(next)
    ensures Reaches(probe, target, Middle(s)) ==> next.low == s.low && next.high == Middle(s) - 1
    ensures !Reaches(probe, target, Middle(s)) ==>
              next.low == SaturatingIncrement(Middle(s)) && next.high == s.high
  {
    MiddleInside(s);
    var p := probe(Middle(s));
    next := Turn(s, target, p.output, p.score);
  }

  lemma {:induction false} RunsOn<T(!new), E(!new)>(probe: nat -> Probe<T, E>, target: real, n: nat)
    requires AllEncoded(probe, U8_MAX) && NoneReaches(probe, target, HalvingPath(1, U8_MAX, U8_MAX))
    ensures var s := After(probe, target, U8_MAX, n);
            && s.Some? && 1 <= s.value.low <= s.value.high == U8_MAX
            && NoneReaches(probe, target, HalvingPath(s.value.low, U8_MAX, U8_MAX))
  {
    if n > 0 {
      RunsOn(probe, target, n - 1);
      hide AllEncoded, HalvingPath, NoneReaches, Reaches, After;
      var s := After(probe, target, U8_MAX, n - 1).value;
      var next := AfterStep(probe, target, n - 1, s);
      var mid := Middle(s);
      PathStep(s.low, U8_MAX, U8_MAX);
      NoneReachesStep(probe, target, mid, if mid == U8_MAX then [] else HalvingPath(mid + 1, U8_MAX, U8_MAX));
    }
  }

  lemma {:induction false} EmptiesBelow<T(!new), E(!new)>(probe: nat -> Probe<T, E>, target: real, n: nat, s: State<T>)
    requires AllEncoded(probe, U8_MAX) && After(probe, target, U8_MAX, n) == Some(s)
    requires 1 <= s.low <= s.high + 1 && s.high < U8_MAX
    ensures exists m :: EmptyAfter(probe, target, m)
    decreases s.high + 1 - s.low
  {
    if s.low > s.high {
      assert EmptyAfter(probe, target, n);
    } else {
      hide AllEncoded, After, EmptyAfter;
      var next := AfterStep(probe, target, n, s);
      EmptiesBelow(probe, target, n + 1, next);
    }
  }

  lemma {:induction false} Empties<T(!new), E(!new)>(probe: nat -> Probe<T, E>, target: real, n: nat, s: State<T>)
    requires AllEncoded(probe, U8_MAX) && After(probe, target, U8_MAX, n) == Some(s)
    requires 1 <= s.low <= s.high == U8_MAX && !NoneReaches(probe, target, HalvingPath(s.low, U8_MAX, U8_MAX))
    ensures exists m :: EmptyAfter(probe, target, m)
    decreases s.high - s.low
  {
    hide AllEncoded, HalvingPath, NoneReaches, Reaches, After, EmptyAfter;
    var next := AfterStep(probe, target, n, s);
    var mid := Middle(s);
    PathStep(s.low, U8_MAX, U8_MAX);
    NoneReachesStep(probe, target, mid, if mid == U8_MAX then [] else HalvingPath(mid + 1, U8_MAX, U8_MAX));
    NothingReaches(probe, target);
    if Reaches(probe, target, mid) {
      EmptiesBelow(probe, target, n + 1, next);
    } else {
      Empties(probe, target, n + 1, next);
    }
  }

  /**
   With every probe encoded, a search with its cap at 255 ends if and only if some midpoint on the
   way to 255 reaches the target: where a lower cap would answer with a shortfall, it does not end.
   */
  lemma CeilingEndsIff<T(!new), E(!new)>(probe: nat -> Probe<T, E>, target: real)
    requires AllEncoded(probe, U8_MAX)
    ensures (exists n :: EmptyAfter(probe, target, n))
            <==> !NoneReaches(probe, target, HalvingPath(1, U8_MAX, U8_MAX))
  {
    hide HalvingPath, NoneReaches;
    if NoneReaches(probe, target, HalvingPath(1, U8_MAX, U8_MAX)) {
      forall n
        ensures !EmptyAfter(probe, target, n)
      {
        RunsOn(probe, target, n);
      }
    } else {
      Empties(probe, target, 0, Start(U8_MAX));
    }
  }
}
