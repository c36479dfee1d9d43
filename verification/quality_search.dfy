/**
 The binary search for the lowest quality whose score reaches a target.

 A probe encodes at a quality and scores the result, or fails. Scores are ordered numbers; a
 score that is not a number is not part of this model. Nothing is assumed about how scores
 move with the quality unless a lemma says so.
 */
module QualitySearch {
  import opened Arithmetic
  import opened Wrappers

  datatype Probe<T, E> = Encoded(output: T, score: real) | Failed(error: E)

  datatype Search<T, E> =
    | Met(quality: nat, output: T)
    | Shortfall(quality: nat, output: T, score: real)
    | ProbeFailed(error: E)

  /** The search variables: the range still open, and the last probe on either side of it. */
  datatype State<T> = State(low: nat, high: nat, met: Option<(nat, T)>, missed: Option<(nat, T, real)>)

  const U8_MAX := 255

  function SaturatingIncrement(n: nat): nat {
    if n >= U8_MAX then U8_MAX else n + 1
  }

  function Middle<T>(s: State<T>): nat
    requires s.low <= s.high
  {
    s.low + (s.high - s.low) / 2
  }

  /** The state after a probe. */
  function Turn<T>(s: State<T>, target: real, output: T, score: real): State<T>
    requires 1 <= s.low <= s.high
  {
    var mid := Middle(s);
    if score >= target then s.(met := Some((mid, output)), high := mid - 1)
    else s.(missed := Some((mid, output, score)), low := SaturatingIncrement(mid))
  }

  /** A cap of zero is read as one, so the range is never empty. */
  function Top(maxQuality: nat): nat {
    if maxQuality < 1 then 1 else maxQuality
  }

  function Start<T>(top: nat): State<T> {
    State(1, top, None, None)
  }

  /** The range has qualities left, or a probe has been made. */
  predicate Running<T>(s: State<T>) {
    1 <= s.low <= s.high + 1 && s.high < U8_MAX && (s.low <= s.high || s.met.Some? || s.missed.Some?)
  }

  /** The answer from a state on. Once quality 1 met the target the range is empty. */
  function Searched<T, E>(probe: nat -> Probe<T, E>, target: real, s: State<T>): Search<T, E>
    requires Running(s)
    decreases s.high + 1 - s.low
  {
    if s.low > s.high then
      if s.met.Some? then Met(s.met.value.0, s.met.value.1)
      else Shortfall(s.missed.value.0, s.missed.value.1, s.missed.value.2)
    else
      var p := probe(Middle(s));
      if p.Failed? then ProbeFailed(p.error) else Searched(probe, target, Turn(s, target, p.output, p.score))
  }

  // ---------- how many probes ----------

  /** How often a range of `n` qualities can be halved before it is empty. */
  function Halvings(n: nat): nat {
    if n == 0 then 0 else 1 + Halvings(n / 2)
  }

  lemma {:induction false} HalvingsMonotone(m: nat, n: nat)
    requires m <= n
    ensures Halvings(m) <= Halvings(n)
  {
    if m > 0 {
      HalvingsMonotone(m / 2, n / 2);
    }
  }

  /** `Halvings(n)` is the base-2 logarithm of `n`, rounded down, plus one. */
  lemma {:induction false} HalvingsIsLog(n: nat)
    requires n > 0
    ensures Halvings(n) > 0 && Pow2(Halvings(n) - 1) <= n < Pow2(Halvings(n))
  {
    if n > 1 {
      HalvingsIsLog(n / 2);
    }
  }

  // ---------- the guarantees ----------

  predicate Reaches<T, E>(probe: nat -> Probe<T, E>, target: real, q: nat) {
    probe(q).Encoded? && probe(q).score >= target
  }

  predicate Misses<T, E>(probe: nat -> Probe<T, E>, target: real, q: nat) {
    probe(q).Encoded? && probe(q).score < target
  }

  /** No quality is probed twice, and all lie in the range. */
  ghost predicate InRangeOnce(probed: seq<nat>, top: nat) {
    && (forall i | 0 <= i < |probed| :: 1 <= probed[i] <= top)
    && (forall i, j | 0 <= i < j < |probed| :: probed[i] != probed[j])
  }

  /**
   What holds of every search, however the scores behave.
   - It takes at most floor(log2(top)) + 1 probes, each quality at most once.
   - `Met` carries a probed quality that reaches the target, with its encode; either it is 1,
     or the quality just below it was probed and missed.
   - `Shortfall` carries the top of the range with that encode and its score, and every probe
     missed.
   - A failed probe ends the search with its error, and was the last.
   */
  ghost predicate Answers<T(!new), E(!new)>(probe: nat -> Probe<T, E>, target: real, top: nat, r: Search<T, E>,
                                            probed: seq<nat>) {
    && InRangeOnce(probed, top) && 1 <= |probed| <= Halvings(top)
    && match r
       case Met(q, output) =>
         && q in probed && Reaches(probe, target, q) && probe(q).output == output
         && (q == 1 || (q - 1 in probed && Misses(probe, target, q - 1)))
       case Shortfall(q, output, score) =>
         && q == top && q in probed && probe(q) == Encoded(output, score)
         && forall p | p in probed :: Misses(probe, target, p)
       case ProbeFailed(error) =>
         probe(probed[|probed| - 1]) == Failed(error)
  }

  /** The open range has not been probed, and the probes left fit the bound. */
  ghost predicate Open<T>(s: State<T>, top: nat, probed: seq<nat>) {
    && 1 <= s.low <= s.high + 1 && s.high <= top
    && InRangeOnce(probed, top)
    && (forall i | 0 <= i < |probed| :: probed[i] < s.low || s.high < probed[i])
    && |probed| + Halvings(s.high + 1 - s.low) <= Halvings(top)
  }

  /** Above the range stands the last quality that met the target, if any did. */
  ghost predicate MetSide<T(!new), E(!new)>(probe: nat -> Probe<T, E>, target: real, top: nat, s: State<T>,
                                            probed: seq<nat>) {
    if s.met.Some? then
      && s.met.value.0 == s.high + 1 && s.high + 1 in probed
      && Reaches(probe, target, s.high + 1) && probe(s.high + 1).output == s.met.value.1
    else
      s.high == top && forall i | 0 <= i < |probed| :: Misses(probe, target, probed[i])
  }

  /** Below the range stands the last quality that missed it, if any did. */
  ghost predicate MissedSide<T(!new), E(!new)>(probe: nat -> Probe<T, E>, target: real, s: State<T>, probed: seq<nat>) {
    if s.missed.Some? then
      && s.missed.value.0 == s.low - 1 && s.low - 1 in probed
      && Misses(probe, target, s.low - 1) && probe(s.low - 1) == Encoded(s.missed.value.1, s.missed.value.2)
    else
      s.low == 1
  }

  ghost predicate Consistent<T(!new), E(!new)>(probe: nat -> Probe<T, E>, target: real, top: nat, s: State<T>,
                                               probed: seq<nat>) {
    Open(s, top, probed) && MetSide(probe, target, top, s, probed) && MissedSide(probe, target, s, probed)
  }

  lemma MiddleInside<T>(s: State<T>)
    requires s.low <= s.high
    ensures s.low <= Middle(s) <= s.high
    ensures Middle(s) - s.low <= (s.high + 1 - s.low) / 2 && s.high - Middle(s) <= (s.high + 1 - s.low) / 2
  {
  }

  lemma TurnOpen<T>(s: State<T>, target: real, output: T, score: real, top: nat, probed: seq<nat>)
    requires Open(s, top, probed) && s.low <= s.high && top < U8_MAX
    ensures Open(Turn(s, target, output, score), top, probed + [Middle(s)])
  {
    var mid, n := Middle(s), s.high + 1 - s.low;
    MiddleInside(s);
    HalvingsMonotone(if score >= target then mid - s.low else s.high - mid, n / 2);
    var more := probed + [mid];
    assert forall i | 0 <= i < |probed| :: more[i] == probed[i];
    assert more[|probed|] == mid;
  }

  lemma TurnConsistent<T(!new), E(!new)>(probe: nat -> Probe<T, E>, target: real, top: nat, s: State<T>,
                                         probed: seq<nat>)
    requires Consistent(probe, target, top, s, probed) && s.low <= s.high && top < U8_MAX
    requires probe(Middle(s)).Encoded?
    ensures var p := probe(Middle(s));
            Consistent(probe, target, top, Turn(s, target, p.output, p.score), probed + [Middle(s)])
  {
    var mid := Middle(s);
    var more := probed + [mid];
    TurnOpen(s, target, probe(mid).output, probe(mid).score, top, probed);
    MiddleInside(s);
    assert more[|probed|] == mid;
    assert forall i | 0 <= i < |probed| :: more[i] == probed[i];
  }

  // ---------- the loop ----------

  /** The search variables after `n` turns, if the loop gets that far. */
  ghost function After<T(!new), E(!new)>(probe: nat -> Probe<T, E>, target: real, top: nat, n: nat): Option<State<T>>
    requires top >= 1
    decreases n, top
  {
    if n == 0 then Some(State(1, top, None, None))
    else
      var s := After(probe, target, top, n - 1);
      if s.None? || !(1 <= s.value.low <= s.value.high) || probe(Middle(s.value)).Failed? then None
      else Some(Turn(s.value, target, probe(Middle(s.value)).output, probe(Middle(s.value)).score))
  }

  /** The qualities probed in those turns. */
  ghost function Probed<T(!new), E(!new)>(probe: nat -> Probe<T, E>, target: real, top: nat, n: nat): seq<nat>
    requires top >= 1 && After(probe, target, top, n).Some?
    decreases n, top
  {
    if n == 0 then []
    else Probed(probe, target, top, n - 1) + [Middle(After(probe, target, top, n - 1).value)]
  }

  lemma {:induction false} AfterConsistent<T(!new), E(!new)>(probe: nat -> Probe<T, E>, target: real, top: nat, n: nat)
    requires 1 <= top < U8_MAX && After(probe, target, top, n).Some?
    ensures Consistent(probe, target, top, After(probe, target, top, n).value, Probed(probe, target, top, n))
    ensures |Probed(probe, target, top, n)| == n
    decreases n
  {
    if n > 0 {
      var s, probed := After(probe, target, top, n - 1).value, Probed(probe, target, top, n - 1);
      assert Consistent(probe, target, top, s, probed) && |probed| == n - 1 by {
        AfterConsistent(probe, target, top, n - 1);
      }
      TurnConsistent(probe, target, top, s, probed);
    }
  }

  lemma AfterBounds<T(!new), E(!new)>(probe: nat -> Probe<T, E>, target: real, top: nat, n: nat)
    requires 1 <= top < U8_MAX && After(probe, target, top, n).Some?
    ensures var s := After(probe, target, top, n).value;
            1 <= s.low <= s.high + 1 && s.high <= top && (n == 0 ==> s.low <= s.high)
  {
    AfterConsistent(probe, target, top, n);
  }

  lemma MetAnswers<T(!new), E(!new)>(probe: nat -> Probe<T, E>, target: real, top: nat, n: nat, s: State<T>)
    requires 1 <= top < U8_MAX && n > 0 && After(probe, target, top, n) == Some(s)
    requires s.met.Some? && (s.low > s.high || s.met.value.0 == 1)
    ensures Answers(probe, target, top, Met(s.met.value.0, s.met.value.1), Probed(probe, target, top, n))
  {
    AfterConsistent(probe, target, top, n);
  }

  lemma MissedAnswers<T(!new), E(!new)>(probe: nat -> Probe<T, E>, target: real, top: nat, n: nat, s: State<T>)
    requires 1 <= top < U8_MAX && n > 0 && After(probe, target, top, n) == Some(s)
    requires s.met.None? && s.low > s.high
    ensures s.missed.Some?
    ensures var m := s.missed.value;
            Answers(probe, target, top, Shortfall(m.0, m.1, m.2), Probed(probe, target, top, n))
  {
    AfterConsistent(probe, target, top, n);
  }

  lemma FailedProbe<T(!new), E(!new)>(probe: nat -> Probe<T, E>, target: real, top: nat, n: nat)
    requires 1 <= top < U8_MAX && After(probe, target, top, n).Some?
    requires var s := After(probe, target, top, n).value; 1 <= s.low <= s.high && probe(Middle(s)).Failed?
    ensures var s := After(probe, target, top, n).value;
            Answers(probe, target, top, ProbeFailed(probe(Middle(s)).error),
                    Probed(probe, target, top, n) + [Middle(s)])
  {
    AfterConsistent(probe, target, top, n);
    var s, probed := After(probe, target, top, n).value, Probed(probe, target, top, n);
    MiddleInside(s);
    var more := probed + [Middle(s)];
    assert forall i | 0 <= i < |probed| :: more[i] == probed[i];
    assert more[|probed|] == Middle(s);
  }

  /**
   The loop: halves the open range until it is empty, quality 1 meets the target, or a probe
   fails. The cap has to stay below 255: at 255 the lower bound saturates instead of passing
   the upper one.
   */
  method NarrowRange<T(!new), E(!new)>(target: real, top: nat, probe: nat -> Probe<T, E>)
    returns (met: Option<(nat, T)>, missed: Option<(nat, T, real)>, failure: Option<E>, ghost turns: nat,
             ghost s: State<T>)
    requires 1 <= top < U8_MAX
    ensures After(probe, target, top, turns) == Some(s) && s.met == met && s.missed == missed
    ensures failure.Some? ==> 1 <= s.low <= s.high && probe(Middle(s)) == Failed(failure.value)
    ensures failure.None? ==> turns > 0 && (s.low > s.high || (met.Some? && met.value.0 == 1))
  {
    var low: nat, high: nat := 1, top;
    met, missed, failure := None, None, None;
    turns, s := 0, State(low, high, met, missed);
    while low <= high
      invariant low >= 1 && s == State(low, high, met, missed)
      invariant After(probe, target, top, turns) == Some(s)
      invariant turns == 0 ==> low <= high
      decreases high + 1 - low
    {
      AfterBounds(probe, target, top, turns);
      var mid := low + (high - low) / 2;
      var candidate := probe(mid);
      if candidate.Failed? {
        failure := Some(candidate.error);
        return;
      }
      turns := turns + 1;
      if candidate.score >= target {
        met := Some((mid, candidate.output));
        high := mid - 1;
        s := State(low, high, met, missed);
        if mid == 1 {
          break;
        }
      } else {
        missed := Some((mid, candidate.output, candidate.score));
        low := SaturatingIncrement(mid);
        s := State(low, high, met, missed);
      }
    }
  }

  /** The turns of the loop do not change what the search will answer. */
  lemma {:induction false} AfterSearched<T(!new), E(!new)>(probe: nat -> Probe<T, E>, target: real, top: nat, n: nat)
    requires 1 <= top < U8_MAX && After(probe, target, top, n).Some?
    ensures Running(After(probe, target, top, n).value)
    ensures Searched(probe, target, After(probe, target, top, n).value) == Searched(probe, target, Start(top))
    decreases n
  {
    if n > 0 {
      AfterSearched(probe, target, top, n - 1);
    }
  }

  lemma SearchedStep<T(!new), E(!new)>(probe: nat -> Probe<T, E>, target: real, s: State<T>, next: State<T>)
    requires Running(s) && s.low <= s.high && probe(Middle(s)).Encoded?
    requires next == Turn(s, target, probe(Middle(s)).output, probe(Middle(s)).score)
    ensures Running(next) && Searched(probe, target, s) == Searched(probe, target, next)
  {
  }

  lemma SearchedEnd<T(!new), E(!new)>(probe: nat -> Probe<T, E>, target: real, s: State<T>)
    requires Running(s)
    ensures s.low <= s.high && probe(Middle(s)).Failed? ==>
              Searched(probe, target, s) == ProbeFailed(probe(Middle(s)).error)
    ensures s.low > s.high && s.met.Some? ==> Searched(probe, target, s) == Met(s.met.value.0, s.met.value.1)
    ensures s.low > s.high && s.met.None? ==>
              Searched(probe, target, s) == Shortfall(s.missed.value.0, s.missed.value.1, s.missed.value.2)
  {
  }

  /** Having met the target at quality 1, there is nothing left to look at. */
  lemma MetAtOne<T(!new), E(!new)>(probe: nat -> Probe<T, E>, target: real, top: nat, n: nat)
    requires 1 <= top < U8_MAX && After(probe, target, top, n).Some?
    ensures var s := After(probe, target, top, n).value; s.met.Some? && s.met.value.0 == 1 ==> s.low > s.high
  {
    AfterConsistent(probe, target, top, n);
  }

  /** What the result alone says about the scores. */
  ghost predicate Found<T(!new), E(!new)>(probe: nat -> Probe<T, E>, target: real, top: nat, r: Search<T, E>) {
    match r
    case Met(q, output) =>
      && 1 <= q <= top && Reaches(probe, target, q) && probe(q).output == output
      && (q == 1 || Misses(probe, target, q - 1))
    case Shortfall(q, output, score) =>
      q == top && probe(q) == Encoded(output, score) && score < target
    case ProbeFailed(error) =>
      exists q: nat :: 1 <= q <= top && probe(q) == Failed(error)
  }

  lemma AnswersAreFound<T(!new), E(!new)>(probe: nat -> Probe<T, E>, target: real, top: nat, r: Search<T, E>,
                                          probed: seq<nat>)
    requires Answers(probe, target, top, r, probed)
    ensures Found(probe, target, top, r)
  {
    if r.Met? || r.Shortfall? {
      var i :| 0 <= i < |probed| && probed[i] == r.quality;
      assert 1 <= probed[i] <= top;
    }
  }

  method SearchQualityForTarget<T(!new), E(!new)>(target: real, maxQuality: nat, probe: nat -> Probe<T, E>)
    returns (r: Search<T, E>, ghost probed: seq<nat>)
    requires maxQuality < U8_MAX
    ensures r == Searched(probe, target, Start(Top(maxQuality)))
    ensures Found(probe, target, Top(maxQuality), r)
    ensures Answers(probe, target, Top(maxQuality), r, probed)
  {
    hide Answers, Found, Searched, After;
    var top := if maxQuality < 1 then 1 else maxQuality;
    var met, missed, failure, turns, s := NarrowRange(target, top, probe);
    AfterSearched(probe, target, top, turns);
    SearchedEnd(probe, target, s);
    MetAtOne(probe, target, top, turns);
    probed := Probed(probe, target, top, turns);
    if failure.Some? {
      FailedProbe(probe, target, top, turns);
      r, probed := ProbeFailed(failure.value), probed + [Middle(s)];
    } else if met.Some? {
      MetAnswers(probe, target, top, turns, s);
      r := Met(met.value.0, met.value.1);
    } else {
      MissedAnswers(probe, target, top, turns, s);
      r := Shortfall(missed.value.0, missed.value.1, missed.value.2);
    }
    AnswersAreFound(probe, target, top, r, probed);
  }

  // ---------- when scores rise with the quality ----------

  /** A quality above one that reaches the target reaches it too. */
  ghost predicate Monotone<T(!new), E(!new)>(probe: nat -> Probe<T, E>, target: real, top: nat) {
    forall p, q | 1 <= p <= q <= top && Reaches(probe, target, p) :: Reaches(probe, target, q)
  }

  lemma NoneBelow<T(!new), E(!new)>(probe: nat -> Probe<T, E>, target: real, top: nat, m: nat)
    requires Monotone(probe, target, top) && 1 <= m <= top && Misses(probe, target, m)
    ensures forall q | 1 <= q <= m :: !Reaches(probe, target, q)
  {
    assert !Reaches(probe, target, m);
  }

  /**
   If reaching the target is monotone, `Met` is the least quality that reaches it and
   `Shortfall` means that none does.
   */
  lemma MonotoneSearchIsExact<T(!new), E(!new)>(probe: nat -> Probe<T, E>, target: real, top: nat, r: Search<T, E>,
                                                probed: seq<nat>)
    requires Answers(probe, target, top, r, probed) && Monotone(probe, target, top)
    ensures r.Met? ==> Reaches(probe, target, r.quality)
                       && forall q | 1 <= q <= top && Reaches(probe, target, q) :: r.quality <= q
    ensures r.Shortfall? ==> forall q | 1 <= q <= top :: !Reaches(probe, target, q)
  {
    if r.Met? && r.quality > 1 {
      NoneBelow(probe, target, top, r.quality - 1);
    }
    if r.Shortfall? {
      NoneBelow(probe, target, top, top);
    }
  }

  /** Scores that do reach the target, but only where the search does not look. */
  function Dip(q: nat): Probe<nat, ()> {
    Encoded(q, if q == 1 then 1.0 else 0.0)
  }

  lemma DipReaches()
    ensures Reaches(Dip, 1.0, 1)
  {
  }

  /** Without monotonicity a shortfall does not mean that no quality reaches the target. */
  lemma ShortfallCanMissAQuality()
    ensures Searched(Dip, 1.0, Start(3)) == Shortfall(3, 3, 0.0)
    ensures Reaches(Dip, 1.0, 1)
  {
    hide Searched, Reaches;
    DipReaches();
    var second: State<nat> := State(3, 3, None, Some((2, 2, 0.0)));
    var last: State<nat> := State(4, 3, None, Some((3, 3, 0.0)));
    SearchedStep(Dip, 1.0, Start(3), second);
    SearchedStep(Dip, 1.0, second, last);
    SearchedEnd(Dip, 1.0, last);
  }

  /**
   Why the cap has to stay below 255: on a range that is down to 255, a miss leaves the range
   as it was, and the loop would probe 255 for ever.
   */
  lemma StuckAtCeiling<T>(s: State<T>, target: real, output: T, score: real)
    requires 1 <= s.low <= s.high <= U8_MAX && score < target
    ensures var next := Turn(s, target, output, score);
            (next.low == s.low && next.high == s.high) <==> s.low == U8_MAX
  {
  }
}
