/** Suggesting the key a misspelling was probably meant to be: the one-edit matcher. */
module EditDistance {
  import opened Arithmetic
  import opened Wrappers

  // ---------- what the distance is ----------

  /** The Levenshtein distance of the rest of `a` from `i` on and the rest of `b` from `j` on. */
  function Distance(a: string, b: string, i: nat, j: nat): nat
    requires i <= |a| && j <= |b|
    decreases |a| - i + |b| - j
  {
    if i == |a| then |b| - j
    else if j == |b| then |a| - i
    else Min(Min(Distance(a, b, i + 1, j), Distance(a, b, i, j + 1)) + 1,
             Distance(a, b, i + 1, j + 1) + if a[i] == b[j] then 0 else 1)
  }

  /** The edits one pass counts: the side that is longer as a whole skips a character, or both do. */
  function Edits(a: string, b: string, i: nat, j: nat): nat
    requires i <= |a| && j <= |b|
    decreases |a| - i + |b| - j
  {
    if i == |a| || j == |b| then |a| - i + |b| - j
    else if a[i] == b[j] then Edits(a, b, i + 1, j + 1)
    else 1 + if |a| > |b| then Edits(a, b, i + 1, j)
             else if |a| < |b| then Edits(a, b, i, j + 1)
             else Edits(a, b, i + 1, j + 1)
  }

  function Gap(a: string, b: string): nat {
    if |a| > |b| then |a| - |b| else |b| - |a|
  }

  predicate Within(a: string, b: string, limit: nat) {
    Gap(a, b) <= limit && Edits(a, b, 0, 0) <= limit
  }

  // ---------- the distance behaves like one ----------

  /** Dropping a character changes the distance by at most one. */
  lemma {:induction false} DropOne(a: string, b: string, i: nat, j: nat)
    requires i <= |a| && j <= |b|
    ensures j < |b| ==> Distance(a, b, i, j + 1) <= Distance(a, b, i, j) + 1
    ensures i < |a| ==> Distance(a, b, i + 1, j) <= Distance(a, b, i, j) + 1
    decreases |a| - i + |b| - j
  {
    if i < |a| && j < |b| {
      DropOne(a, b, i + 1, j);
      DropOne(a, b, i, j + 1);
    }
  }

  lemma {:induction false} AtLeastGap(a: string, b: string, i: nat, j: nat)
    requires i <= |a| && j <= |b|
    ensures Distance(a, b, i, j) >= (|a| - i) - (|b| - j)
    ensures Distance(a, b, i, j) >= (|b| - j) - (|a| - i)
    decreases |a| - i + |b| - j
  {
    if i < |a| && j < |b| {
      AtLeastGap(a, b, i + 1, j);
      AtLeastGap(a, b, i, j + 1);
      AtLeastGap(a, b, i + 1, j + 1);
    }
  }

  lemma EqualHeads(a: string, b: string, i: nat, j: nat)
    requires i < |a| && j < |b| && a[i] == b[j]
    ensures Distance(a, b, i, j) == Distance(a, b, i + 1, j + 1)
  {
    DropOne(a, b, i + 1, j);
    DropOne(a, b, i, j + 1);
  }

  /** The counted edits do turn one string into the other. */
  lemma {:induction false} EditsSuffice(a: string, b: string, i: nat, j: nat)
    requires i <= |a| && j <= |b|
    ensures Distance(a, b, i, j) <= Edits(a, b, i, j)
    decreases |a| - i + |b| - j
  {
    if i < |a| && j < |b| {
      if a[i] == b[j] || |a| == |b| {
        EditsSuffice(a, b, i + 1, j + 1);
      } else if |a| > |b| {
        EditsSuffice(a, b, i + 1, j);
      } else {
        EditsSuffice(a, b, i, j + 1);
      }
    }
  }

  /** An answer of yes is never wrong, whatever the limit. */
  lemma WithinIsSound(a: string, b: string, limit: nat)
    requires Within(a, b, limit)
    ensures Distance(a, b, 0, 0) <= limit
  {
    EditsSuffice(a, b, 0, 0);
  }

  lemma {:induction false} NoDistanceNoEdits(a: string, b: string, i: nat, j: nat)
    requires i <= |a| && j <= |b| && Distance(a, b, i, j) == 0
    ensures Edits(a, b, i, j) == 0
    decreases |a| - i + |b| - j
  {
    if i < |a| && j < |b| {
      assert a[i] == b[j] by {
        AtLeastGap(a, b, i + 1, j);
        AtLeastGap(a, b, i, j + 1);
      }
      EqualHeads(a, b, i, j);
      NoDistanceNoEdits(a, b, i + 1, j + 1);
    }
  }

  /** As long as nothing was skipped, one edit left over is found. */
  lemma {:induction false} OneEditFound(a: string, b: string, i: nat)
    requires i <= |a| && i <= |b| && Distance(a, b, i, i) <= 1
    ensures Edits(a, b, i, i) <= 1
    decreases |a| - i
  {
    if i < |a| && i < |b| {
      if a[i] == b[i] {
        EqualHeads(a, b, i, i);
        OneEditFound(a, b, i + 1);
      } else {
        AtLeastGap(a, b, i + 1, i);
        AtLeastGap(a, b, i, i + 1);
        AtLeastGap(a, b, i + 1, i + 1);
        if |a| > |b| {
          NoDistanceNoEdits(a, b, i + 1, i);
        } else if |a| < |b| {
          NoDistanceNoEdits(a, b, i, i + 1);
        } else {
          NoDistanceNoEdits(a, b, i + 1, i + 1);
        }
      }
    }
  }

  /** With the limit it is called with, the pass decides the Levenshtein distance exactly. */
  lemma WithinOneIsExact(a: string, b: string)
    ensures Within(a, b, 1) <==> Distance(a, b, 0, 0) <= 1
  {
    EditsSuffice(a, b, 0, 0);
    if Distance(a, b, 0, 0) <= 1 {
      AtLeastGap(a, b, 0, 0);
      OneEditFound(a, b, 0);
    }
  }

  // ---------- which limits it decides ----------

  /** `n` characters that alternate, starting with `c`. */
  function Alternating(n: nat, c: char): (s: string)
    ensures |s| == n
  {
    seq(n, k requires 0 <= k => if (k % 2 == 0) == (c == 'x') then 'x' else 'y')
  }

  lemma {:induction false} AllDiffer(n: nat, i: nat)
    requires i <= n
    ensures Edits(Alternating(n, 'x'), Alternating(n, 'y'), i, i) == n - i
    decreases n - i
  {
    if i < n {
      AllDiffer(n, i + 1);
    }
  }

  lemma {:induction false} ShiftedAgree(n: nat, i: nat)
    requires i < n
    ensures Distance(Alternating(n, 'x'), Alternating(n, 'y'), i + 1, i) <= 1
    decreases n - i
  {
    if i + 1 < n {
      ShiftedAgree(n, i + 1);
    }
  }

  lemma TwoEditsMissed(limit: nat)
    requires limit >= 2
    ensures var a, b := Alternating(limit + 1, 'x'), Alternating(limit + 1, 'y');
            Distance(a, b, 0, 0) <= limit && !Within(a, b, limit)
  {
    ShiftedAgree(limit + 1, 0);
    AllDiffer(limit + 1, 0);
  }

  lemma WithinNoneIsExact(a: string, b: string)
    ensures Within(a, b, 0) <==> Distance(a, b, 0, 0) <= 0
  {
    EditsSuffice(a, b, 0, 0);
    if Distance(a, b, 0, 0) == 0 {
      AtLeastGap(a, b, 0, 0);
      NoDistanceNoEdits(a, b, 0, 0);
    }
  }

  /**
   The pass decides the distance for the limits 0 and 1 and for no other: a character dropped at
   one end and added at the other costs two edits, but is counted once for every position.
   */
  lemma ExactIffAtMostOne(limit: nat)
    ensures (forall a, b :: Within(a, b, limit) <==> Distance(a, b, 0, 0) <= limit) <==> limit <= 1
  {
    if limit >= 2 {
      TwoEditsMissed(limit);
    }
    forall a, b | limit <= 1
      ensures Within(a, b, limit) <==> Distance(a, b, 0, 0) <= limit
    {
      WithinOneIsExact(a, b);
      WithinNoneIsExact(a, b);
    }
  }

  method EditDistanceWithin(a: string, b: string, limit: nat) returns (r: bool)
    ensures r <==> Within(a, b, limit)
  {
    if Gap(a, b) > limit {
      return false;
    }
    var edits, i, j := 0, 0, 0;
    while i < |a| && j < |b|
      invariant i <= |a| && j <= |b| && edits <= limit
      invariant edits + Edits(a, b, i, j) == Edits(a, b, 0, 0)
      decreases |a| - i + |b| - j
    {
      if a[i] == b[j] {
        i, j := i + 1, j + 1;
        continue;
      }
      edits := edits + 1;
      if edits > limit {
        return false;
      }
      if |a| > |b| {
        i := i + 1;
      } else if |a| < |b| {
        j := j + 1;
      } else {
        i, j := i + 1, j + 1;
      }
    }
    return edits + (|a| - i) + (|b| - j) <= limit;
  }

  // ---------- one swapped pair ----------

  /** `b` is `a` with the unequal neighbours at `k` swapped. */
  predicate SwappedAt(a: string, b: string, k: nat) {
    && |a| == |b| && k + 1 < |a| && a[k] != a[k + 1]
    && b == a[k := a[k + 1]][k + 1 := a[k]]
  }

  ghost predicate Transposed(a: string, b: string) {
    exists k :: SwappedAt(a, b, k)
  }

  /** The first `n` positions at which the strings differ. */
  function Differing(a: string, b: string, n: nat): (d: seq<nat>)
    requires n <= |a| == |b|
    ensures forall k | 0 <= k < |d| :: d[k] < n
  {
    if n == 0 then [] else Differing(a, b, n - 1) + if a[n - 1] != b[n - 1] then [n - 1] else []
  }

  lemma {:induction false} DifferingMembers(a: string, b: string, n: nat, p: nat)
    requires p < n <= |a| == |b|
    ensures p in Differing(a, b, n) <==> a[p] != b[p]
  {
    if p < n - 1 {
      DifferingMembers(a, b, n - 1, p);
    }
  }

  lemma {:induction false} DifferingGrows(a: string, b: string, m: nat, n: nat)
    requires m <= n <= |a| == |b|
    ensures |Differing(a, b, m)| <= |Differing(a, b, n)|
  {
    if m < n {
      DifferingGrows(a, b, m, n - 1);
    }
  }

  predicate IsOneSwap(a: string, b: string, d: seq<nat>)
    requires |a| == |b| && forall k | 0 <= k < |d| :: d[k] < |a|
  {
    |d| == 2 && d[1] == d[0] + 1 && a[d[0]] == b[d[1]] && a[d[1]] == b[d[0]]
  }

  lemma SwappedChar(a: string, b: string, k: nat, p: nat)
    requires SwappedAt(a, b, k) && p < |a|
    ensures |b| == |a| && (a[p] != b[p] <==> p == k || p == k + 1)
  {
  }

  lemma DifferingStep(a: string, b: string, n: nat)
    requires n < |a| == |b|
    ensures Differing(a, b, n + 1) == if a[n] != b[n] then Differing(a, b, n) + [n] else Differing(a, b, n)
  {
  }

  lemma {:induction false} SwapDiffers(a: string, b: string, k: nat, n: nat)
    requires n <= |a| && SwappedAt(a, b, k)
    ensures |b| == |a| && Differing(a, b, n) == if n <= k then [] else if n == k + 1 then [k] else [k, k + 1]
  {
    if n > 0 {
      hide Differing;
      SwapDiffers(a, b, k, n - 1);
      SwappedChar(a, b, k, n - 1);
      DifferingStep(a, b, n - 1);
      hide SwappedAt;
    }
  }

  lemma OneSwapExplained(a: string, b: string, k: nat)
    requires |a| == |b| && k + 1 < |a| && Differing(a, b, |a|) == [k, k + 1]
    requires a[k] == b[k + 1] && a[k + 1] == b[k]
    ensures SwappedAt(a, b, k)
  {
    DifferingMembers(a, b, |a|, k);
    forall p: nat | p < |a| && p != k && p != k + 1
      ensures a[p] == b[p]
    {
      DifferingMembers(a, b, |a|, p);
    }
  }

  lemma OneSwapIffTransposed(a: string, b: string)
    requires |a| == |b|
    ensures IsOneSwap(a, b, Differing(a, b, |a|)) <==> Transposed(a, b)
  {
    hide SwappedAt, Differing;
    var d := Differing(a, b, |a|);
    if IsOneSwap(a, b, d) {
      assert d == [d[0], d[0] + 1];
      OneSwapExplained(a, b, d[0]);
    }
    if Transposed(a, b) {
      var k :| SwappedAt(a, b, k);
      SwapShows(a, b, k);
    }
  }

  lemma SwapShows(a: string, b: string, k: nat)
    requires SwappedAt(a, b, k)
    ensures IsOneSwap(a, b, Differing(a, b, |a|))
  {
    SwapDiffers(a, b, k, |a|);
  }

  lemma SwapsKeepLength(a: string, b: string)
    ensures Transposed(a, b) ==> |a| == |b|
  {
  }

  method IsAdjacentTransposition(a: string, b: string) returns (r: bool)
    ensures r <==> Transposed(a, b)
  {
    hide SwappedAt;
    if |a| != |b| {
      assert !Transposed(a, b) by {
        SwapsKeepLength(a, b);
      }
      return false;
    }
    hide Transposed;
    OneSwapIffTransposed(a, b);
    var differing := [];
    for i := 0 to |a|
      invariant differing == Differing(a, b, i) && |differing| <= 2
    {
      if a[i] != b[i] {
        differing := differing + [i];
        if |differing| > 2 {
          DifferingGrows(a, b, i + 1, |a|);
          return false;
        }
      }
    }
    return IsOneSwap(a, b, differing);
  }

  // ---------- the suggestion ----------

  /** One edit away, or one swapped pair of neighbours. */
  ghost predicate Near(a: string, b: string) {
    Distance(a, b, 0, 0) <= 1 || Transposed(a, b)
  }

  /** The first allowed key that is near the one given, once both are lowered; none when none is. */
  method NearestKey(key: string, allowed: seq<string>, lower: string -> string) returns (r: Option<string>)
    ensures r.None? ==> forall k | 0 <= k < |allowed| :: !Near(lower(key), lower(allowed[k]))
    ensures r.Some? ==> exists k ::
      && 0 <= k < |allowed| && r.value == allowed[k] && Near(lower(key), lower(allowed[k]))
      && forall m | 0 <= m < k :: !Near(lower(key), lower(allowed[m]))
  {
    hide Near, Within, Transposed;
    var lowered := lower(key);
    for i := 0 to |allowed|
      invariant forall k | 0 <= k < i :: !Near(lowered, lower(allowed[k]))
    {
      var target := lower(allowed[i]);
      var within := EditDistanceWithin(lowered, target, 1);
      var swapped := IsAdjacentTransposition(lowered, target);
      NearDecided(lowered, target);
      if within || swapped {
        return Some(allowed[i]);
      }
    }
    return None;
  }

  lemma NearDecided(a: string, b: string)
    ensures Near(a, b) <==> Within(a, b, 1) || Transposed(a, b)
  {
    WithinOneIsExact(a, b);
  }
}
