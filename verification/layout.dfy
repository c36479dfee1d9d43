/** Where a part stands in a longer sequence. */
module Layout {
  /** `part` stands in `b` at `offset`. */
  predicate Holds<T(==)>(b: seq<T>, offset: nat, part: seq<T>) {
    offset + |part| <= |b| && b[offset..offset + |part|] == part
  }

  lemma HoldsAt<T>(b: seq<T>, offset: nat, part: seq<T>, k: nat)
    requires Holds(b, offset, part) && k < |part|
    ensures offset + k < |b| && b[offset + k] == part[k]
  {
    assert b[offset..offset + |part|][k] == b[offset + k];
  }

  lemma HoldsSlice<T>(b: seq<T>, i: nat, j: nat)
    requires i <= j <= |b|
    ensures Holds(b, i, b[i..j])
  {
  }

  lemma HoldsElement<T>(b: seq<T>, i: nat)
    requires i < |b|
    ensures Holds(b, i, [b[i]])
  {
    assert b[i..i + 1] == [b[i]];
  }

  lemma HoldsBoth<T>(b: seq<T>, offset: nat, left: seq<T>, right: seq<T>)
    requires Holds(b, offset, left + right)
    ensures Holds(b, offset, left) && Holds(b, offset + |left|, right)
  {
    var all := b[offset..offset + |left| + |right|];
    assert all[..|left|] == left && all[|left|..] == right;
  }

  lemma HoldsJoined<T>(b: seq<T>, offset: nat, left: seq<T>, right: seq<T>)
    requires Holds(b, offset, left) && Holds(b, offset + |left|, right)
    ensures Holds(b, offset, left + right)
  {
    var middle, end := offset + |left|, offset + |left| + |right|;
    assert b[offset..middle] + b[middle..end] == b[offset..end];
    assert |left + right| == |left| + |right|;
  }

  lemma SubSlice<T>(b: seq<T>, i: nat, j: nat, k: nat, l: nat)
    requires i <= j <= |b| && k <= l <= j - i
    ensures b[i..j][k..l] == b[i + k..i + l]
  {
    forall x | 0 <= x < l - k
      ensures b[i..j][k..l][x] == b[i + k..i + l][x]
    {
      assert b[i..j][k..l][x] == b[i..j][k + x] == b[i + k + x];
    }
  }

  lemma JoinTail<T>(b: seq<T>, i: nat, j: nat)
    requires i <= j <= |b|
    ensures b[i..j] + b[j..] == b[i..]
  {
  }

  lemma Regroup<T>(a: seq<T>, b: seq<T>, c: seq<T>)
    ensures a + (b + c) == a + b + c
  {
  }
}
