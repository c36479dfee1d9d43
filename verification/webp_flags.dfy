/**
 The feature flags of a `VP8X` chunk, as bits of its first byte (section 2.7 of RFC 9649).

 `&`, `|=` and `&= !` on a single bit are written bit by bit, from the least significant on.
 */
module WebpFlags {
  import opened Arithmetic
  import opened Bytes

  // ---------- single bits of a number ----------

  predicate Bit(n: nat, k: nat)
    decreases k, n
  {
    if k == 0 then n % 2 == 1 else Bit(n / 2, k - 1)
  }

  function SetBit(n: nat, k: nat): nat
    decreases k, n
  {
    if k == 0 then n / 2 * 2 + 1 else SetBit(n / 2, k - 1) * 2 + n % 2
  }

  function ClearBit(n: nat, k: nat): nat
    decreases k, n
  {
    if k == 0 then n / 2 * 2 else ClearBit(n / 2, k - 1) * 2 + n % 2
  }

  lemma Halved(high: nat, low: nat)
    requires low < 2
    ensures (high * 2 + low) / 2 == high && (high * 2 + low) % 2 == low
  {
  }

  lemma {:induction false} BitAfterSet(n: nat, k: nat, j: nat)
    ensures Bit(SetBit(n, k), j) <==> j == k || Bit(n, j)
    decreases k, j
  {
    if k == 0 {
      Halved(n / 2, 1);
    } else {
      Halved(SetBit(n / 2, k - 1), n % 2);
      if j > 0 {
        BitAfterSet(n / 2, k - 1, j - 1);
      }
    }
  }

  lemma {:induction false} BitAfterClear(n: nat, k: nat, j: nat)
    ensures Bit(ClearBit(n, k), j) <==> j != k && Bit(n, j)
    decreases k, j
  {
    if k == 0 {
      Halved(n / 2, 0);
    } else {
      Halved(ClearBit(n / 2, k - 1), n % 2);
      if j > 0 {
        BitAfterClear(n / 2, k - 1, j - 1);
      }
    }
  }

  lemma {:induction false} BitUpdateBound(n: nat, k: nat, width: nat)
    requires n < Pow2(width) && k < width
    ensures SetBit(n, k) < Pow2(width) && ClearBit(n, k) < Pow2(width)
  {
    if k > 0 {
      BitUpdateBound(n / 2, k - 1, width - 1);
    }
  }

  /** The bits determine the number. */
  lemma {:induction false} SameBits(m: nat, n: nat, width: nat)
    requires m < Pow2(width) && n < Pow2(width)
    requires forall k: nat | k < width :: Bit(m, k) <==> Bit(n, k)
    ensures m == n
  {
    if width > 0 {
      assert Bit(m, 0) <==> Bit(n, 0);
      forall k: nat | k < width - 1
        ensures Bit(m / 2, k) <==> Bit(n / 2, k)
      {
        assert Bit(m, k + 1) <==> Bit(n, k + 1);
      }
      SameBits(m / 2, n / 2, width - 1);
    }
  }

  // ---------- the flags ----------

  datatype Flag = IccFlag | AlphaFlag | ExifFlag | XmpFlag | AnimationFlag

  function Index(f: Flag): (k: nat)
    ensures k < 8
  {
    match f
    case IccFlag => 5
    case AlphaFlag => 4
    case ExifFlag => 3
    case XmpFlag => 2
    case AnimationFlag => 1
  }

  predicate HasFlag(b: byte, f: Flag) {
    Bit(b, Index(f))
  }

  function SetFlag(b: byte, f: Flag): byte {
    BitUpdateBound(b, Index(f), 8);
    SetBit(b, Index(f))
  }

  function ClearFlag(b: byte, f: Flag): byte {
    BitUpdateBound(b, Index(f), 8);
    ClearBit(b, Index(f))
  }

  function SetFlagIf(b: byte, f: Flag, on: bool): byte {
    if on then SetFlag(b, f) else b
  }

  function ClearFlags(b: byte, fs: seq<Flag>): byte
    decreases |fs|
  {
    if fs == [] then b else ClearFlags(ClearFlag(b, fs[0]), fs[1..])
  }

  /** Setting a flag sets that bit and no other. */
  lemma FlagAfterSet(b: byte, f: Flag, on: bool, g: Flag)
    ensures HasFlag(SetFlagIf(b, f, on), g) <==> (on && g == f) || HasFlag(b, g)
  {
    BitAfterSet(b, Index(f), Index(g));
  }

  /** Clearing a list of flags clears exactly those bits. */
  lemma {:induction false} BitAfterClearFlags(b: byte, fs: seq<Flag>, k: nat)
    ensures Bit(ClearFlags(b, fs), k) <==> Bit(b, k) && forall f | f in fs :: Index(f) != k
    decreases |fs|
  {
    if fs != [] {
      BitAfterClear(b, Index(fs[0]), k);
      BitAfterClearFlags(ClearFlag(b, fs[0]), fs[1..], k);
    }
  }

  lemma FlagAfterClear(b: byte, fs: seq<Flag>, g: Flag)
    ensures HasFlag(ClearFlags(b, fs), g) <==> HasFlag(b, g) && g !in fs
  {
    BitAfterClearFlags(b, fs, Index(g));
  }

  /** Flags that were clear, set and cleared again leave the byte as it was. */
  lemma ClearUndoesSet(b: byte, icc: bool, exif: bool, xmp: bool)
    requires !HasFlag(b, IccFlag) && !HasFlag(b, ExifFlag) && !HasFlag(b, XmpFlag)
    ensures var flagged := SetFlagIf(SetFlagIf(SetFlagIf(b, IccFlag, icc), ExifFlag, exif), XmpFlag, xmp);
            ClearFlags(flagged, [IccFlag, ExifFlag, XmpFlag]) == b
  {
    var fs := [IccFlag, ExifFlag, XmpFlag];
    var b1 := SetFlagIf(b, IccFlag, icc);
    var b2 := SetFlagIf(b1, ExifFlag, exif);
    var b3 := SetFlagIf(b2, XmpFlag, xmp);
    forall k: nat | k < 8
      ensures Bit(ClearFlags(b3, fs), k) <==> Bit(b, k)
    {
      BitAfterClearFlags(b3, fs, k);
      BitAfterSet(b, 5, k);
      BitAfterSet(b1, 3, k);
      BitAfterSet(b2, 2, k);
      assert fs[0] in fs && fs[1] in fs && fs[2] in fs;
    }
    SameBits(ClearFlags(b3, fs), b, 8);
  }
}
