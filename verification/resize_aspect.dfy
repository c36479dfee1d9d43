/** How far a resize is from keeping the source's aspect ratio. */
module ResizeAspect {
  import opened Wrappers
  import opened Bytes
  import opened MediaTypes
  import opened ResizeGeometry

  /** Zero when the content has exactly the source's aspect ratio. */
  function Skew(source: Size, content: Size): int {
    (content.width * source.height) as int - (content.height * source.width) as int
  }

  predicate Within(skew: int, bound: nat) {
    -(bound as int) <= skew <= bound as int
  }

  /** How far a side is from the exact product: one half, or one when it was raised to one. */
  lemma SideError(round: real -> int, x: real)
    requires Nearest(round) && x > 0.0 && round(x) <= U32_MAX
    ensures var error := ToSide(round(x)) as real - x;
            && -1.0 <= error <= 1.0
            && (round(x) >= 1 ==> -0.5 <= error <= 0.5)
  {
  }

  lemma CrossError(sw: real, sh: real, scale: real, cw: real, ch: real, bound: real)
    requires sw > 0.0 && sh > 0.0
    requires -bound <= cw - Times(sw, scale) <= bound && -bound <= ch - Times(sh, scale) <= bound
    ensures -(bound * (sw + sh)) <= cw * sh - ch * sw <= bound * (sw + sh)
  {
    var e, f := cw - Times(sw, scale), ch - Times(sh, scale);
    assert cw * sh - ch * sw == Times(sh, e) - Times(sw, f) by {
      assert (sw * scale + e) * sh == sw * scale * sh + e * sh;
      assert (sh * scale + f) * sw == sh * scale * sw + f * sw;
      assert sw * scale * sh == sh * scale * sw;
    }
    Scaled(sh, e, bound);
    Scaled(sh, -bound, e);
    Scaled(sw, f, bound);
    Scaled(sw, -bound, f);
    assert bound * (sw + sh) == Times(sh, bound) + Times(sw, bound);
    assert -(bound * (sw + sh)) == Times(sh, -bound) + Times(sw, -bound);
  }

  lemma SkewBound(round: real -> int, source: Size, scale: real, x: real, y: real)
    requires Nearest(round) && IsSize(source)
    requires x == Times(source.width as real, scale) && y == Times(source.height as real, scale)
    requires x > 0.0 && y > 0.0 && round(x) <= U32_MAX && round(y) <= U32_MAX
    ensures var skew := Skew(source, Rounded(round, x, y));
            && Within(skew, source.width + source.height)
            && (round(x) >= 1 && round(y) >= 1 ==> Within(2 * skew, source.width + source.height))
  {
    hide Nearest, ToSide;
    var sw, sh, content := source.width as real, source.height as real, Rounded(round, x, y);
    var cw, ch := content.width as real, content.height as real;
    var skew := content.width * source.height - content.height * source.width;
    assert skew as real == cw * sh - ch * sw by {
      SkewIsInteger(content, source);
    }
    assert -(sw + sh) <= skew as real <= sw + sh by {
      SideError(round, x);
      SideError(round, y);
      CrossError(sw, sh, scale, cw, ch, 1.0);
    }
    if round(x) >= 1 && round(y) >= 1 {
      assert -0.5 * (sw + sh) <= skew as real <= 0.5 * (sw + sh) by {
        SideError(round, x);
        SideError(round, y);
        CrossError(sw, sh, scale, cw, ch, 0.5);
      }
    }
  }

  lemma Product(a: real, b: real)
    requires a > 0.0 && b > 0.0
    ensures Times(a, b) > 0.0
  {
  }

  lemma SkewIsInteger(content: Size, source: Size)
    ensures (content.width * source.height - content.height * source.width) as real
            == content.width as real * source.height as real - content.height as real * source.width as real
  {
    ProductAsReal(content.width, source.height);
    ProductAsReal(content.height, source.width);
  }

  lemma {:induction false} ProductAsReal(a: nat, b: nat)
    ensures (a * b) as real == a as real * b as real
  {
    if a > 0 {
      ProductAsReal(a - 1, b);
      assert a * b == (a - 1) * b + b;
    }
  }

  // ---------- both sides given ----------

  lemma ScalePositive(source: Size, target: Size, fit: Fit, withoutEnlargement: bool)
    requires IsSize(source) && IsSize(target) && fit != Fill
    ensures EffectiveScale(source, target, fit, withoutEnlargement) > 0.0
  {
    ScaleMeetsBox(source, target, fit);
  }

  lemma RoundBelow(round: real -> int, x: real, bound: nat)
    requires Nearest(round) && x <= bound as real
    ensures round(x) <= bound
  {
  }

  /** The exact sides do not pass a side that fits 32 bits, except where Cover may enlarge. */
  lemma NoSaturation(round: real -> int, source: Size, target: Size, fit: Fit, withoutEnlargement: bool)
    requires Nearest(round) && IsSize(source) && IsSize(target) && fit != Fill
    requires fit != Cover || withoutEnlargement
    ensures var exact := Exact(source, target, fit, withoutEnlargement);
            round(exact.0) <= U32_MAX && round(exact.1) <= U32_MAX
  {
    var exact := Exact(source, target, fit, withoutEnlargement);
    hide Exact;
    if withoutEnlargement {
      ExactNeverEnlarges(source, target, fit);
      RoundBelow(round, exact.0, source.width);
      RoundBelow(round, exact.1, source.height);
    } else {
      ExactMeetsBox(source, target, fit);
      RoundBelow(round, exact.0, target.width);
      RoundBelow(round, exact.1, target.height);
    }
  }

  /** No side had to be raised to one. */
  predicate NoneRaised(round: real -> int, source: Size, target: Size, fit: Fit, withoutEnlargement: bool)
    requires IsSize(source)
  {
    var exact := Exact(source, target, fit, withoutEnlargement);
    round(exact.0) >= 1 && round(exact.1) >= 1
  }

  lemma UnsaturatedKeepsAspect(round: real -> int, source: Size, target: Size, fit: Fit, withoutEnlargement: bool)
    requires Nearest(round) && IsSize(source) && IsSize(target) && fit != Fill
    requires var exact := Exact(source, target, fit, withoutEnlargement);
             round(exact.0) <= U32_MAX && round(exact.1) <= U32_MAX
    ensures var skew := Skew(source, FitContentSize(round, source, target, fit, withoutEnlargement));
            && Within(skew, source.width + source.height)
            && (NoneRaised(round, source, target, fit, withoutEnlargement) ==>
                  Within(2 * skew, source.width + source.height))
  {
    var scale := EffectiveScale(source, target, fit, withoutEnlargement);
    var exact := Exact(source, target, fit, withoutEnlargement);
    ScalePositive(source, target, fit, withoutEnlargement);
    Product(source.width as real, scale);
    Product(source.height as real, scale);
    ContentIsRounded(round, source, target, fit, withoutEnlargement);
    SkewBound(round, source, scale, exact.0, exact.1);
  }

  /**
   Contain, Inside, and every uniform mode that may not enlarge keep the aspect ratio of every
   source in every box: |cw * sh - ch * sw| is at most sw + sh, and half of that when no side
   had to be raised to one.
   */
  lemma ContentKeepsAspect(round: real -> int, source: Size, target: Size, fit: Fit, withoutEnlargement: bool)
    requires Nearest(round) && IsSize(source) && IsSize(target) && fit != Fill
    requires fit != Cover || withoutEnlargement
    ensures var skew := Skew(source, FitContentSize(round, source, target, fit, withoutEnlargement));
            && Within(skew, source.width + source.height)
            && (NoneRaised(round, source, target, fit, withoutEnlargement) ==>
                  Within(2 * skew, source.width + source.height))
  {
    NoSaturation(round, source, target, fit, withoutEnlargement);
    UnsaturatedKeepsAspect(round, source, target, fit, withoutEnlargement);
  }

  /** An enlarging Cover keeps it as well, once the limit check has ruled out a saturated cast. */
  lemma CheckedCoverKeepsAspect(round: real -> int, source: Size, target: Size, withoutEnlargement: bool,
                                format: MediaType)
    requires Nearest(round) && IsSize(source) && IsSize(target)
    requires CheckOutputPixelLimit(round, source, Some(target.width), Some(target.height), Some(Cover),
                                   withoutEnlargement, format).Ok?
    ensures var skew := Skew(source, FitContentSize(round, source, target, Cover, withoutEnlargement));
            && Within(skew, source.width + source.height)
            && (NoneRaised(round, source, target, Cover, withoutEnlargement) ==>
                  Within(2 * skew, source.width + source.height))
  {
    var exact := Exact(source, target, Cover, withoutEnlargement);
    var content := FitContentSize(round, source, target, Cover, withoutEnlargement);
    assert round(exact.0) <= U32_MAX && round(exact.1) <= U32_MAX by {
      ContentIsRounded(round, source, target, Cover, withoutEnlargement);
      if content.width == U32_MAX || content.height == U32_MAX {
        SaturationIsRefused(round, source, target, withoutEnlargement, format);
      }
    }
    UnsaturatedKeepsAspect(round, source, target, Cover, withoutEnlargement);
  }

  // ---------- one side given ----------

  lemma QuotientTimes(product: real, divisor: real)
    requires divisor > 0.0
    ensures Times(divisor, product / divisor) == product
  {
  }

  lemma PositiveQuotient(a: real, b: real, c: real)
    requires a > 0.0 && b > 0.0 && c > 0.0
    ensures a * b > 0.0 && (a * b) / c > 0.0
  {
  }

  lemma ErrorAsSkew(s: real, t: real, r: real, x: real, side: real)
    requires Times(r, x) == Times(s, t)
    ensures Times(t, s) - Times(side, r) == -Times(r, side - x)
  {
    assert Times(r, side - x) == r * side - r * x;
  }

  lemma SkewAsReal(target: nat, source: nat, side: nat, reference: nat)
    ensures ((target * source) as int - (side * reference) as int) as real
            == Times(target as real, source as real) - Times(side as real, reference as real)
  {
    ProductAsReal(target, source);
    ProductAsReal(side, reference);
  }

  lemma TimesWithin(r: real, error: real, bound: real)
    requires r > 0.0 && -bound <= error <= bound
    ensures -Times(r, bound) <= Times(r, error) <= Times(r, bound)
  {
    Scaled(r, error, bound);
    Scaled(r, -bound, error);
    assert Times(r, -bound) == -Times(r, bound);
  }

  lemma HalfAndWhole(r: real)
    ensures Times(r, 1.0) == r && Times(r, 0.5) == r / 2.0
  {
  }

  lemma SideSkew(round: real -> int, x: real, side: nat, reference: nat, skew: int)
    requires Nearest(round) && x > 0.0 && side == ToSide(round(x)) && side < U32_MAX && IsSide(reference)
    requires skew as real == -Times(reference as real, side as real - x)
    ensures Within(skew, reference) && (round(x) >= 1 ==> Within(2 * skew, reference))
  {
    var r, error := reference as real, side as real - x;
    SideError(round, x);
    hide Times, Nearest;
    HalfAndWhole(r);
    TimesWithin(r, error, 1.0);
    if round(x) >= 1 {
      TimesWithin(r, error, 0.5);
    }
  }

  lemma QuotientSkew(source: nat, target: nat, reference: nat, side: nat)
    requires IsSide(reference)
    ensures ((target * source) as int - (side * reference) as int) as real
            == -Times(reference as real, side as real - (source as real * target as real) / reference as real)
  {
    var s, t, r := source as real, target as real, reference as real;
    QuotientTimes(s * t, r);
    ErrorAsSkew(s, t, r, (s * t) / r, side as real);
    SkewAsReal(target, source, side, reference);
  }

  /**
   The side that follows from the other one keeps the ratio to within the side it is scaled
   from, and to within half of it when it was not raised to one, unless the cast saturated.
   */
  lemma ScaledSideKeepsAspect(round: real -> int, source: nat, target: nat, reference: nat)
    requires Nearest(round) && IsSide(source) && IsSide(target) && IsSide(reference)
    requires ScaleDimension(round, source, target, reference) < U32_MAX
    ensures var side := ScaleDimension(round, source, target, reference);
            var skew := (target * source) as int - (side * reference) as int;
            && Within(skew, reference)
            && (round((source as real * target as real) / reference as real) >= 1 ==> Within(2 * skew, reference))
  {
    hide Nearest, Within;
    var side := ScaleDimension(round, source, target, reference);
    PositiveQuotient(source as real, target as real, reference as real);
    QuotientSkew(source, target, reference, side);
    SideSkew(round, (source as real * target as real) / reference as real, side, reference,
             (target * source) as int - (side * reference) as int);
  }

  /** A resize by one side keeps the aspect ratio of what it produces, once the limit check has passed. */
  lemma CheckedSideKeepsAspect(round: real -> int, source: Size, width: Option<nat>, height: Option<nat>,
                               fit: Option<Fit>, withoutEnlargement: bool, format: MediaType)
    requires Nearest(round) && IsSize(source) && IsSideOption(width) && IsSideOption(height)
    requires width.Some? != height.Some?
    requires CheckOutputPixelLimit(round, source, width, height, fit, withoutEnlargement, format).Ok?
    ensures var output := ResolvedOutputDimensions(round, source, width, height, fit, withoutEnlargement);
            Within(Skew(source, output), if width.Some? then source.width else source.height)
  {
    var output := ResolvedOutputDimensions(round, source, width, height, fit, withoutEnlargement);
    SidesBelowCast(output);
    if width.Some? {
      ScaledSideKeepsAspect(round, source.height, output.width, source.width);
    } else {
      ScaledSideKeepsAspect(round, source.width, output.height, source.height);
    }
  }

  lemma SidesBelowCast(s: Size)
    requires IsSize(s) && s.Pixels() <= MAX_OUTPUT_PIXELS
    ensures s.width < U32_MAX && s.height < U32_MAX
  {
    if s.width >= U32_MAX {
      PixelsMonotone(Size(U32_MAX, 1), s);
    } else if s.height >= U32_MAX {
      PixelsMonotone(Size(1, U32_MAX), s);
    }
  }
}
