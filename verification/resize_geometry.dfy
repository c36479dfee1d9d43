/**
 The sizes a resize produces, and the pixel budget checked before anything is allocated.

 Ratios are exact here. Rounding is a parameter: any function that returns an integer within
 one half of its argument, so that no result depends on how a tie is broken.
 */
module ResizeGeometry {
  import opened Arithmetic
  import opened Wrappers
  import opened Bytes
  import opened MediaTypes

  datatype Fit = Contain | Cover | Fill | Inside

  datatype Size = Size(width: nat, height: nat) {
    function Pixels(): nat {
      width * height
    }
  }

  const MAX_OUTPUT_PIXELS := 67_108_864

  /** A side an image or a request can have. */
  predicate IsSide(n: nat) {
    1 <= n <= U32_MAX
  }

  predicate IsSize(s: Size) {
    IsSide(s.width) && IsSide(s.height)
  }

  predicate IsSideOption(o: Option<nat>) {
    o.Some? ==> IsSide(o.value)
  }

  ghost predicate Nearest(round: real -> int) {
    forall x: real :: x - 0.5 <= round(x) as real <= x + 0.5
  }

  // ---------- the arithmetic ----------

  /** Raised to one, then cast to `u32`, which saturates. */
  function ToSide(n: int): (side: nat)
    ensures IsSide(side)
  {
    if n < 1 then 1 else if n > U32_MAX then U32_MAX else n
  }

  function FitScale(source: Size, target: Size, fit: Fit): real
    requires IsSize(source)
  {
    var byWidth := target.width as real / source.width as real;
    var byHeight := target.height as real / source.height as real;
    match fit
    case Contain => if byWidth < byHeight then byWidth else byHeight
    case Inside => if byWidth < byHeight then byWidth else byHeight
    case Cover => if byWidth > byHeight then byWidth else byHeight
    case Fill => 1.0
  }

  function Times(a: real, b: real): real {
    a * b
  }

  function ScaleBoth(round: real -> int, source: Size, scale: real): (s: Size)
    ensures IsSize(s)
  {
    Size(ToSide(round(Times(source.width as real, scale))), ToSide(round(Times(source.height as real, scale))))
  }

  function EffectiveScale(source: Size, target: Size, fit: Fit, withoutEnlargement: bool): real
    requires IsSize(source)
  {
    var scale := FitScale(source, target, fit);
    if withoutEnlargement && scale > 1.0 then 1.0 else scale
  }

  function FitContentSize(round: real -> int, source: Size, target: Size, fit: Fit, withoutEnlargement: bool): Size
    requires IsSize(source)
  {
    if fit == Fill then
      if withoutEnlargement then Size(Min(target.width, source.width), Min(target.height, source.height)) else target
    else ScaleBoth(round, source, EffectiveScale(source, target, fit, withoutEnlargement))
  }

  function ScaleDimension(round: real -> int, source: nat, target: nat, reference: nat): nat
    requires reference > 0
  {
    ToSide(round((source as real * target as real) / reference as real))
  }

  function FitOr(fit: Option<Fit>): Fit {
    if fit.Some? then fit.value else Contain
  }

  /** The final size of a resize request, canvas included. */
  function ResolvedOutputDimensions(round: real -> int, current: Size, width: Option<nat>, height: Option<nat>,
                                    fit: Option<Fit>, withoutEnlargement: bool): Size
    requires IsSize(current)
  {
    match (width, height)
    case (None, None) => current
    case (Some(w), None) =>
      var targetWidth := if withoutEnlargement then Min(w, current.width) else w;
      Size(targetWidth, ScaleDimension(round, current.height, targetWidth, current.width))
    case (None, Some(h)) =>
      var targetHeight := if withoutEnlargement then Min(h, current.height) else h;
      Size(ScaleDimension(round, current.width, targetHeight, current.height), targetHeight)
    case (Some(w), Some(h)) =>
      var target := Size(w, h);
      var content := FitContentSize(round, current, target, FitOr(fit), withoutEnlargement);
      match FitOr(fit)
      case Contain => target
      case Inside => content
      case Fill => content
      case Cover => Size(Min(target.width, content.width), Min(target.height, content.height))
  }

  /** The size the content is scaled to, before padding or cropping. */
  function ResizeContentSize(round: real -> int, source: Size, width: Option<nat>, height: Option<nat>,
                             fit: Option<Fit>, withoutEnlargement: bool): Size
    requires IsSize(source)
  {
    match (width, height)
    case (None, None) => source
    case (Some(w), Some(h)) => FitContentSize(round, source, Size(w, h), FitOr(fit), withoutEnlargement)
    case _ => ResolvedOutputDimensions(round, source, width, height, fit, withoutEnlargement)
  }

  function MaxOutputDimension(format: MediaType): Option<nat> {
    match format
    case Jpeg => Some(65_535)
    case Webp => Some(16_383)
    case _ => None
  }

  predicate FitsFormat(format: MediaType, s: Size) {
    MaxOutputDimension(format).None?
    || (s.width <= MaxOutputDimension(format).value && s.height <= MaxOutputDimension(format).value)
  }

  /** The check that runs before anything is allocated, on dimensions alone. */
  function CheckOutputPixelLimit(round: real -> int, source: Size, width: Option<nat>, height: Option<nat>,
                                 fit: Option<Fit>, withoutEnlargement: bool, format: MediaType): Result<()>
    requires IsSize(source)
  {
    if width.Some? && height.Some? && FitOr(fit) == Cover
       && FitContentSize(round, source, Size(width.value, height.value), Cover, withoutEnlargement).Pixels()
          > MAX_OUTPUT_PIXELS
    then Err(LimitExceeded)
    else
      var out := ResolvedOutputDimensions(round, source, width, height, fit, withoutEnlargement);
      if out.Pixels() > MAX_OUTPUT_PIXELS || !FitsFormat(format, out) then Err(LimitExceeded) else Ok(())
  }

  // ---------- the resize, sizes only ----------

  /** The image a resize returns, and every buffer it materializes on the way. */
  datatype Resized = Resized(output: Size, buffers: seq<Size>)

  function PadToBox(content: Size, target: Size): Resized {
    Resized(target, [content, target])
  }

  function CoverToBox(content: Size, target: Size): Resized {
    var crop := Size(Min(target.width, content.width), Min(target.height, content.height));
    if content == crop then Resized(content, [content, content])
    else Resized(crop, [content, content, crop, crop])
  }

  function ScaledTo(source: Size, content: Size): Resized {
    if content == source then Resized(source, []) else Resized(content, [content])
  }

  function ApplyResize(round: real -> int, source: Size, width: Option<nat>, height: Option<nat>, fit: Option<Fit>,
                       withoutEnlargement: bool): Resized
    requires IsSize(source)
  {
    match (width, height)
    case (None, None) => Resized(source, [])
    case (Some(w), Some(h)) =>
      var target := Size(w, h);
      var content := ResizeContentSize(round, source, width, height, Some(FitOr(fit)), withoutEnlargement);
      (match FitOr(fit)
       case Fill => ScaledTo(source, content)
       case Inside => ScaledTo(source, content)
       case Contain =>
         var padded := PadToBox(content, target);
         Resized(padded.output, ScaledTo(source, content).buffers + padded.buffers)
       case Cover => CoverToBox(content, target))
    case _ => ScaledTo(source, ResolvedOutputDimensions(round, source, width, height, fit, withoutEnlargement))
  }

  /** The size the limit check measures is the size the resize produces. */
  lemma ResizeMatchesPrediction(round: real -> int, source: Size, width: Option<nat>, height: Option<nat>,
                                fit: Option<Fit>, withoutEnlargement: bool)
    requires IsSize(source)
    ensures ApplyResize(round, source, width, height, fit, withoutEnlargement).output
            == ResolvedOutputDimensions(round, source, width, height, fit, withoutEnlargement)
  {
  }

  // ---------- how a scale meets a box ----------

  lemma DivideMultiply(a: real, b: real)
    requires b > 0.0
    ensures Times(b, a / b) == a
  {
  }

  lemma Scaled(k: real, x: real, y: real)
    requires k >= 0.0 && x <= y
    ensures Times(k, x) <= Times(k, y)
  {
  }

  /** Contain and Inside never pass the box and touch it on one axis; Cover is the mirror image. */
  lemma ScaleMeetsBox(source: Size, target: Size, fit: Fit)
    requires IsSize(source) && IsSize(target) && fit != Fill
    ensures FitScale(source, target, fit) > 0.0
    ensures var sw, sh := source.width as real, source.height as real;
            var tw, th := target.width as real, target.height as real;
            var scale := FitScale(source, target, fit);
            && (Times(sw, scale) == tw || Times(sh, scale) == th)
            && (fit != Cover ==> Times(sw, scale) <= tw && Times(sh, scale) <= th)
            && (fit == Cover ==> Times(sw, scale) >= tw && Times(sh, scale) >= th)
  {
    var sw, sh := source.width as real, source.height as real;
    var tw, th := target.width as real, target.height as real;
    var scale := FitScale(source, target, fit);
    DivideMultiply(tw, sw);
    DivideMultiply(th, sh);
    Positive(tw, sw);
    Positive(th, sh);
    if fit == Cover {
      Scaled(sw, tw / sw, scale);
      Scaled(sh, th / sh, scale);
    } else {
      Scaled(sw, scale, tw / sw);
      Scaled(sh, scale, th / sh);
    }
  }

  lemma Positive(a: real, b: real)
    requires a > 0.0 && b > 0.0
    ensures a / b > 0.0
  {
  }

  lemma SideBelow(round: real -> int, x: real, bound: nat)
    requires Nearest(round) && IsSide(bound) && x <= bound as real
    ensures ToSide(round(x)) <= bound
  {
  }

  lemma SideAbove(round: real -> int, x: real, bound: nat)
    requires Nearest(round) && IsSide(bound) && x >= bound as real
    ensures ToSide(round(x)) >= bound
  {
  }

  /** Rounded sides that stay inside a box, or cover it, when the exact ones do. */
  function Rounded(round: real -> int, x: real, y: real): Size {
    Size(ToSide(round(x)), ToSide(round(y)))
  }

  lemma RoundedInside(round: real -> int, x: real, y: real, box: Size)
    requires Nearest(round) && IsSize(box) && x <= box.width as real && y <= box.height as real
    ensures var s := Rounded(round, x, y);
            && s.width <= box.width && s.height <= box.height
            && (x == box.width as real ==> s.width == box.width)
            && (y == box.height as real ==> s.height == box.height)
  {
    SideBelow(round, x, box.width);
    SideBelow(round, y, box.height);
  }

  lemma RoundedCovers(round: real -> int, x: real, y: real, box: Size)
    requires Nearest(round) && IsSize(box) && x >= box.width as real && y >= box.height as real
    ensures var s := Rounded(round, x, y);
            && s.width >= box.width && s.height >= box.height
            && (x == box.width as real ==> s.width == box.width)
            && (y == box.height as real ==> s.height == box.height)
  {
    SideAbove(round, x, box.width);
    SideAbove(round, y, box.height);
  }

  /** The exact sides of the content, before rounding. */
  function Exact(source: Size, target: Size, fit: Fit, withoutEnlargement: bool): (real, real)
    requires IsSize(source)
  {
    var scale := EffectiveScale(source, target, fit, withoutEnlargement);
    (Times(source.width as real, scale), Times(source.height as real, scale))
  }

  lemma ContentIsRounded(round: real -> int, source: Size, target: Size, fit: Fit, withoutEnlargement: bool)
    requires IsSize(source) && fit != Fill
    ensures var exact := Exact(source, target, fit, withoutEnlargement);
            FitContentSize(round, source, target, fit, withoutEnlargement) == Rounded(round, exact.0, exact.1)
  {
  }

  lemma ExactMeetsBox(source: Size, target: Size, fit: Fit)
    requires IsSize(source) && IsSize(target) && fit != Fill
    ensures var exact := Exact(source, target, fit, false);
            && (exact.0 == target.width as real || exact.1 == target.height as real)
            && (fit != Cover ==> exact.0 <= target.width as real && exact.1 <= target.height as real)
            && (fit == Cover ==> exact.0 >= target.width as real && exact.1 >= target.height as real)
  {
    ScaleMeetsBox(source, target, fit);
  }

  /**
   Contain and Inside content lies inside the box and reaches it on an axis; Cover content
   covers the box, even where the cast saturates.
   */
  lemma ContentMeetsBox(round: real -> int, source: Size, target: Size, fit: Fit)
    requires Nearest(round) && IsSize(source) && IsSize(target) && fit != Fill
    ensures var content := FitContentSize(round, source, target, fit, false);
            && (content.width == target.width || content.height == target.height)
            && (fit != Cover ==> content.width <= target.width && content.height <= target.height)
            && (fit == Cover ==> content.width >= target.width && content.height >= target.height)
  {
    var content := FitContentSize(round, source, target, fit, false);
    var exact := Exact(source, target, fit, false);
    var x, y := exact.0, exact.1;
    assert content == Rounded(round, x, y) by {
      ContentIsRounded(round, source, target, fit, false);
    }
    ExactMeetsBox(source, target, fit);
    if fit == Cover {
      RoundedCovers(round, x, y, target);
    } else {
      RoundedInside(round, x, y, target);
    }
  }

  /** A scale clamped at one: never more than the side, and never more than the unclamped one. */
  lemma ClampedSide(side: real, full: real, scale: real)
    requires side > 0.0 && scale == if full > 1.0 then 1.0 else full
    ensures Times(side, scale) <= side && Times(side, scale) <= Times(side, full)
    ensures full > 1.0 ==> Times(side, scale) == side
  {
    if full > 1.0 {
      Scaled(side, 1.0, full);
    } else {
      Scaled(side, full, 1.0);
    }
  }

  lemma ExactNeverEnlarges(source: Size, target: Size, fit: Fit)
    requires IsSize(source) && IsSize(target) && fit != Fill
    ensures var exact := Exact(source, target, fit, true);
            && exact.0 <= source.width as real && exact.1 <= source.height as real
            && (fit != Cover ==> exact.0 <= target.width as real && exact.1 <= target.height as real)
            && (FitScale(source, target, fit) > 1.0 ==> exact == (source.width as real, source.height as real))
  {
    var full, scale := FitScale(source, target, fit), EffectiveScale(source, target, fit, true);
    ClampedSide(source.width as real, full, scale);
    ClampedSide(source.height as real, full, scale);
    ScaleMeetsBox(source, target, fit);
  }

  /**
   Without enlargement no mode's content exceeds the source on either axis. Contain and Inside
   still fit the box.
   */
  lemma NeverEnlarges(round: real -> int, source: Size, target: Size, fit: Fit)
    requires Nearest(round) && IsSize(source) && IsSize(target)
    ensures var content := FitContentSize(round, source, target, fit, true);
            && content.width <= source.width && content.height <= source.height
            && (fit != Cover ==> content.width <= target.width && content.height <= target.height)
  {
    if fit != Fill {
      var content, exact := FitContentSize(round, source, target, fit, true), Exact(source, target, fit, true);
      var x, y := exact.0, exact.1;
      assert content == Rounded(round, x, y) by {
        ContentIsRounded(round, source, target, fit, true);
      }
      ExactNeverEnlarges(source, target, fit);
      RoundedInside(round, x, y, source);
      if fit != Cover {
        RoundedInside(round, x, y, target);
      }
    }
  }

  lemma ClampedContent(round: real -> int, source: Size, target: Size, fit: Fit)
    requires Nearest(round) && IsSize(source) && IsSize(target) && fit != Fill
    requires FitScale(source, target, fit) > 1.0
    ensures FitContentSize(round, source, target, fit, true) == source
  {
    var exact := Exact(source, target, fit, true);
    ContentIsRounded(round, source, target, fit, true);
    ExactNeverEnlarges(source, target, fit);
    RoundedInside(round, exact.0, exact.1, source);
  }

  lemma UnclampedContent(round: real -> int, source: Size, target: Size, fit: Fit)
    requires IsSize(source) && FitScale(source, target, fit) <= 1.0 && fit != Fill
    ensures FitContentSize(round, source, target, fit, true) == FitContentSize(round, source, target, fit, false)
  {
  }

  /**
   Cover returns the box itself when it may enlarge, and exactly the elementwise minimum of box
   and source when it may not.
   */
  lemma CoverReturns(round: real -> int, source: Size, target: Size, withoutEnlargement: bool)
    requires Nearest(round) && IsSize(source) && IsSize(target)
    ensures ResolvedOutputDimensions(round, source, Some(target.width), Some(target.height), Some(Cover),
                                     withoutEnlargement)
            == if withoutEnlargement
               then Size(Min(target.width, source.width), Min(target.height, source.height))
               else target
  {
    var clamped := FitContentSize(round, source, target, Cover, true);
    var full := FitContentSize(round, source, target, Cover, false);
    assert full.width >= target.width && full.height >= target.height by {
      ContentMeetsBox(round, source, target, Cover);
    }
    assert clamped == source || (clamped == full && full.width <= source.width && full.height <= source.height) by {
      NeverEnlarges(round, source, target, Cover);
      if FitScale(source, target, Cover) > 1.0 {
        ClampedContent(round, source, target, Cover);
      } else {
        UnclampedContent(round, source, target, Cover);
      }
    }
  }

  // ---------- the budget ----------

  lemma PixelsMonotone(s: Size, t: Size)
    requires s.width <= t.width && s.height <= t.height
    ensures s.Pixels() <= t.Pixels()
  {
    assert s.width * s.height <= s.width * t.height <= t.width * t.height;
  }

  lemma ContainedContent(round: real -> int, source: Size, target: Size, withoutEnlargement: bool)
    requires Nearest(round) && IsSize(source) && IsSize(target)
    ensures FitContentSize(round, source, target, Contain, withoutEnlargement).Pixels() <= target.Pixels()
  {
    if withoutEnlargement {
      NeverEnlarges(round, source, target, Contain);
    } else {
      ContentMeetsBox(round, source, target, Contain);
    }
    PixelsMonotone(FitContentSize(round, source, target, Contain, withoutEnlargement), target);
  }

  /**
   Once the check passes, the output and every buffer the resize, pad or cover path
   materializes has at most MAX_OUTPUT_PIXELS pixels, and the output obeys the format's
   ceiling on both axes.
   */
  lemma CheckedResizeFitsBudget(round: real -> int, source: Size, width: Option<nat>, height: Option<nat>,
                                fit: Option<Fit>, withoutEnlargement: bool, format: MediaType)
    requires Nearest(round) && IsSize(source) && IsSideOption(width) && IsSideOption(height)
    requires CheckOutputPixelLimit(round, source, width, height, fit, withoutEnlargement, format).Ok?
    ensures var resized := ApplyResize(round, source, width, height, fit, withoutEnlargement);
            && resized.output.Pixels() <= MAX_OUTPUT_PIXELS
            && FitsFormat(format, resized.output)
            && forall i | 0 <= i < |resized.buffers| :: resized.buffers[i].Pixels() <= MAX_OUTPUT_PIXELS
  {
    ResizeMatchesPrediction(round, source, width, height, fit, withoutEnlargement);
    if width.Some? && height.Some? && FitOr(fit) == Contain {
      ContainedContent(round, source, Size(width.value, height.value), withoutEnlargement);
    }
  }

  /** A side that saturated the cast is far past the budget: the check refuses the request. */
  lemma SaturationIsRefused(round: real -> int, source: Size, target: Size, withoutEnlargement: bool, format: MediaType)
    requires IsSize(source)
    requires var content := FitContentSize(round, source, target, Cover, withoutEnlargement);
             content.width == U32_MAX || content.height == U32_MAX
    ensures CheckOutputPixelLimit(round, source, Some(target.width), Some(target.height), Some(Cover),
                                  withoutEnlargement, format) == Err(LimitExceeded)
  {
    var content := FitContentSize(round, source, target, Cover, withoutEnlargement);
    if content.width == U32_MAX {
      PixelsMonotone(Size(U32_MAX, 1), content);
    } else {
      PixelsMonotone(Size(1, U32_MAX), content);
    }
  }
}
