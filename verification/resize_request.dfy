/**
 What each kind of resize request gets: the size an image comes out with, told from the request
 and the source alone.
 */
module ResizeRequests {
  import opened Arithmetic
  import opened Wrappers
  import opened Bytes
  import opened MediaTypes
  import opened ResizeGeometry

  /** A scaled side that is not scaled up: the exact quotient is no more than the source's side. */
  lemma ScaledDown(round: real -> int, source: nat, target: nat, reference: nat)
    requires Nearest(round) && IsSide(source) && IsSide(reference) && target <= reference
    ensures ScaleDimension(round, source, target, reference) <= source
    ensures target == reference ==> ScaleDimension(round, source, target, reference) == source
  {
    hide Nearest, ToSide;
    var x := (source as real * target as real) / reference as real;
    assert x <= source as real && (target == reference ==> x == source as real) by {
      QuotientBelow(source as real, target as real, reference as real);
    }
    assert ScaleDimension(round, source, target, reference) == ToSide(round(x));
    SideBelow(round, x, source);
    if target == reference {
      SideAbove(round, x, source);
    }
  }

  lemma Cancel(r: real, a: real, b: real)
    requires r > 0.0 && Times(r, a) <= Times(r, b)
    ensures a <= b
  {
    if a > b {
      Strictly(r, b, a);
    }
  }

  lemma Strictly(r: real, a: real, b: real)
    requires r > 0.0 && a < b
    ensures Times(r, a) < Times(r, b)
  {
  }

  lemma QuotientBelow(s: real, t: real, r: real)
    requires s > 0.0 && t <= r && r > 0.0
    ensures (s * t) / r <= s && (t == r ==> (s * t) / r == s)
  {
    DivideMultiply(s * t, r);
    Scaled(s, t, r);
    assert Times(s, r) == Times(r, s);
    Cancel(r, (s * t) / r, s);
    if t == r {
      Cancel(r, s, (s * t) / r);
    }
  }

  /** With no side given the image keeps its size. */
  lemma NoSideGiven(round: real -> int, source: Size, fit: Option<Fit>, withoutEnlargement: bool)
    requires IsSize(source)
    ensures ApplyResize(round, source, None, None, fit, withoutEnlargement).output == source
  {
  }

  /**
   With only a width given it is met exactly, except that without enlargement it is the smaller
   of request and source; the image then exceeds its source on neither axis, and is the source
   where the request is at least as wide.
   */
  lemma WidthGiven(round: real -> int, source: Size, width: nat, fit: Option<Fit>)
    requires Nearest(round) && IsSize(source) && IsSide(width)
    ensures ApplyResize(round, source, Some(width), None, fit, false).output.width == width
    ensures var output := ApplyResize(round, source, Some(width), None, fit, true).output;
            && output.width == (if width < source.width then width else source.width)
            && output.height <= source.height
            && (width >= source.width ==> output == source)
  {
    ResizeMatchesPrediction(round, source, Some(width), None, fit, false);
    ResizeMatchesPrediction(round, source, Some(width), None, fit, true);
    ScaledDown(round, source.height, Min(width, source.width), source.width);
  }

  lemma HeightGiven(round: real -> int, source: Size, height: nat, fit: Option<Fit>)
    requires Nearest(round) && IsSize(source) && IsSide(height)
    ensures ApplyResize(round, source, None, Some(height), fit, false).output.height == height
    ensures var output := ApplyResize(round, source, None, Some(height), fit, true).output;
            && output.height == (if height < source.height then height else source.height)
            && output.width <= source.width
            && (height >= source.height ==> output == source)
  {
    ResizeMatchesPrediction(round, source, None, Some(height), fit, false);
    ResizeMatchesPrediction(round, source, None, Some(height), fit, true);
    ScaledDown(round, source.width, Min(height, source.height), source.height);
  }

  predicate Within(s: Size, box: Size) {
    s.width <= box.width && s.height <= box.height
  }

  predicate Touches(s: Size, box: Size) {
    s.width == box.width || s.height == box.height
  }

  /**
   With both sides given. Contain, which is the mode when none is named, comes out as the box
   itself. Fill and Cover come out as the box, or, when they may not enlarge, as the smaller of
   box and source on each axis. Inside lies in the box and reaches one of its sides; when it may
   not enlarge it lies in the source too, and is the source wherever the source is the smaller.
   */
  lemma BothSidesGiven(round: real -> int, source: Size, box: Size, fit: Option<Fit>, withoutEnlargement: bool)
    requires Nearest(round) && IsSize(source) && IsSize(box)
    ensures var output := ApplyResize(round, source, Some(box.width), Some(box.height), fit, withoutEnlargement).output;
            var smaller := Size(if box.width < source.width then box.width else source.width,
                                if box.height < source.height then box.height else source.height);
            && (fit == None || fit == Some(Contain) ==> output == box)
            && (fit == Some(Fill) || fit == Some(Cover) ==> output == if withoutEnlargement then smaller else box)
            && (fit == Some(Inside) ==>
                  && Within(output, box)
                  && (!withoutEnlargement ==> Touches(output, box))
                  && (withoutEnlargement ==> Within(output, source) && (output == source || Touches(output, box)))
                  && (withoutEnlargement && Within(source, box) ==> output == source))
  {
    ResizeMatchesPrediction(round, source, Some(box.width), Some(box.height), fit, withoutEnlargement);
    if fit == Some(Cover) {
      CoverReturns(round, source, box, withoutEnlargement);
    } else if fit == Some(Inside) {
      InsideGiven(round, source, box, withoutEnlargement);
    }
  }

  lemma InsideGiven(round: real -> int, source: Size, box: Size, withoutEnlargement: bool)
    requires Nearest(round) && IsSize(source) && IsSize(box)
    ensures var content := FitContentSize(round, source, box, Inside, withoutEnlargement);
            && Within(content, box)
            && (!withoutEnlargement ==> Touches(content, box))
            && (withoutEnlargement ==> Within(content, source) && (content == source || Touches(content, box)))
            && (withoutEnlargement && Within(source, box) ==> content == source)
  {
    ContentMeetsBox(round, source, box, Inside);
    NeverEnlarges(round, source, box, Inside);
    if withoutEnlargement {
      if FitScale(source, box, Inside) > 1.0 {
        ClampedContent(round, source, box, Inside);
      } else {
        UnclampedContent(round, source, box, Inside);
      }
      if Within(source, box) {
        SourceInBox(round, source, box);
      }
    }
  }

  /** A source that lies in the box is not scaled at all. */
  lemma SourceInBox(round: real -> int, source: Size, box: Size)
    requires Nearest(round) && IsSize(source) && IsSize(box) && Within(source, box)
    ensures FitContentSize(round, source, box, Inside, true) == source
  {
    if FitScale(source, box, Inside) > 1.0 {
      ClampedContent(round, source, box, Inside);
    } else {
      var sw, sh := source.width as real, source.height as real;
      assert FitScale(source, box, Inside) == 1.0 by {
        AtLeastOne(box.width as real, sw);
        AtLeastOne(box.height as real, sh);
      }
      ContentIsRounded(round, source, box, Inside, true);
      RoundedInside(round, Times(sw, 1.0), Times(sh, 1.0), source);
    }
  }

  lemma AtLeastOne(a: real, b: real)
    requires a >= b > 0.0
    ensures a / b >= 1.0
  {
  }

  // ---------- the limit check ----------

  /**
   The check passes exactly when no buffer of the resize, nor its output, has more than
   67,108,864 pixels, and a JPEG has at most 65,535 pixels and a WebP at most 16,383 on an axis.
   */
  lemma CheckIsExact(round: real -> int, source: Size, width: Option<nat>, height: Option<nat>,
                     fit: Option<Fit>, withoutEnlargement: bool, format: MediaType)
    requires Nearest(round) && IsSize(source) && IsSideOption(width) && IsSideOption(height)
    ensures var resized := ApplyResize(round, source, width, height, fit, withoutEnlargement);
            CheckOutputPixelLimit(round, source, width, height, fit, withoutEnlargement, format).Ok?
            <==>
            && resized.output.width * resized.output.height <= 67_108_864
            && (forall i | 0 <= i < |resized.buffers| ::
                  resized.buffers[i].width * resized.buffers[i].height <= 67_108_864)
            && (format == Jpeg ==> resized.output.width <= 65_535 && resized.output.height <= 65_535)
            && (format == Webp ==> resized.output.width <= 16_383 && resized.output.height <= 16_383)
  {
    hide FitContentSize, ScaleDimension;
    var resized := ApplyResize(round, source, width, height, fit, withoutEnlargement);
    ResizeMatchesPrediction(round, source, width, height, fit, withoutEnlargement);
    if CheckOutputPixelLimit(round, source, width, height, fit, withoutEnlargement, format).Ok? {
      CheckedResizeFitsBudget(round, source, width, height, fit, withoutEnlargement, format);
      forall i | 0 <= i < |resized.buffers|
        ensures resized.buffers[i].width * resized.buffers[i].height <= 67_108_864
      {
        assert resized.buffers[i].Pixels() <= MAX_OUTPUT_PIXELS;
      }
    } else if width.Some? && height.Some? && FitOr(fit) == Cover {
      var content := FitContentSize(round, source, Size(width.value, height.value), Cover, withoutEnlargement);
      assert resized.buffers[0] == content;
    }
  }

  /**
   The buffers the check speaks of are all there: the scaled content unless the source already
   has that size, and the output unless it is the source.
   */
  lemma BuffersAreThere(round: real -> int, source: Size, width: Option<nat>, height: Option<nat>,
                        fit: Option<Fit>, withoutEnlargement: bool)
    requires Nearest(round) && IsSize(source) && IsSideOption(width) && IsSideOption(height)
    ensures var resized := ApplyResize(round, source, width, height, fit, withoutEnlargement);
            && (resized.output != source ==> resized.output in resized.buffers)
            && (width.Some? && height.Some? ==>
                  var content := FitContentSize(round, source, Size(width.value, height.value),
                                                if fit.Some? then fit.value else Contain, withoutEnlargement);
                  content != source ==> content in resized.buffers)
  {
    hide FitContentSize, ScaleDimension;
  }
}
