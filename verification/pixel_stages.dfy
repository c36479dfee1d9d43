/**
 The stages that move pixels, in their fixed order: orient, rotate, crop, check, resize,
 watermark. What a stage does to pixel values by resampling is not modelled; where pixels end
 up before the resize is, and so is every size.
 */
module PixelStages {
  import opened Wrappers
  import opened Bytes
  import opened Orientation
  import opened CropRegions
  import opened ResizeGeometry
  import opened Placement
  import opened MediaTypes

  datatype Watermark = Watermark(size: Size, position: Position, margin: nat)

  /** What the type of a rotation holds: an angle already brought into 0..360. */
  type Degrees = d: nat | d < 360

  /**
   What a request asks of the stages. `orientation` is the tag the EXIF reader reports for the
   input; `degrees` is taken to be a whole multiple of 90.
   */
  datatype Stages = Stages(
    autoOrient: bool,
    orientation: Option<nat>,
    degrees: Degrees,
    crop: Option<CropRegion>,
    width: Option<nat>,
    height: Option<nat>,
    fit: Option<Fit>,
    withoutEnlargement: bool,
    format: MediaType,
    watermark: Option<Watermark>)

  predicate ValidStages(st: Stages) {
    && QuarterTurns(st.degrees).Some?
    && IsSideOption(st.width) && IsSideOption(st.height)
    && (st.crop.Some? ==> InRange(st.crop.value))
  }

  predicate ValidImage<P>(a: Image<P>) {
    IsSide(a.width) && IsSide(a.height)
  }

  // ---------- the crop ----------

  function SaturatingAdd(a: nat, b: nat): nat {
    Saturated(a + b)
  }

  predicate CropAccepted(size: Size, crop: CropRegion) {
    SaturatingAdd(crop.x, crop.width) <= size.width && SaturatingAdd(crop.y, crop.height) <= size.height
  }

  predicate CropInside(size: Size, crop: CropRegion) {
    crop.x + crop.width <= size.width && crop.y + crop.height <= size.height
  }

  /** The sum saturates into the range only on a side of the largest `u32`. */
  lemma CropCheckBelowCast(size: Size, crop: CropRegion)
    requires size.width < U32_MAX && size.height < U32_MAX
    ensures CropAccepted(size, crop) <==> CropInside(size, crop)
  {
  }

  const MAX_DECODED_PIXELS := 100_000_000

  /** The check made before anything is decoded. */
  function CheckInputPixelLimit(size: Size): Result<()> {
    if size.Pixels() > MAX_DECODED_PIXELS then Err(LimitExceeded) else Ok(())
  }

  lemma InputBelowCast(size: Size)
    requires IsSize(size) && CheckInputPixelLimit(size).Ok?
    ensures size.width < U32_MAX && size.height < U32_MAX
  {
    if size.width == U32_MAX {
      PixelsMonotone(Size(U32_MAX, 1), size);
    } else if size.height == U32_MAX {
      PixelsMonotone(Size(1, U32_MAX), size);
    }
  }

  /** The saturating bounds check of a crop is exact on every image that may be decoded. */
  lemma CropCheckIsExact(size: Size, crop: CropRegion)
    requires IsSize(size) && CheckInputPixelLimit(size).Ok?
    ensures CropAccepted(size, crop) <==> CropInside(size, crop)
  {
    InputBelowCast(size);
    CropCheckBelowCast(size, crop);
  }

  function CropTo<P>(a: Image<P>, crop: CropRegion): Image<P> {
    Image(crop.width, crop.height, (x, y) => a.pixel(x + crop.x, y + crop.y))
  }

  function ApplyCrop<P>(a: Image<P>, crop: CropRegion): Result<Image<P>> {
    if CropAccepted(Size(a.width, a.height), crop) then Ok(CropTo(a, crop)) else Err(InvalidOptions)
  }

  // ---------- the stages ----------

  function AutoOriented<P>(a: Image<P>, orientation: Option<nat>): Image<P> {
    if orientation.Some? then ApplyExifOrientation(a, orientation.value) else a
  }

  /** The tag that is applied, when auto-orientation is on. */
  function Applied(st: Stages): Option<nat> {
    if st.autoOrient then st.orientation else None
  }

  function Rotated<P>(a: Image<P>, degrees: int): Image<P>
    requires QuarterTurns(degrees).Some?
  {
    ApplyQuarterTurns(a, QuarterTurns(degrees).value)
  }

  /** The image the resize starts from. */
  function BeforeResize<P>(a: Image<P>, st: Stages): Result<Image<P>>
    requires ValidStages(st)
  {
    var upright := Rotated(AutoOriented(a, Applied(st)), st.degrees);
    if st.crop.Some? then ApplyCrop(upright, st.crop.value) else Ok(upright)
  }

  const MAX_WATERMARK_PIXELS := 4_000_000

  /** The checks made on a watermark's size before it is decoded: it fits, and it is not too large. */
  function CheckWatermark(output: Size, mark: Watermark): Result<()> {
    if !WatermarkFits(mark.size, output, mark.position, mark.margin) then Err(InvalidOptions)
    else if mark.size.Pixels() > MAX_WATERMARK_PIXELS then Err(LimitExceeded)
    else CheckInputPixelLimit(mark.size)
  }

  /** The stages after the crop, on sizes: the limit check, the resize, the watermark checks. */
  function Finish(round: real -> int, source: Size, st: Stages): Result<Size>
    requires IsSize(source)
  {
    var check := CheckOutputPixelLimit(round, source, st.width, st.height, st.fit, st.withoutEnlargement, st.format);
    if check.Err? then Err(check.error)
    else
      var output := ApplyResize(round, source, st.width, st.height, st.fit, st.withoutEnlargement).output;
      if st.watermark.None? then Ok(output)
      else
        var fits := CheckWatermark(output, st.watermark.value);
        if fits.Err? then Err(fits.error) else Ok(output)
  }

  lemma UprightIsValid<P>(a: Image<P>, st: Stages)
    requires ValidImage(a) && ValidStages(st)
    ensures ValidImage(Rotated(AutoOriented(a, Applied(st)), st.degrees))
    ensures BeforeResize(a, st).Ok? ==> ValidImage(BeforeResize(a, st).value)
  {
  }

  function ApplyPixelStages<P>(round: real -> int, a: Image<P>, st: Stages): Result<Size>
    requires ValidImage(a) && ValidStages(st)
  {
    UprightIsValid(a, st);
    var before := BeforeResize(a, st);
    if before.Err? then Err(before.error) else Finish(round, Size(before.value.width, before.value.height), st)
  }

  /** The limit on the input, and then the stages. */
  function TransformPixels<P>(round: real -> int, a: Image<P>, st: Stages): Result<Size>
    requires ValidImage(a) && ValidStages(st)
  {
    var check := CheckInputPixelLimit(Size(a.width, a.height));
    if check.Err? then Err(check.error) else ApplyPixelStages(round, a, st)
  }

  // ---------- where the pixels are before the resize ----------

  /** The orientation that the tag and the rotation make together. */
  function Tag(orientation: Option<nat>): (o: nat)
    ensures IsOrientation(o)
  {
    if orientation.Some? && IsOrientation(orientation.value) then orientation.value else 1
  }

  function Upright(st: Stages): (o: nat)
    requires ValidStages(st)
    ensures IsOrientation(o)
  {
    Compose(Tag(Applied(st)), TurnOrientation(QuarterTurns(st.degrees).value))
  }

  /** The tag counts when auto-orientation is on, and quarter turns are the tags 1, 6, 3 and 8. */
  lemma UprightSpelled(st: Stages)
    requires ValidStages(st)
    ensures Upright(st)
            == Compose(match st.orientation
                       case Some(tag) => if st.autoOrient && 1 <= tag <= 8 then tag else 1
                       case None => 1,
                       match st.degrees
                       case 0 => 1
                       case 90 => 6
                       case 180 => 3
                       case _ => 8)
  {
    assert st.degrees == 0 || st.degrees == 90 || st.degrees == 180 || st.degrees == 270;
  }

  lemma OrientedByTag<P>(a: Image<P>, orientation: Option<nat>)
    ensures AutoOriented(a, orientation) == ApplyExifOrientation(a, Tag(orientation))
  {
  }

  lemma UprightActs<P(!new)>(a: Image<P>, st: Stages)
    requires ValidStages(st)
    ensures Same(Rotated(AutoOriented(a, Applied(st)), st.degrees), ApplyExifOrientation(a, Upright(st)))
  {
    hide ApplyExifOrientation, Compose, Same;
    var turns := QuarterTurns(st.degrees).value;
    OrientedByTag(a, Applied(st));
    TurnsAreOrientations(AutoOriented(a, Applied(st)), turns);
    ComposeActs(a, Tag(Applied(st)), TurnOrientation(turns));
  }

  function UprightSize(source: Size, st: Stages): Size
    requires ValidStages(st)
  {
    if Upright(st) >= 5 then Size(source.height, source.width) else source
  }

  lemma UprightHasSize<P(!new)>(a: Image<P>, st: Stages)
    requires ValidStages(st)
    ensures var upright := Rotated(AutoOriented(a, Applied(st)), st.degrees);
            Size(upright.width, upright.height) == UprightSize(Size(a.width, a.height), st)
  {
    UprightActs(a, st);
    OrientationIsExif(a, Upright(st), 0, 0);
  }

  lemma UprightPassesInput<P(!new)>(a: Image<P>, st: Stages)
    requires ValidStages(st) && CheckInputPixelLimit(Size(a.width, a.height)).Ok?
    ensures var upright := Rotated(AutoOriented(a, Applied(st)), st.degrees);
            CheckInputPixelLimit(Size(upright.width, upright.height)).Ok?
  {
    hide Upright, Rotated, AutoOriented;
    UprightHasSize(a, st);
    assert a.height * a.width == a.width * a.height;
  }

  function CropOrigin(crop: Option<CropRegion>): Offset {
    if crop.Some? then Offset(crop.value.x, crop.value.y) else Offset(0, 0)
  }

  /**
   The tag, the rotation and the crop together move each pixel once: the pixel at (x, y) of the
   image the resize starts from is the stored one that a single orientation displays at (x, y)
   moved by the crop's origin. The crop is measured on the image as it is displayed.
   */
  lemma CroppedPixel<P(!new)>(a: Image<P>, st: Stages, x: int, y: int)
    requires ValidImage(a) && CheckInputPixelLimit(Size(a.width, a.height)).Ok? && ValidStages(st)
    requires BeforeResize(a, st).Ok? && InImage(BeforeResize(a, st).value, x, y)
    ensures var shown, at := ApplyExifOrientation(a, Upright(st)), CropOrigin(st.crop);
            var column := Distance(shown.width, shown.height, x + at.x, y + at.y, ColumnZero(Upright(st)));
            var row := Distance(shown.width, shown.height, x + at.x, y + at.y, RowZero(Upright(st)));
            && BeforeResize(a, st).value.pixel(x, y) == a.pixel(column, row)
            && InImage(a, column, row)
  {
    hide ApplyExifOrientation, Upright, Rotated, AutoOriented, Distance, ColumnZero, RowZero, QuarterTurns;
    UprightIsValid(a, st);
    UprightPassesInput(a, st);
    var upright := Rotated(AutoOriented(a, Applied(st)), st.degrees);
    var shown, at := ApplyExifOrientation(a, Upright(st)), CropOrigin(st.crop);
    UprightActs(a, st);
    OrientationIsExif(a, Upright(st), x + at.x, y + at.y);
    assert InImage(upright, x + at.x, y + at.y) by {
      InsideCrop(upright, st, x, y);
    }
  }

  lemma InsideCrop<P>(upright: Image<P>, st: Stages, x: int, y: int)
    requires ValidImage(upright) && CheckInputPixelLimit(Size(upright.width, upright.height)).Ok? && ValidStages(st)
    requires st.crop.Some? ==> CropAccepted(Size(upright.width, upright.height), st.crop.value)
    requires InImage(if st.crop.Some? then CropTo(upright, st.crop.value) else upright, x, y)
    ensures InImage(upright, x + CropOrigin(st.crop).x, y + CropOrigin(st.crop).y)
  {
    if st.crop.Some? {
      CropCheckIsExact(Size(upright.width, upright.height), st.crop.value);
    }
  }

  // ---------- what the sizes decide ----------

  /** The size before the resize, from the source's size alone. */
  function PredictedSize(source: Size, st: Stages): Size
    requires ValidStages(st)
  {
    if st.crop.Some? then Size(st.crop.value.width, st.crop.value.height)
    else UprightSize(source, st)
  }

  /** The watermark fits the output and keeps its own pixel limit. */
  predicate WatermarkAccepted(output: Size, watermark: Option<Watermark>) {
    watermark.Some? ==>
      && WatermarkFits(watermark.value.size, output, watermark.value.position, watermark.value.margin)
      && watermark.value.size.Pixels() <= 4_000_000
  }

  /**
   The whole pipeline is decided by sizes before a pixel is touched: it succeeds exactly when the
   input keeps its pixel limit, the crop lies inside the upright image, the output limit check
   passes, and the watermark fits the size predicted for the output and keeps its own limit. That
   size is then the output's, it keeps the pixel budget and the format's ceiling, and the
   watermark lies inside it.
   */
  lemma StagesArePredicted<P(!new)>(round: real -> int, a: Image<P>, st: Stages)
    requires Nearest(round) && ValidImage(a) && ValidStages(st)
    ensures var source := Size(a.width, a.height);
            var before := PredictedSize(source, st);
            IsSize(before) &&
            var output := ResolvedOutputDimensions(round, before, st.width, st.height, st.fit, st.withoutEnlargement);
            var r := TransformPixels(round, a, st);
            && (r.Ok? <==>
                  && source.Pixels() <= 100_000_000
                  && (st.crop.Some? ==> CropInside(UprightSize(source, st), st.crop.value))
                  && CheckOutputPixelLimit(round, before, st.width, st.height, st.fit, st.withoutEnlargement,
                                           st.format).Ok?
                  && WatermarkAccepted(output, st.watermark))
            && (r.Ok? ==> r.value == output && output.Pixels() <= 67_108_864 && FitsFormat(st.format, output))
            && (r.Ok? && st.watermark.Some? ==>
                  var mark := st.watermark.value;
                  Placement.Inside(output, mark.size, WatermarkOffset(output, mark.size, mark.position, mark.margin)))
  {
    hide ResolvedOutputDimensions, CheckOutputPixelLimit, ApplyResize, Upright, Rotated, AutoOriented,
      WatermarkFits, WatermarkOffset, Anchored;
    var source := Size(a.width, a.height);
    UprightHasSize(a, st);
    UprightIsValid(a, st);
    if source.Pixels() <= MAX_DECODED_PIXELS && st.crop.Some? {
      UprightPassesInput(a, st);
      CropCheckIsExact(UprightSize(source, st), st.crop.value);
    }
    var before := PredictedSize(source, st);
    ResizeMatchesPrediction(round, before, st.width, st.height, st.fit, st.withoutEnlargement);
    if st.watermark.Some? {
      var mark := st.watermark.value;
      var output := ApplyResize(round, before, st.width, st.height, st.fit, st.withoutEnlargement).output;
      WatermarkPlacement(output, mark.size, mark.position, mark.margin);
    }
    if CheckOutputPixelLimit(round, before, st.width, st.height, st.fit, st.withoutEnlargement, st.format).Ok? {
      CheckedResizeFitsBudget(round, before, st.width, st.height, st.fit, st.withoutEnlargement, st.format);
    }
  }

  /**
   What a refusal is called: too many pixels, or a size the format cannot hold, exceed a limit; a
   crop or a watermark that does not lie inside is an invalid option. The first check that fails
   says so.
   */
  lemma RefusalsAreNamed<P(!new)>(round: real -> int, a: Image<P>, st: Stages, error: TransformError)
    requires Nearest(round) && ValidImage(a) && ValidStages(st)
    requires TransformPixels(round, a, st) == Err(error)
    ensures var source := Size(a.width, a.height);
            var before := PredictedSize(source, st);
            IsSize(before) &&
            var output := ApplyResize(round, before, st.width, st.height, st.fit, st.withoutEnlargement).output;
            error == if source.Pixels() > 100_000_000 then LimitExceeded
                     else if st.crop.Some? && !CropInside(UprightSize(source, st), st.crop.value) then InvalidOptions
                     else if CheckOutputPixelLimit(round, before, st.width, st.height, st.fit, st.withoutEnlargement,
                                                   st.format).Err? then LimitExceeded
                     else if st.watermark.Some?
                             && !WatermarkFits(st.watermark.value.size, output, st.watermark.value.position,
                                               st.watermark.value.margin) then InvalidOptions
                     else LimitExceeded
  {
    hide ResolvedOutputDimensions, ApplyResize, Upright, Rotated, AutoOriented, WatermarkFits,
      FitContentSize, FitsFormat;
    var source := Size(a.width, a.height);
    UprightHasSize(a, st);
    UprightIsValid(a, st);
    if source.Pixels() <= MAX_DECODED_PIXELS && st.crop.Some? {
      UprightPassesInput(a, st);
      CropCheckIsExact(UprightSize(source, st), st.crop.value);
    }
  }

  /** A fitting watermark of five million pixels is refused, whatever the image it would go on. */
  lemma LargeWatermarkIsRefused(output: Size, position: Position)
    requires output.width >= 2500 && output.height >= 2000
    ensures CheckWatermark(output, Watermark(Size(2500, 2000), position, 0)) == Err(LimitExceeded)
  {
  }
}
