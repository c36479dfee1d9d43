/**
 Where padded, cropped and watermarked rectangles land.
 */
module Placement {
  import opened ResizeGeometry

  datatype Position = Center | Top | Bottom | Left | Right | TopLeft | TopRight | BottomLeft | BottomRight

  datatype Offset = Offset(x: nat, y: nat)

  function SaturatingSub(a: nat, b: nat): nat {
    if a < b then 0 else a - b
  }

  predicate AtLeft(p: Position) {
    p == Left || p == TopLeft || p == BottomLeft
  }

  predicate AtRight(p: Position) {
    p == Right || p == TopRight || p == BottomRight
  }

  predicate AtTop(p: Position) {
    p == Top || p == TopLeft || p == TopRight
  }

  predicate AtBottom(p: Position) {
    p == Bottom || p == BottomLeft || p == BottomRight
  }

  function PositionOffset(container: Size, content: Size, position: Position): Offset {
    var horizontal := SaturatingSub(container.width, content.width);
    var vertical := SaturatingSub(container.height, content.height);
    var x := match position
      case Center => horizontal / 2
      case Top => horizontal / 2
      case Bottom => horizontal / 2
      case Left => 0
      case TopLeft => 0
      case BottomLeft => 0
      case _ => horizontal;
    var y := match position
      case Center => vertical / 2
      case Left => vertical / 2
      case Right => vertical / 2
      case Top => 0
      case TopLeft => 0
      case TopRight => 0
      case _ => vertical;
    Offset(x, y)
  }

  /** A rectangle of this size at this offset lies inside the container. */
  predicate Inside(container: Size, content: Size, at: Offset) {
    at.x + content.width <= container.width && at.y + content.height <= container.height
  }

  /** Equal space on both sides of an axis, the odd pixel going after the content. */
  predicate Centered(container: nat, content: nat, at: nat) {
    0 <= container - content - 2 * at <= 1
  }

  /** On each axis the content touches the edge the position names, or is centered. */
  predicate Anchored(container: Size, content: Size, position: Position, margin: nat, at: Offset) {
    && (AtLeft(position) ==> at.x == margin)
    && (AtRight(position) ==> at.x + content.width + margin == container.width)
    && (!AtLeft(position) && !AtRight(position) ==> Centered(container.width, content.width, at.x))
    && (AtTop(position) ==> at.y == margin)
    && (AtBottom(position) ==> at.y + content.height + margin == container.height)
    && (!AtTop(position) && !AtBottom(position) ==> Centered(container.height, content.height, at.y))
  }

  /** Content no larger than its container is placed inside it, where the position says. */
  lemma PlacedInside(container: Size, content: Size, position: Position)
    requires content.width <= container.width && content.height <= container.height
    ensures Inside(container, content, PositionOffset(container, content, position))
    ensures Anchored(container, content, position, 0, PositionOffset(container, content, position))
  {
  }

  /** Both canvases a resize composes onto: the padded content and the cover crop fit theirs. */
  lemma ResizePlacements(round: real -> int, source: Size, target: Size, withoutEnlargement: bool, position: Position)
    requires Nearest(round) && IsSize(source) && IsSize(target)
    ensures var content := FitContentSize(round, source, target, Contain, withoutEnlargement);
            && content.width <= target.width && content.height <= target.height
            && Inside(target, content, PositionOffset(target, content, position))
            && Anchored(target, content, position, 0, PositionOffset(target, content, position))
    ensures var content := FitContentSize(round, source, target, Cover, withoutEnlargement);
            var crop := CoverToBox(content, target).output;
            && crop.width <= content.width && crop.height <= content.height
            && Inside(content, crop, PositionOffset(content, crop, position))
            && Anchored(content, crop, position, 0, PositionOffset(content, crop, position))
  {
    if withoutEnlargement {
      NeverEnlarges(round, source, target, Contain);
    } else {
      ContentMeetsBox(round, source, target, Contain);
    }
    PlacedInside(target, FitContentSize(round, source, target, Contain, withoutEnlargement), position);
    var content := FitContentSize(round, source, target, Cover, withoutEnlargement);
    PlacedInside(content, CoverToBox(content, target).output, position);
  }

  // ---------- the watermark ----------

  /** The margin a position uses on each axis. */
  function WatermarkMargins(position: Position, margin: nat): (nat, nat) {
    match position
    case Center => (0, 0)
    case Top => (0, margin)
    case Bottom => (0, margin)
    case Left => (margin, 0)
    case Right => (margin, 0)
    case _ => (margin, margin)
  }

  predicate WatermarkFits(mark: Size, main: Size, position: Position, margin: nat) {
    var margins := WatermarkMargins(position, margin);
    mark.width + margins.0 <= main.width && mark.height + margins.1 <= main.height
  }

  function WatermarkOffset(main: Size, mark: Size, position: Position, margin: nat): Offset {
    var spaceX, spaceY := SaturatingSub(main.width, mark.width), SaturatingSub(main.height, mark.height);
    match position
    case TopLeft => Offset(margin, margin)
    case Top => Offset(spaceX / 2, margin)
    case TopRight => Offset(SaturatingSub(spaceX, margin), margin)
    case Left => Offset(margin, spaceY / 2)
    case Center => Offset(spaceX / 2, spaceY / 2)
    case Right => Offset(SaturatingSub(spaceX, margin), spaceY / 2)
    case BottomLeft => Offset(margin, SaturatingSub(spaceY, margin))
    case Bottom => Offset(spaceX / 2, SaturatingSub(spaceY, margin))
    case BottomRight => Offset(SaturatingSub(spaceX, margin), SaturatingSub(spaceY, margin))
  }

  /**
   The fit check is exactly what a placement needs: an accepted watermark lies inside
   the image at its margin from the edges the position names, and one that is refused would
   not: at that offset it would stick out, or miss its anchor because a subtraction saturated.
   */
  lemma WatermarkPlacement(main: Size, mark: Size, position: Position, margin: nat)
    ensures WatermarkFits(mark, main, position, margin)
            <==> Inside(main, mark, WatermarkOffset(main, mark, position, margin))
                 && Anchored(main, mark, position, margin, WatermarkOffset(main, mark, position, margin))
  {
  }
}
