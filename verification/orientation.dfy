/**
 EXIF orientations and quarter turns as permutations of an image's pixels.

 An image is a size and a pixel for every coordinate; what the pixel function says outside the
 size does not matter, so images are compared by `Same`.
 */
module Orientation {
  import opened Wrappers

  datatype Image<P> = Image(width: nat, height: nat, pixel: (int, int) -> P)

  predicate InImage<P>(a: Image<P>, x: int, y: int) {
    0 <= x < a.width && 0 <= y < a.height
  }

  ghost predicate Same<P(!new)>(a: Image<P>, b: Image<P>) {
    && a.width == b.width && a.height == b.height
    && forall x: int, y: int | InImage(a, x, y) :: a.pixel(x, y) == b.pixel(x, y)
  }

  // ---------- the image library's operations ----------

  function FlipH<P>(a: Image<P>): Image<P> {
    Image(a.width, a.height, (x, y) => a.pixel(a.width - 1 - x, y))
  }

  function FlipV<P>(a: Image<P>): Image<P> {
    Image(a.width, a.height, (x, y) => a.pixel(x, a.height - 1 - y))
  }

  /** Clockwise: what was the left column, read upwards, becomes the top row. */
  function Rotate90<P>(a: Image<P>): Image<P> {
    Image(a.height, a.width, (x, y) => a.pixel(y, a.height - 1 - x))
  }

  function Rotate180<P>(a: Image<P>): Image<P> {
    Image(a.width, a.height, (x, y) => a.pixel(a.width - 1 - x, a.height - 1 - y))
  }

  function Rotate270<P>(a: Image<P>): Image<P> {
    Image(a.height, a.width, (x, y) => a.pixel(a.width - 1 - y, x))
  }

  // ---------- the modelled functions ----------

  function ApplyExifOrientation<P>(a: Image<P>, orientation: nat): Image<P> {
    match orientation
    case 2 => FlipH(a)
    case 3 => Rotate180(a)
    case 4 => FlipV(a)
    case 5 => Rotate270(FlipH(a))
    case 6 => Rotate90(a)
    case 7 => Rotate90(FlipH(a))
    case 8 => Rotate270(a)
    case _ => a
  }

  predicate OrientationTransposes(orientation: Option<nat>) {
    orientation.Some? && 5 <= orientation.value <= 8
  }

  function OrientedDimensions(width: nat, height: nat, orientation: Option<nat>): (nat, nat) {
    if OrientationTransposes(orientation) then (height, width) else (width, height)
  }

  predicate IsOrientation(o: nat) {
    1 <= o <= 8
  }

  // ---------- what EXIF says an orientation means ----------

  datatype Side = TopSide | BottomSide | LeftSide | RightSide

  /** The visual side of the stored image's row 0, as the EXIF table gives it. */
  function RowZero(o: nat): Side
    requires IsOrientation(o)
  {
    match o
    case 1 => TopSide
    case 2 => TopSide
    case 3 => BottomSide
    case 4 => BottomSide
    case 5 => LeftSide
    case 6 => RightSide
    case 7 => RightSide
    case 8 => LeftSide
  }

  /** The visual side of the stored image's column 0. */
  function ColumnZero(o: nat): Side
    requires IsOrientation(o)
  {
    match o
    case 1 => LeftSide
    case 2 => RightSide
    case 3 => RightSide
    case 4 => LeftSide
    case 5 => TopSide
    case 6 => TopSide
    case 7 => BottomSide
    case 8 => BottomSide
  }

  /** How far a displayed coordinate is from a side. */
  function Distance(width: nat, height: nat, x: int, y: int, side: Side): int {
    match side
    case TopSide => y
    case BottomSide => height - 1 - y
    case LeftSide => x
    case RightSide => width - 1 - x
  }

  /**
   Each orientation is the pixel bijection EXIF defines: the pixel displayed at (x, y) is the
   stored one whose row is the distance from row 0's side and whose column is the distance
   from column 0's side. The two axes trade places exactly when the tag transposes.
   */
  lemma OrientationIsExif<P>(a: Image<P>, o: nat, x: int, y: int)
    requires IsOrientation(o)
    ensures var shown := ApplyExifOrientation(a, o);
            && (shown.width, shown.height) == OrientedDimensions(a.width, a.height, Some(o))
            && var column := Distance(shown.width, shown.height, x, y, ColumnZero(o));
               var row := Distance(shown.width, shown.height, x, y, RowZero(o));
            && shown.pixel(x, y) == a.pixel(column, row)
            && (InImage(shown, x, y) <==> InImage(a, column, row))
  {
  }

  /** Every stored pixel is displayed somewhere, and at one place only. */
  lemma OrientationIsBijective<P>(a: Image<P>, o: nat, column: int, row: int) returns (x: int, y: int)
    requires IsOrientation(o) && InImage(a, column, row)
    ensures var shown := ApplyExifOrientation(a, o);
            && InImage(shown, x, y)
            && Distance(shown.width, shown.height, x, y, ColumnZero(o)) == column
            && Distance(shown.width, shown.height, x, y, RowZero(o)) == row
            && forall x': int, y': int |
                 && Distance(shown.width, shown.height, x', y', ColumnZero(o)) == column
                 && Distance(shown.width, shown.height, x', y', RowZero(o)) == row :: x' == x && y' == y
  {
    var u := if FlipsColumns(o) then a.width - 1 - column else column;
    var v := if FlipsRows(o) then a.height - 1 - row else row;
    if o >= 5 {
      x, y := v, u;
    } else {
      x, y := u, v;
    }
  }

  // ---------- the group ----------

  /** Whether columns, or rows, of the stored image are read backwards. */
  predicate FlipsColumns(o: nat) {
    o == 2 || o == 3 || o == 7 || o == 8
  }

  predicate FlipsRows(o: nat) {
    o == 3 || o == 4 || o == 6 || o == 7
  }

  function Orient(transposes: bool, columns: bool, rows: bool): nat {
    if !transposes then
      if columns then (if rows then 3 else 2) else (if rows then 4 else 1)
    else
      if columns then (if rows then 7 else 8) else (if rows then 6 else 5)
  }

  lemma OrientationAt<P>(a: Image<P>, o: nat, x: int, y: int)
    requires IsOrientation(o)
    ensures o == Orient(o >= 5, FlipsColumns(o), FlipsRows(o))
    ensures var u, v := if o >= 5 then y else x, if o >= 5 then x else y;
            ApplyExifOrientation(a, o).pixel(x, y)
            == a.pixel(if FlipsColumns(o) then a.width - 1 - u else u, if FlipsRows(o) then a.height - 1 - v else v)
  {
  }

  /** Applying one orientation and then another. */
  function Compose(first: nat, second: nat): (o: nat)
    requires IsOrientation(first) && IsOrientation(second)
    ensures IsOrientation(o)
  {
    var columns := if first >= 5 then FlipsRows(second) else FlipsColumns(second);
    var rows := if first >= 5 then FlipsColumns(second) else FlipsRows(second);
    Orient((first >= 5) != (second >= 5), FlipsColumns(first) != columns, FlipsRows(first) != rows)
  }

  /** Two orientations in a row act, on an image of any size, as one orientation. */
  lemma ComposeActs<P(!new)>(a: Image<P>, first: nat, second: nat)
    requires IsOrientation(first) && IsOrientation(second)
    ensures Same(ApplyExifOrientation(ApplyExifOrientation(a, first), second),
                 ApplyExifOrientation(a, Compose(first, second)))
  {
    var once := ApplyExifOrientation(a, first);
    var twice := ApplyExifOrientation(once, second);
    forall x: int, y: int | InImage(twice, x, y)
      ensures twice.pixel(x, y) == ApplyExifOrientation(a, Compose(first, second)).pixel(x, y)
    {
      OrientationAt(once, second, x, y);
      var u, v := if second >= 5 then y else x, if second >= 5 then x else y;
      var s := if FlipsColumns(second) then once.width - 1 - u else u;
      var t := if FlipsRows(second) then once.height - 1 - v else v;
      OrientationAt(a, first, s, t);
      OrientationAt(a, Compose(first, second), x, y);
    }
  }

  /** The eight orientations form a group; 6 and 8 undo each other and every other one itself. */
  lemma DihedralGroup(a: nat, b: nat, c: nat)
    requires IsOrientation(a) && IsOrientation(b) && IsOrientation(c)
    ensures Compose(Compose(a, b), c) == Compose(a, Compose(b, c))
    ensures Compose(1, a) == a && Compose(a, 1) == a
    ensures Compose(a, b) == 1 <==> b == (if a == 6 then 8 else if a == 8 then 6 else a)
    ensures Compose(6, 2) != Compose(2, 6)
  {
  }

  // ---------- degrees ----------

  /** The remainder of division that truncates toward zero, as in Rust and JavaScript. */
  function Rem(n: int, d: int): int
    requires d > 0
  {
    if n >= 0 then n % d else -((-n) % d)
  }

  function FromDegrees(degrees: int): int {
    var wrapped := Rem(degrees, 360);
    if wrapped < 0 then wrapped + 360 else wrapped
  }

  /** An `i64` of degrees is reduced before it is narrowed to `i32`. */
  function ParsedDegrees(degrees: int): int {
    FromDegrees(Rem(degrees, 360))
  }

  /** The signer's spelling of the same rule. */
  function SignerDegrees(value: int): int {
    Rem(Rem(value, 360) + 360, 360)
  }

  function QuarterTurns(degrees: int): Option<int> {
    if degrees % 90 == 0 then Some(degrees / 90) else None
  }

  /** A multiple of 90 permutes pixels; any other angle is resampled, which is not modelled. */
  function ApplyQuarterTurns<P>(a: Image<P>, turns: int): Image<P> {
    match turns
    case 1 => Rotate90(a)
    case 2 => Rotate180(a)
    case 3 => Rotate270(a)
    case _ => a
  }

  /**
   All three spellings reduce an angle to the one number in 0..360 congruent to it, and
   reducing a sum is reducing the sum of the parts.
   */
  lemma DegreesNormalize(m: int, n: int)
    ensures FromDegrees(m) == m % 360 && ParsedDegrees(m) == m % 360 && SignerDegrees(m) == m % 360
    ensures FromDegrees(FromDegrees(m) + FromDegrees(n)) == FromDegrees(m + n)
  {
    RemIsCongruent(m);
    RemIsCongruent(Rem(m, 360));
    RemIsCongruent(n);
    RemIsCongruent(m + n);
    RemIsCongruent(FromDegrees(m) + FromDegrees(n));
    SameRemainder(FromDegrees(m) + FromDegrees(n), m + n, m / 360 + n / 360);
  }

  lemma RemIsCongruent(n: int)
    ensures FromDegrees(n) == n % 360
    ensures Rem(Rem(n, 360), 360) == Rem(n, 360)
    ensures SignerDegrees(n) == n % 360
  {
    if n < 0 {
      var k, r := (-n) / 360, (-n) % 360;
      assert n == -360 * k - r;
      if r == 0 {
        SameRemainder(0, n, -k);
      } else {
        SameRemainder(360 - r, n, -k - 1);
      }
    }
  }

  lemma SameRemainder(m: int, n: int, k: int)
    requires n == m + 360 * k
    ensures n % 360 == m % 360
  {
    var q, r := m / 360, m % 360;
    assert n == 360 * (q + k) + r;
    Unique(n, q + k, r);
  }

  lemma Unique(n: int, q: int, r: int)
    requires n == 360 * q + r && 0 <= r < 360
    ensures n % 360 == r
  {
  }

  /** Quarter turns as orientations. */
  function TurnOrientation(turns: int): nat {
    if turns == 1 then 6 else if turns == 2 then 3 else if turns == 3 then 8 else 1
  }

  lemma TurnsAreOrientations<P>(a: Image<P>, turns: int)
    ensures ApplyQuarterTurns(a, turns) == ApplyExifOrientation(a, TurnOrientation(turns))
  {
  }

  /**
   Rotating by any two whole multiples of 90 degrees, in either direction and however many
   turns they make, is rotating by their sum modulo 360.
   */
  lemma RotationsAdd<P(!new)>(a: Image<P>, j: int, k: int)
    ensures QuarterTurns(FromDegrees(90 * j)).Some? && QuarterTurns(FromDegrees(90 * k)).Some?
    ensures QuarterTurns(FromDegrees(90 * j + 90 * k)).Some?
    ensures var m, n := QuarterTurns(FromDegrees(90 * j)).value, QuarterTurns(FromDegrees(90 * k)).value;
            Same(ApplyQuarterTurns(ApplyQuarterTurns(a, m), n),
                 ApplyQuarterTurns(a, QuarterTurns(FromDegrees(90 * j + 90 * k)).value))
  {
    var m, n, sum := j % 4, k % 4, (j + k) % 4;
    assert QuarterTurns(FromDegrees(90 * j)) == Some(m) by {
      QuarterOf(j);
    }
    assert QuarterTurns(FromDegrees(90 * k)) == Some(n) by {
      QuarterOf(k);
    }
    assert QuarterTurns(FromDegrees(90 * j + 90 * k)) == Some(sum) by {
      QuarterOf(j + k);
    }
    assert (m + n) % 4 == sum by {
      QuarterSum(j, k);
    }
    TurnsCompose(a, m, n);
  }

  /**
   A positive angle turns clockwise: a quarter turn takes the stored left column, read upwards,
   to the top row. Here is where each stored pixel goes.
   */
  lemma TurnsClockwise<P>(a: Image<P>, k: int, column: int, row: int)
    ensures QuarterTurns(FromDegrees(90 * k)).Some?
    ensures var shown := ApplyQuarterTurns(a, QuarterTurns(FromDegrees(90 * k)).value);
            && (shown.width, shown.height) == (if k % 2 == 0 then (a.width, a.height) else (a.height, a.width))
            && a.pixel(column, row)
               == (match k % 4
                   case 0 => shown.pixel(column, row)
                   case 1 => shown.pixel(a.height - 1 - row, column)
                   case 2 => shown.pixel(a.width - 1 - column, a.height - 1 - row)
                   case _ => shown.pixel(row, a.width - 1 - column))
  {
    QuarterOf(k);
  }

  lemma QuarterSum(j: int, k: int)
    ensures (j % 4 + k % 4) % 4 == (j + k) % 4
  {
    assert j + k == (j % 4 + k % 4) + 4 * (j / 4 + k / 4);
  }

  lemma TurnsCompose<P(!new)>(a: Image<P>, m: int, n: int)
    requires 0 <= m < 4 && 0 <= n < 4
    ensures Same(ApplyQuarterTurns(ApplyQuarterTurns(a, m), n), ApplyQuarterTurns(a, (m + n) % 4))
  {
    TurnsAreOrientations(a, m);
    TurnsAreOrientations(ApplyQuarterTurns(a, m), n);
    TurnsAreOrientations(a, (m + n) % 4);
    assert Compose(TurnOrientation(m), TurnOrientation(n)) == TurnOrientation((m + n) % 4);
    ComposeActs(a, TurnOrientation(m), TurnOrientation(n));
  }

  lemma QuarterOf(k: int)
    ensures QuarterTurns(FromDegrees(90 * k)) == Some(k % 4)
  {
    RemIsCongruent(90 * k);
    var q, r := k / 4, k % 4;
    assert 90 * k == 360 * q + 90 * r;
    Unique(90 * k, q, 90 * r);
  }
}
