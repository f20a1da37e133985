/**
 * `getCroppedCanvas` (components/FormulaTool.tsx:203-250): the tight box
 * around every pixel with alpha above 0, then 40 pixels of padding clamped
 * to the canvas; no box at all when nothing was drawn.
 */
module Crop {
  import opened Wrappers
  import opened Pixels

  /** Pre-padding bounds, inclusive, as the scan leaves them. */
  datatype Box = Box(minX: int, minY: int, maxX: int, maxY: int)

  /** The region copied to the cropped canvas: `left`/`top` inclusive,
      `right`/`bottom` the values `maxX`/`maxY` take after padding. */
  datatype Rect = Rect(left: int, top: int, right: int, bottom: int)

  const Padding: int := 40

  predicate InCanvas(width: int, height: int, x: int, y: int) {
    0 <= x < width && 0 <= y < height
  }

  /** Some pixel of the canvas has been drawn on. */
  ghost predicate AnyOpaque(data: seq<byte>, width: int, height: int) {
    exists x, y | InCanvas(width, height, x, y) :: Opaque(data, width, x, y)
  }

  /** `b` is the smallest box holding every drawn pixel: it holds them all,
      and each of its four sides touches one. */
  ghost predicate IsTightBox(data: seq<byte>, width: int, height: int, b: Box) {
    (forall x, y | InCanvas(width, height, x, y) && Opaque(data, width, x, y) ::
      b.minX <= x <= b.maxX && b.minY <= y <= b.maxY)
    && (exists y | InCanvas(width, height, b.minX, y) :: Opaque(data, width, b.minX, y))
    && (exists y | InCanvas(width, height, b.maxX, y) :: Opaque(data, width, b.maxX, y))
    && (exists x | InCanvas(width, height, x, b.minY) :: Opaque(data, width, x, b.minY))
    && (exists x | InCanvas(width, height, x, b.maxY) :: Opaque(data, width, x, b.maxY))
  }

  /** Pixel (`px`, `py`) comes before (`x`, `y`) in the row-major scan. */
  predicate Scanned(width: int, px: int, py: int, x: int, y: int) {
    0 <= px < width && 0 <= py && (py < y || (py == y && px < x))
  }

  /** Lines 216-219: the box after a drawn pixel at (`x`, `y`) is met. */
  function Extend(b: Box, x: int, y: int): (e: Box)
    ensures e.minX <= x <= e.maxX && e.minY <= y <= e.maxY
    ensures e.minX <= b.minX && e.minY <= b.minY && e.maxX >= b.maxX && e.maxY >= b.maxY
  {
    Box(if x < b.minX then x else b.minX, if y < b.minY then y else b.minY,
        if x > b.maxX then x else b.maxX, if y > b.maxY then y else b.maxY)
  }

  /** A drawn pixel on each side of the box: left, right, top and bottom. */
  datatype Sides = Sides(left: (int, int), right: (int, int), top: (int, int), bottom: (int, int))

  /** Every side of `b` touches a drawn pixel scanned before (`x`, `y`). */
  ghost predicate Touches(d: seq<byte>, width: int, x: int, y: int, b: Box, s: Sides) {
    Scanned(width, s.left.0, s.left.1, x, y) && Opaque(d, width, s.left.0, s.left.1) && s.left.0 == b.minX
    && Scanned(width, s.right.0, s.right.1, x, y) && Opaque(d, width, s.right.0, s.right.1) && s.right.0 == b.maxX
    && Scanned(width, s.top.0, s.top.1, x, y) && Opaque(d, width, s.top.0, s.top.1) && s.top.1 == b.minY
    && Scanned(width, s.bottom.0, s.bottom.1, x, y) && Opaque(d, width, s.bottom.0, s.bottom.1) && s.bottom.1 == b.maxY
  }

  /** Every drawn pixel scanned before (`x`, `y`) has been seen and lies in `b`. */
  ghost predicate Covers(d: seq<byte>, width: int, x: int, y: int, found: bool, b: Box) {
    forall px, py | Scanned(width, px, py, x, y) && Opaque(d, width, px, py) ::
      found && b.minX <= px <= b.maxX && b.minY <= py <= b.maxY
  }

  /** The pixels that witness the sides once (`x`, `y`) has been met. */
  ghost function NewSides(s: Sides, b: Box, x: int, y: int, found: bool): Sides {
    if !found then Sides((x, y), (x, y), (x, y), (x, y))
    else Sides(if x < b.minX then (x, y) else s.left, if x > b.maxX then (x, y) else s.right,
               if y < b.minY then (x, y) else s.top, if y > b.maxY then (x, y) else s.bottom)
  }

  /** A drawn pixel extends the box, which stays tight around the pixels met so far ... */
  lemma DrawnPixelStep(d: seq<byte>, width: int, height: int, x: int, y: int,
                       found: bool, b: Box, s: Sides, e: Box, t: Sides)
    requires 0 <= x < width && 0 <= y < height && Opaque(d, width, x, y)
    requires found ==> Touches(d, width, x, y, b, s)
    requires Covers(d, width, x, y, found, b)
    requires !found ==> b == Box(width, height, 0, 0)
    requires e == Extend(b, x, y) && t == NewSides(s, b, x, y, found)
    ensures Touches(d, width, x + 1, y, e, t) && Covers(d, width, x + 1, y, true, e)
  {
  }

  /** ... and a blank pixel changes nothing. */
  lemma BlankPixelStep(d: seq<byte>, width: int, x: int, y: int, found: bool, b: Box, s: Sides)
    requires 0 <= x < width && 0 <= y && !Opaque(d, width, x, y)
    requires found ==> Touches(d, width, x, y, b, s)
    requires Covers(d, width, x, y, found, b)
    ensures (found ==> Touches(d, width, x + 1, y, b, s)) && Covers(d, width, x + 1, y, found, b)
  {
  }

  /** Finishing a row is starting the next one. */
  lemma RowDone(d: seq<byte>, width: int, y: int, found: bool, b: Box, s: Sides)
    requires found ==> Touches(d, width, width, y, b, s)
    requires Covers(d, width, width, y, found, b)
    ensures found ==> Touches(d, width, 0, y + 1, b, s)
    ensures Covers(d, width, 0, y + 1, found, b)
  {
  }

  /** Once every row is scanned, the box is tight and `found` says whether
      anything was drawn. */
  lemma ScanComplete(d: seq<byte>, width: nat, height: nat, found: bool, b: Box, s: Sides)
    requires found ==> Touches(d, width, 0, height, b, s)
    requires Covers(d, width, 0, height, found, b)
    ensures found <==> AnyOpaque(d, width, height)
    ensures found ==> IsTightBox(d, width, height, b)
  {
    assert forall px, py :: Scanned(width, px, py, 0, height) <==> InCanvas(width, height, px, py);
    if found {
      assert Opaque(d, width, s.left.0, s.left.1);
    }
  }

  /** Lines 207-223: the nested scan over every pixel. */
  method ScanBox(data: array<byte>, width: nat, height: nat) returns (found: bool, b: Box)
    ensures found <==> AnyOpaque(data[..], width, height)
    ensures found ==> IsTightBox(data[..], width, height, b)
    ensures !found ==> b == Box(width, height, 0, 0)
  {
    var minX, minY, maxX, maxY := width as int, height as int, 0, 0;
    found := false;
    ghost var sides := Sides((0, 0), (0, 0), (0, 0), (0, 0));
    var y := 0;
    while y < height
      invariant 0 <= y <= height
      invariant found ==> Touches(data[..], width, 0, y, Box(minX, minY, maxX, maxY), sides)
      invariant Covers(data[..], width, 0, y, found, Box(minX, minY, maxX, maxY))
      invariant !found ==> Box(minX, minY, maxX, maxY) == Box(width, height, 0, 0)
    {
      found, minX, minY, maxX, maxY, sides := ScanRow(data[..], width, height, y, found, minX, minY, maxX, maxY, sides);
      y := y + 1;
    }
    b := Box(minX, minY, maxX, maxY);
    ScanComplete(data[..], width, height, found, b, sides);
  }

  /** The inner loop of the scan, over row `y`. */
  method ScanRow(data: seq<byte>, width: nat, height: nat, y: nat,
                 found0: bool, minX0: int, minY0: int, maxX0: int, maxY0: int, ghost sides0: Sides)
    returns (found: bool, minX: int, minY: int, maxX: int, maxY: int, ghost sides: Sides)
    requires y < height
    requires found0 ==> Touches(data, width, 0, y, Box(minX0, minY0, maxX0, maxY0), sides0)
    requires Covers(data, width, 0, y, found0, Box(minX0, minY0, maxX0, maxY0))
    requires !found0 ==> Box(minX0, minY0, maxX0, maxY0) == Box(width, height, 0, 0)
    ensures found ==> Touches(data, width, 0, y + 1, Box(minX, minY, maxX, maxY), sides)
    ensures Covers(data, width, 0, y + 1, found, Box(minX, minY, maxX, maxY))
    ensures !found ==> Box(minX, minY, maxX, maxY) == Box(width, height, 0, 0)
  {
    found, minX, minY, maxX, maxY, sides := found0, minX0, minY0, maxX0, maxY0, sides0;
    var x := 0;
    while x < width
      invariant 0 <= x <= width
      invariant found ==> Touches(data, width, x, y, Box(minX, minY, maxX, maxY), sides)
      invariant Covers(data, width, x, y, found, Box(minX, minY, maxX, maxY))
      invariant !found ==> Box(minX, minY, maxX, maxY) == Box(width, height, 0, 0)
    {
      var alpha := Alpha(data, width, x, y);
      ghost var b0, s0, f0 := Box(minX, minY, maxX, maxY), sides, found;
      if alpha > 0 {
        if x < minX { minX := x; }
        if x > maxX { maxX := x; }
        if y < minY { minY := y; }
        if y > maxY { maxY := y; }
        found := true;
        sides := NewSides(s0, b0, x, y, f0);
        DrawnPixelStep(data, width, height, x, y, f0, b0, s0, Box(minX, minY, maxX, maxY), sides);
      } else {
        BlankPixelStep(data, width, x, y, found, b0, sides);
      }
      x := x + 1;
    }
    RowDone(data, width, y, found, Box(minX, minY, maxX, maxY), sides);
  }

  // ----------------------------------------------------------- padding

  /** Lines 228-232: 40 pixels on every side, clamped to the canvas. */
  function Pad(b: Box, width: int, height: int): Rect {
    Rect(Max(0, b.minX - Padding), Max(0, b.minY - Padding),
         Min(width, b.maxX + Padding), Min(height, b.maxY + Padding))
  }

  /** Lines 234-235: the size of the cropped canvas. */
  function CroppedWidth(r: Rect): int { r.right - r.left }
  function CroppedHeight(r: Rect): int { r.bottom - r.top }

  /** A tight box lies on the canvas, with its sides in order. */
  lemma TightBoxOnCanvas(d: seq<byte>, width: int, height: int, b: Box)
    requires IsTightBox(d, width, height, b)
    ensures 0 <= b.minX <= b.maxX < width && 0 <= b.minY <= b.maxY < height
  {
    var y :| InCanvas(width, height, b.minX, y) && Opaque(d, width, b.minX, y);
    var x :| InCanvas(width, height, x, b.minY) && Opaque(d, width, x, b.minY);
    assert b.minX <= b.maxX && b.minY <= b.maxY;
  }

  /** There is only one tight box. */
  lemma TightBoxUnique(d: seq<byte>, width: int, height: int, b: Box, c: Box)
    requires IsTightBox(d, width, height, b) && IsTightBox(d, width, height, c)
    ensures b == c
  {
    var y1 :| InCanvas(width, height, b.minX, y1) && Opaque(d, width, b.minX, y1);
    var y2 :| InCanvas(width, height, c.minX, y2) && Opaque(d, width, c.minX, y2);
    var y3 :| InCanvas(width, height, b.maxX, y3) && Opaque(d, width, b.maxX, y3);
    var y4 :| InCanvas(width, height, c.maxX, y4) && Opaque(d, width, c.maxX, y4);
    var x1 :| InCanvas(width, height, x1, b.minY) && Opaque(d, width, x1, b.minY);
    var x2 :| InCanvas(width, height, x2, c.minY) && Opaque(d, width, x2, c.minY);
    var x3 :| InCanvas(width, height, x3, b.maxY) && Opaque(d, width, x3, b.maxY);
    var x4 :| InCanvas(width, height, x4, c.maxY) && Opaque(d, width, x4, c.maxY);
  }

  /** The padded region lies on the canvas, holds the whole box, and reaches
      at most 40 pixels past its left and top sides and at most 39 past its
      right and bottom ones (the right and bottom edges are exclusive), each
      exactly so unless the canvas edge is nearer. */
  lemma PadBounds(b: Box, width: int, height: int)
    requires 0 <= b.minX <= b.maxX < width && 0 <= b.minY <= b.maxY < height
    ensures var r := Pad(b, width, height);
      0 <= r.left <= b.minX && b.maxX < r.right <= width
      && 0 <= r.top <= b.minY && b.maxY < r.bottom <= height
      && 0 < CroppedWidth(r) <= width && 0 < CroppedHeight(r) <= height
    ensures var r := Pad(b, width, height);
      b.minX - r.left <= Padding && r.right - 1 - b.maxX <= Padding - 1
      && b.minY - r.top <= Padding && r.bottom - 1 - b.maxY <= Padding - 1
    ensures var r := Pad(b, width, height);
      (b.minX >= Padding ==> b.minX - r.left == Padding)
      && (b.maxX + Padding <= width ==> r.right - 1 - b.maxX == Padding - 1)
      && (b.minY >= Padding ==> b.minY - r.top == Padding)
      && (b.maxY + Padding <= height ==> r.bottom - 1 - b.maxY == Padding - 1)
    ensures var r := Pad(b, width, height);
      (b.minX < Padding ==> r.left == 0) && (b.maxX + Padding > width ==> r.right == width)
      && (b.minY < Padding ==> r.top == 0) && (b.maxY + Padding > height ==> r.bottom == height)
  {
  }

  /** A canvas with a single drawn pixel crops to the 80-by-80 square
      around it (40 pixels before it and 39 after it on each axis, since the
      right and bottom edges are exclusive), less what falls off the canvas. */
  lemma SinglePixel(d: seq<byte>, width: int, height: int, x: int, y: int)
    requires InCanvas(width, height, x, y) && Opaque(d, width, x, y)
    requires forall px, py | InCanvas(width, height, px, py) && Opaque(d, width, px, py) :: px == x && py == y
    ensures IsTightBox(d, width, height, Box(x, y, x, y))
    ensures Pad(Box(x, y, x, y), width, height)
      == Rect(Max(0, x - 40), Max(0, y - 40), Min(width, x + 40), Min(height, y + 40))
    ensures 40 <= x && x + 40 <= width ==> CroppedWidth(Pad(Box(x, y, x, y), width, height)) == 80
    ensures 40 <= y && y + 40 <= height ==> CroppedHeight(Pad(Box(x, y, x, y), width, height)) == 80
  {
  }

  /** `getCroppedCanvas` up to the copy: `None` (the source's `null`)
      exactly when nothing was drawn, otherwise the padded tight box, which
      holds every drawn pixel. */
  method CropRegion(data: array<byte>, width: nat, height: nat) returns (r: Option<Rect>)
    ensures r.None? <==> !AnyOpaque(data[..], width, height)
    ensures r.Some? ==> exists b | IsTightBox(data[..], width, height, b) :: r.value == Pad(b, width, height)
    ensures r.Some? ==> 0 <= r.value.left < r.value.right <= width && 0 <= r.value.top < r.value.bottom <= height
    ensures r.Some? ==> forall x, y | InCanvas(width, height, x, y) && Opaque(data[..], width, x, y) ::
      r.value.left <= x < r.value.right && r.value.top <= y < r.value.bottom
  {
    var found, b := ScanBox(data, width, height);
    if !found {
      return None;
    }
    TightBoxOnCanvas(data[..], width, height, b);
    PadBounds(b, width, height);
    r := Some(Pad(b, width, height));
  }
}
