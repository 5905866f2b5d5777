/** The stroke rasterizer: a brush remembers the last sample it drew and fills
    the region of a stroke segment by recursive quartering of a rectangle of
    pixels (a Warnock-style subdivision), writing one byte value throughout. */
module Brushes {
  import opened Base
  import opened Surface
  import opened Tablet

  /** Linear interpolation `a*x + (1-a)*y`: `x` at a = 1, `y` at a = 0, and
      between the two for a in [0, 1]. */
  function Interpolate(x: real, y: real, a: real): (r: real)
    ensures a == 1.0 ==> r == x
    ensures a == 0.0 ==> r == y
  {
    a * x + (1.0 - a) * y
  }

  /** For a in [0, 1] the interpolated value lies between the two ends. */
  lemma InterpolateBetween(x: real, y: real, a: real)
    requires 0.0 <= a <= 1.0
    ensures x <= Interpolate(x, y, a) <= y || y <= Interpolate(x, y, a) <= x
  {
    var d := x - y;
    assert Interpolate(x, y, a) == y + a * d;
    if d >= 0.0 {
      assert a * d >= 0.0;
      assert (1.0 - a) * d >= 0.0;
    } else {
      assert a * -d >= 0.0;
      assert (1.0 - a) * -d >= 0.0;
    }
  }

  /** The byte a brush of the given weight fills with: `weight*255` as an
      unsigned char, so 255 for the pencil (weight 1) and 0 for the eraser
      (weight 0). */
  function FillByte(weight: int): (b: Byte)
    ensures weight == 1 ==> b == 255
    ensures weight == 0 ==> b == 0
  {
    ToByte(weight * 255)
  }

  /** A segment between integer positions is shorter than 1e-3 (its squared
      length below 1e-6) exactly when its two ends coincide. */
  lemma ShortSegmentIsPoint(dx: int, dy: int)
    ensures (dx * dx + dy * dy) as real < 0.000001 <==> (dx == 0 && dy == 0)
  {
    if dx != 0 {
      MulAtLeast(if dx > 0 then dx else -dx, if dx > 0 then dx else -dx);
    }
    if dy != 0 {
      MulAtLeast(if dy > 0 then dy else -dy, if dy > 0 then dy else -dy);
    }
  }

  /** A rectangle of pixels, bounds included: columns mnx..mxx, rows
      mny..mxy. */
  datatype Cell = Cell(mnx: int, mny: int, mxx: int, mxy: int) {

    predicate Contains(x: int, y: int)
    {
      mnx <= x <= mxx && mny <= y <= mxy
    }

    predicate IsEmpty()
    {
      mnx > mxx || mny > mxy
    }

    predicate IsPixel()
    {
      mnx >= mxx && mny >= mxy
    }

    /** The number of columns plus the number of rows, for a cell at most
        one past empty in each direction. */
    function Size(): int
    {
      (mxx - mnx + 1) + (mxy - mny + 1)
    }
  }

  /** The midpoint `(a + b) / 2` with C++ truncating division; between
      non-negative ends it lies between them, and below the upper end when
      they differ. */
  function Mid(a: int, b: int): (m: int)
    ensures 0 <= a <= b ==> a <= m <= b
    ensures 0 <= a < b ==> m < b
  {
    TruncDiv(a + b, 2)
  }

  /** Quadrant `k` of a cell split at its midpoints, in the order the fill
      visits them: top-left, top-right, bottom-left, bottom-right. */
  function Quadrant(c: Cell, k: int): (q: Cell)
    requires 0 <= k < 4
    ensures 0 <= c.mnx <= c.mxx && 0 <= c.mny <= c.mxy ==>
              c.mnx <= q.mnx && q.mxx <= c.mxx && c.mny <= q.mny && q.mxy <= c.mxy
  {
    var mix, miy := Mid(c.mnx, c.mxx), Mid(c.mny, c.mxy);
    if k == 0 then Cell(c.mnx, c.mny, mix, miy)
    else if k == 1 then Cell(mix + 1, c.mny, c.mxx, miy)
    else if k == 2 then Cell(c.mnx, miy + 1, mix, c.mxy)
    else Cell(mix + 1, miy + 1, c.mxx, c.mxy)
  }

  /** With non-negative bounds, the four quadrants of a cell that is neither
      empty nor a single pixel partition it. */
  lemma QuadrantsPartition(c: Cell, x: int, y: int)
    requires 0 <= c.mnx && 0 <= c.mny && !c.IsEmpty() && !c.IsPixel()
    ensures c.Contains(x, y) <==>
      Quadrant(c, 0).Contains(x, y) || Quadrant(c, 1).Contains(x, y) ||
      Quadrant(c, 2).Contains(x, y) || Quadrant(c, 3).Contains(x, y)
    ensures forall j, k :: 0 <= j < k < 4 ==> !(Quadrant(c, j).Contains(x, y) && Quadrant(c, k).Contains(x, y))
  {
  }

  /** With a negative bound the truncated midpoint can equal the upper
      bound, and the first quadrant of the cell is the cell itself. */
  lemma NegativeCellDoesNotShrink()
    ensures Quadrant(Cell(-1, 0, 0, 0), 0) == Cell(-1, 0, 0, 0)
    ensures !Cell(-1, 0, 0, 0).IsEmpty() && !Cell(-1, 0, 0, 0).IsPixel()
  {
  }

  /** The cells the fill can start from on sink `s`: non-negative bounds,
      at most one past empty in each direction, and columns that end inside
      a row of the surface (the row fill is not bounds-checked). */
  ghost predicate Fits(s: Sink, c: Cell)
  {
    0 <= c.mnx && 0 <= c.mny && c.mnx <= c.mxx + 1 && c.mny <= c.mxy + 1 &&
    s.ox + c.mxx < s.surface.dimx
  }

  /** Splitting a cell that is neither empty nor a single pixel gives cells
      that fit, lie inside it, and are strictly smaller. */
  lemma QuadrantShrinks(s: Sink, c: Cell, k: int)
    requires Fits(s, c) && !c.IsEmpty() && !c.IsPixel() && 0 <= k < 4
    ensures Fits(s, Quadrant(c, k))
    ensures c.mnx <= Quadrant(c, k).mnx && Quadrant(c, k).mxx <= c.mxx
    ensures c.mny <= Quadrant(c, k).mny && Quadrant(c, k).mxy <= c.mxy
    ensures 0 <= Quadrant(c, k).Size() < c.Size()
  {
  }

  /** Byte `i` of the surface lies in columns mnx..mxx of the cell and in one
      of its rows mny..yEnd-1, in sink coordinates. */
  ghost predicate Covers(s: Sink, c: Cell, yEnd: int, i: int)
  {
    s.surface.dimx > 0 &&
    c.mny <= PixelY(s.surface.dimx, i) - s.oy < yEnd &&
    c.mnx <= PixelX(s.surface.dimx, i) - s.ox <= c.mxx
  }

  /** The bytes `p` holds after the rows mny..yEnd-1 of cell `c` are set
      to `v`. */
  ghost function FillRows(p: seq<Byte>, s: Sink, c: Cell, yEnd: int, v: Byte): (r: seq<Byte>)
    ensures |r| == |p|
    ensures yEnd <= c.mny ==> r == p
    ensures forall i | 0 <= i < |p| :: r[i] == p[i] || r[i] == v
  {
    seq(|p|, i requires 0 <= i < |p| => if Covers(s, c, yEnd, i) then v else p[i])
  }

  /** One step of the row fill when the sink's pixel (0, y) is available:
      one `memset` of the columns mnx..mxx from it on stays inside the array
      and fills one more row. */
  lemma FillRowStep(p: seq<Byte>, s: Sink, c: Cell, y: int, v: Byte)
    requires s.Valid() && Fits(s, c) && |p| == s.surface.pixels.Length
    requires c.mny <= y && s.PixelAt(0, y).Some?
    ensures var o := s.PixelAt(0, y).value;
            0 <= o + 4 * c.mnx && o + 4 * (c.mxx + 1) <= |p| &&
            Filled(FillRows(p, s, c, y, v), o + 4 * c.mnx, 4 * (c.mxx - c.mnx + 1), v) ==
            FillRows(p, s, c, y + 1, v)
  {
    var o := s.PixelAt(0, y).value;
    FillRowBounds(s, c, y);
    var after := FillRows(p, s, c, y + 1, v);
    var filled := Filled(FillRows(p, s, c, y, v), o + 4 * c.mnx, 4 * (c.mxx - c.mnx + 1), v);
    forall i | 0 <= i < |p|
      ensures filled[i] == after[i]
    {
      FillRowByte(p, s, c, y, v, i);
    }
  }

  /** The columns mnx..mxx of a row the sink reaches lie inside the
      surface's byte array. */
  lemma FillRowBounds(s: Sink, c: Cell, y: int)
    requires s.Valid() && Fits(s, c) && s.PixelAt(0, y).Some?
    ensures var o := s.PixelAt(0, y).value;
            0 <= o + 4 * c.mnx && o + 4 * (c.mxx + 1) <= s.surface.pixels.Length
  {
    var w, h := s.surface.dimx, s.surface.dimy;
    var row := y + s.oy;
    assert s.PixelAt(0, y).value == 4 * (s.ox + w * row);
    RowBelow(w - 1, row, w, h);
  }

  /** The byte-wise content of `FillRowStep`. */
  lemma FillRowByte(p: seq<Byte>, s: Sink, c: Cell, y: int, v: Byte, i: int)
    requires s.Valid() && Fits(s, c) && |p| == s.surface.pixels.Length
    requires c.mny <= y && s.PixelAt(0, y).Some? && 0 <= i < |p|
    ensures var o := s.PixelAt(0, y).value;
            Filled(FillRows(p, s, c, y, v), o + 4 * c.mnx, 4 * (c.mxx - c.mnx + 1), v)[i] ==
            FillRows(p, s, c, y + 1, v)[i]
  {
    var w, h := s.surface.dimx, s.surface.dimy;
    var row := y + s.oy;
    var o := s.PixelAt(0, y).value;
    assert o == 4 * (s.ox + w * row);
    RowSpan(w, h, row, s.ox + c.mnx, s.ox + c.mxx, i);
  }

  /** One step of the row fill when the sink's pixel (0, y) is unavailable:
      no byte of the surface lies in that row, so skipping it fills it. */
  lemma SkipRowStep(p: seq<Byte>, s: Sink, c: Cell, y: int, v: Byte)
    requires s.Valid() && Fits(s, c) && |p| == s.surface.pixels.Length
    requires s.PixelAt(0, y).None?
    ensures FillRows(p, s, c, y, v) == FillRows(p, s, c, y + 1, v)
  {
    var w, h := s.surface.dimx, s.surface.dimy;
    forall i | 0 <= i < |p|
      ensures FillRows(p, s, c, y, v)[i] == FillRows(p, s, c, y + 1, v)[i]
    {
      SlotEncode(w, h, i);
    }
  }

  /** All four corners of the cell pass the in-stroke test. */
  predicate AllIn(c: Cell, inside: (int, int) -> bool)
  {
    inside(c.mnx, c.mny) && inside(c.mnx, c.mxy) && inside(c.mxx, c.mny) && inside(c.mxx, c.mxy)
  }

  /** No corner of the cell passes the in-stroke test. */
  predicate NoneIn(c: Cell, inside: (int, int) -> bool)
  {
    !inside(c.mnx, c.mny) && !inside(c.mnx, c.mxy) && !inside(c.mxx, c.mny) && !inside(c.mxx, c.mxy)
  }

  /** The bytes after the subdivision fill of cell `c` at depth `d`: a cell
      whose corners are all inside is filled row by row; below depth 1 a cell
      whose corners are all outside is pruned; an empty cell or a single pixel
      stops; any other cell is split into its quadrants, filled in order. */
  ghost function Paint(p: seq<Byte>, s: Sink, inside: (int, int) -> bool, c: Cell, d: int, v: Byte): (r: seq<Byte>)
    requires s.Valid() && Fits(s, c) && |p| == s.surface.pixels.Length
    ensures |r| == |p|
    ensures forall i | 0 <= i < |p| :: r[i] == p[i] || r[i] == v
    decreases c.Size()
  {
    if AllIn(c, inside) then FillRows(p, s, c, c.mxy + 1, v)
    else if d > 1 && NoneIn(c, inside) then p
    else if c.IsEmpty() || c.IsPixel() then p
    else
      QuadrantShrinks(s, c, 0);
      QuadrantShrinks(s, c, 1);
      QuadrantShrinks(s, c, 2);
      QuadrantShrinks(s, c, 3);
      var p0 := Paint(p, s, inside, Quadrant(c, 0), d + 1, v);
      var p1 := Paint(p0, s, inside, Quadrant(c, 1), d + 1, v);
      var p2 := Paint(p1, s, inside, Quadrant(c, 2), d + 1, v);
      Paint(p2, s, inside, Quadrant(c, 3), d + 1, v)
  }

  /** The fill changes a byte only inside the starting cell, and only to
      `v`. */
  lemma {:induction false} PaintStaysInCell(p: seq<Byte>, s: Sink, inside: (int, int) -> bool, c: Cell, d: int, v: Byte, i: int)
    requires s.Valid() && Fits(s, c) && |p| == s.surface.pixels.Length && 0 <= i < |p|
    ensures var r := Paint(p, s, inside, c, d, v);
            r[i] == p[i] || (r[i] == v && Covers(s, c, c.mxy + 1, i))
    decreases c.Size()
  {
    if !AllIn(c, inside) && !(d > 1 && NoneIn(c, inside)) && !c.IsEmpty() && !c.IsPixel() {
      QuadrantShrinks(s, c, 0);
      QuadrantShrinks(s, c, 1);
      QuadrantShrinks(s, c, 2);
      QuadrantShrinks(s, c, 3);
      var p0 := Paint(p, s, inside, Quadrant(c, 0), d + 1, v);
      var p1 := Paint(p0, s, inside, Quadrant(c, 1), d + 1, v);
      var p2 := Paint(p1, s, inside, Quadrant(c, 2), d + 1, v);
      PaintStaysInCell(p, s, inside, Quadrant(c, 0), d + 1, v, i);
      PaintStaysInCell(p0, s, inside, Quadrant(c, 1), d + 1, v, i);
      PaintStaysInCell(p1, s, inside, Quadrant(c, 2), d + 1, v, i);
      PaintStaysInCell(p2, s, inside, Quadrant(c, 3), d + 1, v, i);
    }
  }

  /** The short cuts of the fill: a cell with all corners inside gets `v` in
      every byte it covers and nothing else changes; otherwise, past depth 1
      a cell with all corners outside, an empty cell, and a single pixel
      leave every byte as it was. */
  lemma PaintShortCuts(p: seq<Byte>, s: Sink, inside: (int, int) -> bool, c: Cell, d: int, v: Byte, i: int)
    requires s.Valid() && Fits(s, c) && |p| == s.surface.pixels.Length && 0 <= i < |p|
    ensures AllIn(c, inside) ==>
              Paint(p, s, inside, c, d, v)[i] == if Covers(s, c, c.mxy + 1, i) then v else p[i]
    ensures !AllIn(c, inside) && d > 1 && NoneIn(c, inside) ==> Paint(p, s, inside, c, d, v) == p
    ensures !AllIn(c, inside) && (c.IsEmpty() || c.IsPixel()) ==> Paint(p, s, inside, c, d, v) == p
  {
  }

  /** A cell that the short cuts do not settle is filled quadrant by
      quadrant, each fill starting from the bytes the previous one left. */
  lemma PaintSplit(p: seq<Byte>, s: Sink, inside: (int, int) -> bool, c: Cell, d: int, v: Byte)
    requires s.Valid() && Fits(s, c) && |p| == s.surface.pixels.Length
    requires !AllIn(c, inside) && !(d > 1 && NoneIn(c, inside)) && !c.IsEmpty() && !c.IsPixel()
    ensures Fits(s, Quadrant(c, 0)) && Fits(s, Quadrant(c, 1)) && Fits(s, Quadrant(c, 2)) && Fits(s, Quadrant(c, 3))
    ensures var p0 := Paint(p, s, inside, Quadrant(c, 0), d + 1, v);
            var p1 := Paint(p0, s, inside, Quadrant(c, 1), d + 1, v);
            var p2 := Paint(p1, s, inside, Quadrant(c, 2), d + 1, v);
            Paint(p, s, inside, c, d, v) == Paint(p2, s, inside, Quadrant(c, 3), d + 1, v)
  {
    QuadrantShrinks(s, c, 0);
    QuadrantShrinks(s, c, 1);
    QuadrantShrinks(s, c, 2);
    QuadrantShrinks(s, c, 3);
  }

  /** The row fill of a cell whose corners are all inside: for each row, the
      pixel at column 0 is looked up and, when available, the columns
      mnx..mxx from it on are set to `v` with one `memset`. */
  method FillCell(s: Sink, c: Cell, v: Byte)
    requires s.Valid() && Fits(s, c)
    modifies s.surface.pixels
    ensures s.surface.pixels[..] == FillRows(old(s.surface.pixels[..]), s, c, c.mxy + 1, v)
  {
    ghost var p := s.surface.pixels[..];
    assert FillRows(p, s, c, c.mny, v) == p;
    for y := c.mny to c.mxy + 1
      invariant s.surface.pixels[..] == FillRows(p, s, c, y, v)
    {
      var pxl := s.PixelAt(0, y);
      if pxl.Some? {
        FillRowStep(p, s, c, y, v);
        s.surface.Memset(pxl.value + 4 * c.mnx, 4 * (c.mxx - c.mnx + 1), v);
      } else {
        SkipRowStep(p, s, c, y, v);
      }
    }
  }

  /** The subdivision fill, in place on the sink's surface. */
  method Warnock(s: Sink, inside: (int, int) -> bool, c: Cell, d: int, v: Byte)
    requires s.Valid() && Fits(s, c)
    modifies s.surface.pixels
    ensures s.surface.pixels[..] == Paint(old(s.surface.pixels[..]), s, inside, c, d, v)
    decreases c.Size()
  {
    var in0, in1, in2, in3 := inside(c.mnx, c.mny), inside(c.mnx, c.mxy), inside(c.mxx, c.mny), inside(c.mxx, c.mxy);
    if in0 && in1 && in2 && in3 {
      FillCell(s, c, v);
      return;
    }
    if d > 1 && !in0 && !in1 && !in2 && !in3 {
      return;
    }
    if c.mnx > c.mxx || c.mny > c.mxy {
      return;
    }
    if c.mnx >= c.mxx && c.mny >= c.mxy {
      return;
    }
    var mix, miy := Mid(c.mnx, c.mxx), Mid(c.mny, c.mxy);
    var q0, q1 := Cell(c.mnx, c.mny, mix, miy), Cell(mix + 1, c.mny, c.mxx, miy);
    var q2, q3 := Cell(c.mnx, miy + 1, mix, c.mxy), Cell(mix + 1, miy + 1, c.mxx, c.mxy);
    assert q0 == Quadrant(c, 0) && q1 == Quadrant(c, 1) && q2 == Quadrant(c, 2) && q3 == Quadrant(c, 3);
    ghost var p := s.surface.pixels[..];
    PaintSplit(p, s, inside, c, d, v);
    QuadrantShrinks(s, c, 0);
    Warnock(s, inside, q0, d + 1, v);
    QuadrantShrinks(s, c, 1);
    Warnock(s, inside, q1, d + 1, v);
    QuadrantShrinks(s, c, 2);
    Warnock(s, inside, q2, d + 1, v);
    QuadrantShrinks(s, c, 3);
    Warnock(s, inside, q3, d + 1, v);
  }

  /** What the floating-point geometry of a segment yields: the pixel
      rectangle bounding the segment's quad and the in-stroke test. */
  datatype Shape = Shape(box: Cell, inside: (int, int) -> bool)

  /** The shape of the segment from the brush's last sample to a new one. */
  type Shaper = (TabletEvent, TabletEvent) -> Shape

  /** The brush draws nothing for a segment that starts with pressure below
      10 or has no length. */
  predicate Skips(last: TabletEvent, res: TabletEvent)
    ensures last.pressure <= 0 ==> Skips(last, res)
    ensures res == last ==> Skips(last, res)
  {
    last.pressure < 10 || (res.x == last.x && res.y == last.y)
  }

  /** A brush's last sample together with the bytes of the surface it draws
      on. */
  datatype Stroke = Stroke(lastPos: TabletEvent, pixels: seq<Byte>)

  /** Every shape a shaper can produce fits the sink. */
  ghost predicate ShapesFit(s: Sink, shaper: Shaper)
  {
    forall a, b :: Fits(s, shaper(a, b).box)
  }

  /** The effect of one `draw` call: nothing when the new sample's pixel is
      unavailable; only the new last sample on a skipped segment; otherwise
      the subdivision fill of the segment's box from depth 0, then the new
      last sample. */
  ghost function DrawStep(st: Stroke, s: Sink, res: TabletEvent, shaper: Shaper, v: Byte): (r: Stroke)
    requires s.Valid() && |st.pixels| == s.surface.pixels.Length && Fits(s, shaper(st.lastPos, res).box)
    ensures |r.pixels| == |st.pixels|
    ensures forall i | 0 <= i < |st.pixels| :: r.pixels[i] == st.pixels[i] || r.pixels[i] == v
  {
    if s.PixelAt(res.x, res.y).None? then st
    else if Skips(st.lastPos, res) then Stroke(res, st.pixels)
    else
      var shape := shaper(st.lastPos, res);
      Stroke(res, Paint(st.pixels, s, shape.inside, shape.box, 0, v))
  }

  /** The three paths of `draw`: an unavailable pixel changes nothing; a
      skipped segment changes no byte; every call that gets past the bounds
      check ends with the new sample as the last one, and writes `v` only
      inside the segment's box. */
  lemma DrawPaths(st: Stroke, s: Sink, res: TabletEvent, shaper: Shaper, v: Byte, i: int)
    requires s.Valid() && |st.pixels| == s.surface.pixels.Length && Fits(s, shaper(st.lastPos, res).box)
    requires 0 <= i < |st.pixels|
    ensures s.PixelAt(res.x, res.y).None? ==> DrawStep(st, s, res, shaper, v) == st
    ensures s.PixelAt(res.x, res.y).Some? ==> DrawStep(st, s, res, shaper, v).lastPos == res
    ensures Skips(st.lastPos, res) ==> DrawStep(st, s, res, shaper, v).pixels == st.pixels
    ensures var r := DrawStep(st, s, res, shaper, v).pixels;
            r[i] == st.pixels[i] ||
            (r[i] == v && Covers(s, shaper(st.lastPos, res).box, shaper(st.lastPos, res).box.mxy + 1, i))
  {
    if s.PixelAt(res.x, res.y).Some? && !Skips(st.lastPos, res) {
      var shape := shaper(st.lastPos, res);
      PaintStaysInCell(st.pixels, s, shape.inside, shape.box, 0, v, i);
    }
  }

  /** A brush (`Brush<weight>`): its fill byte and the last sample it saw. */
  class Brush {
    var lastPos: TabletEvent
    const weight: int

    /** A brush whose last sample starts as `initial` (left indeterminate by
        the source). */
    constructor (weight: int, initial: TabletEvent)
      ensures this.weight == weight && lastPos == initial
    {
      this.weight := weight;
      lastPos := initial;
    }

    /** Draws the segment from the last sample to `res` into the sink. */
    method Draw(res: TabletEvent, s: Sink, shaper: Shaper)
      requires s.Valid() && Fits(s, shaper(lastPos, res).box)
      modifies this`lastPos, s.surface.pixels
      ensures Stroke(lastPos, s.surface.pixels[..]) ==
              DrawStep(Stroke(old(lastPos), old(s.surface.pixels[..])), s, res, shaper, FillByte(weight))
    {
      if s.PixelAt(res.x, res.y).None? {
        return;
      }
      if Skips(lastPos, res) {
        lastPos := res;
        return;
      }
      var shape := shaper(lastPos, res);
      Warnock(s, shape.inside, shape.box, 0, FillByte(weight));
      lastPos := res;
    }
  }
}
