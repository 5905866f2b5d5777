/** One pixel surface: a fixed `dimx` x `dimy` array of RGBA bytes, stored row
    by row, four bytes per pixel, with bounds-checked access to a pixel. */
module Surface {
  import opened Base

  /** Where pixel (x, y) of a `width` x `height` surface starts in its byte
      array (row-major, four bytes per pixel), or None when (x, y) lies
      outside the surface. */
  function Slot(width: int, height: int, x: int, y: int): (r: Option<nat>)
    ensures r.Some? <==> 0 <= x < width && 0 <= y < height
    ensures r.Some? ==> r.value % 4 == 0 && r.value + 4 <= 4 * width * height
  {
    if y < 0 || y >= height || x < 0 || x >= width then None
    else
      RowBelow(x, y, width, height);
      Some(4 * (x + width * y))
  }

  /** The column of the pixel that byte `i` belongs to. */
  function PixelX(width: int, i: int): int
    requires width > 0
  {
    (i / 4) % width
  }

  /** The row of the pixel that byte `i` belongs to. */
  function PixelY(width: int, i: int): int
    requires width > 0
  {
    (i / 4) / width
  }

  /** Every byte of the slot of (x, y) decodes back to (x, y). */
  lemma SlotDecode(width: int, height: int, x: int, y: int, j: int)
    requires Slot(width, height, x, y).Some?
    requires Slot(width, height, x, y).value <= j < Slot(width, height, x, y).value + 4
    ensures PixelX(width, j) == x && PixelY(width, j) == y
  {
    assert j / 4 == x + width * y;
    DivModUnique(j / 4, width, y, x);
  }

  /** Every byte of a `width` x `height` array lies in the slot of the pixel
      it decodes to. */
  lemma SlotEncode(width: int, height: int, i: int)
    requires 0 <= width && 0 <= height && 0 <= i < 4 * width * height
    ensures width > 0
    ensures Slot(width, height, PixelX(width, i), PixelY(width, i)) == Some(4 * (i / 4))
    ensures 4 * (i / 4) <= i < 4 * (i / 4) + 4
  {
    var p := i / 4;
    assert p < width * height;
    if p / width >= height {
      MulAtLeast(p / width - height + 1, width);
      assert false;
    }
    assert p == PixelX(width, i) + width * PixelY(width, i);
  }

  /** The slots of two different pixels do not overlap. */
  lemma SlotsDisjoint(width: int, height: int, x1: int, y1: int, x2: int, y2: int)
    requires Slot(width, height, x1, y1).Some? && Slot(width, height, x2, y2).Some?
    requires x1 != x2 || y1 != y2
    ensures var o1, o2 := Slot(width, height, x1, y1).value, Slot(width, height, x2, y2).value;
            o1 + 4 <= o2 || o2 + 4 <= o1
  {
    var o1, o2 := Slot(width, height, x1, y1).value, Slot(width, height, x2, y2).value;
    if o1 < o2 + 4 && o2 < o1 + 4 {
      var j := if o1 < o2 then o2 else o1;
      SlotDecode(width, height, x1, y1, j);
      SlotDecode(width, height, x2, y2, j);
    }
  }

  /** The bytes of columns lo..hi of one row are contiguous: they are those
      from the slot of (lo, row) up to the end of the slot of (hi, row). */
  lemma RowSpan(width: int, height: int, row: int, lo: int, hi: int, i: int)
    requires 0 <= lo && hi < width && lo <= hi + 1 && 0 <= row < height
    requires 0 <= i < 4 * width * height
    ensures width > 0
    ensures (4 * (lo + width * row) <= i < 4 * (hi + 1 + width * row)) <==>
            (PixelY(width, i) == row && lo <= PixelX(width, i) <= hi)
  {
    SlotEncode(width, height, i);
    if 4 * (lo + width * row) <= i < 4 * (hi + 1 + width * row) {
      DivModUnique(i / 4, width, row, i / 4 - width * row);
    }
  }

  /** `s` with the `count` bytes from `offset` on set to `v`: the effect of
      `memset`. */
  function Filled(s: seq<Byte>, offset: int, count: int, v: Byte): (r: seq<Byte>)
  {
    seq(|s|, i requires 0 <= i < |s| => if offset <= i < offset + count then v else s[i])
  }

  /** Writing the four bytes of a slot changes exactly the bytes of that
      pixel. */
  lemma SlotWriteLocal(s: seq<Byte>, width: int, height: int, x: int, y: int, v: Byte, i: int)
    requires 0 <= width && 0 <= height && |s| == 4 * width * height && 0 <= i < |s|
    requires Slot(width, height, x, y).Some?
    ensures width > 0
    ensures Filled(s, Slot(width, height, x, y).value, 4, v)[i] ==
            if PixelX(width, i) == x && PixelY(width, i) == y then v else s[i]
  {
    var o := Slot(width, height, x, y).value;
    SlotEncode(width, height, i);
    if o <= i < o + 4 {
      SlotDecode(width, height, x, y, i);
    }
  }

  /** The pixel store of one surface (`Buffer` in the editor): the byte array
      is allocated once, with room for exactly `dimx * dimy` pixels. */
  class Buffer {
    const dimx: int
    const dimy: int
    const pixels: array<Byte>

    ghost predicate Valid()
    {
      0 <= dimx && 0 <= dimy && pixels.Length == 4 * dimx * dimy
    }

    /** A surface of `dimx` x `dimy` pixels whose bytes are not initialised. */
    constructor (dimx: nat, dimy: nat)
      ensures Valid() && this.dimx == dimx && this.dimy == dimy
      ensures fresh(pixels)
    {
      this.dimx, this.dimy := dimx, dimy;
      pixels := new Byte[4 * dimx * dimy];
    }

    /** The offset of pixel (x, y) in `pixels`, or None (the out-of-range
        error) when (x, y) is not on the surface. */
    function GetPixel(x: int, y: int): (r: Option<nat>)
      requires Valid()
      ensures r.Some? <==> 0 <= x < dimx && 0 <= y < dimy
      ensures r.Some? ==> r.value + 4 <= pixels.Length
    {
      Slot(dimx, dimy, x, y)
    }

    /** `memset` through a pointer into `pixels`: stores `v` in the `count`
        bytes from `offset` on and changes no other byte. */
    method Memset(offset: int, count: int, v: Byte)
      requires 0 <= offset && 0 <= count && offset + count <= pixels.Length
      modifies pixels
      ensures pixels[..] == Filled(old(pixels[..]), offset, count, v)
    {
      forall i | offset <= i < offset + count {
        pixels[i] := v;
      }
    }

    /** Publishes the surface: the texture receives a copy of every pixel
        byte, and the pixels are left as they were. */
    method Update() returns (texture: seq<Byte>)
      ensures texture == pixels[..]
    {
      texture := pixels[..];
    }
  }

  /** The pixel-access capability a brush draws through: pixel (x, y) of the
      sink is pixel (x + ox, y + oy) of `surface`, bounds-checked against the
      whole surface. A plain surface is the sink with offsets (0, 0). */
  datatype Sink = Sink(surface: Buffer, ox: int, oy: int) {

    ghost predicate Valid()
    {
      surface.Valid() && 0 <= ox && 0 <= oy
    }

    /** The byte offset of sink pixel (x, y) in the surface, or None. */
    function PixelAt(x: int, y: int): (r: Option<nat>)
      requires surface.Valid()
      ensures r.Some? <==> 0 <= x + ox < surface.dimx && 0 <= y + oy < surface.dimy
    {
      surface.GetPixel(x + ox, y + oy)
    }
  }
}
