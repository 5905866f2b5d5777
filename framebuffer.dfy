/** The frame store: logical animation frames laid out as tiles of a few large
    surfaces, each surface a `framesx` x `framesy` grid of frame-sized tiles,
    with a frame cursor that steps backward and forward. */
module Tiles {
  import opened Base
  import opened Surface

  /** The surface that holds `frame`: for a non-negative frame, a surface
      index that does not exceed the frame number. */
  function BufferIdx(frame: int, framesx: int, framesy: int): (b: int)
    requires framesx > 0 && framesy > 0
    ensures frame >= 0 ==> 0 <= b <= frame
  {
    QuotientBounds(frame, framesy);
    QuotientBounds(TruncDiv(frame, framesy), framesx);
    TruncDiv(TruncDiv(frame, framesy), framesx)
  }

  /** The tile column of `frame` within its surface. */
  function OffsetX(frame: int, framesx: int, framesy: int): (tx: int)
    requires framesx > 0 && framesy > 0
    ensures frame >= 0 ==> 0 <= tx < framesx
  {
    QuotientBounds(frame, framesy);
    TruncRem(TruncDiv(frame, framesy), framesx)
  }

  /** The tile row of `frame` within its surface. */
  function OffsetY(frame: int, framesx: int, framesy: int): (ty: int)
    requires framesx > 0 && framesy > 0
    ensures frame >= 0 ==> 0 <= ty < framesy
  {
    TruncRem(frame, framesy)
  }

  /** A non-negative frame lands on an existing tile of the grid, on a
      surface whose index does not exceed the frame number. */
  lemma TileBounds(frame: int, framesx: int, framesy: int)
    requires frame >= 0 && framesx > 0 && framesy > 0
    ensures 0 <= OffsetX(frame, framesx, framesy) < framesx
    ensures 0 <= OffsetY(frame, framesx, framesy) < framesy
    ensures 0 <= BufferIdx(frame, framesx, framesy) <= frame
  {
    QuotientBounds(frame, framesy);
    QuotientBounds(TruncDiv(frame, framesy), framesx);
  }

  /** The frame number is recovered from its (surface, column, row) triple:
      frames fill a grid column by column, then move on to the next surface. */
  lemma TileDecomposition(frame: int, framesx: int, framesy: int)
    requires frame >= 0 && framesx > 0 && framesy > 0
    ensures var b, tx, ty := BufferIdx(frame, framesx, framesy), OffsetX(frame, framesx, framesy),
                             OffsetY(frame, framesx, framesy);
            frame == (b * framesx + tx) * framesy + ty
  {
    var q := TruncDiv(frame, framesy);
    assert frame == q * framesy + OffsetY(frame, framesx, framesy);
    assert q == BufferIdx(frame, framesx, framesy) * framesx + OffsetX(frame, framesx, framesy);
  }

  /** Two frames that share a surface and a tile are the same frame. */
  lemma TileInjective(f1: int, f2: int, framesx: int, framesy: int)
    requires f1 >= 0 && f2 >= 0 && framesx > 0 && framesy > 0
    requires BufferIdx(f1, framesx, framesy) == BufferIdx(f2, framesx, framesy)
    requires OffsetX(f1, framesx, framesy) == OffsetX(f2, framesx, framesy)
    requires OffsetY(f1, framesx, framesy) == OffsetY(f2, framesx, framesy)
    ensures f1 == f2
  {
    TileDecomposition(f1, framesx, framesy);
    TileDecomposition(f2, framesx, framesy);
  }

  /** On a 2 x 2 grid, frames 0 to 3 fill surface 0 at tiles (0,0), (0,1),
      (1,0), (1,1), and frame 4 opens surface 1 at tile (0,0). */
  lemma TwoByTwoLayout()
    ensures BufferIdx(0, 2, 2) == 0 && OffsetX(0, 2, 2) == 0 && OffsetY(0, 2, 2) == 0
    ensures BufferIdx(1, 2, 2) == 0 && OffsetX(1, 2, 2) == 0 && OffsetY(1, 2, 2) == 1
    ensures BufferIdx(2, 2, 2) == 0 && OffsetX(2, 2, 2) == 1 && OffsetY(2, 2, 2) == 0
    ensures BufferIdx(3, 2, 2) == 0 && OffsetX(3, 2, 2) == 1 && OffsetY(3, 2, 2) == 1
    ensures BufferIdx(4, 2, 2) == 1 && OffsetX(4, 2, 2) == 0 && OffsetY(4, 2, 2) == 0
  {
  }

  /** A frame below the number of surfaces is on an existing surface, since
      every surface holds at least one frame. */
  lemma CursorOnExistingSurface(frame: int, size: int, framesx: int, framesy: int)
    requires 0 <= frame < size && framesx > 0 && framesy > 0
    ensures BufferIdx(frame, framesx, framesy) < size
  {
    TileBounds(frame, framesx, framesy);
  }

  /** The tile at column (or row) `t` of a grid of `n` tiles of `d` pixels
      lies inside the grid. */
  lemma TileFits(t: int, n: int, d: int)
    requires 0 <= t < n && 0 <= d
    ensures 0 <= t * d && t * d + d <= n * d
  {
    MulAtLeast(n - t, d);
    assert n * d == t * d + (n - t) * d;
  }

  /** The number of surfaces the store is created with for `total` frames:
      the rounded-up quotient, computed with C++ division (none when it is
      negative). */
  function BufferCount(total: int, framesx: int, framesy: int): (n: int)
    requires framesx > 0 && framesy > 0
    ensures n >= 0
    ensures total <= 0 ==> n == 0
    ensures total > 0 ==> n >= 1
  {
    MulAtLeast(framesx, framesy);
    var n := TruncDiv(total + framesx * framesy - 1, framesx * framesy);
    if n < 0 then 0 else n
  }

  /** For a non-negative frame total, the surfaces created hold every frame,
      and one surface fewer would not. */
  lemma BufferCountIsCeiling(total: int, framesx: int, framesy: int)
    requires total >= 0 && framesx > 0 && framesy > 0
    ensures var n := BufferCount(total, framesx, framesy);
            n * (framesx * framesy) >= total && (n - 1) * (framesx * framesy) < total
  {
    var k := framesx * framesy;
    MulAtLeast(framesx, framesy);
    var n := (total + k - 1) / k;
    assert total + k - 1 == n * k + (total + k - 1) % k;
    assert n * k - k == (n - 1) * k;
  }

  /** The cursor after `prevFrame` on a store of `size` surfaces: one step
      back, wrapping around at zero (`size` is unsigned in the source; the
      cursor is non-negative). */
  function Prev(frame: int, size: int): (r: int)
    requires frame >= 0 && size >= 0
    ensures r >= 0
    ensures size == 0 ==> r == frame
    ensures 0 < frame < size ==> r == frame - 1
    ensures frame == 0 < size ==> r == size - 1
  {
    if size == 0 then frame else (frame + size - 1) % size
  }

  /** The cursor after `nextFrame`: one step forward, wrapping around after
      the last surface index. */
  function Next(frame: int, size: int): (r: int)
    requires frame >= 0 && size >= 0
    ensures r >= 0
    ensures size == 0 ==> r == frame
    ensures 0 <= frame < size - 1 ==> r == frame + 1
    ensures frame == size - 1 >= 0 ==> r == 0
  {
    if size == 0 then frame else (frame + 1) % size
  }

  /** The cursor after `k` calls of `prevFrame`. */
  function PrevN(frame: int, size: int, k: nat): (r: int)
    requires frame >= 0 && size >= 0
    ensures r >= 0
  {
    if k == 0 then frame else Prev(PrevN(frame, size, k - 1), size)
  }

  /** The cursor after `k` calls of `nextFrame`. */
  function NextN(frame: int, size: int, k: nat): (r: int)
    requires frame >= 0 && size >= 0
    ensures r >= 0
  {
    if k == 0 then frame else Next(NextN(frame, size, k - 1), size)
  }

  /** Adding to a value and reducing modulo `n` commute. */
  lemma ModAdd(a: int, b: int, n: int)
    requires n > 0
    ensures (a % n + b) % n == (a + b) % n
  {
    var t := a % n + b;
    assert a == n * (a / n) + a % n;
    assert t == n * (t / n) + t % n;
    assert a + b == n * (a / n + t / n) + t % n;
    DivModUnique(a + b, n, a / n + t / n, t % n);
  }

  /** Navigation on an empty store leaves the cursor where it is; on a
      non-empty one, it keeps the cursor among the surface indices. */
  lemma NavigationRange(frame: int, size: int)
    requires frame >= 0 && size >= 0
    ensures size == 0 ==> Prev(frame, size) == frame && Next(frame, size) == frame
    ensures size > 0 ==> 0 <= Prev(frame, size) < size && 0 <= Next(frame, size) < size
  {
  }

  /** `k` forward steps add `k` modulo the number of surfaces. */
  lemma {:induction false} NextNIsAddition(frame: int, size: int, k: nat)
    requires 0 <= frame < size
    ensures NextN(frame, size, k) == (frame + k) % size
  {
    if k > 0 {
      NextNIsAddition(frame, size, k - 1);
      ModAdd(frame + k - 1, 1, size);
    } else {
      DivModUnique(frame, size, 0, frame);
    }
  }

  /** `k` backward steps subtract `k` modulo the number of surfaces. */
  lemma {:induction false} PrevNIsSubtraction(frame: int, size: int, k: nat)
    requires frame >= 0 && size > 0 && k > 0
    ensures PrevN(frame, size, k) == (frame - k) % size
  {
    if k == 1 {
      PrevIsSubtraction(frame, size);
    } else {
      PrevNIsSubtraction(frame, size, k - 1);
      PrevIsSubtraction(PrevN(frame, size, k - 1), size);
      ModAdd(frame - (k - 1), -1, size);
    }
  }

  /** One backward step subtracts one modulo the number of surfaces. */
  lemma PrevIsSubtraction(frame: int, size: int)
    requires frame >= 0 && size > 0
    ensures Prev(frame, size) == (frame - 1) % size
  {
    DivModUnique(frame - 1 + size, size, (frame - 1) / size + 1, (frame - 1) % size);
  }

  /** The onion-skin round trip: from a cursor among the surface indices,
      `k` backward steps followed by `k` forward steps return to it. */
  lemma OnionRoundTrip(frame: int, size: int, k: nat)
    requires 0 <= frame < size
    ensures NextN(PrevN(frame, size, k), size, k) == frame
  {
    if k > 0 {
      PrevNIsSubtraction(frame, size, k);
      NextNIsAddition(PrevN(frame, size, k), size, k);
      NavigationRange(PrevN(frame, size, k - 1), size);
      ModAdd(frame - k, k, size);
      DivModUnique(frame, size, 0, frame);
    }
  }

  /** A source rectangle: corner (x, y), width w and height h. */
  datatype Rect = Rect(x: int, y: int, w: int, h: int)

  /** The frame store (`FrameBuffer`): an append-only list of equally sized
      surfaces and the cursor of the frame being edited. */
  class FrameBuffer {
    var frame: int
    const dimx: int
    const dimy: int
    const framesx: int
    const framesy: int
    var buffers: seq<Buffer>

    /** Every surface holds a full grid of frame tiles, and no two surfaces
        share their pixels. */
    ghost predicate Valid()
      reads this
    {
      0 <= dimx && 0 <= dimy && framesx > 0 && framesy > 0 && frame >= 0 &&
      (forall i :: 0 <= i < |buffers| ==> GridSurface(buffers[i])) &&
      (forall i, j :: 0 <= i < j < |buffers| ==> buffers[i].pixels != buffers[j].pixels)
    }

    ghost predicate GridSurface(b: Buffer)
    {
      b.Valid() && b.dimx == dimx * framesx && b.dimy == dimy * framesy
    }

    /** A store with room for `totalFrames` frames of `dimx` x `dimy` pixels,
        its cursor on frame 0. */
    constructor (totalFrames: int, dimx: nat, dimy: nat, framesx: int, framesy: int)
      requires framesx > 0 && framesy > 0
      ensures Valid() && frame == 0
      ensures this.dimx == dimx && this.dimy == dimy && this.framesx == framesx && this.framesy == framesy
      ensures |buffers| == BufferCount(totalFrames, framesx, framesy)
      ensures forall i :: 0 <= i < |buffers| ==> fresh(buffers[i].pixels)
    {
      this.dimx, this.dimy := dimx, dimy;
      this.framesx, this.framesy := framesx, framesy;
      frame := 0;
      buffers := [];
      new;
      var n := TruncDiv(totalFrames + framesx * framesy - 1, framesx * framesy);
      var i := 0;
      while i < n
        invariant Valid() && frame == 0
        invariant 0 <= i && (n >= 0 ==> i <= n) && (n < 0 ==> i == 0) && |buffers| == i
        invariant forall j :: 0 <= j < |buffers| ==> fresh(buffers[j].pixels)
      {
        AddNewFrame();
        i := i + 1;
      }
    }

    /** Appends one surface of `dimx * framesx` x `dimy * framesy` pixels; the
        cursor and the existing surfaces are untouched. */
    method AddNewFrame()
      requires Valid()
      modifies this`buffers
      ensures Valid()
      ensures |buffers| == |old(buffers)| + 1 && buffers[..|old(buffers)|] == old(buffers)
      ensures fresh(buffers[|buffers| - 1].pixels)
    {
      var b := new Buffer(dimx * framesx, dimy * framesy);
      buffers := buffers + [b];
    }

    /** The frame being edited. */
    function GetCurrentFrame(): (f: int)
      reads this
      requires Valid()
      ensures f >= 0
    {
      frame
    }

    /** Pixel (x, y) of the current frame: the pixel of its surface shifted
        by the tile's corner, bounds-checked against the whole surface. */
    function GetPixel(x: int, y: int): (r: Option<nat>)
      reads this
      requires Valid() && BufferIdx(frame, framesx, framesy) < |buffers|
      ensures r.Some? <==> TileToSurface(x, y).Some?
      ensures r.Some? ==> r.value + 4 <= buffers[BufferIdx(frame, framesx, framesy)].pixels.Length
    {
      var f := GetCurrentFrame();
      TileBounds(f, framesx, framesy);
      var tx, ty := x + OffsetX(f, framesx, framesy) * dimx, y + OffsetY(f, framesx, framesy) * dimy;
      var b := buffers[BufferIdx(f, framesx, framesy)];
      assert GridSurface(b);
      b.GetPixel(tx, ty)
    }

    /** Where pixel (x, y) of the current frame lies on its surface, when it
        lies on it at all. */
    ghost function TileToSurface(x: int, y: int): Option<(int, int)>
      reads this
      requires Valid()
    {
      var tx, ty := x + OffsetX(frame, framesx, framesy) * dimx, y + OffsetY(frame, framesx, framesy) * dimy;
      if 0 <= tx < dimx * framesx && 0 <= ty < dimy * framesy then Some((tx, ty)) else None
    }

    /** Every pixel of the frame-sized tile is available. */
    lemma TilePixelsAvailable(x: int, y: int)
      requires Valid() && BufferIdx(frame, framesx, framesy) < |buffers|
      requires 0 <= x < dimx && 0 <= y < dimy
      ensures GetPixel(x, y).Some?
    {
      TileBounds(frame, framesx, framesy);
      var tx, ty := OffsetX(frame, framesx, framesy), OffsetY(frame, framesx, framesy);
      RowBelow(x, tx, dimx, framesx);
      RowBelow(y, ty, dimy, framesy);
    }

    /** The current frame as a pixel-access capability: its surface, with
        the corner of its tile as offset. */
    function CurrentSink(): (s: Sink)
      reads this
      requires Valid() && BufferIdx(frame, framesx, framesy) < |buffers|
      ensures s.Valid() && s.surface == buffers[BufferIdx(frame, framesx, framesy)]
      ensures s.ox + dimx <= s.surface.dimx && s.oy + dimy <= s.surface.dimy
      ensures forall x, y :: s.PixelAt(x, y) == GetPixel(x, y)
    {
      TileBounds(frame, framesx, framesy);
      var tx, ty := OffsetX(frame, framesx, framesy), OffsetY(frame, framesx, framesy);
      TileFits(tx, framesx, dimx);
      TileFits(ty, framesy, dimy);
      Sink(buffers[BufferIdx(frame, framesx, framesy)], tx * dimx, ty * dimy)
    }

    /** Publishes the surface that holds the current frame. */
    method UpdateActive() returns (idx: int, texture: seq<Byte>)
      requires Valid() && BufferIdx(frame, framesx, framesy) < |buffers|
      ensures idx == BufferIdx(frame, framesx, framesy) && 0 <= idx < |buffers|
      ensures texture == buffers[idx].pixels[..]
    {
      idx := BufferIdx(GetCurrentFrame(), framesx, framesy);
      texture := buffers[idx].Update();
    }

    /** The surface and the source rectangle that present the current frame:
        exactly its tile, which lies inside the surface. */
    method RenderActive() returns (idx: int, what: Rect)
      requires Valid() && BufferIdx(frame, framesx, framesy) < |buffers|
      ensures idx == BufferIdx(frame, framesx, framesy)
      ensures what.w == dimx && what.h == dimy
      ensures 0 <= what.x && what.x + what.w <= buffers[idx].dimx
      ensures 0 <= what.y && what.y + what.h <= buffers[idx].dimy
      ensures CurrentSink().ox == what.x && CurrentSink().oy == what.y
    {
      var f := GetCurrentFrame();
      idx := BufferIdx(f, framesx, framesy);
      TileBounds(f, framesx, framesy);
      assert GridSurface(buffers[idx]);
      var s := CurrentSink();
      what := Rect(OffsetX(f, framesx, framesy) * dimx, OffsetY(f, framesx, framesy) * dimy, dimx, dimy);
    }

    /** Steps the cursor back one frame, wrapping modulo the number of
        surfaces; no-op when there is none. */
    method PrevFrame()
      requires Valid()
      modifies this`frame
      ensures Valid() && frame == Prev(old(frame), |buffers|)
    {
      if |buffers| > 0 {
        frame := (frame + |buffers| - 1) % |buffers|;
      }
    }

    /** Steps the cursor forward one frame, wrapping modulo the number of
        surfaces; no-op when there is none. */
    method NextFrame()
      requires Valid()
      modifies this`frame
      ensures Valid() && frame == Next(old(frame), |buffers|)
    {
      if |buffers| > 0 {
        frame := (frame + 1) % |buffers|;
      }
    }
  }
}
