# xflipbook drawing path in Dafny

This project models the drawing path of xflipbook, a full-screen flip-book
animation editor driven by a pen tablet. It covers four pieces:

- **Pixel surface** (`Surface`, buffer.dfy). `Buffer` is a `dimx` x `dimy`
  RGBA byte array addressed row by row, four bytes per pixel. `getPixel` is
  bounds-checked and gives the offset of a pixel's four bytes.
- **Frame store** (`Tiles`, framebuffer.dfy). `FrameBuffer` maps a frame
  number to a surface and a tile within it, using C++ truncating division. It
  also holds the append-only list of surfaces and the frame cursor, which
  steps back and forth with wrap-around.
- **Brush** (`Brushes`, brush.dfy). `Brush<weight>::draw` follows its
  last-sample state machine. The Warnock-style fill splits a rectangle of
  pixels into quadrants recursively and fills with one `memset` per row every
  cell whose corners are all inside the stroke.
- **Editor** (`Editor`, app.dfy). `App` does four things:
  - it scales tablet samples to the screen;
  - it gates drawing on the previous sample's pressure and makes the two
    interpolated `draw` calls per sample;
  - it dispatches by surface and tool, and applies key presses to its
    controls;
  - in `render`, it publishes the changed surface and composes the picture
    with the onion-skin frames, leaving the cursor where it was. One pass of
    `run` also advances the cursor while playing.

Shared pieces live in `Base` (base.dfy): C++ division and remainder, which
truncate toward zero; the `unsigned char` conversion of `memset`; and the
`Option` result. Another shared piece is `Tablet.TabletEvent` (tablet.dfy).

Some state is updated in place, and the model keeps it that way:

- the pixel arrays are Dafny `array<Byte>`;
- the frame cursor and the brushes' last samples are class fields;
- the editor's flags are fields of `App`.

Each method is proved against a ghost function of the old state:

- the row fill against `FillRows`;
- the recursive fill against `Paint`;
- `draw` against `DrawStep`;
- the sample loop against `OnSamples`;
- the key loop against `OnEvents`;
- `render` against `Composite`.

The properties of those functions are proved as lemmas.

The brush is a template over its target (`Buf`). The model gives it a
`Sink`: a surface plus the corner of a tile. The background is the sink with
corner (0, 0). The current frame is `FrameBuffer.CurrentSink()`, and its
contract proves that the sink's pixel lookup equals `FrameBuffer::getPixel`.

## Model

| member | source | states |
|---|---|---|
| Base.ToByte | brush.h:115 | the byte `memset` stores is its int argument modulo 256, the argument itself when it is already a byte |
| Base.TruncDiv | brush.h:129-130 | C++ `/` by a positive divisor: the remainder it leaves lies in [0, b) for a >= 0 and in (-b, 0] for a < 0 (truncation toward zero) |
| Base.TruncRem | framebuffer.h:21-26 | C++ `%`: takes the sign of the dividend, below the divisor in magnitude, and `a == (a / b) * b + a % b` |
| Surface.Slot | buffer.h:33-38 | a pixel has a slot exactly when 0 <= x < width and 0 <= y < height; a slot is 4-aligned and its four bytes lie within the 4*width*height allocated |
| Surface.SlotDecode | buffer.h:37 | every byte of the slot of (x, y) decodes back to x = (i/4) % width and y = (i/4) / width |
| Surface.SlotEncode | buffer.h:37 | every byte of the array lies in the slot of the pixel it decodes to |
| Surface.SlotsDisjoint | buffer.h:37 | the slots of two different pixels are at least four bytes apart |
| Surface.RowSpan | brush.h:113-116 | the bytes from the slot of (lo, row) to the end of the slot of (hi, row) are exactly those of the pixels of columns lo..hi in that row |
| Surface.SlotWriteLocal | buffer.h:37 | writing the four bytes of a slot changes that pixel's bytes and no other |
| Surface.Buffer.constructor | buffer.h:16-26 | a surface of the given size with exactly 4*dimx*dimy bytes, freshly allocated |
| Surface.Buffer.GetPixel | buffer.h:33-38 | the offset is present exactly for in-range (x, y) (the out-of-range error otherwise), and its four bytes lie inside the array |
| Surface.Buffer.Memset | brush.h:115 | the `count` bytes from `offset` on become `v` and every other byte is unchanged |
| Surface.Buffer.Update | buffer.h:40-42 | the uploaded texture is a copy of the pixel bytes, and no byte changes |
| Surface.Sink.PixelAt | brush.h:113 | a sink pixel is available exactly when its shifted position lies on the surface |
| Tiles.BufferIdx | framebuffer.h:18-20 | for a non-negative frame, the surface index is between 0 and the frame number |
| Tiles.OffsetX | framebuffer.h:21-23 | for a non-negative frame, its tile column `(frame / framesy) % framesx` lies in [0, framesx) |
| Tiles.OffsetY | framebuffer.h:24-26 | for a non-negative frame, its tile row `frame % framesy` lies in [0, framesy) |
| Tiles.TileBounds | framebuffer.h:21-26 | for a non-negative frame the tile column is in [0, framesx) and the row in [0, framesy) |
| Tiles.TileDecomposition | framebuffer.h:18-26 | frame == (bufferIdx * framesx + offsetX) * framesy + offsetY |
| Tiles.TileInjective | framebuffer.h:18-26 | two frames with the same surface and tile are the same frame |
| Tiles.TwoByTwoLayout | framebuffer.h:18-26 | on a 2 x 2 grid, frames 0..3 fill surface 0 at tiles (0,0), (0,1), (1,0), (1,1), and frame 4 is surface 1 at (0,0) |
| Tiles.BufferCount | framebuffer.h:32 | the number of surfaces created is never negative: none for a frame total of zero or less, at least one for a positive total (the ceiling itself in `BufferCountIsCeiling`) |
| Tiles.CursorOnExistingSurface | framebuffer.h:57 | a cursor below the number of surfaces selects an existing surface |
| Tiles.TileFits | framebuffer.h:55-56 | the tile at column (row) t of a grid of n tiles of d pixels lies inside the grid |
| Tiles.BufferCountIsCeiling | framebuffer.h:32 | the surfaces created hold every frame asked for, and one surface fewer would not (the rounded-up quotient) |
| Tiles.Prev | framebuffer.h:78-82 | `prevFrame` is a no-op on an empty store, and otherwise steps back one, with 0 wrapping to the last index |
| Tiles.Next | framebuffer.h:84-88 | `nextFrame` is a no-op on an empty store, and otherwise steps forward one, with the last index wrapping to 0 |
| Tiles.NavigationRange | framebuffer.h:78-88 | with no surfaces both steps leave the cursor alone; otherwise both end in [0, size) |
| Tiles.NextNIsAddition | framebuffer.h:84-88 | k forward steps from f in [0, size) give (f + k) % size |
| Tiles.PrevNIsSubtraction | framebuffer.h:78-82 | k backward steps give (f - k) % size |
| Tiles.PrevIsSubtraction | framebuffer.h:78-82 | one backward step gives (f - 1) % size |
| Tiles.OnionRoundTrip | framebuffer.h:78-88 | from a cursor in [0, size), k backward steps then k forward steps restore it |
| Tiles.FrameBuffer.constructor | framebuffer.h:29-37 | the cursor starts at 0, and the surfaces created number ceil(total / (framesx * framesy)) (none for a negative count), all fresh |
| Tiles.FrameBuffer.AddNewFrame | framebuffer.h:45-47 | one fresh surface of (dimx*framesx) x (dimy*framesy) pixels is appended; the cursor and the existing surfaces are unchanged |
| Tiles.FrameBuffer.GetCurrentFrame | framebuffer.h:49-51 | the cursor, which is never negative |
| Tiles.FrameBuffer.GetPixel | framebuffer.h:53-60 | the pixel is found exactly when its position, shifted by the tile's corner, lies on the whole surface; its bytes lie in that surface's array |
| Tiles.FrameBuffer.TilePixelsAvailable | framebuffer.h:53-60 | every pixel of the frame-sized tile is available |
| Tiles.FrameBuffer.CurrentSink | framebuffer.h:53-60 | the current frame's sink is its surface shifted by its tile's corner, the tile lies inside the surface, and every pixel lookup agrees with `getPixel` |
| Tiles.FrameBuffer.UpdateActive | framebuffer.h:62-65 | the surface that holds the current frame is uploaded |
| Tiles.FrameBuffer.RenderActive | framebuffer.h:67-76 | the source rectangle is exactly the current frame's tile, and it lies inside its surface |
| Tiles.FrameBuffer.PrevFrame | framebuffer.h:78-82 | the cursor becomes `Prev` of the old cursor, and nothing else changes |
| Tiles.FrameBuffer.NextFrame | framebuffer.h:84-88 | the cursor becomes `Next` of the old cursor, and nothing else changes |
| Brushes.Interpolate | brush.h:56-58 | gives x at a = 1 and y at a = 0 |
| Brushes.InterpolateBetween | app.h:29-31 | for a in [0, 1] the interpolated value lies between the two ends |
| Brushes.FillByte | brush.h:115 | the fill byte is 255 for weight 1 (pencil) and 0 for weight 0 (eraser) |
| Brushes.ShortSegmentIsPoint | brush.h:68 | between integer positions, a segment shorter than 1e-3 is one whose ends coincide |
| Brushes.Mid | brush.h:129-130 | the truncating midpoint of non-negative ends lies between them, and below the upper end when they differ |
| Brushes.Quadrant | brush.h:131-134 | the four recursive calls' cells, in the source's order; for a cell with non-negative bounds each lies inside it |
| Brushes.QuadrantsPartition | brush.h:129-134 | with non-negative bounds, each pixel of a cell that is neither empty nor a pixel lies in exactly one quadrant, and the quadrants hold no other pixel |
| Brushes.NegativeCellDoesNotShrink | brush.h:129-131 | with the negative corner [-1, 0] the first quadrant equals the cell, so the recursion would not shrink it |
| Brushes.QuadrantShrinks | brush.h:123-134 | a cell that is split has quadrants that fit the sink, lie inside it and are strictly smaller |
| Brushes.FillRows | brush.h:105-117 | the bytes after the row fill up to a row: as many as before; none changed before the first row; each byte kept or set to the fill byte |
| Brushes.FillRowStep | brush.h:113-116 | when row y is available, the `memset` stays inside the array and fills exactly the cell's columns of that row |
| Brushes.FillRowBounds | brush.h:113-116 | the columns mnx..mxx of an available row lie inside the surface's array |
| Brushes.FillRowByte | brush.h:113-116 | byte by byte, the `memset` of row y turns the fill of rows mny..y-1 into that of rows mny..y |
| Brushes.SkipRowStep | brush.h:113-114 | an unavailable row holds no byte of the surface, so skipping it fills it |
| Brushes.Paint | brush.h:102-135 | the bytes the subdivision fill leaves: as many as before, each either kept or set to the fill byte |
| Brushes.PaintStaysInCell | brush.h:102-135 | the fill changes a byte only inside the starting cell, and only to the fill byte |
| Brushes.PaintShortCuts | brush.h:103-128 | a cell with all corners inside gets the fill byte in exactly its bytes; past depth 1 an all-outside cell, an empty cell, or a single pixel that is not all-inside changes nothing |
| Brushes.PaintSplit | brush.h:129-134 | any other cell is filled quadrant by quadrant, in order, each fill starting from the bytes the previous one left |
| Brushes.FillCell | brush.h:104-118 | the row loop leaves the array equal to `FillRows` of the old array over rows mny..mxy |
| Brushes.Warnock | brush.h:102-135 | the recursion leaves the array equal to `Paint` of the old array |
| Brushes.Skips | brush.h:68-71 | a segment from a sample without pressure, or of no length (a repeated sample), draws nothing |
| Brushes.DrawStep | brush.h:62-143 | the effect of one `draw` call: the byte count is kept, and each byte is kept or set to the fill byte |
| Brushes.DrawPaths | brush.h:62-143 | an unavailable pixel changes nothing; a skipped segment (previous pressure below 10, or the same position) writes no byte; every call past the bounds check ends with `res` as the last sample; bytes change only to the fill byte and only inside the segment's box |
| Brushes.Brush.constructor | brush.h:52-54 | a brush of the given weight with the given last sample |
| Brushes.Brush.Draw | brush.h:61-144 | the last sample and the bytes become those of `DrawStep` |
| Editor.TruncReal | app.h:162-164 | float to int conversion truncates toward zero |
| Editor.TruncRealOfInt | app.h:162-163 | converting a whole number back gives it unchanged |
| Editor.Scale | app.h:154-155 | a raw coordinate times dim / 2^24, truncated; on an axis as long as the tablet's range each coordinate maps to itself |
| Editor.ScaleRange | app.h:154-155 | a raw coordinate in [0, 2^24) lands on a pixel of an axis of dim > 0 pixels |
| Editor.Scaled | app.h:154-155 | the sample scaled to the screen keeps its pressure, and a sample in the tablet's range lands on the screen |
| Editor.StepSample | app.h:160-166 | the interpolated sample of a step: step 0 is at the new sample's position and step STEPS at the previous one's |
| Editor.PositionEnds | app.h:161-162 | an interpolated, truncated coordinate is the new one at weight 0 and the previous one at weight 1 |
| Editor.FirstCall | app.h:160-166 | the first draw call's pressure is the new sample's pressure times the length over 5 |
| Editor.LastCall | app.h:160-166 | the last draw call's pressure is the previous sample's pressure times the length over 5 |
| Editor.DrawCalls | app.h:160-167 | one sample makes STEPS + 1 draw calls |
| Editor.DrawCallsEndpoints | app.h:158-166 | the two draw calls are at the new sample's position first and the previous sample's second, each with its own pressure times the length over 5 |
| Editor.StationaryPenHasNoPressure | app.h:157-164 | a pen that did not move hands the brush samples of pressure 0 |
| Editor.Consumed | app.h:151 | only tablet motion is taken as a sample, and nothing is taken when the tablet is closed or the GUI wants the mouse |
| Editor.Pending | app.h:171-178 | the events put back, in the order `XPutBackEvent` is called: no more than the queue held, each an event of the queue that was not consumed |
| Editor.Accepted | app.h:148-170 | the samples taken, scaled, in queue order: no more than the queue held, and none when samples are not accepted |
| Editor.QueueStep | app.h:148-173 | taking one more event extends the samples taken by its scaled sample when it is consumed, and the events put back by the event itself otherwise |
| Editor.QueueSplit | app.h:148-178 | each X event is either taken as a sample or put back; none is taken when the tablet is closed or the GUI wants the mouse; no tablet motion is put back otherwise |
| Editor.Strokes | app.h:160-167 | a sequence of `draw` calls keeps the byte count, and leaves the brush's last sample as it was or at one of the calls |
| Editor.OnSample | app.h:159-170 | one accepted sample: it becomes `_last` either way; after a sample without pressure nothing is drawn and `dirty` is unchanged; after one with pressure `dirty` is set |
| Editor.OnSamples | app.h:148-174 | a run of samples keeps the byte count; a run that leaves a clean surface clean changed neither the brush's last sample nor any byte |
| Editor.SamplesStep | app.h:148-170 | one more accepted sample extends a run of samples by one `OnSample` |
| Editor.SamplesKeepLast | app.h:159-170 | after a run of samples the last one is remembered, and `dirty` once set stays set |
| Editor.StrokesWriteOnly | app.h:160-167 | a brush's draw calls leave each byte as it was or set it to the fill byte |
| Editor.SamplesWriteOnly | app.h:159-170 | pen samples leave each byte as it was or set it to the fill byte: the pencil writes only 255, the eraser only 0 |
| Editor.OnEvent | app.h:189-203 | the key switch on the controls: the cursor stays non-negative (one event's other invariants are in `EventKeepsControlsValid`) |
| Editor.OnEvents | app.h:186-204 | the cursor stays non-negative however many events are handled |
| Editor.IgnoredEvents | app.h:189-203 | an unbound key or another event type changes no control |
| Editor.ToggleTwice | app.h:193-199 | space, '[', ']' and 'b' pressed twice restore the controls |
| Editor.StepBackAndForth | app.h:194-195 | ',' then '.' (and '.' then ',') return the cursor to its frame |
| Editor.EventKeepsControlsValid | app.h:189-203 | one event keeps `done` once set, the cursor on an existing surface, and the tool among pencil and eraser |
| Editor.ControlsStayValid | app.h:186-204 | the same holds over any sequence of events |
| Editor.OnionTint | app.h:228-246 | the nearest onion frame has tint 255, the next 63, and every farther one is dimmer than the nearest |
| Editor.ControlsAfter | app.h:136-204 | with neither pencil nor eraser active no SDL event is read and no control changes; in every case a cursor on an existing surface stays on one and quitting is never undone |
| Editor.PrevLayers | app.h:227-238 | the first n onion frames before the cursor, nearest first: n layers, the j-th at the cursor moved back j + 1 frames |
| Editor.NextLayers | app.h:239-250 | the first n onion frames after the cursor, nearest first: n layers, the j-th at the cursor moved forward j + 1 frames |
| Editor.Composite | app.h:225-251 | the picture starts with the background and ends with the current frame drawn plain, with two onion layers for each skin that is on |
| Editor.OnionFrames | app.h:227-250 | with both skins on and coloured, the onion frames are the cursor -1, -2 (red 255, 63) and +1, +2 (green 255, 63) modulo the size, none of them the current frame |
| Editor.PrevAfterNext | app.h:239-250 | k forward steps followed by k backward steps restore the cursor |
| Editor.App.constructor | app.h:51-124 | a valid editor: 240 frame-sized surfaces plus the background, cursor 0, not playing, not done, onion skins off with colours on, pencil active, frame rate and count 12, `_last` = {0, 0, 0}, max rate max(60, refresh rate) |
| Editor.App.HandleEvent | app.h:189-203 | the controls become `OnEvent` of the old ones; the frame store stays valid |
| Editor.App.TakeSamples | app.h:145-178 | the pen state becomes `OnSamples` of the accepted, scaled samples, and the events put back are `Pending` |
| Editor.App.TakeSample | app.h:159-170 | one accepted sample changes the pen state as `OnSample` says: the interpolated draw calls and `dirty` only after a sample with pressure, and the sample becomes `_last` |
| Editor.App.HandleEvents | app.h:180-205 | the controls become `OnEvents` of the old ones |
| Editor.App.ProcessWith | app.h:143-207 | samples then SDL events: the pen state as `OnSamples`, the events put back as `Pending`, the controls as `OnEvents` |
| Editor.App.ProcessOn | app.h:135-141 | the pencil for tool 0 and the eraser for tool 1, the other brush unchanged; any other tool reads no event and changes nothing |
| Editor.App.ProcessEvents | app.h:127-133 | with a pencil or eraser active, that brush's pen state on the background (when it is active) or on the current frame's tile becomes `OnSamples` of the accepted samples, and the other brush is untouched; and the controls become `OnEvents` of the old ones; with neither, no X event is taken, no brush, byte, `_last` or `dirty` changes, and no control changes either |
| Editor.App.Render | app.h:209-256 | `dirty` is cleared after uploading only the active surface (nothing when it was clear); the layers drawn are `Composite`; the cursor ends where it started |
| Editor.App.DrawPrevOnion | app.h:227-238 | draws the onion frames before the cursor and restores the cursor |
| Editor.App.DrawNextOnion | app.h:239-250 | draws the onion frames after the cursor and restores the cursor |
| Editor.App.Tick | app.h:304-320 | one pass of `run`: the pen state, the events put back and the untouched brush as `ProcessEvents` states them; the controls after the events, with the cursor advanced by one frame when playing; the upload `Render` makes on the `dirty` the samples left, which is then cleared; the picture composed at the cursor the events left |

## Left out

- SDL, OpenGL, ImGui and X11 are left out. This covers window and context
  setup and teardown, texture creation, `Buffer::render` and
  `SDL_RenderCopy`, the GUI of `renderGUI`, and frame pacing with
  `sleep_for`.
  - The model replaces each upload or draw with a value that says what was
    uploaded (`Upload`) or drawn (`Layer`).
  - The X queue is a sequence of events. The `pending` result lists the
    events put back in the order `XPutBackEvent` is called. Each call pushes
    onto the head of the queue, so the queue ends up holding them in reverse
    order. The queue after the put-back is not modelled.
  - The SDL queue is the sequence of events handled in one pass.
  - Blocking in `SDL_WaitEvent` and ImGui's share of each event are not
    modelled.
- The GUI widgets also change state: `frame_rate`, `frame_cnt`, the cursor,
  `playing`, the onion flags `onion_prev`, `onion_next` and `onion_colors`,
  `background_active`, the tool and `done`. They are not modelled, so
  `frameRate` and `frameCnt` only keep their initial values.
- tablet.h is not modelled beyond `TabletEvent`: listing, opening and parsing
  the device are X11 I/O. A tablet motion event arrives already parsed. The
  Boolean `accept` stands for "a tablet is open and the GUI does not want the
  mouse".
- main.cpp is not part of this model. It is a standalone prototype that
  `App` never reaches.
- The floating-point geometry is a parameter, `Geometry`.
  - `shaper` gives a segment's pixel box and in-stroke test. It stands for
    `Vec`, the corner and box computation, and the `inside` lambda
    (brush.h:73-100, 136-141).
  - `norm` gives a movement's length.
  - The model assumes only what `Lengths` states: the length is never
    negative, and it is zero for a movement of length zero.
  - Because the geometry is a parameter, brush.h:80 (where `c2` is built
    from `p` rather than `c`) has no effect in the model.
- Integer width is not modelled: every C++ `int` and `size_t` is an
  unbounded Dafny `int`. At screen sizes no product overflows: neither
  `4 * dimx * dimy` (buffer.h:19) nor `4 * (x + dimx * y)` (buffer.h:37). The
  mix of `int` and `size_t` in framebuffer.h:78-88 is not modelled either.
  The float-to-`int` conversions of app.h:154-165 are undefined out of range.
  The model truncates any real.
- Floating-point rounding is not modelled. Scaling, interpolation and the
  pressure formula are exact real arithmetic followed by C++ truncation to
  int.
- The source does not compile as shown: framebuffer.h and app.h disagree on
  the frame store's interface. The model follows framebuffer.h.
  - app.h calls `prevFrame(frame_cnt)`, `nextFrame(frame_cnt)`,
    `renderActive(r, g, b)` and `getFrameCapacity()`. framebuffer.h declares
    none of these.
  - The model's cursor steps wrap over the number of surfaces.
  - The tint app.h asks for is recorded in each `Layer`.
- Brushes.Warnock: requires `Fits`, meaning non-negative corners and a
  column range that ends inside a surface row, which the source does not
  check. It has two reasons.
  - With a negative corner, the truncating midpoint can return the cell
    itself, so the recursion need not terminate (`NegativeCellDoesNotShrink`).
  - The row fill checks only the row and then runs `memset` over the columns
    unchecked. Columns past the row's end would write into the next row or
    beyond the array.
- Brushes.FillCell: requires `Fits`, for the unchecked `memset` described
  above.
- Brushes.Brush.Draw: requires that the segment's box fits the target, for
  the same reasons.
- Editor.App.ProcessEvents: requires `ShapesFit` (every segment's box fits
  the target), for the same reasons. Editor.App.ProcessOn,
  Editor.App.ProcessWith, Editor.App.TakeSamples and Editor.App.Tick require
  it too.
- Surface.Buffer.GetPixel: the source throws `std::range_error` for a pixel
  off the surface. The model returns `None`. `draw` then takes its
  "no pixel" path (brush.h:65), and the row fill's `getPixel(0, y)`
  (brush.h:113-114) skips a row off the surface (`SkipRowStep`). In C++ either
  exception would leave `draw` and `processEvents` uncaught.
- Brushes.Brush.constructor: the brush's last sample is never initialised in
  the source, so it is a parameter here.
- The new pixel array's contents are unspecified, as in the source.
- The frame store's `_renderer` is not modelled. Neither is the App
  constructor's read of the display size and refresh rate: these are
  parameters.
- `run` is modelled one pass at a time (`Tick`). Its `while (!done)` loop,
  and the clock reads around it, are not modelled.
- Editor.Lengths: states less than "the Euclidean length". It does not say
  that the squared length equals the squared distance: proofs about the
  product of two reals were not needed by any property here.

## Findings

| source | as written | input that shows it | evidently intended | confidence | as-written member | corrected member |
|---|---|---|---|---|---|---|
| brush.h:129-134 | the midpoint `(mnx + mxx) / 2` truncates toward zero, and the box's corners may be negative near the top or left edge | the cell of columns -1..0 in row 0, whose corners are neither all inside nor, at depth 0 or 1, all outside: its first quadrant is the cell itself, so the recursion never shrinks it | every split recurses on strictly smaller cells, and the fill stays inside the surface, which holds once the box is clipped to the surface (`Fits`) | not executed | Brushes.NegativeCellDoesNotShrink | Brushes.QuadrantShrinks |
