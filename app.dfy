/** The editor loop (`App`): pen samples from the tablet are scaled to the
    screen and handed to the active brush on the active surface, key presses
    change the editor's controls, and every pass composes the picture from
    the background, the onion-skin frames and the frame being edited. */
module Editor {
  import opened Base
  import opened Surface
  import opened Tiles
  import opened Brushes
  import opened Tablet

  /** The frame store's grid: one frame per surface, 240 surfaces. */
  const FRAMESX := 1
  const FRAMESY := 1
  const FRAMEST := 240
  const FRAMESTOTAL := FRAMESX * FRAMESY * FRAMEST

  /** The two tools. */
  const PENCIL := 0
  const ERASER := 1

  /** The number of pieces a pen movement is split into. */
  const STEPS := 1

  /** The full scale of the tablet's raw coordinates, 2^24. */
  const TABLET_RANGE := 16777216

  /** The key codes the editor reacts to (SDL key codes of these keys are
      their ASCII codes). */
  const KEY_SPACE := 32
  const KEY_COMMA := 44
  const KEY_PERIOD := 46
  const KEY_OPEN_BRACKET := 91
  const KEY_CLOSE_BRACKET := 93
  const KEY_B := 98
  const KEY_E := 101
  const KEY_P := 112
  const KEY_Q := 113

  /** C++ conversion of a floating-point value to `int`: truncation toward
      zero. */
  function TruncReal(r: real): (n: int)
    ensures r >= 0.0 ==> n as real <= r < n as real + 1.0
    ensures r < 0.0 ==> n as real - 1.0 < r <= n as real
  {
    if r >= 0.0 then r.Floor else -((-r).Floor)
  }

  /** Converting a whole number gives it back. */
  lemma TruncRealOfInt(n: int)
    ensures TruncReal(n as real) == n
  {
  }

  /** A raw tablet coordinate mapped onto a screen axis of `dim` pixels:
      `raw * (dim / 2^24)`, truncated to int. */
  function Scale(raw: int, dim: int): (n: int)
    ensures dim == TABLET_RANGE ==> n == raw
  {
    TruncRealOfInt(raw);
    TruncReal(raw as real * (dim as real / TABLET_RANGE as real))
  }

  /** A raw coordinate in the tablet's range lands on a pixel of the axis. */
  lemma ScaleRange(raw: int, dim: int)
    ensures 0 <= raw < TABLET_RANGE && dim > 0 ==> 0 <= Scale(raw, dim) < dim
  {
    if !(0 <= raw < TABLET_RANGE && dim > 0) {
      return;
    }
    var p := raw * dim;
    if raw > 0 {
      MulAtLeast(raw, dim);
    }
    MulAtLeast(TABLET_RANGE - raw, dim);
    assert TABLET_RANGE * dim == p + (TABLET_RANGE - raw) * dim;
    assert 0 <= p < TABLET_RANGE * dim;
    var r := raw as real * (dim as real / TABLET_RANGE as real);
    assert r == p as real / TABLET_RANGE as real;
    assert 0.0 <= r < dim as real;
  }

  /** The raw sample scaled to screen pixels, pressure kept; a sample in the
      tablet's range lands on the screen. */
  function Scaled(raw: TabletEvent, dimx: int, dimy: int): (r: TabletEvent)
    ensures r.pressure == raw.pressure
    ensures 0 <= raw.x < TABLET_RANGE && dimx > 0 ==> 0 <= r.x < dimx
    ensures 0 <= raw.y < TABLET_RANGE && dimy > 0 ==> 0 <= r.y < dimy
  {
    ScaleRange(raw.x, dimx);
    ScaleRange(raw.y, dimy);
    TabletEvent(Scale(raw.x, dimx), Scale(raw.y, dimy), raw.pressure)
  }

  /** The sample handed to the brush at `step` of the movement from `last` to
      `res`: position and pressure interpolated with weight step/STEPS on
      `last`, the pressure multiplied by the movement's length `norm` and
      divided by STEPS and by 5, each value truncated to int. Step 0 puts no
      weight on `last` and step STEPS all of it, so the two ends are at the
      samples' own positions. */
  function StepSample(last: TabletEvent, res: TabletEvent, step: int, norm: real): (r: TabletEvent)
    ensures step == 0 ==> r.x == res.x && r.y == res.y
    ensures step == STEPS ==> r.x == last.x && r.y == last.y
  {
    var a := step as real / STEPS as real;
    PositionEnds(last.x, res.x, a);
    PositionEnds(last.y, res.y, a);
    TabletEvent(
      TruncReal(Interpolate(last.x as real, res.x as real, a)),
      TruncReal(Interpolate(last.y as real, res.y as real, a)),
      TruncReal(Interpolate(last.pressure as real, res.pressure as real, a) * norm / STEPS as real / 5.0))
  }

  /** An interpolated coordinate is the new one at weight 0 and the previous
      one at weight 1. */
  lemma PositionEnds(u: int, w: int, a: real)
    ensures a == 0.0 ==> TruncReal(Interpolate(u as real, w as real, a)) == w
    ensures a == 1.0 ==> TruncReal(Interpolate(u as real, w as real, a)) == u
  {
    TruncRealOfInt(u);
    TruncRealOfInt(w);
  }

  /** The samples handed to the brush for one pen sample, in order. */
  function DrawCalls(last: TabletEvent, res: TabletEvent, norm: real): (calls: seq<TabletEvent>)
    ensures |calls| == STEPS + 1
  {
    seq(STEPS + 1, step => StepSample(last, res, step, norm))
  }

  /** With one step, the brush first gets the new sample's position and then
      the previous sample's: weight 0 on `last` comes first. Each pressure
      is the sample's own pressure times the length over 5. */
  lemma DrawCallsEndpoints(last: TabletEvent, res: TabletEvent, norm: real)
    ensures DrawCalls(last, res, norm) ==
      [TabletEvent(res.x, res.y, TruncReal(res.pressure as real * norm / 5.0)),
       TabletEvent(last.x, last.y, TruncReal(last.pressure as real * norm / 5.0))]
  {
    FirstCall(last, res, norm);
    LastCall(last, res, norm);
  }

  /** The first draw call carries the new sample's pressure times the
      length over 5. */
  lemma FirstCall(last: TabletEvent, res: TabletEvent, norm: real)
    ensures StepSample(last, res, 0, norm).pressure == TruncReal(res.pressure as real * norm / 5.0)
  {
    var a := 0 as real / STEPS as real;
    assert a == 0.0;
    var p := Interpolate(last.pressure as real, res.pressure as real, a);
    assert p == res.pressure as real;
    assert p * norm / STEPS as real == p * norm;
    assert p * norm / STEPS as real / 5.0 == res.pressure as real * norm / 5.0;
    assert StepSample(last, res, 0, norm).pressure == TruncReal(p * norm / STEPS as real / 5.0);
  }

  /** The last draw call carries the previous sample's pressure times the
      length over 5. */
  lemma LastCall(last: TabletEvent, res: TabletEvent, norm: real)
    ensures StepSample(last, res, STEPS, norm).pressure == TruncReal(last.pressure as real * norm / 5.0)
  {
    var a := STEPS as real / STEPS as real;
    assert a == 1.0;
    var p := Interpolate(last.pressure as real, res.pressure as real, a);
    assert p == last.pressure as real;
    assert p * norm / STEPS as real == p * norm;
    assert p * norm / STEPS as real / 5.0 == last.pressure as real * norm / 5.0;
    assert StepSample(last, res, STEPS, norm).pressure == TruncReal(p * norm / STEPS as real / 5.0);
  }

  /** The squared distance between the positions of two samples. */
  function SqDist(a: TabletEvent, b: TabletEvent): int
  {
    (a.x - b.x) * (a.x - b.x) + (a.y - b.y) * (a.y - b.y)
  }

  /** The floating-point geometry the editor relies on: the length of a
      movement between two samples, and the stroke shape of the segment
      between them. */
  datatype Geometry = Geometry(norm: (TabletEvent, TabletEvent) -> real, shaper: Shaper)

  /** What the model uses of `norm`, the Euclidean length of a movement:
      it is never negative, and it is zero for a movement of length zero. */
  ghost predicate Lengths(geo: Geometry)
  {
    forall a, b :: geo.norm(a, b) >= 0.0 && (SqDist(a, b) == 0 ==> geo.norm(a, b) == 0.0)
  }

  /** A pen that did not move hands the brush samples of pressure 0. */
  lemma StationaryPenHasNoPressure(geo: Geometry, last: TabletEvent, res: TabletEvent)
    requires Lengths(geo) && last.x == res.x && last.y == res.y
    ensures forall call | call in DrawCalls(last, res, geo.norm(last, res)) :: call.pressure == 0
  {
    assert SqDist(last, res) == 0;
    assert geo.norm(last, res) == 0.0;
    DrawCallsEndpoints(last, res, 0.0);
    assert res.pressure as real * 0.0 / 5.0 == 0.0 && last.pressure as real * 0.0 / 5.0 == 0.0;
    TruncRealOfInt(0);
  }

  /** An X event: a motion event of the tablet, carrying a raw sample, or
      anything else. */
  datatype XEvent = Motion(raw: TabletEvent) | OtherXEvent(kind: int)

  /** The editor consumes an event as a pen sample when it is a tablet
      motion event and `accept` holds (a tablet is open and the GUI does not
      want the mouse). */
  predicate Consumed(e: XEvent, accept: bool)
    ensures Consumed(e, accept) ==> e.Motion?
    ensures !accept ==> !Consumed(e, accept)
  {
    accept && e.Motion?
  }

  /** The events put back on the X queue, in the order they are put back:
      every event of the queue that is not consumed. Each is pushed onto the
      head of the queue, so the queue ends up holding them in reverse. */
  function Pending(xs: seq<XEvent>, accept: bool): (r: seq<XEvent>)
    ensures |r| <= |xs|
    ensures forall e | e in r :: e in xs && !Consumed(e, accept)
  {
    if |xs| == 0 then []
    else Pending(xs[..|xs| - 1], accept) + (if Consumed(xs[|xs| - 1], accept) then [] else [xs[|xs| - 1]])
  }

  /** The pen samples taken from the X queue, scaled to the screen, in
      order. */
  function Accepted(xs: seq<XEvent>, accept: bool, dimx: int, dimy: int): (r: seq<TabletEvent>)
    ensures |r| <= |xs|
    ensures !accept ==> r == []
  {
    if |xs| == 0 then []
    else
      Accepted(xs[..|xs| - 1], accept, dimx, dimy) +
      (if Consumed(xs[|xs| - 1], accept) then [Scaled(xs[|xs| - 1].raw, dimx, dimy)] else [])
  }

  /** Every event is either taken as a sample or put back; nothing is taken
      when samples are not accepted, and no tablet motion is put back when
      they are. */
  lemma {:induction false} QueueSplit(xs: seq<XEvent>, accept: bool, dimx: int, dimy: int)
    ensures |Pending(xs, accept)| + |Accepted(xs, accept, dimx, dimy)| == |xs|
    ensures !accept ==> Pending(xs, accept) == xs && Accepted(xs, accept, dimx, dimy) == []
    ensures accept ==> forall e | e in Pending(xs, accept) :: !e.Motion?
  {
    if |xs| > 0 {
      QueueSplit(xs[..|xs| - 1], accept, dimx, dimy);
      assert xs[..|xs| - 1] + [xs[|xs| - 1]] == xs;
    }
  }

  /** Taking one more event of the queue extends the samples taken or the
      events put back by that event. */
  lemma QueueStep(xs: seq<XEvent>, i: int, accept: bool, dimx: int, dimy: int)
    requires 0 <= i < |xs|
    ensures Consumed(xs[i], accept) ==>
              Accepted(xs[..i + 1], accept, dimx, dimy) ==
                Accepted(xs[..i], accept, dimx, dimy) + [Scaled(xs[i].raw, dimx, dimy)] &&
              Pending(xs[..i + 1], accept) == Pending(xs[..i], accept)
    ensures !Consumed(xs[i], accept) ==>
              Accepted(xs[..i + 1], accept, dimx, dimy) == Accepted(xs[..i], accept, dimx, dimy) &&
              Pending(xs[..i + 1], accept) == Pending(xs[..i], accept) + [xs[i]]
  {
    assert xs[..i + 1][..i] == xs[..i];
  }

  /** The effect of handing the samples `calls` to a brush, one `draw` call
      after the other. */
  ghost function Strokes(st: Stroke, calls: seq<TabletEvent>, s: Sink, shaper: Shaper, v: Byte): (r: Stroke)
    requires s.Valid() && |st.pixels| == s.surface.pixels.Length && ShapesFit(s, shaper)
    ensures |r.pixels| == |st.pixels|
    ensures r.lastPos == st.lastPos || r.lastPos in calls
  {
    if |calls| == 0 then st
    else DrawStep(Strokes(st, calls[..|calls| - 1], s, shaper, v), s, calls[|calls| - 1], shaper, v)
  }

  /** The editor's pen state: its last sample, the brush's stroke on the
      active surface, and whether that surface has changed since it was last
      published. */
  datatype Pen = Pen(last: TabletEvent, stroke: Stroke, dirty: bool)

  /** One accepted pen sample: when the previous sample had pressure, the
      movement is drawn and the surface marked changed; in any case the
      sample becomes the last one. */
  ghost function OnSample(pen: Pen, res: TabletEvent, s: Sink, geo: Geometry, v: Byte): (r: Pen)
    requires s.Valid() && |pen.stroke.pixels| == s.surface.pixels.Length && ShapesFit(s, geo.shaper)
    ensures |r.stroke.pixels| == |pen.stroke.pixels|
    ensures r.last == res
    ensures pen.last.pressure <= 0 ==> r.stroke == pen.stroke && r.dirty == pen.dirty
    ensures pen.last.pressure > 0 ==> r.dirty
  {
    if pen.last.pressure > 0 then
      Pen(res, Strokes(pen.stroke, DrawCalls(pen.last, res, geo.norm(pen.last, res)), s, geo.shaper, v), true)
    else
      pen.(last := res)
  }

  /** A run of accepted pen samples, in order. A run that leaves a clean
      surface clean has changed neither the brush nor a byte, so there is
      nothing to upload. */
  ghost function OnSamples(pen: Pen, samples: seq<TabletEvent>, s: Sink, geo: Geometry, v: Byte): (r: Pen)
    requires s.Valid() && |pen.stroke.pixels| == s.surface.pixels.Length && ShapesFit(s, geo.shaper)
    ensures |r.stroke.pixels| == |pen.stroke.pixels|
    ensures !pen.dirty && !r.dirty ==> r.stroke == pen.stroke
  {
    if |samples| == 0 then pen
    else OnSample(OnSamples(pen, samples[..|samples| - 1], s, geo, v), samples[|samples| - 1], s, geo, v)
  }

  /** One more sample extends a run of samples by one `OnSample`. */
  lemma SamplesStep(pen: Pen, samples: seq<TabletEvent>, res: TabletEvent, s: Sink, geo: Geometry, v: Byte)
    requires s.Valid() && |pen.stroke.pixels| == s.surface.pixels.Length && ShapesFit(s, geo.shaper)
    ensures OnSamples(pen, samples + [res], s, geo, v) == OnSample(OnSamples(pen, samples, s, geo, v), res, s, geo, v)
  {
    assert (samples + [res])[..|samples|] == samples;
  }

  /** After a run of samples the last one is remembered, and a changed
      surface stays marked changed. */
  lemma {:induction false} SamplesKeepLast(pen: Pen, samples: seq<TabletEvent>, s: Sink, geo: Geometry, v: Byte)
    requires s.Valid() && |pen.stroke.pixels| == s.surface.pixels.Length && ShapesFit(s, geo.shaper)
    ensures |samples| > 0 ==> OnSamples(pen, samples, s, geo, v).last == samples[|samples| - 1]
    ensures pen.dirty ==> OnSamples(pen, samples, s, geo, v).dirty
  {
    if |samples| > 0 {
      SamplesKeepLast(pen, samples[..|samples| - 1], s, geo, v);
    }
  }

  /** A brush's `draw` calls leave every byte as it was or set it to the
      brush's fill byte. */
  lemma {:induction false} StrokesWriteOnly(st: Stroke, calls: seq<TabletEvent>, s: Sink, shaper: Shaper, v: Byte, i: int)
    requires s.Valid() && |st.pixels| == s.surface.pixels.Length && ShapesFit(s, shaper)
    requires 0 <= i < |st.pixels|
    ensures var r := Strokes(st, calls, s, shaper, v).pixels; r[i] == st.pixels[i] || r[i] == v
  {
    if |calls| > 0 {
      var before := Strokes(st, calls[..|calls| - 1], s, shaper, v);
      StrokesWriteOnly(st, calls[..|calls| - 1], s, shaper, v, i);
      DrawPaths(before, s, calls[|calls| - 1], shaper, v, i);
    }
  }

  /** Pen samples leave every byte as it was or set it to the brush's fill
      byte: the pencil only ever writes 255, the eraser only 0. */
  lemma {:induction false} SamplesWriteOnly(pen: Pen, samples: seq<TabletEvent>, s: Sink, geo: Geometry, v: Byte, i: int)
    requires s.Valid() && |pen.stroke.pixels| == s.surface.pixels.Length && ShapesFit(s, geo.shaper)
    requires 0 <= i < |pen.stroke.pixels|
    ensures var r := OnSamples(pen, samples, s, geo, v).stroke.pixels;
            r[i] == pen.stroke.pixels[i] || r[i] == v
  {
    if |samples| > 0 {
      var before := OnSamples(pen, samples[..|samples| - 1], s, geo, v);
      SamplesWriteOnly(pen, samples[..|samples| - 1], s, geo, v, i);
      var res := samples[|samples| - 1];
      if before.last.pressure > 0 {
        StrokesWriteOnly(before.stroke, DrawCalls(before.last, res, geo.norm(before.last, res)), s, geo.shaper, v, i);
      }
    }
  }

  /** An SDL event: the window's quit request, a key press, or anything
      else. */
  datatype SdlEvent = QuitEvent | KeyDown(sym: int) | OtherSdlEvent

  /** The editor's controls that events change, with the frame cursor. */
  datatype Controls = Controls(
    done: bool, playing: bool, onionPrev: bool, onionNext: bool,
    backgroundActive: bool, activeTool: int, frame: int)

  /** One SDL event applied to the controls, on a store of `size` surfaces:
      quit and `q` end the editor; space toggles playback; `,` and `.` step
      the cursor back and forth; `[` and `]` toggle the onion skins; `b`
      toggles drawing on the background; `p` and `e` pick the pencil and
      the eraser. */
  function OnEvent(c: Controls, e: SdlEvent, size: int): (r: Controls)
    requires c.frame >= 0 && size >= 0
    ensures r.frame >= 0
  {
    match e
    case QuitEvent => c.(done := true)
    case OtherSdlEvent => c
    case KeyDown(sym) =>
      if sym == KEY_SPACE then c.(playing := !c.playing)
      else if sym == KEY_COMMA then c.(frame := Prev(c.frame, size))
      else if sym == KEY_PERIOD then c.(frame := Next(c.frame, size))
      else if sym == KEY_Q then c.(done := true)
      else if sym == KEY_OPEN_BRACKET then c.(onionPrev := !c.onionPrev)
      else if sym == KEY_CLOSE_BRACKET then c.(onionNext := !c.onionNext)
      else if sym == KEY_B then c.(backgroundActive := !c.backgroundActive)
      else if sym == KEY_P then c.(activeTool := PENCIL)
      else if sym == KEY_E then c.(activeTool := ERASER)
      else c
  }

  /** SDL events applied in order. */
  function OnEvents(c: Controls, es: seq<SdlEvent>, size: int): (r: Controls)
    requires c.frame >= 0 && size >= 0
    ensures r.frame >= 0
  {
    if |es| == 0 then c else OnEvent(OnEvents(c, es[..|es| - 1], size), es[|es| - 1], size)
  }

  /** The keys the editor reacts to. */
  predicate Bound(sym: int)
  {
    sym in {KEY_SPACE, KEY_COMMA, KEY_PERIOD, KEY_Q, KEY_OPEN_BRACKET, KEY_CLOSE_BRACKET, KEY_B, KEY_P, KEY_E}
  }

  /** Events other than quit and bound keys change nothing. */
  lemma IgnoredEvents(c: Controls, sym: int, size: int)
    requires c.frame >= 0 && size >= 0
    ensures !Bound(sym) ==> OnEvent(c, KeyDown(sym), size) == c
    ensures OnEvent(c, OtherSdlEvent, size) == c
  {
  }

  /** Pressing a toggle key twice restores the controls. */
  lemma ToggleTwice(c: Controls, sym: int, size: int)
    requires c.frame >= 0 && size >= 0
    requires sym in {KEY_SPACE, KEY_OPEN_BRACKET, KEY_CLOSE_BRACKET, KEY_B}
    ensures OnEvent(OnEvent(c, KeyDown(sym), size), KeyDown(sym), size) == c
  {
  }

  /** Stepping back and then forward returns to the frame the cursor was on,
      and so does stepping forward and then back. */
  lemma StepBackAndForth(c: Controls, size: int)
    requires 0 <= c.frame < size
    ensures OnEvent(OnEvent(c, KeyDown(KEY_COMMA), size), KeyDown(KEY_PERIOD), size) == c
    ensures OnEvent(OnEvent(c, KeyDown(KEY_PERIOD), size), KeyDown(KEY_COMMA), size) == c
  {
    OnionRoundTrip(c.frame, size, 1);
    NavigationRange(c.frame, size);
    var n := Next(c.frame, size);
    if c.frame == size - 1 {
      assert n == 0;
    } else {
      assert n == c.frame + 1;
    }
  }

  /** No event clears the quit flag, the cursor stays on an existing
      surface, and the active tool stays the pencil or the eraser. */
  lemma {:induction false} ControlsStayValid(c: Controls, es: seq<SdlEvent>, size: int)
    requires 0 <= c.frame < size
    ensures c.done ==> OnEvents(c, es, size).done
    ensures OnEvents(c, es, size).frame < size
    ensures c.activeTool in {PENCIL, ERASER} ==> OnEvents(c, es, size).activeTool in {PENCIL, ERASER}
  {
    if |es| > 0 {
      ControlsStayValid(c, es[..|es| - 1], size);
      EventKeepsControlsValid(OnEvents(c, es[..|es| - 1], size), es[|es| - 1], size);
    }
  }

  /** One event does not clear the quit flag, keeps the cursor on an
      existing surface and the tool the pencil or the eraser. */
  lemma EventKeepsControlsValid(c: Controls, e: SdlEvent, size: int)
    requires 0 <= c.frame < size
    ensures c.done ==> OnEvent(c, e, size).done
    ensures OnEvent(c, e, size).frame < size
    ensures c.activeTool in {PENCIL, ERASER} ==> OnEvent(c, e, size).activeTool in {PENCIL, ERASER}
  {
    NavigationRange(c.frame, size);
  }

  /** The controls after one call of `processEvents`: SDL events are only
      read when the active tool is the pencil or the eraser, so with any
      other tool no control changes. */
  function ControlsAfter(c: Controls, es: seq<SdlEvent>, size: int): (r: Controls)
    requires c.frame >= 0 && size >= 0
    ensures c.activeTool != PENCIL && c.activeTool != ERASER ==> r == c
    ensures 0 <= r.frame
    ensures c.frame < size ==> r.frame < size && (c.done ==> r.done)
  {
    if c.activeTool != PENCIL && c.activeTool != ERASER then c
    else if c.frame < size then ControlsStayValid(c, es, size); OnEvents(c, es, size)
    else OnEvents(c, es, size)
  }

  /** The colour modulation a surface is drawn with. */
  datatype Tint = Plain | Tinted(r: int, g: int, b: int)

  /** One draw onto the screen: the background surface, or the tile of a
      frame with a tint. */
  datatype Layer = BackgroundLayer | FrameLayer(frame: int, tint: Tint)

  /** The tint level of the `i`-th onion frame, counted from the nearest. */
  function OnionTint(i: int): (t: int)
    ensures i == 0 ==> t == 255
    ensures i == 1 ==> t == 63
    ensures i > 0 ==> t < 255
  {
    255 - (255 - 63) * i
  }

  /** How many onion frames a switched-on skin shows. */
  function OnionDepth(on: bool): nat
  {
    if on then 2 else 0
  }

  /** The first `n` onion frames before `frame`, nearest first, red when
      coloured. */
  function PrevLayers(frame: int, size: int, n: nat, colors: bool): (r: seq<Layer>)
    requires frame >= 0 && size >= 0
    ensures |r| == n
    ensures forall j | 0 <= j < n :: r[j].FrameLayer? && r[j].frame == PrevN(frame, size, j + 1)
  {
    if n == 0 then []
    else PrevLayers(frame, size, n - 1, colors) +
         [FrameLayer(PrevN(frame, size, n), if colors then Tinted(OnionTint(n - 1), 0, 0) else Plain)]
  }

  /** The first `n` onion frames after `frame`, nearest first, green when
      coloured. */
  function NextLayers(frame: int, size: int, n: nat, colors: bool): (r: seq<Layer>)
    requires frame >= 0 && size >= 0
    ensures |r| == n
    ensures forall j | 0 <= j < n :: r[j].FrameLayer? && r[j].frame == NextN(frame, size, j + 1)
  {
    if n == 0 then []
    else NextLayers(frame, size, n - 1, colors) +
         [FrameLayer(NextN(frame, size, n), if colors then Tinted(0, OnionTint(n - 1), 0) else Plain)]
  }

  /** The picture of one pass: the background, the onion frames before the
      cursor, those after it, and the current frame on top, drawn plain,
      with two layers for each onion skin that is on. */
  function Composite(frame: int, size: int, onionPrev: bool, onionNext: bool, colors: bool): (r: seq<Layer>)
    requires frame >= 0 && size >= 0
    ensures |r| == 2 + OnionDepth(onionPrev) + OnionDepth(onionNext)
    ensures r[0] == BackgroundLayer && r[|r| - 1] == FrameLayer(frame, Plain)
  {
    [BackgroundLayer] + PrevLayers(frame, size, OnionDepth(onionPrev), colors) +
    NextLayers(frame, size, OnionDepth(onionNext), colors) + [FrameLayer(frame, Plain)]
  }

  /** With both skins on and coloured, on a store of more than two surfaces,
      the onion frames are the two before and the two after the cursor
      (wrapping around), none of them the current frame, the nearer drawn
      at tint 255 and the farther at 63. */
  lemma OnionFrames(frame: int, size: int)
    requires 0 <= frame < size && size > 2
    ensures Composite(frame, size, true, true, true) ==
      [BackgroundLayer,
       FrameLayer((frame - 1) % size, Tinted(255, 0, 0)), FrameLayer((frame - 2) % size, Tinted(63, 0, 0)),
       FrameLayer((frame + 1) % size, Tinted(0, 255, 0)), FrameLayer((frame + 2) % size, Tinted(0, 63, 0)),
       FrameLayer(frame, Plain)]
    ensures (frame - 1) % size != frame && (frame - 2) % size != frame
    ensures (frame + 1) % size != frame && (frame + 2) % size != frame
  {
    PrevNIsSubtraction(frame, size, 1);
    PrevNIsSubtraction(frame, size, 2);
    NextNIsAddition(frame, size, 1);
    NextNIsAddition(frame, size, 2);
    assert PrevLayers(frame, size, 1, true) == [FrameLayer(PrevN(frame, size, 1), Tinted(255, 0, 0))];
    assert NextLayers(frame, size, 1, true) == [FrameLayer(NextN(frame, size, 1), Tinted(0, 255, 0))];
    assert PrevLayers(frame, size, 2, true) ==
      [FrameLayer(PrevN(frame, size, 1), Tinted(255, 0, 0)), FrameLayer(PrevN(frame, size, 2), Tinted(63, 0, 0))];
    assert NextLayers(frame, size, 2, true) ==
      [FrameLayer(NextN(frame, size, 1), Tinted(0, 255, 0)), FrameLayer(NextN(frame, size, 2), Tinted(0, 63, 0))];
    WrapDiffers(frame, size, -1);
    WrapDiffers(frame, size, -2);
    WrapDiffers(frame, size, 1);
    WrapDiffers(frame, size, 2);
  }

  /** A cursor moved by less than the store's size in either direction is
      on another surface. */
  lemma WrapDiffers(frame: int, size: int, k: int)
    requires 0 <= frame < size && 0 < k * k && -size < k < size
    ensures (frame + k) % size != frame
  {
    var t := frame + k;
    if t % size == frame {
      DivModUnique(t, size, t / size, frame);
      assert t == size * (t / size) + frame;
      if t / size >= 1 {
        MulAtLeast(t / size, size);
      }
    }
  }

  /** What a pass publishes: nothing, the background's bytes, or the bytes
      of the frame store's surface `idx`. */
  datatype Upload = NoUpload | BackgroundUpload(texture: seq<Byte>) | FrameUpload(idx: int, texture: seq<Byte>)

  /** The editor: its surfaces, its two brushes, the last pen sample and the
      controls. */
  class App {
    const dimx: int
    const dimy: int
    const maxRate: int
    const fb: FrameBuffer
    const background: Buffer
    const pencil: Brush
    const eraser: Brush

    var last: TabletEvent
    var done: bool
    var playing: bool
    var dirty: bool
    var frameRate: int
    var frameCnt: int
    var onionPrev: bool
    var onionNext: bool
    var onionColors: bool
    var backgroundActive: bool
    var activeTool: int

    /** The frame store holds one screen-sized frame per surface and its
        cursor is on an existing surface; the background is screen-sized and
        shares no pixels with the store; the pencil fills with weight 1 and
        the eraser with weight 0. */
    ghost predicate Valid()
      reads this, fb
    {
      0 <= dimx && 0 <= dimy &&
      fb.Valid() && fb.dimx == dimx && fb.dimy == dimy && fb.framesx == FRAMESX && fb.framesy == FRAMESY &&
      |fb.buffers| == FRAMESTOTAL && fb.frame < |fb.buffers| &&
      background.Valid() && background.dimx == dimx && background.dimy == dimy &&
      (forall i :: 0 <= i < |fb.buffers| ==> fb.buffers[i].pixels != background.pixels) &&
      pencil != eraser && pencil.weight == 1 && eraser.weight == 0
    }

    /** The controls as events see them. */
    function State(): Controls
      reads this, fb
    {
      Controls(done, playing, onionPrev, onionNext, backgroundActive, activeTool, fb.frame)
    }

    /** The surface samples go to: the background, or the current frame's
        tile. */
    function Target(): (s: Sink)
      reads this, fb
      requires Valid()
      ensures s.Valid()
    {
      CursorOnExistingSurface(fb.frame, |fb.buffers|, FRAMESX, FRAMESY);
      if backgroundActive then Sink(background, 0, 0) else fb.CurrentSink()
    }

    /** The brush samples go to, if the active tool is one. */
    function Tool(): Option<Brush>
      reads this
    {
      if activeTool == PENCIL then Some(pencil) else if activeTool == ERASER then Some(eraser) else None
    }

    /** The pen state of brush `b` drawing on `s`. */
    function PenOf(s: Sink, b: Brush): Pen
      reads this, b, s.surface.pixels
    {
      Pen(last, Stroke(b.lastPos, s.surface.pixels[..]), dirty)
    }

    /** A fresh editor on a `dimx` x `dimy` screen: 240 frames, the cursor on
        frame 0, nothing playing, no onion skin (coloured when shown), the pencil
        active, frame rate and frame count 12, and the last sample at the
        origin without pressure. The brushes' last samples are left
        unspecified by the source and are parameters here. */
    constructor (dimx: nat, dimy: nat, refreshRate: int, pencilStart: TabletEvent, eraserStart: TabletEvent)
      ensures Valid()
      ensures this.dimx == dimx && this.dimy == dimy
      ensures maxRate == if refreshRate > 60 then refreshRate else 60
      ensures State() == Controls(false, false, false, false, false, PENCIL, 0)
      ensures last == TabletEvent(0, 0, 0) && !dirty && onionColors && frameRate == 12 && frameCnt == 12
      ensures pencil.lastPos == pencilStart && eraser.lastPos == eraserStart
    {
      this.dimx, this.dimy := dimx, dimy;
      maxRate := if refreshRate > 60 then refreshRate else 60;
      var store := new FrameBuffer(FRAMESTOTAL, dimx, dimy, FRAMESX, FRAMESY);
      fb := store;
      background := new Buffer(dimx, dimy);
      pencil := new Brush(1, pencilStart);
      eraser := new Brush(0, eraserStart);
      last := TabletEvent(0, 0, 0);
      done, playing, dirty := false, false, false;
      frameRate, frameCnt := 12, 12;
      onionPrev, onionNext, onionColors, backgroundActive := false, false, true, false;
      activeTool := PENCIL;
    }

    /** One SDL event: changes the controls as `OnEvent` says and nothing
        else. */
    method HandleEvent(e: SdlEvent)
      requires Valid()
      modifies this`done, this`playing, this`onionPrev, this`onionNext, this`backgroundActive, this`activeTool, fb`frame
      ensures Valid()
      ensures State() == OnEvent(old(State()), e, |fb.buffers|)
    {
      match e
      case QuitEvent =>
        done := true;
      case OtherSdlEvent =>
      case KeyDown(sym) =>
        if sym == KEY_SPACE {
          playing := !playing;
        } else if sym == KEY_COMMA {
          NavigationRange(fb.frame, |fb.buffers|);
          fb.PrevFrame();
        } else if sym == KEY_PERIOD {
          NavigationRange(fb.frame, |fb.buffers|);
          fb.NextFrame();
        } else if sym == KEY_Q {
          done := true;
        } else if sym == KEY_OPEN_BRACKET {
          onionPrev := !onionPrev;
        } else if sym == KEY_CLOSE_BRACKET {
          onionNext := !onionNext;
        } else if sym == KEY_B {
          backgroundActive := !backgroundActive;
        } else if sym == KEY_P {
          activeTool := PENCIL;
        } else if sym == KEY_E {
          activeTool := ERASER;
        }
    }

    /** The pen half of `processEvents(buffer, brush)`: every tablet motion
        on the X queue is taken as a sample (when `accept`), scaled, and
        handled as `OnSample` says; every other event is put back. */
    method TakeSamples(s: Sink, brush: Brush, xs: seq<XEvent>, accept: bool, geo: Geometry) returns (pending: seq<XEvent>)
      requires s.Valid() && ShapesFit(s, geo.shaper)
      modifies this`last, this`dirty, brush`lastPos, s.surface.pixels
      ensures PenOf(s, brush) ==
              OnSamples(old(PenOf(s, brush)), Accepted(xs, accept, dimx, dimy), s, geo, FillByte(brush.weight))
      ensures pending == Pending(xs, accept)
    {
      ghost var pen0 := PenOf(s, brush);
      var v := FillByte(brush.weight);
      pending := [];
      var i := 0;
      while i < |xs|
        invariant 0 <= i <= |xs|
        invariant PenOf(s, brush) == OnSamples(pen0, Accepted(xs[..i], accept, dimx, dimy), s, geo, v)
        invariant pending == Pending(xs[..i], accept)
      {
        QueueStep(xs, i, accept, dimx, dimy);
        var event := xs[i];
        ghost var a := Accepted(xs[..i], accept, dimx, dimy);
        if accept && event.Motion? {
          assert Consumed(event, accept);
          var res := Scaled(event.raw, dimx, dimy);
          SamplesStep(pen0, a, res, s, geo, v);
          TakeSample(s, brush, res, geo);
        } else {
          assert !Consumed(event, accept);
          pending := pending + [event];
        }
        i := i + 1;
      }
      assert xs[..|xs|] == xs;
    }

    /** One accepted sample `res`: when the last sample had pressure, the
        STEPS + 1 interpolated `draw` calls and the changed flag; in any case
        `res` becomes the last sample. */
    method TakeSample(s: Sink, brush: Brush, res: TabletEvent, geo: Geometry)
      requires s.Valid() && ShapesFit(s, geo.shaper)
      modifies this`last, this`dirty, brush`lastPos, s.surface.pixels
      ensures PenOf(s, brush) == OnSample(old(PenOf(s, brush)), res, s, geo, FillByte(brush.weight))
    {
      ghost var penBefore := PenOf(s, brush);
      var v := FillByte(brush.weight);
      var norm := geo.norm(last, res);
      if last.pressure > 0 {
        var from := last;
        ghost var calls := DrawCalls(from, res, norm);
        for step := 0 to STEPS + 1
          invariant last == from && dirty == penBefore.dirty
          invariant Stroke(brush.lastPos, s.surface.pixels[..]) == Strokes(penBefore.stroke, calls[..step], s, geo.shaper, v)
        {
          assert calls[..step + 1][..step] == calls[..step];
          brush.Draw(StepSample(from, res, step, norm), s, geo.shaper);
        }
        assert calls[..STEPS + 1] == calls;
        dirty := true;
      }
      last := res;
    }

    /** The SDL half of `processEvents(buffer, brush)`: each event in turn, as
        `OnEvents` says. */
    method HandleEvents(es: seq<SdlEvent>)
      requires Valid()
      modifies this`done, this`playing, this`onionPrev, this`onionNext, this`backgroundActive, this`activeTool, fb`frame
      ensures Valid()
      ensures State() == OnEvents(old(State()), es, |fb.buffers|)
    {
      for i := 0 to |es|
        invariant Valid()
        invariant State() == OnEvents(old(State()), es[..i], |fb.buffers|)
      {
        assert es[..i + 1][..i] == es[..i];
        HandleEvent(es[i]);
      }
      assert es[..|es|] == es;
    }

    /** `processEvents(buffer, brush)`: the pen samples on the X queue, then
        the SDL events. */
    method ProcessWith(s: Sink, brush: Brush, xs: seq<XEvent>, accept: bool, sdl: seq<SdlEvent>, geo: Geometry)
      returns (pending: seq<XEvent>)
      requires Valid() && s.Valid() && ShapesFit(s, geo.shaper)
      modifies this`last, this`dirty, brush`lastPos, s.surface.pixels
      modifies this`done, this`playing, this`onionPrev, this`onionNext, this`backgroundActive, this`activeTool, fb`frame
      ensures Valid()
      ensures PenOf(s, brush) ==
              OnSamples(old(PenOf(s, brush)), Accepted(xs, accept, dimx, dimy), s, geo, FillByte(brush.weight))
      ensures pending == Pending(xs, accept)
      ensures State() == OnEvents(old(State()), sdl, |fb.buffers|)
    {
      ghost var c0 := State();
      pending := TakeSamples(s, brush, xs, accept, geo);
      assert State() == c0;
      ghost var pen := PenOf(s, brush);
      HandleEvents(sdl);
      assert PenOf(s, brush) == pen;
    }

    /** `processEvents(buffer)`: the pencil or the eraser, by the active tool;
        with any other tool value neither queue is read. */
    method ProcessOn(s: Sink, xs: seq<XEvent>, accept: bool, sdl: seq<SdlEvent>, geo: Geometry)
      returns (pending: seq<XEvent>)
      requires Valid() && s.Valid() && ShapesFit(s, geo.shaper)
      modifies this`last, this`dirty, pencil`lastPos, eraser`lastPos, s.surface.pixels
      modifies this`done, this`playing, this`onionPrev, this`onionNext, this`backgroundActive, this`activeTool, fb`frame
      ensures Valid()
      ensures State() == ControlsAfter(old(State()), sdl, |fb.buffers|)
      ensures old(Tool()).Some? ==>
                var b := old(Tool()).value;
                PenOf(s, b) == OnSamples(old(PenOf(s, b)), Accepted(xs, accept, dimx, dimy), s, geo, FillByte(b.weight)) &&
                pending == Pending(xs, accept)
      ensures old(Tool()).None? ==> pending == xs && last == old(last) && dirty == old(dirty) && unchanged(s.surface.pixels)
      ensures old(activeTool) != PENCIL ==> unchanged(pencil)
      ensures old(activeTool) != ERASER ==> unchanged(eraser)
    {
      if activeTool == PENCIL {
        pending := ProcessWith(s, pencil, xs, accept, sdl, geo);
      } else if activeTool == ERASER {
        pending := ProcessWith(s, eraser, xs, accept, sdl, geo);
      } else {
        pending := xs;
      }
    }

    /** `processEvents()`: the background when it is active, else the
        current frame's tile. */
    method ProcessEvents(xs: seq<XEvent>, accept: bool, sdl: seq<SdlEvent>, geo: Geometry)
      returns (pending: seq<XEvent>)
      requires Valid() && ShapesFit(Target(), geo.shaper)
      modifies this`last, this`dirty, pencil`lastPos, eraser`lastPos, Target().surface.pixels
      modifies this`done, this`playing, this`onionPrev, this`onionNext, this`backgroundActive, this`activeTool, fb`frame
      ensures Valid()
      ensures State() == ControlsAfter(old(State()), sdl, |fb.buffers|)
      ensures old(Tool()).Some? ==>
                var s, b := old(Target()), old(Tool()).value;
                PenOf(s, b) == OnSamples(old(PenOf(s, b)), Accepted(xs, accept, dimx, dimy), s, geo, FillByte(b.weight)) &&
                pending == Pending(xs, accept)
      ensures old(Tool()).None? ==>
                pending == xs && last == old(last) && dirty == old(dirty) && unchanged(old(Target().surface.pixels))
      ensures old(activeTool) != PENCIL ==> unchanged(pencil)
      ensures old(activeTool) != ERASER ==> unchanged(eraser)
    {
      var s := Target();
      pending := ProcessOn(s, xs, accept, sdl, geo);
    }

    /** `render()`: publishes the active surface when it changed, then draws
        the background, the onion frames before the cursor (stepping back to
        each and forward again), those after it, and the current frame; the
        cursor ends where it started. */
    method Render() returns (upload: Upload, layers: seq<Layer>)
      requires Valid()
      modifies this`dirty, fb`frame
      ensures Valid() && !dirty && fb.frame == old(fb.frame)
      ensures !old(dirty) ==> upload == NoUpload
      ensures old(dirty) && backgroundActive ==> upload == BackgroundUpload(background.pixels[..])
      ensures old(dirty) && !backgroundActive ==>
                upload == FrameUpload(BufferIdx(fb.frame, FRAMESX, FRAMESY), fb.buffers[BufferIdx(fb.frame, FRAMESX, FRAMESY)].pixels[..])
      ensures layers == Composite(fb.frame, |fb.buffers|, onionPrev, onionNext, onionColors)
    {
      var size := |fb.buffers|;
      CursorOnExistingSurface(fb.frame, size, FRAMESX, FRAMESY);
      upload := NoUpload;
      if dirty {
        if backgroundActive {
          var texture := background.Update();
          upload := BackgroundUpload(texture);
        } else {
          var idx, texture := fb.UpdateActive();
          upload := FrameUpload(idx, texture);
        }
        dirty := false;
      }
      var before := DrawPrevOnion(OnionDepth(onionPrev));
      var after := DrawNextOnion(OnionDepth(onionNext));
      CursorOnExistingSurface(fb.frame, |fb.buffers|, FRAMESX, FRAMESY);
      var idx, what := fb.RenderActive();
      layers := [BackgroundLayer] + before + after + [FrameLayer(fb.frame, Plain)];
    }

    /** The onion frames before the cursor: `n` steps back, drawing the
        tile of each frame reached, then `n` steps forward again. */
    method DrawPrevOnion(n: nat) returns (drawn: seq<Layer>)
      requires Valid()
      modifies fb`frame
      ensures Valid() && fb.frame == old(fb.frame)
      ensures drawn == PrevLayers(fb.frame, |fb.buffers|, n, onionColors)
    {
      var size := |fb.buffers|;
      var f0 := fb.frame;
      drawn := [];
      for i := 0 to n
        invariant Valid() && fb.frame == PrevN(f0, size, i)
        invariant drawn == PrevLayers(f0, size, i, onionColors)
      {
        NavigationRange(fb.frame, size);
        fb.PrevFrame();
        var tint := if onionColors then Tinted(OnionTint(i), 0, 0) else Plain;
        CursorOnExistingSurface(fb.frame, size, FRAMESX, FRAMESY);
        var idx, what := fb.RenderActive();
        drawn := drawn + [FrameLayer(fb.frame, tint)];
      }
      var back := fb.frame;
      for i := 0 to n
        invariant Valid() && fb.frame == NextN(back, size, i)
      {
        NavigationRange(fb.frame, size);
        fb.NextFrame();
      }
      OnionRoundTrip(f0, size, n);
    }

    /** The onion frames after the cursor: `n` steps forward, drawing the
        tile of each frame reached, then `n` steps back again. */
    method DrawNextOnion(n: nat) returns (drawn: seq<Layer>)
      requires Valid()
      modifies fb`frame
      ensures Valid() && fb.frame == old(fb.frame)
      ensures drawn == NextLayers(fb.frame, |fb.buffers|, n, onionColors)
    {
      var size := |fb.buffers|;
      var f0 := fb.frame;
      drawn := [];
      for i := 0 to n
        invariant Valid() && fb.frame == NextN(f0, size, i)
        invariant drawn == NextLayers(f0, size, i, onionColors)
      {
        NavigationRange(fb.frame, size);
        fb.NextFrame();
        var tint := if onionColors then Tinted(0, OnionTint(i), 0) else Plain;
        CursorOnExistingSurface(fb.frame, size, FRAMESX, FRAMESY);
        var idx, what := fb.RenderActive();
        drawn := drawn + [FrameLayer(fb.frame, tint)];
      }
      var ahead := fb.frame;
      for i := 0 to n
        invariant Valid() && fb.frame == PrevN(ahead, size, i)
      {
        NavigationRange(fb.frame, size);
        fb.PrevFrame();
      }
      PrevAfterNext(f0, size, n);
    }

    /** One pass of `run()`: events, then the picture, then, while playing,
        the cursor moves to the next frame. */
    method Tick(xs: seq<XEvent>, accept: bool, sdl: seq<SdlEvent>, geo: Geometry)
      returns (pending: seq<XEvent>, upload: Upload, layers: seq<Layer>)
      requires Valid() && ShapesFit(Target(), geo.shaper)
      modifies this`last, this`dirty, pencil`lastPos, eraser`lastPos, Target().surface.pixels
      modifies this`done, this`playing, this`onionPrev, this`onionNext, this`backgroundActive, this`activeTool, fb`frame
      ensures Valid() && !dirty
      ensures var c := ControlsAfter(old(State()), sdl, |fb.buffers|);
              State() == c.(frame := if c.playing then Next(c.frame, |fb.buffers|) else c.frame) &&
              layers == Composite(c.frame, |fb.buffers|, c.onionPrev, c.onionNext, onionColors)
      ensures old(Tool()).Some? ==>
                var s, b := old(Target()), old(Tool()).value;
                var pen := OnSamples(old(PenOf(s, b)), Accepted(xs, accept, dimx, dimy), s, geo, FillByte(b.weight));
                last == pen.last && Stroke(b.lastPos, s.surface.pixels[..]) == pen.stroke &&
                pending == Pending(xs, accept)
      ensures old(Tool()).None? ==>
                pending == xs && last == old(last) && unchanged(old(Target().surface.pixels))
      ensures old(activeTool) != PENCIL ==> unchanged(pencil)
      ensures old(activeTool) != ERASER ==> unchanged(eraser)
      ensures var c := ControlsAfter(old(State()), sdl, |fb.buffers|);
              var changed := if old(Tool()).Some? then
                               var s, b := old(Target()), old(Tool()).value;
                               OnSamples(old(PenOf(s, b)), Accepted(xs, accept, dimx, dimy), s, geo, FillByte(b.weight)).dirty
                             else old(dirty);
              0 <= c.frame < |fb.buffers| &&
              (!changed ==> upload == NoUpload) &&
              (changed && c.backgroundActive ==> upload == BackgroundUpload(background.pixels[..])) &&
              (changed && !c.backgroundActive ==>
                 upload == FrameUpload(BufferIdx(c.frame, FRAMESX, FRAMESY), fb.buffers[BufferIdx(c.frame, FRAMESX, FRAMESY)].pixels[..]))
    {
      pending := ProcessEvents(xs, accept, sdl, geo);
      upload, layers := Render();
      if playing {
        fb.NextFrame();
      }
    }
  }

  /** Stepping forward `k` times and then back `k` times returns to the
      starting frame. */
  lemma PrevAfterNext(frame: int, size: int, k: nat)
    requires 0 <= frame < size
    ensures PrevN(NextN(frame, size, k), size, k) == frame
  {
    NextNIsAddition(frame, size, k);
    var t := NextN(frame, size, k);
    if k > 0 {
      PrevNIsSubtraction(t, size, k);
      ModAdd(frame + k, -(k as int), size);
      DivModUnique(frame, size, 0, frame);
    }
  }
}
