/**
 * The renderer's per-frame idle step (`idle_func` in shader/raadhus_shader.c):
 * frame pacing against `next_frame_time`, and the fade-out / switch / fade-in
 * transition that rotates through the shader table.
 *
 * The clock reading is a parameter of each step. The dwell test compares a
 * float against the clock; it is a boolean parameter here.
 */
module ShaderIdle {
  const ScreenWidth := 56
  const FrameTime := 49

  /** The renderer's static state, in milliseconds where it holds a time. */
  datatype Renderer = Renderer(
    shaderCount: int,
    current: int,
    activated: int,
    nextFrame: int,
    offset: int,
    direction: int)

  /** One idle call: the clock reading and whether the current shader's dwell has run out. */
  datatype Tick = Tick(now: int, expired: bool)

  /** The renderer's state between calls: the fade is within the screen, moving exactly when it is non-zero, and never rising past the peak. */
  predicate Inv(r: Renderer)
  {
    && r.shaderCount > 0
    && 0 <= r.current < r.shaderCount
    && 0 <= r.offset <= ScreenWidth
    && -1 <= r.direction <= 1
    && (r.offset == 0 <==> r.direction == 0)
    && (r.direction == 1 ==> r.offset < ScreenWidth)
  }

  /** The state right after a successful start: the first shader, activated at `now`, no transition, and the static `next_frame_time` still 0. */
  function Start(shaderCount: int, now: int): (r: Renderer)
    requires shaderCount > 0
    ensures Inv(r) && r.offset == 0 && r.current == 0
    ensures r.activated == now && r.shaderCount == shaderCount && r.nextFrame == 0
  {
    Renderer(shaderCount, 0, now, 0, 0, 0)
  }

  // ---------------------------------------------------------------------------
  // Frame pacing

  /**
   * `next_frame_time` after a frame at `now`: one frame later than planned
   * when the plan lies less than a frame ahead, otherwise a frame from now.
   * Either way the next frame lies between one and two frame times ahead.
   */
  function Pace(nextFrame: int, now: int): (next: int)
    ensures FrameTime <= next - now < 2 * FrameTime
    ensures next == nextFrame + FrameTime || next == now + FrameTime
  {
    var delta := nextFrame - now;
    if 0 < delta < FrameTime then nextFrame + FrameTime else now + FrameTime
  }

  /** A frame that is on time keeps the frame grid; a late or early one resynchronises to the clock. */
  lemma PaceKeepsGrid(nextFrame: int, now: int)
    ensures 0 < nextFrame - now < FrameTime ==> Pace(nextFrame, now) - nextFrame == FrameTime
    ensures (nextFrame - now <= 0 || FrameTime <= nextFrame - now) ==> Pace(nextFrame, now) - now == FrameTime
  {
  }

  // ---------------------------------------------------------------------------
  // Transition

  /** The tick at which the old shader is fully faded out and the next one is selected. */
  predicate SwitchesAt(r: Renderer)
  {
    r.offset != 0 && r.offset + r.direction >= ScreenWidth
  }

  /** The transition half of `idle_func` at `now`. */
  function Transition(r: Renderer, now: int, expired: bool): (r': Renderer)
    requires r.shaderCount > 0
    ensures r'.shaderCount == r.shaderCount && r'.nextFrame == r.nextFrame
    ensures r'.current != r.current ==> SwitchesAt(r)
    ensures r'.activated != r.activated ==> SwitchesAt(r) && r'.activated == now
  {
    if r.offset != 0 then
      var offset := r.offset + r.direction;
      if offset >= ScreenWidth then
        r.(current := (r.current + 1) % r.shaderCount, activated := now, offset := ScreenWidth, direction := -1)
      else if offset <= 0 then
        r.(offset := offset, direction := 0)
      else
        r.(offset := offset)
    else if expired then
      r.(offset := 1, direction := 1)
    else
      r
  }

  /** One call of `idle_func`. */
  function Idle(r: Renderer, t: Tick): (r': Renderer)
    requires r.shaderCount > 0
    ensures r'.nextFrame - t.now >= FrameTime
  {
    Transition(r.(nextFrame := Pace(r.nextFrame, t.now)), t.now, t.expired)
  }

  lemma IdleKeepsInv(r: Renderer, t: Tick)
    requires Inv(r)
    ensures Inv(Idle(r, t))
  {
  }

  /** An idle renderer starts a transition exactly when the dwell has run out, and it starts rising from offset 1. */
  lemma TransitionStarts(r: Renderer, t: Tick)
    requires Inv(r) && r.offset == 0
    ensures Idle(r, t).offset != 0 <==> t.expired
    ensures t.expired ==> Idle(r, t).offset == 1 && Idle(r, t).direction == 1
    ensures Idle(r, t).current == r.current && Idle(r, t).activated == r.activated
  {
  }

  /**
   * The shader changes exactly at the top of the rise, to the next one in the
   * table (wrapping round), and the fade turns downward from the full width.
   */
  lemma SwitchAtPeak(r: Renderer, t: Tick)
    requires Inv(r)
    ensures SwitchesAt(r) <==> r.direction == 1 && r.offset == ScreenWidth - 1
    ensures SwitchesAt(r) ==> var r' := Idle(r, t);
      && r'.current == (if r.current + 1 == r.shaderCount then 0 else r.current + 1)
      && r'.offset == ScreenWidth && r'.direction == -1 && r'.activated == t.now
    ensures !SwitchesAt(r) ==> Idle(r, t).current == r.current
  {
  }

  /** A falling fade that reaches zero ends the transition. */
  lemma TransitionEnds(r: Renderer, t: Tick)
    requires Inv(r) && r.direction == -1
    ensures Idle(r, t).offset == r.offset - 1
    ensures Idle(r, t).direction == 0 <==> r.offset == 1
  {
  }

  // ---------------------------------------------------------------------------
  // Runs of ticks

  /** The renderer after `ticks`, one idle call each. */
  function Run(r: Renderer, ticks: seq<Tick>): (r': Renderer)
    requires Inv(r)
    ensures Inv(r') && r'.shaderCount == r.shaderCount
    decreases |ticks|
  {
    if ticks == [] then r
    else
      IdleKeepsInv(r, ticks[0]);
      Run(Idle(r, ticks[0]), ticks[1..])
  }

  /** How many of `ticks` select a new shader. */
  function Switches(r: Renderer, ticks: seq<Tick>): nat
    requires Inv(r)
    decreases |ticks|
  {
    if ticks == [] then 0
    else
      IdleKeepsInv(r, ticks[0]);
      (if SwitchesAt(r) then 1 else 0) + Switches(Idle(r, ticks[0]), ticks[1..])
  }

  /** Rising by one a tick: the shader stays and nothing switches while the fade stays below the peak. */
  lemma {:induction false} Rising(r: Renderer, ticks: seq<Tick>)
    requires Inv(r) && r.direction == 1 && r.offset + |ticks| < ScreenWidth
    ensures Run(r, ticks).offset == r.offset + |ticks| && Run(r, ticks).direction == 1
    ensures Run(r, ticks).current == r.current && Switches(r, ticks) == 0
    decreases |ticks|
  {
    if ticks != [] {
      IdleKeepsInv(r, ticks[0]);
      Rising(Idle(r, ticks[0]), ticks[1..]);
    }
  }

  /** Falling by one a tick: the shader stays and nothing switches until the fade reaches zero. */
  lemma {:induction false} Falling(r: Renderer, ticks: seq<Tick>)
    requires Inv(r) && |ticks| <= r.offset && (r.offset != 0 ==> r.direction == -1)
    ensures Run(r, ticks).offset == r.offset - |ticks|
    ensures Run(r, ticks).direction == (if |ticks| == r.offset then 0 else -1)
    ensures Run(r, ticks).current == r.current && Run(r, ticks).activated == r.activated
    ensures Switches(r, ticks) == 0
    decreases |ticks|
  {
    if ticks != [] {
      IdleKeepsInv(r, ticks[0]);
      Falling(Idle(r, ticks[0]), ticks[1..]);
    }
  }

  /** The length of a whole transition in ticks: start, rise to the peak, fall to zero. */
  const TransitionTicks := 2 * ScreenWidth

  /**
   * From an idle renderer whose dwell has run out, a whole transition takes
   * 112 ticks whatever the later dwell tests say, selects exactly one new
   * shader, the next one in the table, and ends idle again.
   */
  lemma FullTransition(r: Renderer, ticks: seq<Tick>)
    requires Inv(r) && r.offset == 0 && |ticks| == TransitionTicks && ticks[0].expired
    ensures var r' := Run(r, ticks);
      && r'.offset == 0 && r'.direction == 0
      && r'.current == (r.current + 1) % r.shaderCount
      && r'.activated == ticks[ScreenWidth - 1].now
    ensures Switches(r, ticks) == 1
  {
    var r1 := Idle(r, ticks[0]);
    IdleKeepsInv(r, ticks[0]);
    var rise := ticks[1..ScreenWidth - 1];
    var peak := ticks[ScreenWidth - 1];
    var fall := ticks[ScreenWidth..];
    Rising(r1, rise);
    var r2 := Run(r1, rise);
    SwitchAtPeak(r2, peak);
    var r3 := Idle(r2, peak);
    IdleKeepsInv(r2, peak);
    Falling(r3, fall);
    RunAppend(r1, rise, [peak] + fall);
    RunAppend(r2, [peak], fall);
    assert ticks[1..] == rise + ([peak] + fall);
    assert Run(r2, [peak]) == r3;
    assert Switches(r2, [peak]) == 1;
  }

  /** Running `a` then `b` is running `a + b`, and their switches add up. */
  lemma {:induction false} RunAppend(r: Renderer, a: seq<Tick>, b: seq<Tick>)
    requires Inv(r)
    ensures Run(r, a + b) == Run(Run(r, a), b)
    ensures Switches(r, a + b) == Switches(r, a) + Switches(Run(r, a), b)
    decreases |a|
  {
    if a != [] {
      IdleKeepsInv(r, a[0]);
      assert (a + b)[1..] == a[1..] + b;
      RunAppend(Idle(r, a[0]), a[1..], b);
    } else {
      assert a + b == b;
    }
  }
}
