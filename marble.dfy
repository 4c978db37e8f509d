/**
 * The break animation of a Marblets marble (StarterKits/Marblets/Marble.cs).
 *
 * A marble is drawn whole until it is told to break; it then plays a
 * twelve-frame burst animation over half a second of game time and ends up
 * gone. Game time is a real number of seconds, and a GameTime that may be
 * null is an Option<real>.
 */
module Marblets {
  import Wrappers

  /** Size of a marble, and of one frame of the burst strip, in screen units. */
  const Width: int := 25
  const Height: int := 25

  /** Seconds the burst animation lasts. */
  const BreakTime: real := 0.5

  /** Frames in the burst animation. */
  const BreakFrameCount: int := 12

  datatype Animation = None | Breaking | Gone

  datatype Vector2 = Vector2(x: real, y: real)

  datatype Color = Color(r: int, g: int, b: int, a: int)

  /** Everything about one marble that its update and draw code reads. */
  datatype MarbleState = MarbleState(
    animation: Animation,
    animationStart: real,
    frame: int,
    color: Color,
    selected: bool,
    position: Vector2)

  // ---------------------------------------------------------------------
  // Frame arithmetic
  // ---------------------------------------------------------------------

  /** C#'s explicit conversion of a double to an integer: truncation toward zero. */
  function Trunc(x: real): (n: int)
    ensures 0.0 <= x ==> 0 <= n && n as real <= x < n as real + 1.0
    ensures x < 0.0 ==> n <= 0 && n as real - 1.0 < x <= n as real
  {
    if x >= 0.0 then x.Floor else -((-x).Floor)
  }

  lemma TruncMonotone(x: real, y: real)
    requires x <= y
    ensures Trunc(x) <= Trunc(y)
  {
  }

  /** The burst frame shown `elapsed` seconds after the marble started to break. */
  function BreakFrame(elapsed: real): (f: int)
    ensures 0.0 <= elapsed ==>
      f as real <= elapsed / BreakTime * BreakFrameCount as real < f as real + 1.0
    ensures 0.0 <= elapsed <= BreakTime ==> 0 <= f <= BreakFrameCount
    ensures elapsed < 0.0 ==> f <= 0
    ensures elapsed < 0.0 ==>
      f as real - 1.0 < elapsed / BreakTime * BreakFrameCount as real <= f as real
  {
    Trunc(elapsed / BreakTime * BreakFrameCount as real)
  }

  /** A later moment never shows an earlier frame, for any sign of the elapsed time. */
  lemma BreakFrameMonotone(e1: real, e2: real)
    requires e1 <= e2
    ensures BreakFrame(e1) <= BreakFrame(e2)
  {
    TruncMonotone(e1 / BreakTime * BreakFrameCount as real, e2 / BreakTime * BreakFrameCount as real);
  }

  /** Exactly at the end of the break time the marble shows frame 12, one past the last burst frame. */
  lemma BreakFrameAtBreakTime()
    ensures BreakFrame(BreakTime) == BreakFrameCount
  {
  }

  /** Up to the end of the break time the frame never passes BreakFrameCount, however negative the elapsed time. */
  lemma BreakFrameAtMost(elapsed: real)
    requires elapsed <= BreakTime
    ensures BreakFrame(elapsed) <= BreakFrameCount
  {
    BreakFrameMonotone(elapsed, BreakTime);
    BreakFrameAtBreakTime();
  }

  // ---------------------------------------------------------------------
  // State transitions
  // ---------------------------------------------------------------------

  /** A gone marble shows the frame past the last burst frame: Update enters Gone only together with that frame. */
  predicate GoneShowsLastFrame(s: MarbleState)
  {
    s.animation == Gone ==> s.frame == BreakFrameCount
  }

  /** Marble.Break: with a time, remember it and start breaking, from any phase. */
  function BreakStep(s: MarbleState, time: Wrappers.Option<real>): (r: MarbleState)
    ensures time.Some? ==> r.animation == Breaking && r.animationStart == time.value
    ensures time.None? ==> r == s
    ensures r.frame == s.frame && r.color == s.color && r.selected == s.selected && r.position == s.position
    ensures GoneShowsLastFrame(s) ==> GoneShowsLastFrame(r)
  {
    if time.Some? then s.(animationStart := time.value, animation := Breaking) else s
  }

  /** Marble.Update: while breaking, derive the frame from the elapsed time, or finish. */
  function UpdateStep(s: MarbleState, time: Wrappers.Option<real>): (r: MarbleState)
    ensures r.animationStart == s.animationStart && r.color == s.color
    ensures r.selected == s.selected && r.position == s.position
    ensures time.None? || s.animation != Breaking ==> r == s
    ensures r.animation == Gone <==>
      s.animation == Gone ||
      (s.animation == Breaking && time.Some? && time.value - s.animationStart > BreakTime)
    ensures r.animation == None <==> s.animation == None
    ensures s.animation == Breaking && r.animation == Gone ==> r.frame == BreakFrameCount
    ensures GoneShowsLastFrame(s) ==> GoneShowsLastFrame(r)
    ensures s.animation == Breaking && time.Some? && s.animationStart <= time.value ==>
      0 <= r.frame <= BreakFrameCount
  {
    if time.Some? && s.animation == Breaking then
      var elapsed := time.value - s.animationStart;
      if elapsed > BreakTime then
        s.(animation := Gone, frame := BreakFrameCount)
      else
        s.(frame := BreakFrame(elapsed))
    else
      s
  }

  /** The order the phases take under Update: None, then Breaking, then Gone. */
  function Rank(a: Animation): nat
  {
    match a
    case None => 0
    case Breaking => 1
    case Gone => 2
  }

  /** Update alone never moves a marble back to an earlier phase. */
  lemma UpdateNeverGoesBack(s: MarbleState, time: Wrappers.Option<real>)
    ensures Rank(s.animation) <= Rank(UpdateStep(s, time).animation)
  {
  }

  /** Update at most the break time after the start keeps the marble breaking and shows the frame for the elapsed time. */
  lemma UpdateWithinBreakTime(s: MarbleState, now: real)
    requires s.animation == Breaking && now - s.animationStart <= BreakTime
    ensures UpdateStep(s, Wrappers.Some(now)) == s.(frame := BreakFrame(now - s.animationStart))
  {
  }

  /** Breaking again resets the start time even when the marble is already gone; the frame is left as it was. */
  lemma BreakRearmsGone(s: MarbleState, now: real)
    requires s.animation == Gone
    ensures var r := BreakStep(s, Wrappers.Some(now));
      r.animation == Breaking && r.animationStart == now && r.frame == s.frame
  {
  }

  /**
   * A gone marble broken again keeps frame 12 only until its next update,
   * which derives the frame afresh from the new start: 0.1 s later it shows 2.
   */
  lemma RebreakRestartsFrames(s: MarbleState, t: real)
    requires s.animation == Gone && GoneShowsLastFrame(s)
    ensures var r := UpdateStep(BreakStep(s, Wrappers.Some(t)), Wrappers.Some(t + 0.1));
      r.animation == Breaking && r.frame == 2 && r.frame < s.frame
  {
  }

  // ---------------------------------------------------------------------
  // Repeated updates: one Update call per tick of the game loop
  // ---------------------------------------------------------------------

  /** The state after Update has been called with each of `times` in turn. */
  function Run(s: MarbleState, times: seq<real>): (r: MarbleState)
    ensures r.animationStart == s.animationStart && r.color == s.color
    ensures r.selected == s.selected && r.position == s.position
    ensures s.animation != Breaking ==> r == s
    ensures r.animation == None <==> s.animation == None
    ensures GoneShowsLastFrame(s) ==> GoneShowsLastFrame(r)
    decreases |times|
  {
    if times == [] then s else Run(UpdateStep(s, Wrappers.Some(times[0])), times[1..])
  }

  ghost predicate NonDecreasing(times: seq<real>)
  {
    forall i, j :: 0 <= i <= j < |times| ==> times[i] <= times[j]
  }

  lemma {:induction false} RunConcat(s: MarbleState, a: seq<real>, b: seq<real>)
    ensures Run(s, a + b) == Run(Run(s, a), b)
    decreases |a|
  {
    if a == [] {
      assert a + b == b;
    } else {
      assert (a + b)[1..] == a[1..] + b;
      RunConcat(UpdateStep(s, Wrappers.Some(a[0])), a[1..], b);
    }
  }

  /**
   * After at least one tick a breaking marble is either still breaking, showing
   * the frame for the last tick's elapsed time, or gone with the frame pinned
   * to BreakFrameCount.
   */
  lemma {:induction false} RunOutcome(s: MarbleState, times: seq<real>)
    requires s.animation == Breaking && |times| > 0
    ensures var r := Run(s, times);
      var elapsed := times[|times| - 1] - s.animationStart;
      (r.animation == Breaking && elapsed <= BreakTime && r.frame == BreakFrame(elapsed)) ||
      (r.animation == Gone && r.frame == BreakFrameCount)
    decreases |times|
  {
    var next := UpdateStep(s, Wrappers.Some(times[0]));
    if |times| > 1 && next.animation == Breaking {
      RunOutcome(next, times[1..]);
    }
  }

  /**
   * Once a breaking marble has shown a frame no later tick (at an equal or
   * later time) shows an earlier one, until and including the move to Gone.
   */
  lemma {:induction false} RunKeepsFrame(s: MarbleState, times: seq<real>, last: real)
    requires s.animation == Breaking
    requires last - s.animationStart <= BreakTime
    requires s.frame == BreakFrame(last - s.animationStart)
    requires NonDecreasing(times)
    requires forall i :: 0 <= i < |times| ==> last <= times[i]
    ensures s.frame <= Run(s, times).frame
    decreases |times|
  {
    if times != [] {
      var next := UpdateStep(s, Wrappers.Some(times[0]));
      BreakFrameAtMost(last - s.animationStart);
      if next.animation == Breaking {
        BreakFrameMonotone(last - s.animationStart, times[0] - s.animationStart);
        RunKeepsFrame(next, times[1..], times[0]);
      }
    }
  }

  lemma NonDecreasingSuffix(a: seq<real>, b: seq<real>)
    requires |a| > 0 && NonDecreasing(a + b)
    ensures NonDecreasing(b)
    ensures forall i :: 0 <= i < |b| ==> a[|a| - 1] <= b[i]
  {
    forall i | 0 <= i < |b| ensures a[|a| - 1] <= b[i] {
      assert (a + b)[|a| - 1] == a[|a| - 1] && (a + b)[|a| + i] == b[i];
    }
    forall i, j | 0 <= i <= j < |b| ensures b[i] <= b[j] {
      assert (a + b)[|a| + i] == b[i] && (a + b)[|a| + j] == b[j];
    }
  }

  /** Frames are non-decreasing along any non-decreasing sequence of tick times. */
  lemma RunFrameNonDecreasing(s: MarbleState, a: seq<real>, b: seq<real>)
    requires s.animation == Breaking && |a| > 0
    requires NonDecreasing(a + b)
    ensures Run(s, a).frame <= Run(s, a + b).frame
  {
    var mid := Run(s, a);
    RunConcat(s, a, b);
    assert Run(s, a + b) == Run(mid, b);
    RunOutcome(s, a);
    if mid.animation == Breaking {
      var last := a[|a| - 1];
      NonDecreasingSuffix(a, b);
      RunKeepsFrame(mid, b, last);
    } else {
      assert Run(mid, b) == mid;
    }
  }

  /** A breaking marble updated only at or after its start shows a frame in 0..BreakFrameCount. */
  lemma RunFrameInRange(s: MarbleState, times: seq<real>)
    requires s.animation == Breaking && |times| > 0
    requires s.animationStart <= times[|times| - 1]
    ensures 0 <= Run(s, times).frame <= BreakFrameCount
  {
    RunOutcome(s, times);
  }

  /** Break at 10.0 s, then update at 10.25 s and at 10.6 s. */
  lemma BreakAndUpdateScenario(s: MarbleState)
    ensures var broken := BreakStep(s, Wrappers.Some(10.0));
      var mid := UpdateStep(broken, Wrappers.Some(10.25));
      var end := UpdateStep(mid, Wrappers.Some(10.6));
      mid.animation == Breaking && mid.frame == 6 &&
      end.animation == Gone && end.frame == BreakFrameCount
  {
  }

  /** An update before the start time (a clock that ran backwards) gives a negative frame: nothing clamps it. */
  lemma UpdateBeforeStartScenario(s: MarbleState)
    ensures var r := UpdateStep(BreakStep(s, Wrappers.Some(10.0)), Wrappers.Some(9.9));
      r.animation == Breaking && r.frame == -2
  {
  }

  // ---------------------------------------------------------------------
  // Render selection (Marble.Draw2DMarble)
  // ---------------------------------------------------------------------

  datatype Texture = BreakTexture | MarbleTexture | GlowRing1Texture | GlowRing2Texture

  datatype Rectangle = Rectangle(x: int, y: int, width: int, height: int)

  /** One sprite draw: texture, screen position, source rectangle (None: the whole texture), tint. */
  datatype DrawCommand = DrawCommand(
    texture: Texture,
    position: Vector2,
    source: Wrappers.Option<Rectangle>,
    color: Color)

  /** The cell of the burst strip that holds `frame`. */
  function SourceRect(frame: int): Rectangle
  {
    Rectangle(frame * Width, 0, Width, Height)
  }

  /** Different frames read different, non-overlapping cells of the strip. */
  lemma SourceRectsDisjoint(f1: int, f2: int)
    requires f1 < f2
    ensures SourceRect(f1).x + SourceRect(f1).width <= SourceRect(f2).x
  {
  }

  /** The opacity of a highlight ring: the pulse magnitude scaled to a byte. */
  function PulseAlpha(magnitude: real): (alpha: int)
    requires 0.0 <= magnitude
    ensures 0 <= alpha && alpha as real <= magnitude * 255.0 < alpha as real + 1.0
    ensures magnitude <= 1.0 ==> alpha <= 255
  {
    Trunc(magnitude * 255.0)
  }

  /** White at the given opacity: the tint of a highlight ring. */
  function Fade(alpha: int): Color
  {
    Color(255, 255, 255, alpha)
  }

  /**
   * The sprites drawn for a marble, bottom first. A breaking or gone marble is
   * its burst frame; otherwise the plain marble, and for a selected one a
   * highlight ring on top: the single ring while the shared pulse is negative,
   * the double ring otherwise, at the pulse's magnitude as opacity.
   */
  function Draw2DMarble(s: MarbleState, pulseFactor: real): (cmds: seq<DrawCommand>)
    ensures |cmds| == (if s.animation.None? && s.selected then 2 else 1)
    ensures forall c :: c in cmds ==> c.position == s.position
    ensures cmds[0].color == s.color
    ensures cmds[0].texture == BreakTexture <==> s.animation == Breaking || s.animation == Gone
    ensures cmds[0].texture == BreakTexture ==>
      cmds[0].source == Wrappers.Some(Rectangle(s.frame * Width, 0, Width, Height))
    ensures GoneShowsLastFrame(s) && s.animation == Gone ==>
      cmds[0].source == Wrappers.Some(Rectangle(BreakFrameCount * Width, 0, Width, Height))
    ensures cmds[0].texture != BreakTexture ==> cmds[0].texture == MarbleTexture && cmds[0].source.None?
    ensures |cmds| == 2 ==>
      cmds[1].texture == (if pulseFactor < 0.0 then GlowRing1Texture else GlowRing2Texture) &&
      cmds[1].source.None? &&
      cmds[1].color == Fade(PulseAlpha(if pulseFactor < 0.0 then -pulseFactor else pulseFactor))
  {
    if s.animation == Breaking || s.animation == Gone then
      [DrawCommand(BreakTexture, s.position, Wrappers.Some(SourceRect(s.frame)), s.color)]
    else
      var plain := DrawCommand(MarbleTexture, s.position, Wrappers.None, s.color);
      if s.selected then
        if pulseFactor < 0.0 then
          [plain, DrawCommand(GlowRing1Texture, s.position, Wrappers.None, Fade(PulseAlpha(-pulseFactor)))]
        else
          [plain, DrawCommand(GlowRing2Texture, s.position, Wrappers.None, Fade(PulseAlpha(pulseFactor)))]
      else
        [plain]
  }

  /** A selected marble shows a ring exactly when it is not breaking or gone; selection never changes the base sprite. */
  lemma SelectionOnlyAddsRing(s: MarbleState, pulseFactor: real)
    ensures Draw2DMarble(s.(selected := true), pulseFactor)[0] == Draw2DMarble(s.(selected := false), pulseFactor)[0]
    ensures |Draw2DMarble(s.(selected := true), pulseFactor)| == 2 <==> s.animation.None?
  {
  }

  // ---------------------------------------------------------------------
  // The marble object
  // ---------------------------------------------------------------------

  class Marble {
    var animation: Animation
    var animationStart: real
    var frame: int
    const color: Color
    var Selected: bool
    var position2D: Vector2

    /** The invariant every reachable marble keeps. */
    ghost predicate Valid()
      reads this
    {
      GoneShowsLastFrame(State())
    }

    /** The marble's fields as a value. */
    function State(): MarbleState
      reads this
    {
      MarbleState(animation, animationStart, frame, color, Selected, position2D)
    }

    /** A new marble of the given colour: whole, unselected, at the origin, frame 0. */
    constructor (color: Color)
      ensures animation == None && frame == 0 && animationStart == 0.0
      ensures this.color == color && !Selected && position2D == Vector2(0.0, 0.0)
      ensures Valid()
    {
      animation := None;
      animationStart := 0.0;
      frame := 0;
      this.color := color;
      Selected := false;
      position2D := Vector2(0.0, 0.0);
    }

    function Position(): Vector2
      reads this
    {
      position2D
    }

    method SetPosition(value: Vector2)
      requires Valid()
      modifies this
      ensures Valid()
      ensures Position() == value
      ensures animation == old(animation) && animationStart == old(animationStart) && frame == old(frame)
      ensures Selected == old(Selected)
    {
      position2D := value;
    }

    method Update(time: Wrappers.Option<real>)
      requires Valid()
      modifies this
      ensures Valid()
      ensures State() == UpdateStep(old(State()), time)
    {
      if time.Some? {
        if animation == Breaking {
          if time.value - animationStart > BreakTime {
            animation := Gone;
            frame := BreakFrameCount;
          } else {
            frame := BreakFrame(time.value - animationStart);
          }
        }
      }
    }

    method Break(time: Wrappers.Option<real>)
      requires Valid()
      modifies this
      ensures Valid()
      ensures State() == BreakStep(old(State()), time)
    {
      if time.Some? {
        animationStart := time.value;
        animation := Breaking;
      }
    }

    /** The sprites this marble draws for the given shared pulse value. */
    method Draw(pulseFactor: real) returns (cmds: seq<DrawCommand>)
      requires Valid()
      ensures cmds == Draw2DMarble(State(), pulseFactor)
      ensures animation == Gone ==>
        cmds == [DrawCommand(BreakTexture, position2D,
                             Wrappers.Some(Rectangle(BreakFrameCount * Width, 0, Width, Height)), color)]
    {
      cmds := Draw2DMarble(State(), pulseFactor);
    }
  }
}
