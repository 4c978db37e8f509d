# Marblets marble: break animation and sprite selection

A model, in Dafny, of the marble of the Marblets starter game
(`StarterKits/Marblets/Marble.cs`). It covers the animation state machine
and the choice of sprites to draw:

- A marble starts whole (`None`), with frame 0.
- `Break(time)` records the start time and enters `Breaking`.
- `Update(time)` derives the burst frame from the time elapsed since the
  start. After more than `BreakTime` (0.5 s) the marble is `Gone` and its
  frame is pinned to `breakFrameCount` (12).
- `Draw2DMarble` draws the burst frame of a breaking or gone marble. Otherwise
  it draws the plain marble, and for a selected marble a pulsing highlight ring
  on top.

Files:

- `wrappers.dfy`: `Option`, used for a `GameTime` that may be null.
- `marble.dfy`: module `Marblets`. It holds the constants, the state as a value
  (`MarbleState`) and the transitions `BreakStep` and `UpdateStep` as functions.
  It also holds `Run`, which is repeated `Update` over the ticks of a game loop,
  the render selection `Draw2DMarble`, and the class `Marble`. The class's
  `Break`, `Update`, `SetPosition` and `Draw` methods change or read its fields.
  The postconditions of `Break` and `Update` tie the new state to `BreakStep` and
  `UpdateStep`. `SetPosition` states its new fields directly. `Draw` changes
  nothing and returns what `Draw2DMarble` selects.

Game time is a `real` number of seconds, and a null `GameTime` is `None`. The
shared pulse value, which `UpdateStatic` writes to a static field, is passed to
`Draw` as a parameter.

The model follows the code as written, in three places a reader might expect
otherwise:

- Nothing clamps a negative elapsed time, which a clock that runs backwards
  would produce. The cast truncates toward zero, so the frame can be negative:
  an update 0.1 s before the start gives frame -2 (`UpdateBeforeStartScenario`).
- At exactly `elapsed == BreakTime` the marble is still `Breaking` but shows
  frame 12. While breaking, frames therefore run over 0..12, not 0..11
  (`BreakFrameAtBreakTime`).
- `Break` does not check the phase. It restarts the animation from any phase,
  even `Gone`, and it leaves the frame as it was (`BreakRearmsGone`). So the
  phases only move forward under `Update` (`UpdateNeverGoesBack`), not in general.
- A gone marble that is broken again still shows frame 12, but its next update
  derives the frame from the new start, so the frame drops: 0.1 s after the new
  break it is 2 (`RebreakRestartsFrames`). Frames are therefore non-decreasing
  only from the first update after a break (`RunFrameNonDecreasing`).

## Model

| member | source | states |
|---|---|---|
| Marblets.Trunc | StarterKits/Marblets/Marble.cs:150-151 | the `(int)` cast truncates toward zero: for x >= 0 the result is the floor of x; for x < 0 it is the ceiling, and never positive |
| Marblets.TruncMonotone | StarterKits/Marblets/Marble.cs:150-151 | truncation toward zero is monotone |
| Marblets.BreakFrame | StarterKits/Marblets/Marble.cs:150-151 | for a non-negative elapsed time the frame is the whole number of 1/24 s frame slots elapsed; it lies in 0..12 within the break time; a negative elapsed time gives that count truncated toward zero (the ceiling, never positive) |
| Marblets.BreakFrameMonotone | StarterKits/Marblets/Marble.cs:150-151 | a later elapsed time never gives an earlier frame, including negative elapsed times |
| Marblets.BreakFrameAtBreakTime | StarterKits/Marblets/Marble.cs:143-151 | at exactly the break time the frame is 12 (the `>` test keeps the marble breaking there) |
| Marblets.BreakFrameAtMost | StarterKits/Marblets/Marble.cs:143-151 | up to the break time the frame never exceeds 12 |
| Marblets.BreakStep | StarterKits/Marblets/Marble.cs:229-236 | with a time: `Breaking`, with the start set to that time, from any phase; with null: no change; never changes the frame, colour, selection or position; keeps the invariant that a gone marble shows frame 12 |
| Marblets.UpdateStep | StarterKits/Marblets/Marble.cs:137-155 | null time, `None` or `Gone`: no change. It becomes `Gone` exactly when it was `Gone` or was breaking with more than the break time elapsed. On the move from `Breaking` to `Gone` the frame becomes 12, so the invariant that a gone marble shows frame 12 is kept. After an update at or after the start, the frame is in 0..12. Start, colour, selection and position never change |
| Marblets.UpdateNeverGoesBack | StarterKits/Marblets/Marble.cs:141-147 | under `Update` the phase only moves forward: `None`, then `Breaking`, then `Gone` |
| Marblets.UpdateWithinBreakTime | StarterKits/Marblets/Marble.cs:148-152 | while breaking with at most the break time elapsed, an update keeps `Breaking` and changes only the frame, to the frame of the elapsed time |
| Marblets.BreakRearmsGone | StarterKits/Marblets/Marble.cs:231-235 | a gone marble broken again is `Breaking` with the new start time and its old frame |
| Marblets.Run | StarterKits/Marblets/Marble.cs:137-155 | over any number of updates: start, colour, selection and position are kept; a marble not breaking is unchanged; a marble is `None` after the updates exactly when it was before; the invariant that a gone marble shows frame 12 is kept |
| Marblets.RunConcat | StarterKits/Marblets/Marble.cs:137-155 | updating over a then b equals updating over a, then over b |
| Marblets.RunOutcome | StarterKits/Marblets/Marble.cs:143-152 | after at least one update a breaking marble is either still breaking, with at most the break time elapsed at the last tick and that tick's frame, or gone with frame 12 |
| Marblets.RunKeepsFrame | StarterKits/Marblets/Marble.cs:143-152 | a breaking marble showing the frame of a time at most the break time after its start never shows a smaller frame after updates at non-decreasing later times |
| Marblets.RunFrameNonDecreasing | StarterKits/Marblets/Marble.cs:148-152 | for a breaking marble and non-decreasing tick times, once at least one tick has been applied, the frame after more ticks is never smaller than after fewer, through the move to `Gone` |
| Marblets.RebreakRestartsFrames | StarterKits/Marblets/Marble.cs:143-151 | a gone marble (frame 12) broken at t and updated at t + 0.1 s is `Breaking` with frame 2, lower than before: `Break` does not reset the frame and `Update` recomputes it |
| Marblets.RunFrameInRange | StarterKits/Marblets/Marble.cs:148-152 | a breaking marble whose last update came at or after its start shows a frame in 0..12 |
| Marblets.BreakAndUpdateScenario | StarterKits/Marblets/Marble.cs:137-155 | break at 10.0 s; an update at 10.25 s shows frame 6 and keeps `Breaking`; an update at 10.6 s makes it `Gone` with frame 12 |
| Marblets.UpdateBeforeStartScenario | StarterKits/Marblets/Marble.cs:148-152 | break at 10.0 s, update at 9.9 s: still `Breaking`, frame -2 |
| Marblets.SourceRectsDisjoint | StarterKits/Marblets/Marble.cs:185-186 | different frames read cells of the burst strip that do not overlap |
| Marblets.PulseAlpha | StarterKits/Marblets/Marble.cs:198-215 | the ring opacity is the pulse magnitude times 255, truncated; it is non-negative, and at most 255 for a pulse within [-1, 1] |
| Marblets.Draw2DMarble | StarterKits/Marblets/Marble.cs:177-223 | every sprite is drawn at the marble's position. A breaking or gone marble draws only the burst texture, tinted with its colour, with source rectangle `(frame * 25, 0, 25, 25)` (the helper `SourceRect`, lines 185-186); for a gone marble that keeps the invariant, this is the cell of frame 12. Otherwise the plain marble is drawn in its colour. A selected marble also gets a white ring whose opacity is the pulse magnitude (the helper `Fade`, lines 201-202 and 214-215): ring 1 when the pulse is negative, ring 2 otherwise |
| Marblets.SelectionOnlyAddsRing | StarterKits/Marblets/Marble.cs:189-222 | selection never changes the base sprite; it adds a ring exactly when the marble is not breaking or gone |
| Marblets.Marble.constructor | StarterKits/Marblets/Marble.cs:118-123 | a new marble has the given colour, is `None`, has frame 0 and start 0, is unselected, and is at the origin (the field defaults); it satisfies `Valid()`, the invariant that a gone marble shows frame 12 |
| Marblets.Marble.SetPosition | StarterKits/Marblets/Marble.cs:102-113 | after the setter the getter (`Position()`, lines 104-107) returns the assigned value; the animation fields and selection are unchanged; `Valid()` is kept |
| Marblets.Marble.Update | StarterKits/Marblets/Marble.cs:137-155 | the marble's new fields are `UpdateStep` of its old fields; `Valid()` is kept |
| Marblets.Marble.Break | StarterKits/Marblets/Marble.cs:229-236 | the marble's new fields are `BreakStep` of its old fields; `Valid()` is kept |
| Marblets.Marble.Draw | StarterKits/Marblets/Marble.cs:172-175 | draws exactly the sprites `Draw2DMarble` selects for the marble's current fields; a gone marble draws only the burst cell of frame 12, at source rectangle `(300, 0, 25, 25)` |

## Left out

- `MonoGame.Framework/Android/Media/Song.cs` is not part of this model. It only passes calls to an Android sound player.
- `LoadContent` and the four static textures: they come from asset loading. Textures are the names in `Texture`.
- The random colour choice in the constructor: it uses a shared random generator and the game's colour palette, which is not part of this model. The colour is a constructor parameter.
- `UpdateStatic`: computing the pulse with `Math.Sin` is floating-point work. The pulse is a parameter of `Draw`, and only its sign and magnitude are used.
- The rotation, origin, scale, effects and depth arguments of `SpriteBatch.Draw`, and `MarbletsGame.screenRotation`: these are rendering I/O and external state.
- Floating point: times and positions are exact reals, so double rounding in `elapsed / BreakTime * breakFrameCount` is not modelled. Neither is the float rounding of the pulse.
- Marblets.Trunc: does not model the conversion of an out-of-range double, below about -89 million seconds of elapsed time, which C# leaves unspecified.
- Marblets.SourceRect: does not model the 32-bit wrap-around of `frame * Width`. C# multiplies unchecked, so the product wraps for frame <= -85,899,346, which an update about 3.58 million seconds before the start produces. The model's product does not wrap.
- Marblets.PulseAlpha: the byte conversion is exact only for a pulse within [-1, 1], which the sine guarantees. Wrap-around outside that range is not modelled.
- `Initialize` (empty), the `Color` and `Animation` getters (the model reads the `color` and `animation` fields, and `color` is a `const`), and the public `boardLocation` field, which the marble never reads or writes.
