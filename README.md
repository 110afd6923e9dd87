# Ferris kinematics

This project models the one piece of logic in the `wasm_playground` demo. A
click on the canvas spawns a Ferris sprite. Each tick of its timer then
updates the sprite: gravity lowers the vertical velocity by one, the
position moves by the velocity, and the sprite's element is either moved
to the new screen offsets or removed from the page when the new position
fails the bounds test `Ferris::is_in_canvas`. A removed sprite never changes
again.

The model has five modules:

- `Int32`: Rust's `i32` as a release build runs it, where `+`, `-` and `+=`
  wrap around in two's complement.
- `Canvas`: the constants, the bounds test as written, the screen offsets
  `top`/`left` and the click's vertical flip.
- `Kinematics`: one update as pure functions on values (`Next`, `Emitted`),
  n updates (`Run`, `RunEffects`), and their properties. The lifecycle
  properties (nothing after removal, the shape of the trace) are proved for
  any update that keeps the lifecycle, then applied to `update`.
- `Lifetime`: the sprite from its spawn to its removal: the closed form of
  its path, where its element is drawn, and the bound of 72 updates.
- `Animation`: the `Ferris` class, whose `Update` changes its fields in
  place, `New` with its spawn gate, the timer loop `Animate`, and the click
  handler `MouseDown`.

`html: Option<HtmlElement>` is the boolean `alive`. What an update does to
the element is recorded as an `Effect`, either `Place(top, left)` or
`Remove`, in the ghost trace `effects`.

The bounds test is modelled as the code writes it. Its fourth comparison
checks the top of the sprite against `CANVAS_WIDTH` (800), not the canvas
height 600. So a sprite may rise until its centre is at height 774, and its
element is then drawn up to 199 pixels above the canvas. A design that
compares against the height would end differently, but this model follows
the code. `BoxInside` is the height-based test, and `InCanvasVersusBox`
says exactly where the two disagree, near the i32 limits included. For the centre spawn (400, 300) the
code removes the sprite on the 36th update, at x = 760. It is the
horizontal bound that removes it, not the vertical one.

With wrapping arithmetic, the bounds test also accepts points within 40
(horizontally) or 25 (vertically) of the `i32` limits, because the
subtraction or addition wraps. `InCanvasExact` states this. The bound of 72
updates still holds for such spawns: `RoomInvariant` measures each update's
progress across the wrap.

## Model

| member | source | states |
|---|---|---|
| Int32.AddSubInverse | src/main.rs:112 | wrapping `+` and `-` of the same amount undo each other, whether or not they wrap, so the left offset `x - 40` of a click (line 134) gives the click back |
| Int32.SubSubCancel | src/main.rs:134 | `c - (c - x) == x` on wrapping i32 |
| Canvas.InCanvasExact | src/main.rs:78-83 | the bounds test holds exactly when `XInside(x)` and `YInside(y)`: 40 < x < 760 and 25 < y < 775, plus the points within 40 (x) or 25 (y) of the i32 limits that wrap |
| Canvas.InCanvasOrdinary | src/main.rs:78-83 | away from the i32 limits the test is `x-40 > 0 && x+40 < 800 && y-25 > 0 && y+25 < 800`, all strict, the last against the canvas width |
| Canvas.InCanvasVersusBox | src/main.rs:78-83 | every box strictly inside the 800x600 canvas passes; the test accepts more than that exactly for 40 < x < 760 and 575 <= y <= 774, and for the accepted points within 40 (x) or 25 (y) of the i32 limits |
| Canvas.PlacementRange | src/main.rs:105-113 | for an accepted ordinary point, left = x - 40 in 1..719 and top = 575 - y in -199..549, top negative exactly when y > 575 |
| Canvas.FlipInvolution | src/main.rs:134 | flipping the click's height twice gives the click's offset back |
| Canvas.DrawnAroundClick | src/main.rs:105-113 | a sprite at the flipped click point has its top edge 25 above the click and its left edge 40 left of it |
| Kinematics.DeadUpdateIsNoOp | src/main.rs:87-90 | an update of a removed sprite changes nothing and asks nothing of the element |
| Kinematics.LiveUpdate | src/main.rs:93-95 | a live update keeps vel_x, sets vel_y := vel_y - 1 first, then moves x by vel_x and y by the NEW vel_y; plain arithmetic when no field is near the limits |
| Kinematics.LiveBody | src/main.rs:93-95 | (one-step unfolding used by `RoomInvariant` and `SpawnTrack`) a live update moves the body whether or not the moved point passes the test |
| Kinematics.LiveUpdateEffects | src/main.rs:97-113 | a live update asks for exactly one operation: removal exactly when the moved point fails the test (the sprite dies), else placement at Top/Left of the moved point (the sprite lives) |
| Kinematics.UpdateKeepsLifecycle | src/main.rs:87-101 | `update` satisfies the lifecycle: dead sprites are fixed and silent, live ones emit one operation, `Remove` exactly when they die |
| Kinematics.IterateSplit | src/main.rs:61-67 | k steps then m more steps equal k + m steps, and their traces concatenate |
| Kinematics.IterateDead | src/main.rs:87-90 | under the lifecycle, any number of steps leave a dead sprite unchanged with an empty trace |
| Kinematics.IterateAfterDeath | src/main.rs:87-101 | under the lifecycle, once dead neither the state nor the trace ever changes again |
| Kinematics.TraceShapeOf | src/main.rs:97-113 | under the lifecycle, the trace has one entry per live step, and its only `Remove` is the last entry, exactly when the sprite has died |
| Kinematics.TraceAtOf | src/main.rs:97-113 | under the lifecycle, trace entry i is the single operation emitted by step i + 1 |
| Kinematics.IterateBody | src/main.rs:93-101 | for any step that moves live sprites by `move`, a sprite live after n steps is where n unchecked moves put it |
| Kinematics.IterateFollowsFlight | src/main.rs:93-101 | for any such step, a sprite is live after n steps iff it started live and each of the first n moved positions was shown |
| Kinematics.UpdateIsPhysics | src/main.rs:87-101 | (unfolding of `Next` used by `RunBody` and `RunFollowsFlight`) `update` moves a live sprite by the gravity step and keeps it exactly when the moved point passes the test; a removed sprite is untouched |
| Kinematics.RunStep | src/main.rs:65-67 | (one-step unfolding used by `Animate`) each timer firing is one more update, and appends what that update emits |
| Kinematics.RunSplit | src/main.rs:61-67 | the updates of `new` followed by those of the timer add up, state and trace |
| Kinematics.DeadIsAbsorbing | src/main.rs:87-90 | removal is absorbing: repeated updates of a removed sprite are a no-op with an empty trace |
| Kinematics.NothingAfterDeath | src/main.rs:97-101 | after the update that removes the sprite, no update changes it or shows it again |
| Kinematics.AliveBefore | src/main.rs:97-100 | a sprite live after n updates was live after all earlier ones |
| Kinematics.TraceShape | src/main.rs:97-113 | the trace of a live sprite is all placements, one per update while it lives, with a single `Remove` at the end once it has died |
| Kinematics.TraceAt | src/main.rs:97-113 | trace entry i is what update i + 1 asked for |
| Kinematics.RunBody | src/main.rs:93-101 | a sprite live after n updates is where n unchecked moves put it |
| Kinematics.RunFollowsFlight | src/main.rs:93-101 | a sprite is live after n updates iff it started live and each of the first n moved positions passed the test |
| Kinematics.PlainMove | src/main.rs:93-95 | a move that wraps nothing is the plain integer step (gravity first) |
| Kinematics.FlightIntegrated | src/main.rs:93-95 | n moves of a body far from the limits equal the unwrapped integration of the velocities |
| Kinematics.FlightClosedForm | src/main.rs:93-95 | n moves of a body far from the limits give vel_y - n, x + n vel_x and y + n vel_y - n(n+1)/2 |
| Lifetime.RoomInvariant | src/main.rs:93-100 | a live sprite moving at vel_x = 10 keeps it and uses up 10 of its horizontal room per update, across the wrap from Max to Min included |
| Lifetime.RemovedBy72 | src/main.rs:93-100 | every sprite that passes the spawn gate, anywhere in i32, has been removed by its 72nd update |
| Lifetime.LiveSpan | src/main.rs:93-100 | a spawned sprite is live only after at most 71 updates |
| Lifetime.FrozenAfter | src/main.rs:87-101 | from the 72nd update on, neither the sprite nor its trace changes |
| Lifetime.SpawnTrack | src/main.rs:93-101 | an ordinary spawn while live has vel_x = 10, vel_y = 15 - n, x = px + 10n, and lies strictly inside 40 < x < 760, 25 < y < 775 |
| Lifetime.SpawnClosedForm | src/main.rs:53-61 | after n updates a live ordinary spawn is at (px + 10n, py + 15n - n(n+1)/2) with velocity (10, 15 - n) |
| Lifetime.SpawnAliveIff | src/main.rs:93-101 | an ordinary spawn is live after n <= 72 updates iff every closed-form position 1..n passes the test |
| Lifetime.StepPlacement | src/main.rs:105-113 | each update of an ordinary spawn places its element with left in 1..719 and top in -199..549 |
| Lifetime.SpawnPlacements | src/main.rs:105-113 | every placement in an ordinary spawn's whole trace has left in 1..719 and top in -199..549 |
| Lifetime.CentreSpawn | src/main.rs:79-80 | the spawn at (400, 300) is live after exactly the first 35 updates |
| Lifetime.RisesAboveCanvas | src/main.rs:82 | the spawn at (400, 760) reaches height 774, passes the test and is drawn at top -199, left 370 |
| Lifetime.LeftEdgeRejected | src/main.rs:32-34 | a click at (5, 300) spawns nothing |
| Animation.Ferris.constructor | src/main.rs:53-59 | the new sprite is at the spawn point with velocity (10, 15), live, with an empty trace |
| Animation.Ferris.Update | src/main.rs:84-114 | the in-place update gives exactly the state `Next` of the old state and appends `Emitted` of it to the trace |
| Animation.Ferris.Animate | src/main.rs:65-76 | `ticks` timer firings give the state `Run` and append `RunEffects` |
| Animation.New | src/main.rs:29-61 | no sprite iff the spawn point fails the test; otherwise a fresh sprite after its first update, with that update's trace |
| Animation.SpawnAndAnimate | src/main.rs:29-77 | a spawn plus `ticks` firings gives `Run`/`RunEffects` of the spawn after ticks + 1 updates; after 71 firings the sprite is removed |
| Animation.MouseDown | src/main.rs:133-135 | a click spawns at (offset_x, 600 - offset_y), with the gate and first update of `New` |

## Left out

- DOM work is not modelled: creating, attaching, styling and removing elements, the `"{}px"` formatting, and the greeting paragraph. It is replaced by the ghost trace of `Effect`s.
- The timer and event wiring is out: `set_interval…`, the `Closure::wrap`/`forget` closures and `add_event_listener…`. They are foreign callbacks. The timer is modelled as the loop `Animate`, and the listener as the method `MouseDown`.
- `ANIM_DELAY` and its `f64` cast to 25 ms are out. They are floating point and only feed the timer.
- The `.unwrap()` panics on host calls are out. They are failures of the host API.
- A debug build's overflow panics are out. The model uses release-build wrap-around, which is where the bounds test's wrap cases come from.
- The timer is never cancelled. The model shows this only as `Update` doing nothing once the sprite is removed.
- `New` returns the sprite instead of moving it into the timer closure. `MouseDown` returns it too, and several sprites and their interleaved timers are not modelled.
- Kinematics.FlightClosedForm: stated only for bodies far from the i32 limits (`Modest`: positions within ±2^29, velocities within ±1024) and n <= 1024. Nearer the limits `LiveUpdate` gives the wrapping form.
- Lifetime.SpawnTrack: stated only for ordinary spawn points (within ±2^29). A spawn in the wrap region of the test runs through wrapped coordinates.
- Lifetime.SpawnClosedForm: stated only for ordinary spawn points, for the same reason.
- Lifetime.SpawnAliveIff: stated only for ordinary spawn points and n <= 72. Beyond 72 the sprite is removed in any case.
- Lifetime.StepPlacement: the left and top ranges are stated only for ordinary spawns. A sprite in the wrap region is drawn at offsets near the i32 limits.
- Lifetime.SpawnPlacements: stated only for ordinary spawns, like `StepPlacement`.
- Lifetime.CentreSpawn: states on which updates the sprite is live. The position x = 760 at removal follows from the closed form but is not a separate contract.
