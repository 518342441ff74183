# CuteCompanion core in Dafny

CuteCompanion is a menu-bar "virtual pet". A sprite animates in the menu bar and
reacts to mouse motion. This project models and proves the two components that
hold its logic.

- **Sprite frames and animation** (`SpriteManager`). A `SpriteModel` descriptor
  gives the frame size, `scale`, `yOffset`, `cutLeft` and `cutRight`. Together with
  the size of a sprite sheet (one horizontal strip of equal frames), it determines
  an ordered list of frames. Each frame has a crop rectangle, a destination canvas
  and a draw rectangle that pushes the trimmed margins out of view.
  - Module `SpriteGeometry` (`sprite_geometry.dfy`) holds the catalog and the
    geometry as pure functions, with lemmas about them.
  - Module `SpriteAnimation` (`sprite_manager.dfy`) holds the controller as the
    class `SpriteManager`. Its fields are `frames`, `frameIndex`, `isAnimating`,
    `currentFrame`, `currentSprite`, `alwaysAnimate` and the tick timer, kept as a
    presence flag. Its object invariant `Valid()` says three things:
    - animating holds exactly when one timer is live;
    - the cursor is in range and names the frame shown;
    - an idle manager rests on frame 0.
- **Motion detector** (`MouseMonitor`). An edge-triggered Still/Moving machine fed
  by polled mouse positions, with a trailing debounce that fires the stop event.
  - Module `Motion` (`mouse_monitor.dfy`) holds the class `MouseMonitor`. Its
    fields are `lastLocation`, `isMoving`, `polling`, `debounceArmed` and a ghost
    trace `events` of the callbacks fired. Its invariant says that moves and stops
    alternate, starting with a move.
  - Module `MotionTiming` (`motion_timing.dfy`) models the same machine in integer
    milliseconds: a poll every 100, and a stop deadline 200 after the last change.
    A stop timer due strictly between two polls fires before the later poll; one due
    at a poll's own time fires after it. This model covers uninterrupted polling.
    After `StopMonitoring` while moving, the class can be moving with no stop timer,
    a state the timing model excludes. `MotionTiming.TimedPoll` runs `CheckMouse`,
    then `DebounceFire` when it is due, and shows that the class ends where `Poll` says.
- Module `Coordinator` (`coordinator.dfy`) composes the two components the way the
  app's coordinator wires them.

Modelling choices:
- A bitmap is reduced to its width, its height and the set of frame indices whose
  crop the image backend refuses (`Sheet.badCrops`). Those frames are skipped.
- Asset loading becomes an `Option<Sheet>` parameter. The mouse position becomes
  a `Point` parameter.
- Every timer firing is an explicit method call:
  - `SpriteManager.NextFrame` is the animation tick;
  - `MouseMonitor.CheckMouse` is the poll;
  - `MouseMonitor.DebounceFire` is the expiry of the stop timer.

  Each of these requires its timer to be present, because only that timer calls it.
- `Int(totalWidth / frameWidth)` is integer floor division on non-negative whole
  numbers. A frame width of 0 makes that conversion trap in the source, so loading
  requires a positive frame width (`Loadable`). Every catalog sprite meets this on
  any sheet of positive height.

Behaviour of the code that the model keeps, though a reader might expect otherwise:
- `stopAnimation` does not consult `alwaysAnimate`. The next motion stop therefore
  stops an animation that `alwaysAnimate` started (`Coordinator.AlwaysAnimateThenMouseStop`).
- When a sprite's asset fails to load, `frames` becomes empty but `currentFrame`
  keeps showing the previous sprite's first frame. It is not reset to a placeholder.
- A frame list may be empty. A sheet narrower than one frame, or a missing asset,
  leaves it empty.

## Model

| member | source | states |
|---|---|---|
| `SpriteGeometry.FrameSizeDefaults` | CuteCompanion/SpriteManager.swift:73-74 | an absent frame height is the sheet height; an absent frame width is the frame height (square frames) |
| `SpriteGeometry.FrameCount` | CuteCompanion/SpriteManager.swift:76-77 | the frame count n is the floor of width / frameWidth: n whole frames fit in the strip and n + 1 do not |
| `SpriteGeometry.FramesUpTo` | CuteCompanion/SpriteManager.swift:79-111 | attempting indices below n yields at most n frames, in strictly increasing index order; each has an index below n whose crop succeeded, and is that index's frame geometry |
| `SpriteGeometry.FramesUpToComplete` | CuteCompanion/SpriteManager.swift:79-111 | no frame is lost: every index below n whose crop succeeds appears in the list |
| `SpriteGeometry.CropRectsTile` | CuteCompanion/SpriteManager.swift:80-81 | crop rectangles are adjacent (each starts where the previous ends) and earlier ones lie wholly left of later ones, so they never overlap |
| `SpriteGeometry.CropRectInStrip` | CuteCompanion/SpriteManager.swift:76-81 | every attempted crop rectangle starts at or after 0 and its right edge is at most the sheet width |
| `SpriteGeometry.SheetFramesIndices` | CuteCompanion/SpriteManager.swift:76-111 | a loaded sheet yields at most frameCount frames, in strictly increasing index order, one for exactly each index below frameCount whose crop succeeds |
| `SpriteGeometry.SheetFramesGeometry` | CuteCompanion/SpriteManager.swift:79-105 | each frame of a loaded sheet has crop (i*fw, 0, fw, fh) lying inside the strip, canvas ((fw - cutLeft - cutRight) * scale, fh * scale), and draw rect (-cutLeft*scale, -yOffset, fw*scale, fh*scale) |
| `SpriteGeometry.AllCropsSucceed` | CuteCompanion/SpriteManager.swift:79-111 | when no crop fails, the list has exactly n frames and frame k is the frame of index k |
| `SpriteGeometry.EvenStripYieldsAllFrames` | CuteCompanion/SpriteManager.swift:76-79 | on a strip that is a whole number of frames wide, with no failed crop, the frame count times the frame width is the sheet width |
| `SpriteGeometry.VisibleColumns` | CuteCompanion/SpriteManager.swift:100-105 | with positive scale, a source column lands wholly on the canvas iff it is in [cutLeft, frameWidth - cutRight); the drawn frame spans the full canvas height, shifted by yOffset |
| `SpriteGeometry.CatalogWellFormed` | CuteCompanion/SpriteManager.swift:29-46 | every catalog entry has positive scale and positive height, keeps a positive width after both cuts, and cuts nothing when it has no width |
| `SpriteGeometry.WellFormedFramesHavePositiveSize` | CuteCompanion/SpriteManager.swift:86-92 | a well-formed sprite loads from any sheet of positive height without trapping, and every frame canvas has positive width and height |
| `SpriteGeometry.CatalogNamesUnique` | CuteCompanion/SpriteManager.swift:29-46 | no two catalog entries share a display name |
| `SpriteGeometry.CherryFrameSize` | CuteCompanion/SpriteManager.swift:37 | "Cherry" (80 x 64, cuts 20 and 10, scale 1) renders 50 x 64 frames |
| `SpriteGeometry.SquareStripExample` | CuteCompanion/SpriteManager.swift:76-92 | a 32 x 32 uncut descriptor over a 128 x 32 strip gives four 32 x 32 frames, indices 0 to 3 |
| `SpriteAnimation.SpriteManager.constructor` | CuteCompanion/SpriteManager.swift:53-57 | starts valid and idle, on the first catalog sprite, with that sprite's frames loaded and frame 0 shown if there is one |
| `SpriteAnimation.SpriteManager.ChangeSprite` | CuteCompanion/SpriteManager.swift:59-63 | afterwards the manager is idle with no timer and frameIndex 0, holding the new sprite and its frames; it shows the new frame 0, or, when none loaded, still the previous sprite's frame 0 |
| `SpriteAnimation.SpriteManager.LoadSprites` | CuteCompanion/SpriteManager.swift:65-116 | whatever the old list, frames becomes exactly the frames of the loaded sheet (empty on a missing asset); frame 0 is shown if there is one, otherwise the shown frame is unchanged |
| `SpriteAnimation.SpriteManager.StartAnimation` | CuteCompanion/SpriteManager.swift:118-128 | a no-op when already animating; otherwise it starts animating with exactly one live timer |
| `SpriteAnimation.SpriteManager.StopAnimation` | CuteCompanion/SpriteManager.swift:130-138 | from any state: not animating, no timer, no live timer, frameIndex 0, frame 0 shown when there are frames (the rest pose) |
| `SpriteAnimation.SpriteManager.NextFrame` | CuteCompanion/SpriteManager.swift:140-144 | a no-op on an empty list; otherwise frameIndex becomes (frameIndex + 1) mod the frame count and that frame is shown, keeping the invariant |
| `SpriteAnimation.SpriteManager.SetAlwaysAnimate` | CuteCompanion/SpriteManager.swift:19-27 | setting true leaves the manager animating, with frameIndex and the shown frame unchanged; setting false leaves it idle on frame 0, showing frame 0 when there are frames and keeping the shown frame otherwise |
| `SpriteAnimation.SpriteManager.GetPreviewFrames` | CuteCompanion/SpriteManager.swift:147-184 | returns exactly the frames a load would produce, at most frameCount of them, each with the descriptor's canvas size; it changes no field |
| `Motion.AlternatingBalance` | CuteCompanion/MouseMonitor.swift:34-44 | in an alternating trace, the moves equal the stops plus the trace length mod 2 |
| `Motion.AlternatingIffNoRepeat` | CuteCompanion/MouseMonitor.swift:34-44 | a trace alternates iff it starts with a move and never repeats an event twice in a row |
| `Motion.AlternatingExtend` | CuteCompanion/MouseMonitor.swift:34-44 | appending an event keeps a trace alternating iff it is the event due next |
| `Motion.MouseMonitor.constructor` | CuteCompanion/MouseMonitor.swift:7-10 | starts still at the origin, with no poll, no debounce and no events |
| `Motion.MouseMonitor.StartMonitoring` | CuteCompanion/MouseMonitor.swift:12-19 | records the current position as lastLocation and installs the poll, so a poll at the same position changes nothing |
| `Motion.MouseMonitor.StopMonitoring` | CuteCompanion/MouseMonitor.swift:21-26 | cancels the poll and any pending debounce and leaves isMoving and lastLocation as they were, so no stop can fire until monitoring restarts |
| `Motion.MouseMonitor.CheckMouse` | CuteCompanion/MouseMonitor.swift:28-45 | an unchanged position changes nothing; a changed one becomes lastLocation, fires a move iff the machine was still, and leaves it moving with one debounce armed |
| `Motion.MouseMonitor.DebounceFire` | CuteCompanion/MouseMonitor.swift:41-44 | expiry sets the machine still, disarms the debounce and fires exactly one stop |
| `Motion.MonitorBalance` | CuteCompanion/MouseMonitor.swift:34-44 | moves fired minus stops fired is 1 while moving and 0 while still |
| `MotionTiming.LateStopComesFirst` | CuteCompanion/MouseMonitor.swift:31-44 | a stop timer due strictly before the next poll fires first: a change then seen gives a stop and then a fresh move, and a quiet poll gives just the stop |
| `MotionTiming.NoExpiryBetweenPolls` | CuteCompanion/MouseMonitor.swift:16-18 | on a valid clock the pending deadline is a positive whole number of poll intervals ahead, so no stop timer falls due strictly between two polls |
| `MotionTiming.PollValid` | CuteCompanion/MouseMonitor.swift:28-45 | a poll keeps the invariant and fires at most one event: a move iff a change is seen while still, a stop iff a quiet poll comes while moving at least 200 ms after the last change |
| `MotionTiming.RunValid` | CuteCompanion/MouseMonitor.swift:16-18 | any sequence of polls keeps the invariant (events alternate) and advances time by 100 ms per poll |
| `MotionTiming.ContinuousMotionNeverStops` | CuteCompanion/MouseMonitor.swift:31-44 | from a valid clock, if motion is seen on every poll, at most one move fires (none if already moving), no stop fires, and the deadline stays 200 ms ahead; this rests on the 200 ms debounce outlasting the 100 ms poll interval |
| `MotionTiming.QuietWithoutDeadline` | CuteCompanion/MouseMonitor.swift:41-44 | with no debounce pending, quiet polls fire nothing and change no state |
| `MotionTiming.SingleChangeThenSilence` | CuteCompanion/MouseMonitor.swift:31-44 | one change from stillness, then k quiet polls, fires one move and, once k >= 2 (200 ms), exactly one stop, never more |
| `MotionTiming.OneSecondOfMotion` | CuteCompanion/MouseMonitor.swift:16-18 | ten polls in a row that all see motion fire exactly one move and no stop |
| `MotionTiming.TimedPoll` | CuteCompanion/MouseMonitor.swift:28-45 | on a monitor that agrees with a valid clock, `CheckMouse` and then `DebounceFire` when due leave the monitor's motion state, stop timer and callbacks exactly as `Poll` computes |
| `Coordinator.AlwaysAnimateThenMouseStop` | CuteCompanion/CuteCompanionApp.swift:18-28 | with the move and stop callbacks forwarded to start and stop, alwaysAnimate on and then one movement with its debounce expiry leaves the manager idle on frame 0 while alwaysAnimate is still true |

## Left out

- Pixel work is not modelled: bitmap contents, `cgImage(forProposedRect:)`, the internals of `cropping(to:)`, `lockFocus`/`draw`, and nearest-neighbour interpolation. Crop success is the input set `Sheet.badCrops`. A frame is its geometry record.
- Floating point is not modelled. Frame sizes and cuts are whole numbers (`nat`). `scale` and `yOffset` are exact reals, with no rounding. Fractional frame sizes in a descriptor are not covered.
- Timers, the run loop and `DispatchQueue.main.async` are not modelled. Each timer is a presence flag, and each firing is an explicit call. In `SpriteManager`, the 0.1 s tick interval appears only as the order of calls. The coordinator's asynchronous dispatch is modelled as an immediate call.
- `MouseMonitor.StartMonitoring` requires that monitoring is not already running. A second call in the source would leak the first poll timer.
- `NSEvent.mouseLocation` and `NSImage(named:)` are parameters. `print` logging is dropped.
- The callbacks `onMouseMove`/`onMouseStop` are optional closures in the source. The model records each firing in `events` whether or not a closure is set.
- `@Published`, `ObservableObject`, `Identifiable`/`Hashable`, the `UUID` identity of `SpriteModel`, and weak self references are not modelled. Descriptor equality is structural.
- CuteCompanion/SpriteSelectionView.swift is not part of this model. Its preview cycle repeats `NextFrame`'s index step.
- The menu and window code of CuteCompanion/CuteCompanionApp.swift is not part of this model.
