# Tray puzzle game logic in Dafny

This project models the game logic of a small Unity puzzle game. The player
swipes coloured trays across a grid of tiles. A swipe moves a tray to the next
grid point in the swipe direction. A tray that hits a wall of its own colour
snaps onto the nearest placement outside the grid. A tray that hits any other
wall goes back to where its last move started. When every tray is placed, the
win panel is shown.

The model has these modules:

- `Geometry` (geometry.dfy): exact `real` vectors. Length comparisons are
  rewritten on squared lengths, so no square root is needed. The lemmas here
  show that each rewrite agrees with the length test it replaces.
- `GridLayout` (grid_manager.dfy): `GridManager.GenerateGrid`. The method
  returns the list of (name, position) pairs that it would instantiate. The
  lemmas prove:
  - the list has max(gridSizeX, 0) · max(gridSizeZ, 0) entries, in x-major order;
  - each tile sits at its index position;
  - the names `Tile_{x}_{z}` are injective;
  - for a tile size with positive x and z, the positions are pairwise distinct.
- `GridPoints` (grid_visualizer.dfy): `GridVisualizer.GenerateGridPoints`.
  Each tile with a renderer gives four points, taken from the centres of its
  2×2 sub-grid, and all of them lie on the plane y = fixedY.
- `DragRules` (drag_rules.dfy): the decisions inside `TrayGridBasedMover`, as
  pure functions:
  - the drag direction;
  - the next-grid-point search, with its zero-vector "none found" sentinel;
  - the drag target;
  - the nearest-placement search.

  Each search is proved to return the first of the closest qualifying
  entries.
- `Trays` (trays.dfy): the classes `TrayGridBasedMover` and `TrayManager`, and
  the static slot `TrayManager.Instance`. Their fields are updated in place by
  the event handlers, and the two searches are loops. The drag handlers, the
  two searches and the collision handler are proved against the functions of
  `DragRules`; the other methods state their new state directly. A collision, and the snap it may
  cause, of a tray registered with the manager preserves this invariant: the
  win panel has been shown once when every registered tray is placed, and not
  at all before. A direct second call of the completion check with every tray
  placed shows the panel a second time; the invariant is not claimed for it.

Several engine values become parameters of the modelled methods:

- the position after a physics step;
- whether a collision's tag matches the tray's;
- whether the pointer is over the UI;
- the result of the scene search for the grid visualizer;
- the scene's trays.

A Unity transform becomes a `Vec3`. A null reference in a list becomes `None`.

## Model

| member | source | states |
|---|---|---|
| Geometry.LongerThanIsLengthTest | Assets/Scripts/TrayController.cs:126 | for a length m ≥ 0, the squared test `LongerThan(m², t)` holds exactly when m > t, for every threshold t, negative ones included |
| Geometry.ShorterThanIsLengthTest | Assets/Scripts/TrayController.cs:171-174 | for a length m ≥ 0, `ShorterThan(m², t)` holds exactly when m < t |
| Geometry.SquareMonotonic | Assets/Scripts/TrayController.cs:199-203 | of two non-negative lengths, the one with the smaller square is the smaller, so both searches choose the same entry whether they compare distances or squared distances |
| DragRules.DragAccepted | Assets/Scripts/TrayController.cs:126 | the squared form of `inputDelta.magnitude > dragThreshold`; DragAcceptedIsMagnitudeTest states the agreement |
| DragRules.DragAcceptedIsMagnitudeTest | Assets/Scripts/TrayController.cs:126 | for a drag of length m, the drag is accepted exactly when m > dragThreshold |
| DragRules.DragDirection | Assets/Scripts/TrayController.cs:128-137 | the direction is horizontal exactly when \|dx\| > \|dy\| (ties go to the z axis); no axis has a larger projection of the drag; right and forward need a strictly positive component, and left and back a non-positive one |
| DragRules.AlignedIsNormalizedDotTest | Assets/Scripts/TrayController.cs:195-197 | for a vector d of length m, the square-root-free `Aligned(axis, d)` holds exactly when `Dot(axis, d.normalized) > 0.7`; the zero vector, which Unity normalises to zero, is never aligned |
| DragRules.ClosestCandidateIsFirstClosest | Assets/Scripts/TrayController.cs:190-208 | the loop's running best is None exactly when no point qualifies (direction and > 0.1 distance filter); otherwise it is a listed qualifying point that no qualifying point is strictly closer than, and that every earlier qualifying point is strictly farther than (the first minimum wins) |
| DragRules.NextGridPointIsFirstClosest | Assets/Scripts/TrayController.cs:185-209 | FindNextGridPoint answers zero when no point qualifies, including for an empty list; otherwise it answers the first closest qualifying point |
| DragRules.NextGridPointIsCandidate | Assets/Scripts/TrayController.cs:197-203 | a non-zero answer is one of the listed points and passes both filters |
| Geometry.HeightKeepsFromZero | Assets/Scripts/TrayController.cs:143 | a vector whose height y has y² ≥ 1e-10 never compares equal to `Vector3.zero` under Unity's tolerance |
| DragRules.NextGridPointAwayFromZero | Assets/Scripts/TrayController.cs:143 | when no listed point compares equal to zero under Unity's tolerance, the answer compares equal to zero exactly when no point qualifies |
| DragRules.GeneratedPointsNeverReadAsNone | Assets/Scripts/TrayController.cs:143-150 | for points generated at a height with \|fixedY\| ≥ 1e-5, the sentinel is never ambiguous, so the fallback step is taken exactly when no point qualifies |
| DragRules.NearZeroGridPointIsDropped | Assets/Scripts/TrayController.cs:143-150 | a qualifying grid point that compares equal to zero (at the origin, or at a height below 1e-5) is found by the search but read as "none", so the drag target is the two-unit fallback step |
| DragRules.DragTarget | Assets/Scripts/TrayController.cs:139-150 | the target of an accepted drag is one of the grid points or the fallback step, current position + 2·direction |
| DragRules.DragTargetIsAhead | Assets/Scripts/TrayController.cs:139-150 | the target of an accepted drag is always ahead of the tray in the drag direction (it passes the 0.7 direction test), whether it is a grid point or the fallback step |
| DragRules.FallbackStepIsAligned | Assets/Scripts/TrayController.cs:147-150 | the fallback target, current position + 2·direction, lies in the drag direction |
| DragRules.NearestPlacementIsFirstNearest | Assets/Scripts/TrayController.cs:233-254 | the nearest-placement fold is None exactly when every entry is null; otherwise it is a non-null entry that is no farther than any other non-null entry and strictly nearer than every earlier one |
| GridLayout.NatToStringDigits | Assets/Scripts/GridManager.cs:46 | the decimal rendering of an index is a non-empty string of digits |
| GridLayout.ParseNatToString | Assets/Scripts/GridManager.cs:46 | reading the decimal rendering back gives the index (round trip) |
| GridLayout.NatToStringInjective | Assets/Scripts/GridManager.cs:46 | different indices render differently |
| GridLayout.UnderscoreAfterDigits | Assets/Scripts/GridManager.cs:46 | in `digits + "_" + rest`, the first underscore sits right after the digits |
| GridLayout.SplitAtUnderscore | Assets/Scripts/GridManager.cs:46 | `digits + "_" + rest` splits back uniquely into its two parts |
| GridLayout.TileNameInjective | Assets/Scripts/GridManager.cs:46 | `Tile_{x}_{z}` determines both x and z |
| GridLayout.RowAt | Assets/Scripts/GridManager.cs:37-46 | the inner loop for column x yields nz tiles, and its z-th tile is tile (x, z) |
| GridLayout.RowLength | Assets/Scripts/GridManager.cs:37 | the inner loop yields nz tiles |
| GridLayout.LayoutLength | Assets/Scripts/GridManager.cs:35-38 | the grid has nx · nz tiles |
| GridLayout.LayoutAt | Assets/Scripts/GridManager.cs:35-46 | tile (x, z) is at index x·nz + z, named `Tile_{x}_{z}` and placed at (x·size.x, 0, z·size.z) |
| GridLayout.LayoutIndex | Assets/Scripts/GridManager.cs:35-46 | every entry of the list is some tile (x, z) with x < nx and z < nz, at index x·nz + z |
| GridLayout.LayoutNamesDistinct | Assets/Scripts/GridManager.cs:35-46 | no two tiles of one grid share a name |
| GridLayout.TilePositionsDistinct | Assets/Scripts/GridManager.cs:39-43 | with size.x > 0 and size.z > 0, different index pairs give different positions |
| GridLayout.ScaleInjective | Assets/Scripts/GridManager.cs:40-42 | with a positive tile size, different indices give different coordinates |
| GridLayout.LayoutPositionsDistinct | Assets/Scripts/GridManager.cs:35-43 | with size.x > 0 and size.z > 0, no two tiles of one grid share a position |
| GridLayout.GenerateGrid | Assets/Scripts/GridManager.cs:16-49 | with no prefab, or a prefab without a renderer, nothing is produced; otherwise the nested loops produce exactly `Layout(max(gridSizeX,0), max(gridSizeZ,0), rendererSize)` |
| GridPoints.TilePointsAreQuarterOffsets | Assets/Scripts/GridVisualizer.cs:43-54 | a tile's four points are centre + (∓size.x/4, ·, ∓size.z/4), at height fixedY, in the order (−,−), (−,+), (+,−), (+,+) |
| GridPoints.GridPointsCount | Assets/Scripts/GridVisualizer.cs:33-58 | the list has 4 × (number of tiles with a renderer) points |
| GridPoints.GridPointsOnPlane | Assets/Scripts/GridVisualizer.cs:50-54 | every point has y == fixedY, whatever the tile's centre height |
| GridPoints.GridPointsGroupedByTile | Assets/Scripts/GridVisualizer.cs:33-56 | the four points of the k-th tile with a renderer are consecutive, right after those of the earlier rendered tiles |
| GridPoints.GridPointsFromRenderedTiles | Assets/Scripts/GridVisualizer.cs:33-58 | every point is one of the four points of a tile with a renderer |
| GridPoints.GridVisualizer.constructor | Assets/Scripts/GridVisualizer.cs:12-21 | the grid parent is the result of the scene search, null when nothing was found, and the point list starts empty |
| GridPoints.GridVisualizer.GenerateGridPoints | Assets/Scripts/GridVisualizer.cs:27-60 | the list is rebuilt from scratch: it is empty without a grid parent, and otherwise it equals `GridPointsOf(tiles, fixedY)`; it does not depend on the previous list, so regenerating with unchanged tiles gives the same list |
| Trays.UIManager.ShowWinPanel | Assets/Scripts/UIManager.cs:97-101 | each call counts one win signal |
| Trays.TrayGridBasedMover.constructor | Assets/Scripts/TrayController.cs:9-34 | initial state: not dragging, not moving, not snapped, released; the target is the starting position; the start anchor is the zero vector |
| Trays.TrayGridBasedMover.OnMouseDown | Assets/Scripts/TrayController.cs:67-73 | ignored once snapped or over the UI; otherwise it records the input and starts a drag |
| Trays.TrayGridBasedMover.OnMouseDrag | Assets/Scripts/TrayController.cs:75-81 | ignored unless dragging, not moving and not over the UI; otherwise it has the effect of HandleDragging |
| Trays.TrayGridBasedMover.OnMouseUp | Assets/Scripts/TrayController.cs:83-86 | always ends the drag |
| Trays.TrayGridBasedMover.OnTouchDown | Assets/Scripts/TrayController.cs:88-94 | ignored once snapped; otherwise it records the input and starts a drag |
| Trays.TrayGridBasedMover.OnTouchDrag | Assets/Scripts/TrayController.cs:96-101 | ignored unless dragging and not moving; otherwise it has the effect of HandleDragging |
| Trays.TrayGridBasedMover.OnTouchUp | Assets/Scripts/TrayController.cs:103-106 | always ends the drag |
| Trays.TrayGridBasedMover.IsSnapped | Assets/Scripts/TrayController.cs:277-280 | reports whether the tray has been snapped onto a placement |
| Trays.TrayGridBasedMover.HandleDragging | Assets/Scripts/TrayController.cs:108-156 | the grid is looked up once and then kept; without a grid, or for a drag not longer than dragThreshold, nothing changes; otherwise the start anchor becomes the current position, the target becomes `DragTarget` in `DragDirection(delta)`, the tray starts moving and is released, and the input becomes the new reference; the position never changes |
| Trays.TrayGridBasedMover.FixedUpdate | Assets/Scripts/TrayController.cs:158-183 | a snapped tray is left alone; otherwise the height is forced to yFixed, and a moving tray that is less than 0.05 from its target on the ground plane is put at (target.x, yFixed, target.z), stopped, frozen and no longer moving |
| Trays.TrayGridBasedMover.FindNextGridPoint | Assets/Scripts/TrayController.cs:185-209 | the loop computes `NextGridPoint` over the visualizer's points, and is zero without a visualizer |
| Trays.TrayGridBasedMover.FindNearestPlacement | Assets/Scripts/TrayController.cs:233-254 | the loop computes `NearestPlacement` over the placements from the current position |
| Trays.TrayGridBasedMover.OnCollisionEnter | Assets/Scripts/TrayController.cs:211-231 | a snapped tray is unaffected; a matching wall snaps the tray onto the nearest placement's (x, 1.0, z), or changes nothing without a placement; any other wall sends the tray to (start.x, 0.1, start.z), stopped and frozen, and ends both moving and dragging, whether or not it was moving; a win is signalled only by the snap that completes the set, and the completion invariant is preserved |
| Trays.TrayGridBasedMover.SnapToPlacement | Assets/Scripts/TrayController.cs:256-265 | the tray is stopped, frozen, put at (p.x, 1.0, p.z) and marked snapped before the completion check runs |
| Trays.TrayGridBasedMover.MoveBackToStartGrid | Assets/Scripts/TrayController.cs:267-276 | the tray is stopped, frozen, put at (start.x, 0.1, start.z), and neither moving nor dragging |
| Trays.TrayManager.Awake | Assets/Scripts/TrayManager.cs:11-19 | the first manager to wake fills the empty slot; a later one is marked for destruction and leaves the slot alone; either way the trays are registered |
| Trays.TrayManager.CheckAllTraysPlaced | Assets/Scripts/TrayManager.cs:21-44 | the win signal is issued once exactly when every registered tray is snapped (vacuously for none) and a UI manager is assigned, and otherwise not at all |
| Trays.FirstAwakeWins | Assets/Scripts/TrayManager.cs:13-16 | whatever the wake-up order, the slot ends up holding the first manager that woke |

## Left out

- UIManager.cs is not part of this model beyond `ShowWinPanel`. The stand-in counts its calls and leaves out the panels, buttons, time scale, first-play flag, scene reload, quit and tutorial.
- Physics is not modelled: the force integration in `FixedUpdate`, velocities between ticks, angular velocity and the rigidbody constraints. `FixedUpdate` takes the post-physics position as input. `velocity` is written only where the source zeroes it, and `frozen` stands for `FreezeAll`.
- `rb.MovePosition` takes effect at the next physics step in Unity. Here it is applied at once.
- `Start` of `TrayGridBasedMover` is modelled by the constructor only for its writes: the target becomes the position, and the rigidbody constraints, which freeze rotation and height only, leave the tray not frozen. Its lookups (`GetComponent<Rigidbody>`, `Camera.main`, `gameObject.tag`) are left out.
- `Update` of `TrayGridBasedMover`: the touch raycast becomes direct calls of the touch handlers.
- `IsPointerOverUI` becomes a boolean parameter.
- Scene lookups become inputs:
  - `FindObjectOfType<GridVisualizer>` becomes the `found` parameter;
  - `FindObjectsOfType<TrayGridBasedMover>` becomes `sceneTrays`;
  - `GameObject.Find("GridContainer")` becomes the visualizer's `gridParent`.
- `GridVisualizer.Start`'s scene search becomes the constructor's `gridParent` argument. Its per-frame `Update` is not modelled: callers call `GenerateGridPoints` directly. `OnDrawGizmos` changes no state.
- `Instantiate` and the parenting under `gridParent`: `GenerateGrid` returns the names and positions instead of creating objects.
- Renderer bounds are inputs: `Prefab.rendererSize` and `TileChild.renderer`.
- `Debug.Log`, `LogWarning` and `LogError` change no state.
- Floating point:
  - coordinates are exact reals;
  - `Vector3.normalized` returns zero below a small epsilon in Unity, and here only for a zero vector;
  - Unity's approximate `Vector3 ==`, used for the sentinel test, is modelled with a tolerance of exactly 1e-10 on the squared length; in single precision the constant is 9.99999944e-11;
  - `float.MaxValue` as the initial best score becomes a "nothing found yet" state.
- `moveForce` only feeds the force integration and is left out.
- `trayTag` and `CompareTag` become the `tagMatches` parameter.
- `Destroy(gameObject)` becomes the `destroyed` flag. Unity destroys the object at the end of the frame, so `Awake` still registers trays, as the source does.
- Unity overloads `== null` so that a destroyed object also reads as null. The model's null tests are exact. So `Instance == null` (TrayManager.cs:13) in `Awake` does not see a manager that was destroyed, for example by the scene reload in `RestartGame` (UIManager.cs:88); `TrayManager.Awake` tests the slot for an exact null. The same holds for the visualizer test in `HandleDragging` and the grid parent test in `GenerateGridPoints`.
- A null `trayPlacements` list is modelled as an empty sequence. Both make `FindNearestPlacement` return null.
- Trays.TrayGridBasedMover.SnapToPlacement: when `TrayManager.Instance` is null, C# throws a NullReferenceException after the tray has been marked snapped. The model makes no completion check and no other change.
- Trays.TrayGridBasedMover.OnCollisionEnter: "the win signal fires exactly once per session" is stated as preservation of `SignalMatchesCompletion` by a tray registered with the manager. With no trays snapped and no signals, the invariant holds at the start. The other handlers do not write the snapped flags or the signal count. No theorem over whole event sequences is stated.

## Notes on the source's behaviour

- The drag handlers do not check `snappedToPlacement`. A tray snapped while a drag was in progress and not moving can still accept a drag. That drag sets a new target and clears `frozen`, which in Unity lifts `FreezeAll`. The model's position never changes after a snap, because `FixedUpdate` and `OnCollisionEnter` ignore snapped trays.
- Before the first accepted drag, `startGridPosition` is the zero vector. A collision with a non-matching wall then sends the tray to (0, 0.1, 0).
- The "none found" sentinel of `FindNextGridPoint` is the zero vector, and Unity's `!=` treats a vector shorter than 1e-5 as zero. A genuine grid point that close to the origin is therefore dropped (`NearZeroGridPointIsDropped`). This cannot happen for points generated at a height with |fixedY| ≥ 1e-5 (`GeneratedPointsNeverReadAsNone`); for a smaller non-zero `fixedY`, points near the origin are dropped.
