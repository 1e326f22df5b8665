/**
 * The stateful half of the game: TrayGridBasedMover (TrayController.cs), the
 * TrayManager completion check and its singleton slot, and a stand-in for the
 * one UIManager call the check makes. The tray and the manager refer to each
 * other, so they share this module.
 *
 * A tray's `position` is its transform position (which Unity keeps equal to
 * the rigidbody's), `frozen` stands for `RigidbodyConstraints.FreezeAll`
 * (versus rotation and height only), and `velocity` is written only where the
 * source zeroes it; what the physics engine does between ticks is an input.
 */
module Trays {
  import opened Wrappers
  import opened Geometry
  import opened DragRules
  import GridPoints

  /** The part of UIManager the game logic touches: how often the win panel was shown. */
  class UIManager {
    var winSignals: nat

    constructor ()
      ensures winSignals == 0
    {
      winSignals := 0;
    }

    method ShowWinPanel()
      modifies this`winSignals
      ensures winSignals == old(winSignals) + 1
    {
      winSignals := winSignals + 1;
    }
  }

  class TrayGridBasedMover {
    var yFixed: real
    var dragThreshold: real
    /** The placement transforms; None is a destroyed (null) entry, a null list is the empty list. */
    var trayPlacements: seq<Option<Vec3>>

    var position: Vec3
    var velocity: Vec3
    var frozen: bool

    var lastInputPosition: Vec2
    var isDragging: bool
    var isMoving: bool
    var targetPosition: Vec3
    var startGridPosition: Vec3
    var gridVisualizer: GridPoints.GridVisualizer?
    var snappedToPlacement: bool

    /** The field initialisers followed by `Start`, for a tray standing at `position`. */
    constructor (position: Vec3, trayPlacements: seq<Option<Vec3>>, yFixed: real, dragThreshold: real)
      ensures this.position == position && this.trayPlacements == trayPlacements
      ensures this.yFixed == yFixed && this.dragThreshold == dragThreshold
      ensures targetPosition == position && startGridPosition == Zero && velocity == Zero
      ensures lastInputPosition == Vec2(0.0, 0.0) && gridVisualizer == null
      ensures !isDragging && !isMoving && !snappedToPlacement && !frozen
    {
      this.yFixed := yFixed;
      this.dragThreshold := dragThreshold;
      this.trayPlacements := trayPlacements;
      this.position := position;
      velocity := Zero;
      frozen := false;
      lastInputPosition := Vec2(0.0, 0.0);
      isDragging := false;
      isMoving := false;
      targetPosition := position;
      startGridPosition := Zero;
      gridVisualizer := null;
      snappedToPlacement := false;
    }

    predicate IsSnapped()
      reads this
    {
      snappedToPlacement
    }

    /** A mouse press starts a drag, unless the tray is placed or the press is on the UI. */
    method OnMouseDown(mousePosition: Vec2, pointerOverUI: bool)
      modifies this`lastInputPosition, this`isDragging
      ensures if old(snappedToPlacement) || pointerOverUI
              then lastInputPosition == old(lastInputPosition) && isDragging == old(isDragging)
              else lastInputPosition == mousePosition && isDragging
    {
      if snappedToPlacement {
        return;
      }
      if pointerOverUI {
        return;
      }
      lastInputPosition := mousePosition;
      isDragging := true;
    }

    /**
     * A mouse drag is handled only during a drag, while the tray is not moving
     * and not over the UI; `found` is what a scene search for the grid would give.
     */
    method OnMouseDrag(mousePosition: Vec2, pointerOverUI: bool, found: GridPoints.GridVisualizer?)
      modifies this`gridVisualizer, this`startGridPosition, this`targetPosition
      modifies this`isMoving, this`frozen, this`lastInputPosition
      ensures if !old(isDragging) || old(isMoving) || pointerOverUI then DragFieldsKept()
              else DragHandled(mousePosition, found)
    {
      if !isDragging || isMoving {
        return;
      }
      if pointerOverUI {
        return;
      }
      HandleDragging(mousePosition, found);
    }

    method OnMouseUp()
      modifies this`isDragging
      ensures !isDragging
    {
      isDragging := false;
    }

    /** A touch that begins on the tray starts a drag unless the tray is placed. */
    method OnTouchDown(touchPosition: Vec2)
      modifies this`lastInputPosition, this`isDragging
      ensures if old(snappedToPlacement)
              then lastInputPosition == old(lastInputPosition) && isDragging == old(isDragging)
              else lastInputPosition == touchPosition && isDragging
    {
      if snappedToPlacement {
        return;
      }
      lastInputPosition := touchPosition;
      isDragging := true;
    }

    method OnTouchDrag(touchPosition: Vec2, found: GridPoints.GridVisualizer?)
      modifies this`gridVisualizer, this`startGridPosition, this`targetPosition
      modifies this`isMoving, this`frozen, this`lastInputPosition
      ensures if !old(isDragging) || old(isMoving) then DragFieldsKept()
              else DragHandled(touchPosition, found)
    {
      if !isDragging || isMoving {
        return;
      }
      HandleDragging(touchPosition, found);
    }

    method OnTouchUp()
      modifies this`isDragging
      ensures !isDragging
    {
      isDragging := false;
    }

    /** None of the fields a drag may write has changed. */
    twostate predicate DragFieldsKept()
      reads this
    {
      && gridVisualizer == old(gridVisualizer)
      && startGridPosition == old(startGridPosition)
      && targetPosition == old(targetPosition)
      && isMoving == old(isMoving)
      && frozen == old(frozen)
      && lastInputPosition == old(lastInputPosition)
    }

    /**
     * The effect of HandleDragging(input): the grid is looked up once and kept;
     * without a grid, or for a drag no longer than the threshold, nothing else
     * changes; otherwise the tray remembers where it started, heads for
     * DragTarget in the drag's direction, is released and starts moving, and
     * the input becomes the new reference point.
     */
    twostate predicate DragHandled(input: Vec2, found: GridPoints.GridVisualizer?)
      reads this, gridVisualizer
    {
      var delta := Sub2(input, old(lastInputPosition));
      && gridVisualizer == (if old(gridVisualizer) == null then found else old(gridVisualizer))
      && if gridVisualizer == null || !DragAccepted(delta, dragThreshold) then
           && startGridPosition == old(startGridPosition)
           && targetPosition == old(targetPosition)
           && isMoving == old(isMoving)
           && frozen == old(frozen)
           && lastInputPosition == old(lastInputPosition)
         else
           && startGridPosition == position
           && targetPosition == DragTarget(gridVisualizer.gridPoints, position, DragDirection(delta))
           && isMoving
           && !frozen
           && lastInputPosition == input
    }

    method HandleDragging(inputPosition: Vec2, found: GridPoints.GridVisualizer?)
      modifies this`gridVisualizer, this`startGridPosition, this`targetPosition
      modifies this`isMoving, this`frozen, this`lastInputPosition
      ensures DragHandled(inputPosition, found)
    {
      if gridVisualizer == null {
        gridVisualizer := found;
        if gridVisualizer == null {
          return;
        }
      }
      var inputDelta := Sub2(inputPosition, lastInputPosition);
      if DragAccepted(inputDelta, dragThreshold) {
        var moveDir := DragDirection(inputDelta);
        var nextGridPoint := FindNextGridPoint(position, moveDir);
        startGridPosition := position;
        if !NearlyZero(nextGridPoint) {
          targetPosition := nextGridPoint;
        } else {
          targetPosition := Add(position, Scale(2.0, Axis(moveDir)));
        }
        assert targetPosition == DragTarget(gridVisualizer.gridPoints, position, moveDir);
        isMoving := true;
        frozen := false;
        lastInputPosition := inputPosition;
      }
    }

    /**
     * One physics tick, after the engine has moved the tray to `physicsPosition`:
     * a placed tray is left alone; otherwise the height is forced to yFixed, and
     * a moving tray less than 0.05 from its target (on the ground plane) is put
     * exactly on it, stopped and frozen.
     */
    method FixedUpdate(physicsPosition: Vec3)
      modifies this`position, this`velocity, this`isMoving, this`frozen
      ensures old(snappedToPlacement) ==>
                position == old(position) && velocity == old(velocity) && isMoving == old(isMoving) && frozen == old(frozen)
      ensures !old(snappedToPlacement) ==>
                var pos := Vec3(physicsPosition.x, yFixed, physicsPosition.z);
                if old(isMoving) && ShorterThan(PlanarSqDist(pos, targetPosition), 0.05) then
                  position == Vec3(targetPosition.x, yFixed, targetPosition.z) && velocity == Zero && !isMoving && frozen
                else
                  position == pos && velocity == old(velocity) && isMoving == old(isMoving) && frozen == old(frozen)
    {
      if snappedToPlacement {
        return;
      }
      position := Vec3(physicsPosition.x, yFixed, physicsPosition.z);
      if isMoving {
        var distance := PlanarSqDist(position, targetPosition);
        if ShorterThan(distance, 0.05) {
          velocity := Zero;
          position := Vec3(targetPosition.x, yFixed, targetPosition.z);
          isMoving := false;
          frozen := true;
        }
      }
    }

    /** The closest point of the grid in `moveDir` and more than 0.1 away; zero when there is none. */
    method FindNextGridPoint(currentPos: Vec3, moveDir: Direction) returns (bestPoint: Vec3)
      ensures gridVisualizer == null ==> bestPoint == Zero
      ensures gridVisualizer != null ==> bestPoint == NextGridPoint(gridVisualizer.gridPoints, currentPos, moveDir)
    {
      if gridVisualizer == null || |gridVisualizer.gridPoints| == 0 {
        return Zero;
      }
      var points := gridVisualizer.gridPoints;
      bestPoint := Zero;
      var found := false;
      var bestScore := 0.0;
      var i := 0;
      while i < |points|
        invariant 0 <= i <= |points|
        invariant ClosestCandidate(points[..i], currentPos, moveDir) == if found then Some(bestPoint) else None
        invariant !found ==> bestPoint == Zero
        invariant found ==> bestScore == SqDist(currentPos, bestPoint)
      {
        var point := points[i];
        assert points[..i + 1][..i] == points[..i];
        if Aligned(Axis(moveDir), Sub(point, currentPos)) {
          var distance := SqDist(currentPos, point);
          if (!found || distance < bestScore) && LongerThan(distance, 0.1) {
            bestScore := distance;
            bestPoint := point;
            found := true;
          }
        }
        i := i + 1;
      }
      assert points[..i] == points;
    }

    /** The first of the nearest non-null placements, or None when there is none. */
    method FindNearestPlacement() returns (nearest: Option<Vec3>)
      ensures nearest == NearestPlacement(trayPlacements, position)
    {
      if |trayPlacements| == 0 {
        return None;
      }
      nearest := None;
      var bestDistance := 0.0;
      var i := 0;
      while i < |trayPlacements|
        invariant 0 <= i <= |trayPlacements|
        invariant nearest == NearestPlacement(trayPlacements[..i], position)
        invariant nearest.Some? ==> bestDistance == SqDist(position, nearest.value)
      {
        assert trayPlacements[..i + 1][..i] == trayPlacements[..i];
        var placement := trayPlacements[i];
        if placement.Some? {
          var distance := SqDist(position, placement.value);
          if nearest.None? || distance < bestDistance {
            bestDistance := distance;
            nearest := placement;
          }
        }
        i := i + 1;
      }
      assert trayPlacements[..i] == trayPlacements;
    }

    /**
     * A collision: a placed tray ignores it; a wall of the tray's colour snaps
     * the tray onto the nearest placement, if any; any other wall sends the
     * tray back to where its last accepted drag started. `instance` is
     * `TrayManager.Instance`.
     */
    method OnCollisionEnter(tagMatches: bool, instance: TrayManager?)
      modifies this`position, this`velocity, this`frozen, this`snappedToPlacement, this`isMoving, this`isDragging
      modifies if instance == null then {} else instance.UiFrame()
      ensures old(snappedToPlacement) ==> Unmoved() && snappedToPlacement
      ensures !old(snappedToPlacement) && tagMatches ==>
                match NearestPlacement(trayPlacements, old(position))
                case None => Unmoved() && !snappedToPlacement
                case Some(p) =>
                  && position == Vec3(p.x, 1.0, p.z) && velocity == Zero && frozen && snappedToPlacement
                  && isMoving == old(isMoving) && isDragging == old(isDragging)
      ensures !old(snappedToPlacement) && !tagMatches ==>
                && position == Vec3(startGridPosition.x, 0.1, startGridPosition.z)
                && velocity == Zero && frozen && !isMoving && !isDragging && !snappedToPlacement
      ensures instance != null && instance.uiManager != null ==>
                instance.uiManager.winSignals == old(instance.uiManager.winSignals) +
                  (if !old(snappedToPlacement) && snappedToPlacement && instance.AllSnapped() then 1 else 0)
      ensures instance != null && this in instance.trays && old(instance.SignalMatchesCompletion()) ==>
                instance.SignalMatchesCompletion()
    {
      if snappedToPlacement {
        return;
      }
      if tagMatches {
        var nearestPlacement := FindNearestPlacement();
        if nearestPlacement.Some? {
          SnapToPlacement(nearestPlacement.value, instance);
        }
      } else {
        MoveBackToStartGrid();
      }
    }

    /** None of the fields a collision may write has changed. */
    twostate predicate Unmoved()
      reads this
    {
      && position == old(position)
      && velocity == old(velocity)
      && frozen == old(frozen)
      && isMoving == old(isMoving)
      && isDragging == old(isDragging)
    }

    method SnapToPlacement(placementPosition: Vec3, instance: TrayManager?)
      requires !snappedToPlacement
      modifies this`position, this`velocity, this`frozen, this`snappedToPlacement
      modifies if instance == null then {} else instance.UiFrame()
      ensures position == Vec3(placementPosition.x, 1.0, placementPosition.z)
      ensures velocity == Zero && frozen && snappedToPlacement
      ensures instance != null && instance.uiManager != null ==>
                instance.uiManager.winSignals == old(instance.uiManager.winSignals) + (if instance.AllSnapped() then 1 else 0)
      ensures instance != null && this in instance.trays && old(instance.SignalMatchesCompletion()) ==>
                instance.SignalMatchesCompletion()
    {
      if instance != null && this in instance.trays {
        // This tray is registered and not yet placed, so the game was not complete.
        var k :| 0 <= k < |instance.trays| && instance.trays[k] == this;
        assert !instance.AllSnapped();
      }
      velocity := Zero;
      frozen := true;
      position := Vec3(placementPosition.x, 1.0, placementPosition.z);
      snappedToPlacement := true;
      if instance != null {
        instance.CheckAllTraysPlaced();
      }
    }

    method MoveBackToStartGrid()
      modifies this`position, this`velocity, this`frozen, this`isMoving, this`isDragging
      ensures position == Vec3(startGridPosition.x, 0.1, startGridPosition.z)
      ensures velocity == Zero && frozen && !isMoving && !isDragging
    {
      velocity := Zero;
      frozen := true;
      position := Vec3(startGridPosition.x, 0.1, startGridPosition.z);
      isMoving := false;
      isDragging := false;
    }
  }

  /** The static field `TrayManager.Instance`. */
  class TrayManagerSlot {
    var instance: TrayManager?

    constructor ()
      ensures instance == null
    {
      instance := null;
    }
  }

  class TrayManager {
    var trays: seq<TrayGridBasedMover>
    var uiManager: UIManager?
    /** `Destroy(gameObject)` was requested. */
    var destroyed: bool

    constructor (uiManager: UIManager?)
      ensures this.uiManager == uiManager && trays == [] && !destroyed
    {
      this.uiManager := uiManager;
      trays := [];
      destroyed := false;
    }

    /** The first manager to wake fills the slot; any later one is destroyed and leaves it alone. */
    method Awake(slot: TrayManagerSlot, sceneTrays: seq<TrayGridBasedMover>)
      modifies slot, this`destroyed, this`trays
      ensures slot.instance == SlotAfter(old(slot.instance), [this])
      ensures destroyed == (old(slot.instance) != null || old(destroyed))
      ensures trays == sceneTrays
    {
      if slot.instance == null {
        slot.instance := this;
      } else {
        destroyed := true;
      }
      trays := sceneTrays;
    }

    function UiFrame(): set<UIManager>
      reads this
    {
      if uiManager == null then {} else {uiManager}
    }

    predicate AllSnapped()
      reads this, trays
    {
      forall i :: 0 <= i < |trays| ==> trays[i].snappedToPlacement
    }

    /**
     * The win panel has been shown once if every registered tray is placed
     * (and there is at least one), and not at all otherwise.
     */
    ghost predicate SignalMatchesCompletion()
      reads this, trays, uiManager
    {
      uiManager != null ==> uiManager.winSignals == if |trays| > 0 && AllSnapped() then 1 else 0
    }

    /** Shows the win panel exactly when every registered tray is placed and a UI manager is assigned. */
    method CheckAllTraysPlaced()
      modifies UiFrame()
      ensures uiManager != null ==> uiManager.winSignals == old(uiManager.winSignals) + (if AllSnapped() then 1 else 0)
    {
      for i := 0 to |trays|
        invariant forall j :: 0 <= j < i ==> trays[j].snappedToPlacement
      {
        if !trays[i].IsSnapped() {
          return;
        }
      }
      if uiManager != null {
        uiManager.ShowWinPanel();
      }
    }
  }

  /** The slot after managers wake in `order`, starting from `instance`. */
  function SlotAfter(instance: TrayManager?, order: seq<TrayManager>): TrayManager?
    decreases |order|
  {
    if order == [] then instance
    else SlotAfter(if instance == null then order[0] else instance, order[1..])
  }

  /** Whatever the order of wake-ups, the first manager to wake stays the instance. */
  lemma {:induction false} FirstAwakeWins(instance: TrayManager?, order: seq<TrayManager>)
    requires instance != null || order != []
    ensures SlotAfter(instance, order) == if instance != null then instance else order[0]
    decreases |order|
  {
    if order != [] {
      var next := if instance == null then order[0] else instance;
      FirstAwakeWins(next, order[1..]);
    }
  }
}
