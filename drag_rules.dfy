/**
 * The decision rules inside TrayGridBasedMover (TrayController.cs), as
 * functions: which direction a drag means, which grid point a drag moves the
 * tray to, and which placement a matching collision snaps it to. The class
 * in trays.dfy runs the source's loops and is proved to compute these.
 */
module DragRules {
  import opened Wrappers
  import opened Geometry
  import GridPoints

  /** The four move directions HandleDragging chooses from. */
  datatype Direction = Right | Left | Forward | Back

  /** `Vector3.right`, `.left`, `.forward` and `.back`. */
  function Axis(d: Direction): Vec3
  {
    match d
    case Right => Vec3(1.0, 0.0, 0.0)
    case Left => Vec3(-1.0, 0.0, 0.0)
    case Forward => Vec3(0.0, 0.0, 1.0)
    case Back => Vec3(0.0, 0.0, -1.0)
  }

  /** A screen-space drag seen on the ground: screen x is world x, screen y is world z. */
  function OnGround(delta: Vec2): Vec3
  {
    Vec3(delta.x, 0.0, delta.y)
  }

  /** `inputDelta.magnitude > dragThreshold`. */
  predicate DragAccepted(delta: Vec2, dragThreshold: real)
  {
    LongerThan(SqNorm2(delta), dragThreshold)
  }

  /** DragAccepted is the source's test on the drag's length m itself. */
  lemma DragAcceptedIsMagnitudeTest(delta: Vec2, dragThreshold: real, m: real)
    requires m >= 0.0 && m * m == SqNorm2(delta)
    ensures DragAccepted(delta, dragThreshold) <==> m > dragThreshold
  {
    LongerThanIsLengthTest(m, dragThreshold);
  }

  /**
   * The direction of a drag: the horizontal axis exactly when |dx| > |dy|
   * (so ties go to the z axis), the direction along which the drag moves
   * farthest, and a positive direction only for a strictly positive component.
   */
  function DragDirection(delta: Vec2): (dir: Direction)
    ensures (dir == Right || dir == Left) <==> Abs(delta.x) > Abs(delta.y)
    ensures forall d: Direction :: Dot(Axis(d), OnGround(delta)) <= Dot(Axis(dir), OnGround(delta))
    ensures dir == Right ==> delta.x > 0.0
    ensures dir == Left ==> delta.x <= 0.0
    ensures dir == Forward ==> delta.y > 0.0
    ensures dir == Back ==> delta.y <= 0.0
  {
    if Abs(delta.x) > Abs(delta.y) then
      (if delta.x > 0.0 then Right else Left)
    else
      (if delta.y > 0.0 then Forward else Back)
  }

  // ---------------------------------------------------------------------------
  // FindNextGridPoint
  // ---------------------------------------------------------------------------

  /**
   * `Vector3.Dot(axis, d.normalized) > 0.7` for a unit axis, without the
   * square root (AlignedIsNormalizedDotTest shows the two agree). A vector of
   * length zero normalises to zero in Unity, so it is never aligned.
   */
  predicate Aligned(axis: Vec3, d: Vec3)
  {
    SqNorm(d) > 0.0 && Dot(axis, d) > 0.0 && Dot(axis, d) * Dot(axis, d) > 0.49 * SqNorm(d)
  }

  /** `d.normalized` for a vector of length m: Unity gives the zero vector for a zero vector. */
  function Normalized(d: Vec3, m: real): Vec3
    requires m >= 0.0
  {
    if m == 0.0 then Zero else Vec3(d.x / m, d.y / m, d.z / m)
  }

  lemma AlignedIsNormalizedDotTest(axis: Vec3, d: Vec3, m: real)
    requires m >= 0.0 && m * m == SqNorm(d)
    ensures Aligned(axis, d) <==> Dot(axis, Normalized(d, m)) > 0.7
  {
    if m == 0.0 {
      assert SqNorm(d) == 0.0;
    } else {
      DotOfQuotient(axis, d, m);
      QuotientTest(Dot(axis, d), m);
    }
  }

  lemma DotOfQuotient(a: Vec3, d: Vec3, m: real)
    requires m > 0.0
    ensures Dot(a, Vec3(d.x / m, d.y / m, d.z / m)) == Dot(a, d) / m
  {
    assert a.x * (d.x / m) == (a.x * d.x) / m;
    assert a.y * (d.y / m) == (a.y * d.y) / m;
    assert a.z * (d.z / m) == (a.z * d.z) / m;
  }

  /** The scalar core of AlignedIsNormalizedDotTest, for c = Dot(axis, d) and m = |d| > 0. */
  lemma QuotientTest(c: real, m: real)
    requires m > 0.0
    ensures (m * m > 0.0 && c > 0.0 && c * c > 0.49 * (m * m)) <==> c / m > 0.7
  {
    PositiveSquare(m);
    QuotientThreshold(c, m);
    SquaredThreshold(c, m);
  }

  lemma QuotientThreshold(c: real, m: real)
    requires m > 0.0
    ensures c / m > 0.7 <==> c > 0.7 * m
  {
    var q := c / m;
    assert c == q * m;
    if q > 0.7 {
      assert q * m > 0.7 * m;
    } else {
      assert q * m <= 0.7 * m;
    }
  }

  lemma SquaredThreshold(c: real, m: real)
    requires m > 0.0
    ensures c > 0.7 * m <==> c > 0.0 && c * c > 0.49 * (m * m)
  {
    assert (0.7 * m) * (0.7 * m) == 0.49 * (m * m);
    if c > 0.0 {
      SquareMonotonic(0.7 * m, c);
    }
  }

  /** A grid point FindNextGridPoint may choose: in the move direction and more than 0.1 away. */
  predicate Candidate(p: Vec3, from: Vec3, dir: Direction)
  {
    Aligned(Axis(dir), Sub(p, from)) && LongerThan(SqDist(from, p), 0.1)
  }

  /**
   * The candidate FindNextGridPoint's loop keeps after scanning `points`: a
   * later candidate replaces the best so far only when strictly closer.
   */
  function ClosestCandidate(points: seq<Vec3>, from: Vec3, dir: Direction): Option<Vec3>
  {
    if points == [] then None
    else
      var best := ClosestCandidate(points[..|points| - 1], from, dir);
      var p := points[|points| - 1];
      if Candidate(p, from, dir) && (best.None? || SqDist(from, p) < SqDist(from, best.value)) then Some(p)
      else best
  }

  /** FindNextGridPoint's answer: the closest candidate, or `Vector3.zero` for "none". */
  function NextGridPoint(points: seq<Vec3>, from: Vec3, dir: Direction): Vec3
  {
    match ClosestCandidate(points, from, dir)
    case None => Zero
    case Some(p) => p
  }

  /** points[k] is a candidate, no candidate is closer, and every earlier candidate is farther. */
  ghost predicate IsFirstClosest(points: seq<Vec3>, from: Vec3, dir: Direction, k: int)
  {
    && 0 <= k < |points|
    && Candidate(points[k], from, dir)
    && (forall j :: 0 <= j < |points| && Candidate(points[j], from, dir) ==> SqDist(from, points[k]) <= SqDist(from, points[j]))
    && (forall j :: 0 <= j < k && Candidate(points[j], from, dir) ==> SqDist(from, points[k]) < SqDist(from, points[j]))
  }

  /** ClosestCandidate is the first of the closest candidates, and None exactly when there is no candidate. */
  lemma {:induction false} ClosestCandidateIsFirstClosest(points: seq<Vec3>, from: Vec3, dir: Direction)
    ensures ClosestCandidate(points, from, dir).None? <==> forall i :: 0 <= i < |points| ==> !Candidate(points[i], from, dir)
    ensures ClosestCandidate(points, from, dir).Some? ==>
              exists k :: IsFirstClosest(points, from, dir, k) && points[k] == ClosestCandidate(points, from, dir).value
  {
    if points != [] {
      var n := |points| - 1;
      var init, p := points[..n], points[n];
      assert points == init + [p];
      var best := ClosestCandidate(init, from, dir);
      ClosestCandidateIsFirstClosest(init, from, dir);
      if Candidate(p, from, dir) && (best.None? || SqDist(from, p) < SqDist(from, best.value)) {
        if best.Some? {
          var kb :| IsFirstClosest(init, from, dir, kb) && init[kb] == best.value;
        }
        NearerCandidateIsFirstClosest(init, p, from, dir);
      } else if best.Some? {
        var kb :| IsFirstClosest(init, from, dir, kb) && init[kb] == best.value;
        EarlierStaysFirstClosest(init, p, from, dir, kb);
      }
    }
  }

  /** A candidate appended after candidates that are all farther is the first closest. */
  lemma NearerCandidateIsFirstClosest(init: seq<Vec3>, p: Vec3, from: Vec3, dir: Direction)
    requires Candidate(p, from, dir)
    requires forall j :: 0 <= j < |init| && Candidate(init[j], from, dir) ==> SqDist(from, p) < SqDist(from, init[j])
    ensures IsFirstClosest(init + [p], from, dir, |init|)
  {
    var ps := init + [p];
    assert forall j :: 0 <= j < |init| ==> ps[j] == init[j];
  }

  /** The first closest candidate stays first closest when a point that is no nearer candidate is appended. */
  lemma EarlierStaysFirstClosest(init: seq<Vec3>, p: Vec3, from: Vec3, dir: Direction, k: int)
    requires IsFirstClosest(init, from, dir, k)
    requires Candidate(p, from, dir) ==> SqDist(from, init[k]) <= SqDist(from, p)
    ensures IsFirstClosest(init + [p], from, dir, k)
  {
    var ps := init + [p];
    assert forall j :: 0 <= j < |init| ==> ps[j] == init[j];
  }

  /**
   * FindNextGridPoint's promise: zero when no point qualifies, and otherwise a
   * listed qualifying point that no qualifying point beats and no earlier one ties.
   */
  lemma NextGridPointIsFirstClosest(points: seq<Vec3>, from: Vec3, dir: Direction)
    ensures (forall i :: 0 <= i < |points| ==> !Candidate(points[i], from, dir)) ==> NextGridPoint(points, from, dir) == Zero
    ensures (exists i :: 0 <= i < |points| && Candidate(points[i], from, dir)) ==>
              exists k :: IsFirstClosest(points, from, dir, k) && NextGridPoint(points, from, dir) == points[k]
  {
    ClosestCandidateIsFirstClosest(points, from, dir);
  }

  /**
   * The sentinel is ambiguous only for points that compare equal to zero:
   * when no listed point does, FindNextGridPoint's answer compares equal to
   * zero exactly when no point qualifies.
   */
  lemma NextGridPointAwayFromZero(points: seq<Vec3>, from: Vec3, dir: Direction)
    requires forall i :: 0 <= i < |points| ==> !NearlyZero(points[i])
    ensures NearlyZero(NextGridPoint(points, from, dir)) <==> forall i :: 0 <= i < |points| ==> !Candidate(points[i], from, dir)
  {
    ClosestCandidateIsFirstClosest(points, from, dir);
    if ClosestCandidate(points, from, dir).Some? {
      var k :| IsFirstClosest(points, from, dir, k) && points[k] == ClosestCandidate(points, from, dir).value;
      assert !NearlyZero(points[k]);
    }
  }

  /**
   * Points generated at a height of at least 1e-5 in absolute value (the
   * default fixedY is 1) never read as "none": the fallback step is taken
   * exactly when no point qualifies.
   */
  lemma GeneratedPointsNeverReadAsNone(tiles: seq<GridPoints.TileChild>, fixedY: real, from: Vec3, dir: Direction)
    requires fixedY * fixedY >= EqualityTolerance
    ensures var points := GridPoints.GridPointsOf(tiles, fixedY);
            NearlyZero(NextGridPoint(points, from, dir)) <==> forall i :: 0 <= i < |points| ==> !Candidate(points[i], from, dir)
  {
    var points := GridPoints.GridPointsOf(tiles, fixedY);
    GridPoints.GridPointsOnPlane(tiles, fixedY);
    forall i | 0 <= i < |points|
      ensures !NearlyZero(points[i])
    {
      HeightKeepsFromZero(points[i], fixedY);
    }
    NextGridPointAwayFromZero(points, from, dir);
  }

  /**
   * A genuine grid point that compares equal to zero (one at the origin, or
   * one generated at a height below 1e-5) is taken for "none": even when it is
   * the only point and qualifies, the drag falls back to the two-unit step.
   */
  lemma NearZeroGridPointIsDropped(p: Vec3, from: Vec3, dir: Direction)
    requires Candidate(p, from, dir) && NearlyZero(p)
    ensures ClosestCandidate([p], from, dir) == Some(p)
    ensures DragTarget([p], from, dir) == Add(from, Scale(2.0, Axis(dir)))
  {
    assert [p][..0] == [];
  }

  /**
   * Where an accepted drag sends the tray: the next grid point unless it
   * compares equal to zero, else two units along the direction; so either a
   * listed grid point or the fallback step.
   */
  function DragTarget(points: seq<Vec3>, from: Vec3, dir: Direction): (t: Vec3)
    ensures t in points || t == Add(from, Scale(2.0, Axis(dir)))
  {
    var next := NextGridPoint(points, from, dir);
    if !NearlyZero(next) then
      NextGridPointIsCandidate(points, from, dir);
      next
    else
      Add(from, Scale(2.0, Axis(dir)))
  }

  /** An accepted drag never leaves the tray where it is: the target is always ahead, in the drag direction. */
  lemma DragTargetIsAhead(points: seq<Vec3>, from: Vec3, dir: Direction)
    ensures Aligned(Axis(dir), Sub(DragTarget(points, from, dir), from))
  {
    if !NearlyZero(NextGridPoint(points, from, dir)) {
      NextGridPointIsCandidate(points, from, dir);
    } else {
      FallbackStepIsAligned(from, dir);
    }
  }

  /** A non-zero answer of FindNextGridPoint is a listed point that qualifies. */
  lemma NextGridPointIsCandidate(points: seq<Vec3>, from: Vec3, dir: Direction)
    requires NextGridPoint(points, from, dir) != Zero
    ensures NextGridPoint(points, from, dir) in points
    ensures Candidate(NextGridPoint(points, from, dir), from, dir)
  {
    ClosestCandidateIsFirstClosest(points, from, dir);
  }

  /** The fallback step, two units along the move direction, is in the move direction. */
  lemma FallbackStepIsAligned(from: Vec3, dir: Direction)
    ensures Aligned(Axis(dir), Sub(Add(from, Scale(2.0, Axis(dir))), from))
  {
    FallbackStepIsDouble(from, Axis(dir));
    DoubleAxisIsAligned(dir);
  }

  lemma FallbackStepIsDouble(from: Vec3, u: Vec3)
    ensures Sub(Add(from, Scale(2.0, u)), from) == Vec3(2.0 * u.x, 2.0 * u.y, 2.0 * u.z)
  {
  }

  /** Twice a move direction is aligned with it. */
  lemma DoubleAxisIsAligned(dir: Direction)
    ensures var u := Axis(dir); Aligned(u, Vec3(2.0 * u.x, 2.0 * u.y, 2.0 * u.z))
  {
    match dir
    case Right => DoubleIsAligned(1.0, 0.0, 0.0);
    case Left => DoubleIsAligned(-1.0, 0.0, 0.0);
    case Forward => DoubleIsAligned(0.0, 0.0, 1.0);
    case Back => DoubleIsAligned(0.0, 0.0, -1.0);
  }

  lemma DoubleIsAligned(x: real, y: real, z: real)
    requires x * x + y * y + z * z == 1.0
    ensures Aligned(Vec3(x, y, z), Vec3(2.0 * x, 2.0 * y, 2.0 * z))
  {
    var s := x * x + y * y + z * z;
    assert Dot(Vec3(x, y, z), Vec3(2.0 * x, 2.0 * y, 2.0 * z)) == 2.0 * s;
    assert SqNorm(Vec3(2.0 * x, 2.0 * y, 2.0 * z)) == 4.0 * s;
  }

  // ---------------------------------------------------------------------------
  // FindNearestPlacement
  // ---------------------------------------------------------------------------

  /**
   * The placement FindNearestPlacement's loop keeps after scanning
   * `placements` (None stands for a null entry, which is skipped): a later
   * placement replaces the best so far only when strictly closer.
   */
  function NearestPlacement(placements: seq<Option<Vec3>>, from: Vec3): Option<Vec3>
  {
    if placements == [] then None
    else
      var best := NearestPlacement(placements[..|placements| - 1], from);
      match placements[|placements| - 1]
      case None => best
      case Some(q) => if best.None? || SqDist(from, q) < SqDist(from, best.value) then Some(q) else best
  }

  /** placements[k] is present, no present placement is closer, and every earlier one is farther. */
  ghost predicate IsFirstNearest(placements: seq<Option<Vec3>>, from: Vec3, k: int)
  {
    && 0 <= k < |placements|
    && placements[k].Some?
    && (forall j :: 0 <= j < |placements| && placements[j].Some? ==>
          SqDist(from, placements[k].value) <= SqDist(from, placements[j].value))
    && (forall j :: 0 <= j < k && placements[j].Some? ==>
          SqDist(from, placements[k].value) < SqDist(from, placements[j].value))
  }

  /** NearestPlacement is the first of the nearest non-null placements, and None exactly when all are null. */
  lemma {:induction false} NearestPlacementIsFirstNearest(placements: seq<Option<Vec3>>, from: Vec3)
    ensures NearestPlacement(placements, from).None? <==> forall i :: 0 <= i < |placements| ==> placements[i].None?
    ensures NearestPlacement(placements, from).Some? ==>
              exists k :: IsFirstNearest(placements, from, k) && placements[k] == NearestPlacement(placements, from)
  {
    if placements != [] {
      var n := |placements| - 1;
      var init, last := placements[..n], placements[n];
      assert placements == init + [last];
      var best := NearestPlacement(init, from);
      NearestPlacementIsFirstNearest(init, from);
      if last.Some? && (best.None? || SqDist(from, last.value) < SqDist(from, best.value)) {
        if best.Some? {
          var kb :| IsFirstNearest(init, from, kb) && init[kb] == best;
        }
        NearerLastIsFirstNearest(init, last.value, from);
      } else if best.Some? {
        var kb :| IsFirstNearest(init, from, kb) && init[kb] == best;
        EarlierStaysFirstNearest(init, last, from, kb);
      }
    }
  }

  /** A placement appended after entries that are all farther is the first nearest. */
  lemma NearerLastIsFirstNearest(init: seq<Option<Vec3>>, q: Vec3, from: Vec3)
    requires forall j :: 0 <= j < |init| && init[j].Some? ==> SqDist(from, q) < SqDist(from, init[j].value)
    ensures IsFirstNearest(init + [Some(q)], from, |init|)
  {
    var ps := init + [Some(q)];
    assert forall j :: 0 <= j < |init| ==> ps[j] == init[j];
  }

  /** The first nearest entry stays first nearest when an entry no nearer is appended. */
  lemma EarlierStaysFirstNearest(init: seq<Option<Vec3>>, last: Option<Vec3>, from: Vec3, k: int)
    requires IsFirstNearest(init, from, k)
    requires last.Some? ==> SqDist(from, init[k].value) <= SqDist(from, last.value)
    ensures IsFirstNearest(init + [last], from, k)
  {
    var ps := init + [last];
    assert forall j :: 0 <= j < |init| ==> ps[j] == init[j];
  }
}
