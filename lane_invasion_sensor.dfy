/**
 * The lane invasion sensor of the client library (LaneInvasionSensor.cpp): a per-tick callback
 * that rebuilds the four ground corners of the parent vehicle's bounding box, compares them with
 * the corners committed by an earlier tick, and reports the lane markings each corner crossed;
 * plus the sensor's bookkeeping of its one registration in the episode's tick-event registry.
 *
 * Geometry is on reals; cos and sin of the yaw (in degrees) are inputs, the road map's crossing
 * query is an input function, and other threads' commits to the shared slot are an explicit
 * schedule of rival commits.
 */
module Client {
  import opened Wrappers

  type ActorId = nat

  // ---------------------------------------------------------------------------
  // Geometry
  // ---------------------------------------------------------------------------

  datatype Location = Location(x: real, y: real, z: real)

  function Plus(a: Location, b: Location): Location {
    Location(a.x + b.x, a.y + b.y, a.z + b.z)
  }

  function Minus(a: Location, b: Location): Location {
    Location(a.x - b.x, a.y - b.y, a.z - b.z)
  }

  function SquaredLength(v: Location): real {
    v.x * v.x + v.y * v.y + v.z * v.z
  }

  /** Only the location and the yaw (degrees) of an actor's transform are used here. */
  datatype Transform = Transform(location: Location, yaw: real)

  /** A box centred at `location` relative to the actor, with half-sizes `extent`. */
  datatype BoundingBox = BoundingBox(location: Location, extent: Location)

  /** The cosine and sine of an angle given in degrees. */
  datatype Trig = Trig(cosDeg: real -> real, sinDeg: real -> real)

  /** A turn about the vertical axis by the angle whose cosine is `c` and sine is `s`. */
  function Turn(c: real, s: real, l: Location): (r: Location)
    ensures r.z == l.z
  {
    Location(c * l.x - s * l.y, s * l.x + c * l.y, l.z)
  }

  /** The offset `l` turned by `yaw` degrees. */
  function Rotate(trig: Trig, yaw: real, l: Location): (r: Location)
    ensures r.z == l.z
  {
    Turn(trig.cosDeg(yaw), trig.sinDeg(yaw), l)
  }

  /** A turn by a unit (cos, sin) pair keeps the height and the length of the offset. */
  lemma TurnKeepsLength(c: real, s: real, l: Location)
    requires c * c + s * s == 1.0
    ensures Turn(c, s, l).z == l.z
    ensures SquaredLength(Turn(c, s, l)) == SquaredLength(l)
  {
    var r := Turn(c, s, l);
    calc {
      r.x * r.x + r.y * r.y;
      (c * l.x - s * l.y) * (c * l.x - s * l.y) + (s * l.x + c * l.y) * (s * l.x + c * l.y);
      (c * c + s * s) * (l.x * l.x) + (c * c + s * s) * (l.y * l.y);
      l.x * l.x + l.y * l.y;
    }
  }

  /** Turning back by the opposite angle undoes a turn. */
  lemma TurnBack(c: real, s: real, l: Location)
    requires c * c + s * s == 1.0
    ensures Turn(c, -s, Turn(c, s, l)) == l
  {
    var r := Turn(c, s, l);
    calc {
      c * r.x + s * r.y;
      c * (c * l.x - s * l.y) + s * (s * l.x + c * l.y);
      (c * c + s * s) * l.x;
    }
    calc {
      -s * r.x + c * r.y;
      -s * (c * l.x - s * l.y) + c * (s * l.x + c * l.y);
      (c * c + s * s) * l.y;
    }
  }

  /** Turning the opposite offset gives the opposite result. */
  lemma TurnOpposite(c: real, s: real, l: Location)
    ensures Turn(c, s, Location(-l.x, -l.y, l.z)) == Location(-Turn(c, s, l).x, -Turn(c, s, l).y, l.z)
  {
  }

  // ---------------------------------------------------------------------------
  // Bounds
  // ---------------------------------------------------------------------------

  /** Four corners, in the order (+x, +y), (-x, +y), (+x, -y), (-x, -y) of the box. */
  type Corners = s: seq<Location> | |s| == 4 witness [Origin, Origin, Origin, Origin]

  const Origin := Location(0.0, 0.0, 0.0)

  /** The footprint of the parent committed by one tick. */
  datatype Bounds = Bounds(frame: nat, corners: Corners)

  /** The bounds of a parent with bounding box `box` at `transform`, in frame `frame`. */
  function MakeBounds(box: BoundingBox, trig: Trig, frame: nat, transform: Transform): (b: Bounds)
    ensures b.frame == frame
  {
    var centre := Plus(transform.location, box.location);
    var yaw := transform.yaw;
    var o := CornerOffsets(box.extent);
    Bounds(frame, [
      Plus(centre, Rotate(trig, yaw, o[0])),
      Plus(centre, Rotate(trig, yaw, o[1])),
      Plus(centre, Rotate(trig, yaw, o[2])),
      Plus(centre, Rotate(trig, yaw, o[3]))])
  }

  /** The unturned offsets of the four corners from the centre of the box, in corner order. */
  function CornerOffsets(extent: Location): (o: Corners)
    ensures o[0] == Location(extent.x, extent.y, 0.0)
    ensures o[1] == Location(-o[0].x, o[0].y, 0.0) && o[2] == Location(o[0].x, -o[0].y, 0.0)
    ensures o[3] == Location(-o[0].x, -o[0].y, 0.0)
    ensures forall i :: 0 <= i < 4 ==> o[i].z == 0.0 && o[i].x * o[i].x == extent.x * extent.x && o[i].y * o[i].y == extent.y * extent.y
  {
    [Location(extent.x, extent.y, 0.0), Location(-extent.x, extent.y, 0.0),
     Location(extent.x, -extent.y, 0.0), Location(-extent.x, -extent.y, 0.0)]
  }

  /** Corner i is the centre plus the i-th offset turned by the yaw. */
  lemma MakeBoundsCorner(box: BoundingBox, trig: Trig, frame: nat, transform: Transform, i: nat)
    requires i < 4
    ensures Minus(MakeBounds(box, trig, frame, transform).corners[i], Plus(transform.location, box.location))
         == Rotate(trig, transform.yaw, CornerOffsets(box.extent)[i])
  {
  }

  /**
   * The corners lie at the height of the box's centre, and opposite corners (0 and 3, 1 and 2)
   * are mirror images through the centre.
   */
  lemma MakeBoundsSymmetric(box: BoundingBox, trig: Trig, frame: nat, transform: Transform)
    ensures var b := MakeBounds(box, trig, frame, transform);
      var centre := Plus(transform.location, box.location);
      && (forall i :: 0 <= i < 4 ==> b.corners[i].z == centre.z)
      && Plus(b.corners[0], b.corners[3]) == Plus(centre, centre)
      && Plus(b.corners[1], b.corners[2]) == Plus(centre, centre)
  {
    var c, s := trig.cosDeg(transform.yaw), trig.sinDeg(transform.yaw);
    TurnOpposite(c, s, Location(box.extent.x, box.extent.y, 0.0));
    TurnOpposite(c, s, Location(box.extent.x, -box.extent.y, 0.0));
  }

  /** For a unit (cos, sin) pair every corner is as far from the centre as a corner of the unturned box. */
  lemma MakeBoundsRadius(box: BoundingBox, trig: Trig, frame: nat, transform: Transform, i: nat)
    requires i < 4
    requires var c, s := trig.cosDeg(transform.yaw), trig.sinDeg(transform.yaw); c * c + s * s == 1.0
    ensures SquaredLength(Minus(MakeBounds(box, trig, frame, transform).corners[i], Plus(transform.location, box.location)))
         == box.extent.x * box.extent.x + box.extent.y * box.extent.y
  {
    var o := CornerOffsets(box.extent)[i];
    MakeBoundsCorner(box, trig, frame, transform, i);
    TurnKeepsLength(trig.cosDeg(transform.yaw), trig.sinDeg(transform.yaw), o);
  }

  // ---------------------------------------------------------------------------
  // The tick decision
  // ---------------------------------------------------------------------------

  /** std::numeric_limits<float>::epsilon(), that is 2^-23. */
  const FloatEpsilon: real := 1.0 / 8388608.0

  /** A corner that moved less than this is considered still. */
  const DistanceThreshold: real := 10.0 * FloatEpsilon

  /** The corner moved less than the threshold: the length of next - prev is below it, compared squared. */
  predicate Still(prev: Location, next: Location)
    ensures prev == next ==> Still(prev, next)
  {
    SquaredLength(Minus(next, prev)) < DistanceThreshold * DistanceThreshold
  }

  /** Some corner is still (the tick gives up as soon as one is). */
  predicate AnyCornerStill(prev: Corners, next: Corners) {
    exists i :: 0 <= i < 4 && Still(prev[i], next[i])
  }

  /** An opaque lane marking reported by the road map. */
  datatype LaneMarking = LaneMarking(id: nat)

  /** The road map's query: the lane markings crossed going from one point to another, in order. */
  datatype Map = Map(crossedLanes: (Location, Location) -> seq<LaneMarking>)

  /** The markings crossed by corners 0 .. n - 1, corner after corner. */
  function CrossedLanes(m: Map, prev: Corners, next: Corners, n: nat): seq<LaneMarking>
    requires n <= 4
  {
    if n == 0 then [] else CrossedLanes(m, prev, next, n - 1) + m.crossedLanes(prev[n - 1], next[n - 1])
  }

  /** The markings of all four corners are the four corners' markings in corner order. */
  lemma {:induction false} CrossedLanesInCornerOrder(m: Map, prev: Corners, next: Corners)
    ensures CrossedLanes(m, prev, next, 4)
         == m.crossedLanes(prev[0], next[0]) + m.crossedLanes(prev[1], next[1])
          + m.crossedLanes(prev[2], next[2]) + m.crossedLanes(prev[3], next[3])
  {
    var a, b, c := m.crossedLanes(prev[0], next[0]), m.crossedLanes(prev[1], next[1]), m.crossedLanes(prev[2], next[2]);
    assert CrossedLanes(m, prev, next, 0) == [];
    assert CrossedLanes(m, prev, next, 1) == a;
    assert CrossedLanes(m, prev, next, 2) == a + b;
    assert CrossedLanes(m, prev, next, 3) == a + b + c;
  }

  /** No marking is reported exactly when no corner crossed one. */
  lemma {:induction false} CrossedLanesEmpty(m: Map, prev: Corners, next: Corners, n: nat)
    requires n <= 4
    ensures CrossedLanes(m, prev, next, n) == [] <==> forall i :: 0 <= i < n ==> m.crossedLanes(prev[i], next[i]) == []
  {
    if n > 0 {
      CrossedLanesEmpty(m, prev, next, n - 1);
    }
  }

  /** When only corner 2 crosses anything, the report is exactly what it crossed. */
  lemma OnlyThirdCornerCrosses(m: Map, prev: Corners, next: Corners)
    requires m.crossedLanes(prev[0], next[0]) == [] && m.crossedLanes(prev[1], next[1]) == []
    requires m.crossedLanes(prev[3], next[3]) == []
    ensures CrossedLanes(m, prev, next, 4) == m.crossedLanes(prev[2], next[2])
  {
    CrossedLanesInCornerOrder(m, prev, next);
  }

  /** What a simulation tick tells the callback: its frame, time, and where each actor is. */
  datatype WorldSnapshot = WorldSnapshot(frame: nat, elapsedSeconds: real, actors: map<ActorId, Transform>)

  datatype LaneInvasionEvent = LaneInvasionEvent(
    frame: nat, elapsedSeconds: real, transform: Transform, parent: ActorId, crossedLanes: seq<LaneMarking>)

  /** How a tick ended; a commit names the bounds it replaced. */
  datatype Outcome = ParentMissing | Baseline | Stationary | Stale | Committed(replaced: Bounds)

  datatype TickResult = TickResult(slot: Option<Bounds>, event: Option<LaneInvasionEvent>, outcome: Outcome)

  /** Bounds `desired` may follow the slot value `current`: the slot is empty or holds an older frame. */
  predicate Newer(current: Option<Bounds>, desired: Bounds) {
    current.None? || current.value.frame < desired.frame
  }

  /** The event a committed tick reports, if any marking was crossed. */
  function EventFor(snapshot: WorldSnapshot, transform: Transform, parent: ActorId, lanes: seq<LaneMarking>): Option<LaneInvasionEvent> {
    if lanes == [] then None
    else Some(LaneInvasionEvent(snapshot.frame, snapshot.elapsedSeconds, transform, parent, lanes))
  }

  /** One tick with no other thread touching the slot: the new slot value, the event and the outcome. */
  function TickStep(parent: ActorId, box: BoundingBox, trig: Trig, m: Map, slot: Option<Bounds>, snapshot: WorldSnapshot): (r: TickResult)
    ensures r.event.Some? ==> r.outcome.Committed?
    ensures r.outcome.Committed? ==> slot == Some(r.outcome.replaced) && r.slot != slot
  {
    if parent !in snapshot.actors then TickResult(slot, None, ParentMissing)
    else
      var transform := snapshot.actors[parent];
      var next := MakeBounds(box, trig, snapshot.frame, transform);
      if slot.None? then TickResult(Some(next), None, Baseline)
      else if AnyCornerStill(slot.value.corners, next.corners) then TickResult(slot, None, Stationary)
      else if slot.value.frame >= next.frame then TickResult(slot, None, Stale)
      else
        var lanes := CrossedLanes(m, slot.value.corners, next.corners, 4);
        TickResult(Some(next), EventFor(snapshot, transform, parent, lanes), Committed(slot.value))
  }

  /**
   * How a tick ends: a missing parent changes nothing; the first tick that finds its parent only
   * installs a baseline; otherwise the slot changes only by a commit, which installs bounds of
   * the snapshot's frame over older ones.
   */
  lemma TickStepSlot(parent: ActorId, box: BoundingBox, trig: Trig, m: Map, slot: Option<Bounds>, snapshot: WorldSnapshot)
    ensures var r := TickStep(parent, box, trig, m, slot, snapshot);
      && (r.outcome.ParentMissing? <==> parent !in snapshot.actors)
      && (r.outcome.Baseline? <==> parent in snapshot.actors && slot.None?)
      && (r.slot != slot <==> r.outcome.Baseline? || r.outcome.Committed?)
      && (r.slot != slot ==> r.slot.Some? && r.slot.value.frame == snapshot.frame && Newer(slot, r.slot.value))
  {
  }

  /** A tick whose frame is not newer than the committed bounds changes nothing and reports nothing. */
  lemma TickStepStale(parent: ActorId, box: BoundingBox, trig: Trig, m: Map, slot: Option<Bounds>, snapshot: WorldSnapshot)
    requires slot.Some? && slot.value.frame >= snapshot.frame
    ensures var r := TickStep(parent, box, trig, m, slot, snapshot);
      r.slot == slot && r.event.None?
  {
  }

  /** A tick in which some corner of the committed bounds stayed put changes nothing and reports nothing. */
  lemma TickStepStationary(parent: ActorId, box: BoundingBox, trig: Trig, m: Map, slot: Option<Bounds>, snapshot: WorldSnapshot)
    requires parent in snapshot.actors && slot.Some?
    requires AnyCornerStill(slot.value.corners, MakeBounds(box, trig, snapshot.frame, snapshot.actors[parent]).corners)
    ensures var r := TickStep(parent, box, trig, m, slot, snapshot);
      r.slot == slot && r.event.None? && r.outcome == Stationary
  {
  }

  /** Bounds that did not move at all have a still corner. */
  lemma AtRestCornerStill(c: Corners)
    ensures AnyCornerStill(c, c)
  {
    assert Still(c[0], c[0]);
  }

  /**
   * A parent whose corners are where they were when its bounds were committed, in whatever
   * frame, never reports: the tick is stationary.
   */
  lemma ParkedParentStationary(parent: ActorId, box: BoundingBox, trig: Trig, m: Map, slot: Option<Bounds>, snapshot: WorldSnapshot)
    requires parent in snapshot.actors && slot.Some?
    requires slot.value.corners == MakeBounds(box, trig, snapshot.frame, snapshot.actors[parent]).corners
    ensures var r := TickStep(parent, box, trig, m, slot, snapshot);
      r.slot == slot && r.event.None? && r.outcome == Stationary
  {
    AtRestCornerStill(slot.value.corners);
    TickStepStationary(parent, box, trig, m, slot, snapshot);
  }

  /**
   * A tick reports an event exactly when its parent is there, bounds were committed before, no
   * corner is still, the frame is newer, and some corner crossed a marking; the event carries the
   * snapshot's frame, the parent and every crossed marking in corner order.
   */
  lemma TickStepEvent(parent: ActorId, box: BoundingBox, trig: Trig, m: Map, slot: Option<Bounds>, snapshot: WorldSnapshot)
    ensures var r := TickStep(parent, box, trig, m, slot, snapshot);
      && (r.event.Some? <==>
            parent in snapshot.actors && slot.Some?
            && var next := MakeBounds(box, trig, snapshot.frame, snapshot.actors[parent]);
            && !AnyCornerStill(slot.value.corners, next.corners)
            && slot.value.frame < snapshot.frame
            && exists i :: 0 <= i < 4 && m.crossedLanes(slot.value.corners[i], next.corners[i]) != [])
      && (r.event.Some? ==>
            && r.event.value.frame == snapshot.frame && r.event.value.parent == parent
            && r.event.value.elapsedSeconds == snapshot.elapsedSeconds
            && r.event.value.transform == snapshot.actors[parent]
            && r.event.value.crossedLanes == CrossedLanes(m, slot.value.corners, r.slot.value.corners, 4))
  {
    if parent in snapshot.actors && slot.Some? {
      var next := MakeBounds(box, trig, snapshot.frame, snapshot.actors[parent]);
      CrossedLanesEmpty(m, slot.value.corners, next.corners, 4);
    }
  }

  // ---------------------------------------------------------------------------
  // Committed frames
  // ---------------------------------------------------------------------------

  /** Each commit has a larger frame than the one before it. */
  predicate FramesIncreasing(h: seq<Bounds>) {
    forall i :: 0 <= i < |h| - 1 ==> h[i].frame < h[i + 1].frame
  }

  /** Increasing from one commit to the next means increasing between any two. */
  lemma {:induction false} FramesIncreasingAllPairs(h: seq<Bounds>, i: nat, j: nat)
    requires FramesIncreasing(h) && i < j < |h|
    ensures h[i].frame < h[j].frame
    decreases j - i
  {
    if i + 1 < j {
      FramesIncreasingAllPairs(h, i + 1, j);
    }
  }

  /**
   * No bounds value is committed twice, so a compare-exchange that finds the value it loaded
   * finds the very commit it loaded.
   */
  lemma NoRecommit(h: seq<Bounds>, i: nat, j: nat)
    requires FramesIncreasing(h) && i < j < |h|
    ensures h[i] != h[j]
  {
    FramesIncreasingAllPairs(h, i, j);
  }

  /** The bounds a run of ticks commits, in order, starting from slot value `slot`. */
  function Commits(parent: ActorId, box: BoundingBox, trig: Trig, m: Map, slot: Option<Bounds>, ticks: seq<WorldSnapshot>): seq<Bounds>
    decreases |ticks|
  {
    if ticks == [] then []
    else
      var r := TickStep(parent, box, trig, m, slot, ticks[0]);
      (if r.slot != slot then [r.slot.value] else []) + Commits(parent, box, trig, m, r.slot, ticks[1..])
  }

  /**
   * Whatever frames the ticks carry and in whatever order they arrive, the committed bounds
   * have strictly increasing frames, all newer than the slot's starting value.
   */
  lemma {:induction false} CommitsIncrease(parent: ActorId, box: BoundingBox, trig: Trig, m: Map, slot: Option<Bounds>, ticks: seq<WorldSnapshot>)
    ensures var h := Commits(parent, box, trig, m, slot, ticks);
      FramesIncreasing(h) && (h != [] ==> Newer(slot, h[0]))
    decreases |ticks|
  {
    if ticks != [] {
      var r := TickStep(parent, box, trig, m, slot, ticks[0]);
      TickStepSlot(parent, box, trig, m, slot, ticks[0]);
      CommitsIncrease(parent, box, trig, m, r.slot, ticks[1..]);
      var rest := Commits(parent, box, trig, m, r.slot, ticks[1..]);
      if r.slot != slot {
        var h := [r.slot.value] + rest;
        forall i | 0 <= i < |h| - 1 ensures h[i].frame < h[i + 1].frame {
          if i > 0 {
            assert h[i] == rest[i - 1] && h[i + 1] == rest[i];
          }
        }
      }
    }
  }

  /** The first tick that finds its parent installs a baseline and reports nothing. */
  lemma FirstTickReportsNothing(parent: ActorId, box: BoundingBox, trig: Trig, m: Map, snapshot: WorldSnapshot)
    requires parent in snapshot.actors
    ensures var r := TickStep(parent, box, trig, m, None, snapshot);
      r.event.None? && r.slot == Some(MakeBounds(box, trig, snapshot.frame, snapshot.actors[parent]))
  {
  }

  /**
   * Ticks delivered out of order: after frame 5 is committed, a tick for frame 3 changes nothing
   * and reports nothing, whatever the corners did.
   */
  lemma LateTickIgnored(parent: ActorId, box: BoundingBox, trig: Trig, m: Map, t5: Transform, t3: Transform)
    ensures var s5 := WorldSnapshot(5, 0.5, map[parent := t5]);
      var s3 := WorldSnapshot(3, 0.3, map[parent := t3]);
      var first := TickStep(parent, box, trig, m, None, s5);
      var late := TickStep(parent, box, trig, m, first.slot, s3);
      && first.slot == Some(MakeBounds(box, trig, 5, t5))
      && late.slot == first.slot && late.event.None?
      && Commits(parent, box, trig, m, None, [s5, s3]) == [MakeBounds(box, trig, 5, t5)]
  {
    var s5 := WorldSnapshot(5, 0.5, map[parent := t5]);
    var s3 := WorldSnapshot(3, 0.3, map[parent := t3]);
    var b5 := MakeBounds(box, trig, 5, t5);
    var first := TickStep(parent, box, trig, m, None, s5);
    assert first == TickResult(Some(b5), None, Baseline);
    TickStepStale(parent, box, trig, m, Some(b5), s3);
    var late := TickStep(parent, box, trig, m, Some(b5), s3);
    assert late.slot == Some(b5);
    assert Commits(parent, box, trig, m, Some(b5), [s3]) == [] by {
      assert [s3][1..] == [];
    }
    assert [s5, s3][1..] == [s3];
  }

  // ---------------------------------------------------------------------------
  // The callback object and its shared slot
  // ---------------------------------------------------------------------------

  /** The parent as the callback sees it when it is created. */
  datatype Vehicle = Vehicle(id: ActorId, boundingBox: BoundingBox)

  /** The corner loop of a tick: some corner moved less than the threshold. */
  method HasStillCorner(prev: Corners, next: Corners) returns (still: bool)
    ensures still <==> AnyCornerStill(prev, next)
  {
    for i := 0 to 4
      invariant forall j :: 0 <= j < i ==> !Still(prev[j], next[j])
    {
      if Still(prev[i], next[i]) {
        return true;
      }
    }
    return false;
  }

  /** The lane loop of a tick: the markings crossed by each corner, concatenated in corner order. */
  method CollectCrossedLanes(m: Map, prev: Corners, next: Corners) returns (lanes: seq<LaneMarking>)
    ensures lanes == CrossedLanes(m, prev, next, 4)
  {
    lanes := [];
    for i := 0 to 4
      invariant lanes == CrossedLanes(m, prev, next, i)
    {
      lanes := lanes + m.crossedLanes(prev[i], next[i]);
    }
  }

  /** `after` extends `before` only by values that the rival schedule `rivals` commits. */
  ghost predicate AddedByRivals(before: seq<Bounds>, after: seq<Bounds>, rivals: seq<Option<Bounds>>) {
    before <= after && forall k :: |before| <= k < |after| ==> Some(after[k]) in rivals
  }

  /** Two extensions by rivals compose, the second drawing on a suffix of the schedule. */
  lemma AddedByRivalsTrans(a: seq<Bounds>, b: seq<Bounds>, c: seq<Bounds>, rivals: seq<Option<Bounds>>, j: nat)
    requires j <= |rivals|
    requires AddedByRivals(a, b, rivals) && AddedByRivals(b, c, rivals[j..])
    ensures AddedByRivals(a, c, rivals)
  {
    forall k | |a| <= k < |c|
      ensures Some(c[k]) in rivals
    {
      if k < |b| {
        assert c[k] == b[k];
      } else {
        var i :| 0 <= i < |rivals[j..]| && rivals[j..][i] == Some(c[k]);
        assert rivals[j + i] == Some(c[k]);
      }
    }
  }

  class LaneInvasionCallback {
    const parent: ActorId
    const box: BoundingBox
    const trig: Trig
    const roadMap: Map
    /** The shared slot: the bounds of the last commit, empty before the first. */
    var bounds: Option<Bounds>
    /** Every commit to the slot so far, by any thread. */
    ghost var history: seq<Bounds>

    ghost predicate Valid()
      reads this
    {
      && FramesIncreasing(history)
      && (bounds.None? <==> history == [])
      && (bounds.Some? ==> bounds.value == history[|history| - 1])
    }

    constructor (vehicle: Vehicle, roadMap: Map, trig: Trig)
      ensures parent == vehicle.id && box == vehicle.boundingBox && this.roadMap == roadMap && this.trig == trig
      ensures bounds == None && history == [] && Valid()
    {
      parent := vehicle.id;
      box := vehicle.boundingBox;
      this.roadMap := roadMap;
      this.trig := trig;
      bounds := None;
      history := [];
    }

    /**
     * Replaces the slot value with `desired` if it still is `expected`; either way returns the
     * value found. Callers only ever offer bounds newer than the value they expect.
     */
    method CompareExchange(expected: Option<Bounds>, desired: Bounds) returns (swapped: bool, current: Option<Bounds>)
      requires Valid() && Newer(expected, desired)
      modifies this
      ensures Valid()
      ensures current == old(bounds)
      ensures swapped <==> old(bounds) == expected
      ensures swapped ==> bounds == Some(desired) && history == old(history) + [desired]
      ensures !swapped ==> bounds == old(bounds) && history == old(history)
    {
      current := bounds;
      swapped := bounds == expected;
      if swapped {
        bounds := Some(desired);
        history := history + [desired];
      }
    }

    /** Another thread's tick commits `rival`, which it may only do over older bounds. */
    method Interfere(rival: Bounds)
      requires Valid()
      modifies this
      ensures Valid()
      ensures Newer(old(bounds), rival) ==> bounds == Some(rival) && history == old(history) + [rival]
      ensures !Newer(old(bounds), rival) ==> bounds == old(bounds) && history == old(history)
    {
      if Newer(bounds, rival) {
        bounds := Some(rival);
        history := history + [rival];
      }
    }

    /** The next slot of the rival schedule: a rival commit or none, just before a compare-exchange. */
    method Rival(pending: seq<Option<Bounds>>) returns (rest: seq<Option<Bounds>>)
      requires Valid()
      modifies this
      ensures Valid()
      ensures rest == if pending == [] then [] else pending[1..]
      ensures pending == [] || pending[0].None? ==> bounds == old(bounds) && history == old(history)
      ensures pending != [] && pending[0].Some? ==>
        if Newer(old(bounds), pending[0].value) then bounds == Some(pending[0].value) && history == old(history) + [pending[0].value]
        else bounds == old(bounds) && history == old(history)
    {
      rest := pending;
      if pending != [] {
        if pending[0].Some? {
          Interfere(pending[0].value);
        }
        rest := pending[1..];
      }
    }

    /**
     * Rival on the rest `pending` of the schedule `rivals`: since `origin`, the history still
     * grows only by values from `rivals`.
     */
    method RivalFrom(ghost origin: seq<Bounds>, rivals: seq<Option<Bounds>>, pending: seq<Option<Bounds>>) returns (rest: seq<Option<Bounds>>)
      requires Valid() && |pending| <= |rivals| && pending == rivals[|rivals| - |pending|..]
      requires AddedByRivals(origin, history, rivals)
      modifies this
      ensures Valid() && old(history) <= history
      ensures rest == if pending == [] then [] else pending[1..]
      ensures |rest| <= |rivals| && rest == rivals[|rivals| - |rest|..]
      ensures AddedByRivals(origin, history, rivals)
      ensures pending == [] ==> bounds == old(bounds) && history == old(history)
    {
      ghost var j := |rivals| - |pending|;
      assert pending != [] ==> pending[0] == rivals[j] && pending[1..] == rivals[j + 1..];
      rest := Rival(pending);
    }

    /**
     * The retry loop of a tick: gives up once the slot holds bounds at least as new as `next`,
     * otherwise compare-exchanges, retrying with the value found until the exchange succeeds.
     * `replaced` is the value the last compare-exchange found.
     */
    method CommitNewer(prev0: Option<Bounds>, next: Bounds, pending0: seq<Option<Bounds>>) returns (committed: bool, replaced: Bounds)
      requires Valid() && prev0.Some? && prev0 == bounds
      modifies this
      ensures Valid() && old(history) <= history
      ensures pending0 == [] ==> replaced == prev0.value && (committed <==> prev0.value.frame < next.frame)
      ensures pending0 == [] && !committed ==> bounds == old(bounds) && history == old(history)
      ensures committed ==>
        && bounds == Some(next) && replaced.frame < next.frame
        && |history| >= 2 && history[|history| - 2] == replaced
      ensures !committed ==> AddedByRivals(old(history), history, pending0)
      ensures committed ==> AddedByRivals(old(history), history[..|history| - 1], pending0)
      ensures !committed ==> bounds.Some? && bounds.value.frame >= next.frame
    {
      var prev := prev0;
      var pending := pending0;
      while true
        invariant Valid() && old(history) <= history
        invariant prev.Some? && prev == bounds
        invariant pending0 == [] ==> pending == [] && prev == prev0 && history == old(history)
        invariant |pending| <= |pending0| && pending == pending0[|pending0| - |pending|..]
        invariant AddedByRivals(old(history), history, pending0)
        decreases |pending|
      {
        if prev.value.frame >= next.frame {
          return false, prev.value;
        }
        pending := RivalFrom(old(history), pending0, pending);
        ghost var before := history;
        var swapped, current := CompareExchange(prev, next);
        if swapped {
          assert history[..|history| - 1] == before;
          return true, prev.value;
        }
        prev := current;
      }
    }

    /**
     * The first compare-exchange of a tick, on an empty slot, after the first rival of the
     * schedule. Without rivals it always installs `next`; otherwise it may find a rival's bounds.
     */
    method InstallBaseline(next: Bounds, rivals: seq<Option<Bounds>>) returns (installed: bool, prev: Option<Bounds>, pending: seq<Option<Bounds>>)
      requires Valid() && bounds.None?
      modifies this
      ensures Valid() && old(history) <= history
      ensures rivals == [] ==> installed
      ensures installed ==> bounds == Some(next) && history == old(history) + [next]
      ensures !installed ==> prev.Some? && prev == bounds && AddedByRivals(old(history), history, rivals)
      ensures |pending| <= |rivals| && pending == rivals[|rivals| - |pending|..]
    {
      pending := RivalFrom(history, rivals, rivals);
      installed, prev := CompareExchange(None, next);
    }

    /**
     * The rest of a tick once bounds are committed: give up on a still corner, else commit `next`
     * over older bounds and collect the markings crossed since the bounds replaced. The history
     * since `origin` grows only by values of `rivals` and this tick's own commit.
     */
    method Advance(ghost origin: seq<Bounds>, rivals: seq<Option<Bounds>>, prev: Option<Bounds>, pending: seq<Option<Bounds>>, next: Bounds)
      returns (lanes: seq<LaneMarking>, ghost outcome: Outcome)
      requires Valid() && prev.Some? && prev == bounds
      requires |pending| <= |rivals| && pending == rivals[|rivals| - |pending|..]
      requires AddedByRivals(origin, history, rivals)
      modifies this
      ensures Valid() && old(history) <= history
      ensures outcome.Stationary? || outcome.Stale? || outcome.Committed?
      ensures pending == [] ==>
        && outcome == (if AnyCornerStill(prev.value.corners, next.corners) then Stationary
                       else if prev.value.frame >= next.frame then Stale
                       else Committed(prev.value))
        && (!outcome.Committed? ==> bounds == old(bounds) && history == old(history))
      ensures !outcome.Committed? ==> lanes == [] && AddedByRivals(origin, history, rivals)
      ensures outcome.Stale? ==> bounds.Some? && bounds.value.frame >= next.frame
      ensures outcome.Stationary? <==> AnyCornerStill(prev.value.corners, next.corners)
      ensures outcome.Committed? ==>
        && bounds == Some(next)
        && |history| >= 2 && history[|history| - 2] == outcome.replaced
        && outcome.replaced.frame < next.frame
        && AddedByRivals(origin, history[..|history| - 1], rivals)
        && lanes == CrossedLanes(roadMap, outcome.replaced.corners, next.corners, 4)
    {
      var still := HasStillCorner(prev.value.corners, next.corners);
      if still {
        return [], Stationary;
      }
      ghost var mid := history;
      var committed, replaced := CommitNewer(prev, next, pending);
      if !committed {
        AddedByRivalsTrans(origin, mid, history, rivals, |rivals| - |pending|);
        return [], Stale;
      }
      AddedByRivalsTrans(origin, mid, history[..|history| - 1], rivals, |rivals| - |pending|);
      lanes := CollectCrossedLanes(roadMap, replaced.corners, next.corners);
      outcome := Committed(replaced);
    }

    /**
     * One tick. `rivals` lists, for each compare-exchange this tick makes, the commit another
     * thread makes just before it, if any. Without rivals the tick is TickStep; with them, every
     * commit still has a newer frame than the one it replaces, a stationary tick found a still
     * corner against committed bounds, a tick that gives up as stale leaves
     * the slot at least as new as its snapshot, and an event reports the markings crossed since the
     * bounds this tick's commit replaced.
     */
    method Tick(snapshot: WorldSnapshot, rivals: seq<Option<Bounds>>) returns (event: Option<LaneInvasionEvent>, ghost outcome: Outcome)
      requires Valid()
      modifies this
      ensures Valid() && old(history) <= history
      ensures rivals == [] ==> TickResult(bounds, event, outcome) == TickStep(parent, box, trig, roadMap, old(bounds), snapshot)
      ensures outcome.ParentMissing? <==> parent !in snapshot.actors
      ensures outcome.ParentMissing? ==> bounds == old(bounds) && history == old(history)
      ensures outcome.Baseline? ==>
        && parent in snapshot.actors && old(bounds).None?
        && bounds == Some(MakeBounds(box, trig, snapshot.frame, snapshot.actors[parent]))
        && history == old(history) + [bounds.value]
      ensures outcome.Stationary? || outcome.Stale? ==> AddedByRivals(old(history), history, rivals)
      ensures outcome.Stale? ==> parent in snapshot.actors && bounds.Some? && bounds.value.frame >= snapshot.frame
      ensures outcome.Stationary? ==>
        && parent in snapshot.actors
        && exists b :: b in history && AnyCornerStill(b.corners, MakeBounds(box, trig, snapshot.frame, snapshot.actors[parent]).corners)
      ensures outcome.Committed? ==> history != [] && AddedByRivals(old(history), history[..|history| - 1], rivals)
      ensures !outcome.Committed? ==> event.None?
      ensures outcome.Committed? ==>
        && parent in snapshot.actors
        && var transform := snapshot.actors[parent];
           var next := MakeBounds(box, trig, snapshot.frame, transform);
           && bounds == Some(next)
           && |history| >= 2 && history[|history| - 2] == outcome.replaced
           && outcome.replaced.frame < snapshot.frame
           && event == EventFor(snapshot, transform, parent, CrossedLanes(roadMap, outcome.replaced.corners, next.corners, 4))
    {
      if parent !in snapshot.actors {
        return None, ParentMissing;
      }
      var transform := snapshot.actors[parent];
      var next := MakeBounds(box, trig, snapshot.frame, transform);
      assert next.frame == snapshot.frame;
      var pending := rivals;
      var prev := bounds;

      // The first tick installs a baseline, unless another thread got there first.
      if prev.None? {
        var installed;
        installed, prev, pending := InstallBaseline(next, rivals);
        if installed {
          return None, Baseline;
        }
      }
      assert rivals == [] ==> pending == [] && prev == old(bounds) && history == old(history);

      // A still corner is judged against the bounds this tick loaded, which stay in the history.
      ghost var seen := prev.value;
      assert seen == history[|history| - 1];
      ghost var h0 := history;
      var lanes;
      lanes, outcome := Advance(old(history), rivals, prev, pending, next);
      assert h0 <= history && seen in h0;
      assert seen in history;
      if lanes != [] {
        event := Some(LaneInvasionEvent(snapshot.frame, snapshot.elapsedSeconds, transform, parent, lanes));
      } else {
        event := None;
      }
    }
  }

  // ---------------------------------------------------------------------------
  // Subscription
  // ---------------------------------------------------------------------------

  /** The episode's per-tick callbacks: whether the episode still exists, the live ids, the next id. */
  datatype Registry = Registry(alive: bool, handlers: set<nat>, nextId: nat)

  /** Ids are handed out from 1 up, so 0 never names a registration. */
  predicate RegistryValid(r: Registry) {
    r.nextId > 0 && forall h :: h in r.handlers ==> 0 < h < r.nextId
  }

  /** The sensor's registration id (0 for none) with the registry it lives in. */
  datatype SensorState = SensorState(callbackId: nat, registry: Registry)

  /** The sensor holds at most one registration, and that one is live. */
  predicate SensorValid(s: SensorState) {
    RegistryValid(s.registry) && (s.callbackId != 0 ==> s.callbackId in s.registry.handlers)
  }

  /**
   * Listen: nothing if the parent is not a vehicle (an error is logged) or the episode is gone;
   * otherwise register a new handler, keep its id, and then remove the previous one, if any.
   */
  function Listened(s: SensorState, parentIsVehicle: bool): (r: SensorState)
    ensures r.registry.alive == s.registry.alive && r.registry.nextId >= s.registry.nextId
    ensures r.registry.handlers <= s.registry.handlers + {r.callbackId}
  {
    if !parentIsVehicle || !s.registry.alive then s
    else
      var id := s.registry.nextId;
      var registered := s.registry.(handlers := s.registry.handlers + {id}, nextId := id + 1);
      var previous := s.callbackId;
      SensorState(id, if previous != 0 then registered.(handlers := registered.handlers - {previous}) else registered)
  }

  /** Stop: forget the id, and remove that registration if there was one and the episode is still there. */
  function Stopped(s: SensorState): (r: SensorState)
    ensures r.callbackId == 0 && r.registry.alive == s.registry.alive && r.registry.nextId == s.registry.nextId
    ensures r.registry.handlers <= s.registry.handlers
  {
    var previous := s.callbackId;
    SensorState(0, if previous != 0 && s.registry.alive then s.registry.(handlers := s.registry.handlers - {previous}) else s.registry)
  }

  /**
   * Listen keeps the sensor valid; when it acts, the new id is fresh and non-zero and the
   * registry loses the previous registration and gains the new one, nothing else.
   */
  lemma ListenedReplaces(s: SensorState, parentIsVehicle: bool)
    requires SensorValid(s)
    ensures SensorValid(Listened(s, parentIsVehicle))
    ensures var r := Listened(s, parentIsVehicle);
      if parentIsVehicle && s.registry.alive then
        && r.callbackId != 0 && r.callbackId !in s.registry.handlers
        && r.registry.handlers == (s.registry.handlers - {s.callbackId}) + {r.callbackId}
      else r == s
  {
  }

  /** Listening twice leaves only the second registration of the sensor live. */
  lemma {:induction false} ListenTwiceKeepsOne(s: SensorState)
    requires SensorValid(s) && s.registry.alive
    ensures var s1 := Listened(s, true);
      var s2 := Listened(s1, true);
      && SensorValid(s2)
      && s1.callbackId !in s2.registry.handlers
      && s2.registry.handlers == (s.registry.handlers - {s.callbackId}) + {s2.callbackId}
  {
    ListenedReplaces(s, true);
    var s1 := Listened(s, true);
    ListenedReplaces(s1, true);
    var s2 := Listened(s1, true);
    assert s1.callbackId != s2.callbackId;
  }

  /**
   * Stop keeps the sensor valid and leaves no id; it is a no-op without a registration, and a
   * second Stop is a no-op; with a live episode the registration is gone afterwards.
   */
  lemma StoppedRemoves(s: SensorState)
    requires SensorValid(s)
    ensures SensorValid(Stopped(s)) && Stopped(s).callbackId == 0
    ensures s.callbackId == 0 ==> Stopped(s) == s
    ensures Stopped(Stopped(s)) == Stopped(s)
    ensures s.registry.alive ==> Stopped(s).registry.handlers == s.registry.handlers - {s.callbackId}
  {
  }

  /** The episode, as far as the sensor uses it. */
  class Episode {
    var alive: bool
    var handlers: set<nat>
    var nextId: nat

    function State(): Registry
      reads this
    {
      Registry(alive, handlers, nextId)
    }

    constructor ()
      ensures State() == Registry(true, {}, 1)
    {
      alive := true;
      handlers := {};
      nextId := 1;
    }

    /** Registers a per-tick handler under a new id. */
    method RegisterOnTickEvent() returns (id: nat)
      modifies this
      ensures id == old(nextId)
      ensures State() == old(State()).(handlers := old(handlers) + {id}, nextId := id + 1)
    {
      id := nextId;
      handlers := handlers + {id};
      nextId := nextId + 1;
    }

    method RemoveOnTickEvent(id: nat)
      modifies this
      ensures State() == old(State()).(handlers := old(handlers) - {id})
    {
      handlers := handlers - {id};
    }
  }

  class LaneInvasionSensor {
    const parentIsVehicle: bool
    const episode: Episode
    var callbackId: nat

    function State(): SensorState
      reads this, episode
    {
      SensorState(callbackId, episode.State())
    }

    constructor (parentIsVehicle: bool, episode: Episode)
      ensures this.parentIsVehicle == parentIsVehicle && this.episode == episode && callbackId == 0
    {
      this.parentIsVehicle := parentIsVehicle;
      this.episode := episode;
      callbackId := 0;
    }

    method Listen()
      modifies this, episode
      ensures State() == Listened(old(State()), parentIsVehicle)
    {
      if !parentIsVehicle {
        return;
      }
      if !episode.alive {
        return;
      }
      var id := episode.RegisterOnTickEvent();
      var previous := callbackId;
      callbackId := id;
      if previous != 0 {
        episode.RemoveOnTickEvent(previous);
      }
    }

    method Stop()
      modifies this, episode
      ensures State() == Stopped(old(State()))
    {
      var previous := callbackId;
      callbackId := 0;
      if previous != 0 && episode.alive {
        episode.RemoveOnTickEvent(previous);
      }
    }

    /** The destructor stops the sensor. */
    method Destroy()
      modifies this, episode
      ensures State() == Stopped(old(State()))
    {
      Stop();
    }
  }
}
