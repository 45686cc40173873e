/**
 * A `CylinderCollider`: its generated ray layout and the state its casts
 * leave behind, the vertical cast dispatched on the sign of the distance,
 * and the horizontal cast over the forward grid.
 *
 * `Physics.Raycast` is the oracle `World`: it is asked about one ray of
 * the layout at a time and answers with the raw hit, if any. A ray is
 * identified by the collider casting it, its place in the layout, the
 * cylinder's base point for this cast (body position plus displacement),
 * the cast direction and the ray length; the ray's origin and direction
 * follow from these and the collider's rotation-based layout.
 */
module Probe {
  import opened Wrappers
  import opened Vectors
  import opened RayLayout
  import opened HitBuffer

  /**
   * The last cast in one direction: the live prefix of its hit buffer and
   * its ray length (`lastVerticalSpeed` / `lastHorizontalSpeed`).
   */
  datatype CastRecord = CastRecord(hits: seq<Hit>, length: real)

  /** The state of a collider no cast has touched yet. */
  const NoCast: CastRecord := CastRecord([], 0.0)

  datatype Collider = Collider(
    id: int,
    shape: Shape,
    layout: Layout,
    vertical: CastRecord,
    horizontal: CastRecord)

  datatype RayQuery =
    | VerticalRay(collider: int, slot: nat, upward: bool, base: Vec3, length: real)
    | HorizontalRay(collider: int, column: nat, layer: nat, velocity: Vec3, base: Vec3, length: real)

  /** `Physics.Raycast` against the static scene, per ray. */
  type World = RayQuery -> Option<Hit>

  /** `Awake`: a new collider generates its layout from its shape. */
  function Awake(id: int, shape: Shape): (r: Result<Collider, LayoutError>)
    ensures r.Success? <==> GenerateLayout(shape).Success?
    ensures r.Success? ==>
      && r.value.id == id && r.value.shape == shape
      && r.value.layout == GenerateLayout(shape).value
      && r.value.vertical == NoCast && r.value.horizontal == NoCast
  {
    match GenerateLayout(shape)
    case Success(layout) => Success(Collider(id, shape, layout, NoCast, NoCast))
    case Failure(e) => Failure(e)
  }

  /**
   * What an edit leaves of a cast record: the buffers are reallocated, so
   * every slot of the stale live prefix now holds the default hit, while
   * the hit count and the ray length stay as they were.
   */
  function Cleared(record: CastRecord): CastRecord {
    CastRecord(seq(|record.hits|, _ => DefaultHit), record.length)
  }

  /** The stale hit counts still index into the reallocated buffers. */
  predicate StaleCountsFit(c: Collider, layout: Layout) {
    |c.vertical.hits| <= |layout.fan| && |c.horizontal.hits| <= layout.HorizontalCapacity()
  }

  /**
   * `OnValidate`: an edited shape regenerates the layout and reallocates
   * both hit buffers without resetting the hit counts. The collider keeps
   * its identity; its live prefixes read as default hits, and a stale
   * count past the end of a new buffer makes the next read of that buffer
   * fail.
   */
  function Edit(c: Collider, shape: Shape): (r: Result<Collider, LayoutError>)
    ensures GenerateLayout(shape).Failure? ==> r == Failure(GenerateLayout(shape).error)
    ensures GenerateLayout(shape).Success? ==>
      (r.Success? <==> StaleCountsFit(c, GenerateLayout(shape).value))
    ensures GenerateLayout(shape).Success? && r.Failure? ==> r.error == IndexOutOfRange
    ensures r.Success? ==>
      && r.value.id == c.id && r.value.shape == shape
      && r.value.layout == GenerateLayout(shape).value
      && |r.value.vertical.hits| == |c.vertical.hits| && r.value.vertical.length == c.vertical.length
      && |r.value.horizontal.hits| == |c.horizontal.hits| && r.value.horizontal.length == c.horizontal.length
      && (forall i :: 0 <= i < |r.value.vertical.hits| ==> r.value.vertical.hits[i] == DefaultHit)
      && (forall i :: 0 <= i < |r.value.horizontal.hits| ==> r.value.horizontal.hits[i] == DefaultHit)
  {
    match GenerateLayout(shape)
    case Failure(e) => Failure(e)
    case Success(layout) =>
      if StaleCountsFit(c, layout) then
        Success(Collider(c.id, shape, layout, Cleared(c.vertical), Cleared(c.horizontal)))
      else
        Failure(IndexOutOfRange)
  }

  /**
   * Regeneration is deterministic: an edit that succeeds yields the layout
   * a fresh collider of that shape gets, and a collider whose stale counts
   * fit the fresh layout can always be edited to that shape.
   */
  lemma EditMatchesFreshLayout(c: Collider, id: int, shape: Shape)
    ensures Edit(c, shape).Success? ==>
      Awake(id, shape).Success? && Edit(c, shape).value.layout == Awake(id, shape).value.layout
    ensures Awake(id, shape).Success? && StaleCountsFit(c, Awake(id, shape).value.layout) ==>
      Edit(c, shape).Success?
  {
  }

  /**
   * After an edit the closest hit of either stale prefix is the default
   * hit: distance zero and a zero normal, whatever was hit before.
   */
  lemma EditForgetsHits(c: Collider, shape: Shape)
    requires Edit(c, shape).Success?
    ensures ClosestOf(Edit(c, shape).value.vertical.hits) == DefaultHit
    ensures ClosestOf(Edit(c, shape).value.horizontal.hits) == DefaultHit
  {
    var e := Edit(c, shape).value;
    if |e.vertical.hits| > 0 {
      assert e.vertical.hits[ClosestIndex(e.vertical.hits)] == DefaultHit;
    }
    if |e.horizontal.hits| > 0 {
      assert e.horizontal.hits[ClosestIndex(e.horizontal.hits)] == DefaultHit;
    }
  }

  /**
   * A cast made after the edit sets its own count, so an edited collider
   * reads what a freshly created collider of the same shape would read.
   */
  lemma EditThenCastMatchesFresh(c: Collider, shape: Shape, world: World, position: Vec3, distance: real,
                                 displacement: Vec3)
    requires Edit(c, shape).Success? && distance != 0.0
    ensures Awake(c.id, shape).Success?
    ensures CheckVerticalCollision(Edit(c, shape).value, world, position, distance, displacement).0.vertical
         == CheckVerticalCollision(Awake(c.id, shape).value, world, position, distance, displacement).0.vertical
  {
  }

  /** The fan's rays in slot order, cast from `base` up or down for `length`. */
  function VerticalRays(c: Collider, world: World, base: Vec3, upward: bool, length: real): (rays: seq<Option<Hit>>)
    ensures |rays| == |c.layout.fan|
    ensures forall i :: 0 <= i < |rays| ==> rays[i] == world(VerticalRay(c.id, i, upward, base, length))
  {
    seq(|c.layout.fan|, i requires 0 <= i < |c.layout.fan| => world(VerticalRay(c.id, i, upward, base, length)))
  }

  /** One layer of the forward grid of collider `id`: its rays column by column. */
  function LayerRays(id: int, columns: nat, world: World, velocity: Vec3, base: Vec3, length: real, layer: nat)
    : (rays: seq<Option<Hit>>)
    ensures |rays| == columns
    ensures forall i :: 0 <= i < columns ==> rays[i] == world(HorizontalRay(id, i, layer, velocity, base, length))
  {
    seq(columns, i requires 0 <= i < columns => world(HorizontalRay(id, i, layer, velocity, base, length)))
  }

  /** The first `layers` layers of the forward grid, layer after layer. */
  function GridRays(id: int, columns: nat, world: World, velocity: Vec3, base: Vec3, length: real, layers: nat)
    : (rays: seq<Option<Hit>>)
    ensures |rays| == columns * layers
  {
    if layers == 0 then []
    else
      var rays := GridRays(id, columns, world, velocity, base, length, layers - 1)
                  + LayerRays(id, columns, world, velocity, base, length, layers - 1);
      assert columns * (layers - 1) + columns == columns * layers;
      rays
  }

  /** The forward grid's rays: layer by layer, and column by column within a layer. */
  function HorizontalRays(c: Collider, world: World, velocity: Vec3, base: Vec3, length: real): (rays: seq<Option<Hit>>)
    ensures |rays| == c.layout.HorizontalCapacity()
  {
    GridRays(c.id, c.layout.columns, world, velocity, base, length, c.layout.layers)
  }

  /**
   * The ray of column `i` in layer `j` is cast `j * columns + i`-th, so a
   * lower layer's hit on a collider is met before a higher layer's.
   */
  lemma {:induction false} GridOrder(id: int, columns: nat, world: World, velocity: Vec3, base: Vec3, length: real,
                                     layers: nat, i: nat, j: nat)
    requires i < columns && j < layers
    ensures j * columns + i < |GridRays(id, columns, world, velocity, base, length, layers)|
    ensures GridRays(id, columns, world, velocity, base, length, layers)[j * columns + i]
         == world(HorizontalRay(id, i, j, velocity, base, length))
  {
    var prefix := GridRays(id, columns, world, velocity, base, length, layers - 1);
    assert |prefix| == columns * (layers - 1);
    if j < layers - 1 {
      GridOrder(id, columns, world, velocity, base, length, layers - 1, i, j);
      assert j * columns + i < columns * (layers - 1);
    } else {
      assert j * columns == columns * (layers - 1);
    }
  }

  /** In an empty scene no ray of the grid hits. */
  lemma {:induction false} EmptyGridMisses(id: int, columns: nat, world: World, velocity: Vec3, base: Vec3,
                                           length: real, layers: nat)
    requires Empty(world)
    ensures forall k :: 0 <= k < columns * layers ==> GridRays(id, columns, world, velocity, base, length, layers)[k].None?
  {
    if layers > 0 {
      var prefix := GridRays(id, columns, world, velocity, base, length, layers - 1);
      var layer := LayerRays(id, columns, world, velocity, base, length, layers - 1);
      EmptyGridMisses(id, columns, world, velocity, base, length, layers - 1);
      var rays: seq<Option<Hit>> := prefix + layer;
      forall k | 0 <= k < |rays| ensures rays[k].None? {
        if k < |prefix| { assert rays[k] == prefix[k]; }
        else { assert rays[k] == layer[k - |prefix|]; }
      }
    }
  }

  /** One vertical cast from `base`: the buffer is refilled and its live length returned. */
  function CastVertical(c: Collider, world: World, base: Vec3, upward: bool, length: real): (r: (Collider, int))
  {
    var hits := Dedup(VerticalRays(c, world, base, upward, length), c.shape.skinDepth);
    (c.(vertical := CastRecord(hits, length)), |hits|)
  }

  /**
   * `CheckVerticalCollision(distance, displacement)`: a negative distance
   * casts the fan down, a positive one casts it up (from the top of the
   * skinless cylinder), both with rays of length `|distance| + skinDepth`;
   * a zero distance casts nothing, changes nothing and reports no hits.
   * The earlier revision is the case `displacement == Zero`.
   */
  function CheckVerticalCollision(c: Collider, world: World, position: Vec3, distance: real, displacement: Vec3): (r: (Collider, int))
    ensures distance == 0.0 ==> r == (c, 0)
    ensures distance != 0.0 ==>
      && r.0 == c.(vertical := r.0.vertical)
      && r.0.vertical.length == Abs(distance) + c.shape.skinDepth
      && r.0.vertical.hits == Dedup(VerticalRays(c, world, Add(position, displacement), distance > 0.0,
                                                 Abs(distance) + c.shape.skinDepth), c.shape.skinDepth)
    ensures r.1 == (if distance == 0.0 then 0 else |r.0.vertical.hits|)
    ensures 0 <= r.1 <= |c.layout.fan|
  {
    var base := Add(position, displacement);
    if distance < 0.0 then CastVertical(c, world, base, false, Abs(distance) + c.shape.skinDepth)
    else if distance > 0.0 then CastVertical(c, world, base, true, Abs(distance) + c.shape.skinDepth)
    else (c, 0)
  }

  /**
   * `CheckHorizontalCollision(velocity, displacement)`: every ray of the
   * forward grid, turned toward `velocity`, is cast along it for
   * `|velocity| + skinDepth`. The earlier revision is the case
   * `displacement == Zero`.
   */
  function CheckHorizontalCollision(c: Collider, world: World, numerics: Numerics, position: Vec3,
                                    velocity: Vec3, displacement: Vec3): (r: (Collider, int))
    ensures r.0 == c.(horizontal := r.0.horizontal)
    ensures r.0.horizontal.length == numerics.magnitude(velocity) + c.shape.skinDepth
    ensures r.1 == |r.0.horizontal.hits| <= c.layout.HorizontalCapacity()
  {
    var length := numerics.magnitude(velocity) + c.shape.skinDepth;
    var hits := Dedup(HorizontalRays(c, world, velocity, Add(position, displacement), length), c.shape.skinDepth);
    (c.(horizontal := CastRecord(hits, length)), |hits|)
  }

  /** Properties of the live prefix any cast leaves, stated over the rays it cast. */
  ghost predicate SoundPrefix(hits: seq<Hit>, rays: seq<Option<Hit>>, skinDepth: real) {
    && |hits| <= HitRays(rays)
    && IdsDistinct(hits)
    && (forall k :: 0 <= k < |hits| ==> hits[k].distance >= 0.0)
    && (forall id :: HasId(hits, id) <==> Strikes(rays, id))
    && NoNearerRay(hits, rays, skinDepth)
    && EntriesFromRays(hits, rays, skinDepth)
  }

  lemma DedupSound(rays: seq<Option<Hit>>, skinDepth: real)
    ensures SoundPrefix(Dedup(rays, skinDepth), rays, skinDepth)
  {
    var d := Dedup(rays, skinDepth);
    DedupCountBound(rays, skinDepth);
    DedupIdsDistinct(rays, skinDepth);
    DedupCoversStruckIds(rays, skinDepth);
    DedupKeepsNearest(rays, skinDepth);
    DedupEntriesFromRays(rays, skinDepth);
    forall k | 0 <= k < |d|
      ensures d[k].distance >= 0.0
    {
      assert FromRays(rays, skinDepth, d[k]);
    }
  }

  /**
   * After a vertical cast the count is within the fan, no collider is
   * listed twice, every distance is skin-adjusted and non-negative, and
   * each collider's entry is its nearest ray's hit.
   */
  lemma VerticalCastSound(c: Collider, world: World, position: Vec3, distance: real, displacement: Vec3)
    requires distance != 0.0
    ensures var r := CheckVerticalCollision(c, world, position, distance, displacement);
      var len := Abs(distance) + c.shape.skinDepth;
      SoundPrefix(r.0.vertical.hits,
                  VerticalRays(c, world, Add(position, displacement), distance > 0.0, len), c.shape.skinDepth)
  {
    DedupSound(VerticalRays(c, world, Add(position, displacement), distance > 0.0,
                            Abs(distance) + c.shape.skinDepth), c.shape.skinDepth);
  }

  /** The same guarantees for a horizontal cast, within the grid's capacity. */
  lemma HorizontalCastSound(c: Collider, world: World, numerics: Numerics, position: Vec3,
                            velocity: Vec3, displacement: Vec3)
    ensures var r := CheckHorizontalCollision(c, world, numerics, position, velocity, displacement);
      SoundPrefix(r.0.horizontal.hits,
                  HorizontalRays(c, world, velocity, Add(position, displacement), r.0.horizontal.length),
                  c.shape.skinDepth)
  {
    var length := numerics.magnitude(velocity) + c.shape.skinDepth;
    DedupSound(HorizontalRays(c, world, velocity, Add(position, displacement), length), c.shape.skinDepth);
  }

  /**
   * A cast overwrites the previous one: its result does not depend on what
   * earlier casts left, so repeating a cast reproduces the same hit set.
   */
  lemma VerticalCastOverwrites(c: Collider, world: World, position: Vec3, d1: real, d2: real, disp1: Vec3, disp2: Vec3)
    requires d2 != 0.0
    ensures CheckVerticalCollision(CheckVerticalCollision(c, world, position, d1, disp1).0, world, position, d2, disp2)
         == CheckVerticalCollision(c, world, position, d2, disp2)
  {
  }

  lemma HorizontalCastOverwrites(c: Collider, world: World, numerics: Numerics, position: Vec3,
                                 v1: Vec3, v2: Vec3, disp1: Vec3, disp2: Vec3)
    ensures CheckHorizontalCollision(CheckHorizontalCollision(c, world, numerics, position, v1, disp1).0,
                                     world, numerics, position, v2, disp2)
         == CheckHorizontalCollision(c, world, numerics, position, v2, disp2)
  {
  }
  /** `Physics.Raycast` reports only hits within the ray's length. */
  ghost predicate WithinReach(world: World) {
    forall q :: world(q).Some? ==> world(q).value.distance <= q.length
  }

  /**
   * Against a world that reports only hits within reach, every hit a
   * vertical cast keeps is no farther than the move that caused it.
   */
  lemma VerticalCastWithinMove(c: Collider, world: World, position: Vec3, distance: real, displacement: Vec3)
    requires WithinReach(world) && distance != 0.0
    ensures var hits := CheckVerticalCollision(c, world, position, distance, displacement).0.vertical.hits;
      forall k :: 0 <= k < |hits| ==> 0.0 <= hits[k].distance <= Abs(distance)
  {
    var len := Abs(distance) + c.shape.skinDepth;
    var rays := VerticalRays(c, world, Add(position, displacement), distance > 0.0, len);
    var hits := Dedup(rays, c.shape.skinDepth);
    DedupEntriesFromRays(rays, c.shape.skinDepth);
    forall k | 0 <= k < |hits|
      ensures 0.0 <= hits[k].distance <= Abs(distance)
    {
      assert FromRays(rays, c.shape.skinDepth, hits[k]);
      var i :| EarliestNearestRay(rays, c.shape.skinDepth, i, hits[k]);
      assert rays[i] == world(VerticalRay(c.id, i, distance > 0.0, Add(position, displacement), len));
    }
  }
  /** A scene with nothing in it: every ray misses. */
  ghost predicate Empty(world: World) {
    forall q :: world(q).None?
  }

  /** A cast that no ray of which hits leaves an empty buffer. */
  lemma NoStrikeNoHits(rays: seq<Option<Hit>>, skinDepth: real)
    requires forall i :: 0 <= i < |rays| ==> rays[i].None?
    ensures Dedup(rays, skinDepth) == []
  {
    var d := Dedup(rays, skinDepth);
    DedupCoversStruckIds(rays, skinDepth);
    assert forall k :: 0 <= k < |d| ==> HasId(d, d[k].colliderId);
  }

  /** In an empty scene every cast reports no hits. */
  lemma EmptyWorldCastsMiss(c: Collider, world: World, numerics: Numerics, position: Vec3, distance: real,
                            velocity: Vec3, displacement: Vec3)
    requires Empty(world)
    ensures CheckVerticalCollision(c, world, position, distance, displacement).1 == 0
    ensures CheckHorizontalCollision(c, world, numerics, position, velocity, displacement).1 == 0
  {
    if distance != 0.0 {
      NoStrikeNoHits(VerticalRays(c, world, Add(position, displacement), distance > 0.0,
                                  Abs(distance) + c.shape.skinDepth), c.shape.skinDepth);
    }
    var length := numerics.magnitude(velocity) + c.shape.skinDepth;
    EmptyGridMisses(c.id, c.layout.columns, world, velocity, Add(position, displacement), length, c.layout.layers);
    NoStrikeNoHits(HorizontalRays(c, world, velocity, Add(position, displacement), length), c.shape.skinDepth);
  }
}
