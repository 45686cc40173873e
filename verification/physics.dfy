/**
 * `CharacterPhysics`, later revision: a body with one main collider and
 * lists of horizontal and vertical sub-colliders whose casts are pooled,
 * moved once per fixed tick in two passes — vertical, then horizontal with
 * step climbing and a vertical follow-through — and only when its speed is
 * not negligible.
 */
module Physics {
  import opened Wrappers
  import opened Vectors
  import opened HitBuffer
  import opened Probe
  import opened Collision

  /** `MIN_DIFFERENCE`: the tolerance of the step search. */
  const MinDifference: real := 0.001

  /** The serialized fields: `maxSlopeAngle`, `totalStepHeight`, `stepCount`. */
  datatype Settings = Settings(maxSlopeAngle: real, totalStepHeight: real, stepCount: real)

  const DefaultSettings: Settings := Settings(75.0, 0.2, 4.0)

  /** The default step search tries four heights, `0.05` apart, from the ground up to `0.15`. */
  lemma DefaultStepLadder(i: nat)
    requires i < StepSamples(DefaultSettings.stepCount)
    ensures StepSamples(DefaultSettings.stepCount) == 4
    ensures SampleHeight(DefaultSettings.totalStepHeight, DefaultSettings.stepCount, i) == 0.05 * i as real
    ensures 0.0 <= SampleHeight(DefaultSettings.totalStepHeight, DefaultSettings.stepCount, i) <= 0.15
  {
  }

  /** What a tick consults besides the body: the scene, the float numerics, the settings. */
  datatype Env = Env(world: World, numerics: Numerics, settings: Settings)

  datatype Character = Character(
    position: Vec3,
    collider: Collider,
    horizontalSubColliders: seq<Collider>,
    verticalSubColliders: seq<Collider>,
    ceilingState: CollisionState,
    floorState: CollisionState)

  /** `IsOnFloor`: touching a floor that is not too steep to stand on. */
  predicate IsOnFloor(ch: Character): (b: bool)
    ensures b <==> ch.floorState.colliding && ch.floorState.slopeState != StepSlope
  {
    ch.floorState.colliding && (ch.floorState.slopeState == Flat || ch.floorState.slopeState == Slope)
  }

  /** `IsTouchingCeiling`: every slope state qualifies, so this is just `colliding`. */
  predicate IsTouchingCeiling(ch: Character): (b: bool)
    ensures b <==> ch.ceilingState.colliding
  {
    ch.ceilingState.colliding
      && (ch.ceilingState.slopeState == Flat || ch.ceilingState.slopeState == Slope
          || ch.ceilingState.slopeState == StepSlope)
  }

  function Translate(ch: Character, v: Vec3): Character {
    ch.(position := Add(ch.position, v))
  }

  // ---- sub-collider lists -------------------------------------------------

  /** `List.Contains`, colliders compared by identity. */
  predicate Listed(list: seq<Collider>, id: int) {
    exists i :: 0 <= i < |list| && list[i].id == id
  }

  ghost predicate DistinctIds(list: seq<Collider>) {
    forall i, j :: 0 <= i < j < |list| ==> list[i].id != list[j].id
  }

  /** The position of the first collider with `id`, or `|list|`. */
  function IndexOfCollider(list: seq<Collider>, id: int): (k: nat)
    ensures k <= |list|
    ensures k < |list| ==> list[k].id == id
    ensures forall j :: 0 <= j < k ==> list[j].id != id
    ensures k == |list| <==> !Listed(list, id)
  {
    if |list| == 0 then 0
    else if list[0].id == id then 0
    else
      var k := 1 + IndexOfCollider(list[1..], id);
      assert Listed(list, id) ==> Listed(list[1..], id) by {
        if Listed(list, id) {
          var i :| 0 <= i < |list| && list[i].id == id;
          assert list[1..][i - 1] == list[i];
        }
      }
      k
  }

  /** `Add…SubCollider`: append unless already listed. */
  function AddSubCollider(list: seq<Collider>, c: Collider): (r: seq<Collider>)
    ensures Listed(list, c.id) ==> r == list
    ensures !Listed(list, c.id) ==> r == list + [c]
  {
    if Listed(list, c.id) then list else list + [c]
  }

  /** `Remove…SubCollider`: drop the first listed occurrence, if any. */
  function RemoveSubCollider(list: seq<Collider>, c: Collider): (r: seq<Collider>)
    ensures !Listed(list, c.id) ==> r == list
    ensures Listed(list, c.id) ==> |r| == |list| - 1
  {
    if Listed(list, c.id) then
      var k := IndexOfCollider(list, c.id);
      list[..k] + list[k + 1..]
    else list
  }

  /**
   * Adding is idempotent and keeps a list free of duplicates; afterwards
   * exactly the earlier colliders and the added one are listed.
   */
  lemma AddSubColliderKeepsSet(list: seq<Collider>, c: Collider)
    ensures AddSubCollider(AddSubCollider(list, c), c) == AddSubCollider(list, c)
    ensures DistinctIds(list) ==> DistinctIds(AddSubCollider(list, c))
    ensures forall id :: Listed(AddSubCollider(list, c), id) <==> Listed(list, id) || id == c.id
  {
    var r := AddSubCollider(list, c);
    if !Listed(list, c.id) {
      assert r[|list|].id == c.id;
    }
    forall id ensures Listed(r, id) <==> Listed(list, id) || id == c.id {
      if Listed(list, id) {
        var i :| 0 <= i < |list| && list[i].id == id;
        assert r[i] == list[i];
      }
      if Listed(r, id) {
        var i :| 0 <= i < |r| && r[i].id == id;
        if i < |list| { assert r[i] == list[i]; }
      }
    }
  }

  /**
   * Removing from a duplicate-free list unlists the collider and keeps
   * the list duplicate-free; adding a new collider and removing it again
   * restores the list.
   */
  lemma RemoveSubColliderUnlists(list: seq<Collider>, c: Collider)
    requires DistinctIds(list)
    ensures DistinctIds(RemoveSubCollider(list, c))
    ensures forall id :: Listed(RemoveSubCollider(list, c), id) <==> Listed(list, id) && id != c.id
    ensures !Listed(list, c.id) ==> RemoveSubCollider(AddSubCollider(list, c), c) == list
  {
    var r := RemoveSubCollider(list, c);
    if Listed(list, c.id) {
      var k := IndexOfCollider(list, c.id);
      assert forall i :: 0 <= i < |r| ==> r[i] == (if i < k then list[i] else list[i + 1]);
      forall id ensures Listed(r, id) <==> Listed(list, id) && id != c.id {
        if Listed(r, id) {
          var i :| 0 <= i < |r| && r[i].id == id;
          if i < k { assert r[i] == list[i]; } else { assert r[i] == list[i + 1]; }
        }
        if Listed(list, id) && id != c.id {
          var i :| 0 <= i < |list| && list[i].id == id;
          if i < k { assert r[i] == list[i]; } else { assert i != k; assert r[i - 1] == list[i]; }
        }
      }
    }
    if !Listed(list, c.id) {
      var a := AddSubCollider(list, c);
      assert a == list + [c];
      assert a[|list|].id == c.id;
      var k := IndexOfCollider(a, c.id);
      assert k == |list|;
      assert a[..k] == list;
    }
  }

  lemma RemovingUnlists(list: seq<Collider>, c: Collider)
    ensures DistinctIds(list) ==> !Listed(RemoveSubCollider(list, c), c.id)
  {
    if DistinctIds(list) {
      RemoveSubColliderUnlists(list, c);
    }
  }

  /** Only the horizontal list changes, and afterwards it lists `c`. */
  function AddHorizontalSubCollider(ch: Character, c: Collider): (r: Character)
    ensures r == ch.(horizontalSubColliders := r.horizontalSubColliders)
    ensures Listed(r.horizontalSubColliders, c.id)
    ensures DistinctIds(ch.horizontalSubColliders) ==> DistinctIds(r.horizontalSubColliders)
  {
    AddSubColliderKeepsSet(ch.horizontalSubColliders, c);
    ch.(horizontalSubColliders := AddSubCollider(ch.horizontalSubColliders, c))
  }

  /** Only the horizontal list changes; a list without repeats no longer lists `c`. */
  function RemoveHorizontalSubCollider(ch: Character, c: Collider): (r: Character)
    ensures r == ch.(horizontalSubColliders := r.horizontalSubColliders)
    ensures DistinctIds(ch.horizontalSubColliders) ==> !Listed(r.horizontalSubColliders, c.id)
  {
    RemovingUnlists(ch.horizontalSubColliders, c);
    ch.(horizontalSubColliders := RemoveSubCollider(ch.horizontalSubColliders, c))
  }

  /** Only the vertical list changes, and afterwards it lists `c`. */
  function AddVerticalSubCollider(ch: Character, c: Collider): (r: Character)
    ensures r == ch.(verticalSubColliders := r.verticalSubColliders)
    ensures Listed(r.verticalSubColliders, c.id)
    ensures DistinctIds(ch.verticalSubColliders) ==> DistinctIds(r.verticalSubColliders)
  {
    AddSubColliderKeepsSet(ch.verticalSubColliders, c);
    ch.(verticalSubColliders := AddSubCollider(ch.verticalSubColliders, c))
  }

  /** Only the vertical list changes; a list without repeats no longer lists `c`. */
  function RemoveVerticalSubCollider(ch: Character, c: Collider): (r: Character)
    ensures r == ch.(verticalSubColliders := r.verticalSubColliders)
    ensures DistinctIds(ch.verticalSubColliders) ==> !Listed(r.verticalSubColliders, c.id)
  {
    RemovingUnlists(ch.verticalSubColliders, c);
    ch.(verticalSubColliders := RemoveSubCollider(ch.verticalSubColliders, c))
  }

  // ---- pooled casts -------------------------------------------------------

  function Sum(xs: seq<int>): int {
    if |xs| == 0 then 0 else Sum(xs[..|xs| - 1]) + xs[|xs| - 1]
  }

  /** A sum of counts is zero exactly when every count is. */
  lemma {:induction false} SumOfCounts(xs: seq<int>)
    requires forall i :: 0 <= i < |xs| ==> xs[i] >= 0
    ensures Sum(xs) >= 0
    ensures Sum(xs) == 0 <==> forall i :: 0 <= i < |xs| ==> xs[i] == 0
    decreases |xs|
  {
    if |xs| > 0 {
      var p := xs[..|xs| - 1];
      assert forall i :: 0 <= i < |p| ==> p[i] == xs[i];
      SumOfCounts(p);
    }
  }

  function VerticalCasts(subs: seq<Collider>, world: World, position: Vec3, distance: real): seq<(Collider, int)> {
    seq(|subs|, i requires 0 <= i < |subs| => CheckVerticalCollision(subs[i], world, position, distance, Zero))
  }

  function HorizontalCasts(subs: seq<Collider>, env: Env, position: Vec3, velocity: Vec3, displacement: Vec3)
    : seq<(Collider, int)>
  {
    seq(|subs|, i requires 0 <= i < |subs| =>
      CheckHorizontalCollision(subs[i], env.world, env.numerics, position, velocity, displacement))
  }

  function Colliders(casts: seq<(Collider, int)>): seq<Collider> {
    seq(|casts|, i requires 0 <= i < |casts| => casts[i].0)
  }

  function Counts(casts: seq<(Collider, int)>): seq<int> {
    seq(|casts|, i requires 0 <= i < |casts| => casts[i].1)
  }

  /** The live prefix length of each collider's vertical buffer. */
  function VerticalHitCounts(cs: seq<Collider>): seq<int> {
    seq(|cs|, i requires 0 <= i < |cs| => |cs[i].vertical.hits|)
  }

  function HorizontalHitCounts(cs: seq<Collider>): seq<int> {
    seq(|cs|, i requires 0 <= i < |cs| => |cs[i].horizontal.hits|)
  }

  /** A casting sub-collider's count is the length of the live prefix it keeps. */
  lemma VerticalCastCounts(subs: seq<Collider>, world: World, position: Vec3, distance: real)
    ensures var casts := VerticalCasts(subs, world, position, distance);
      distance != 0.0 ==> Counts(casts) == VerticalHitCounts(Colliders(casts))
    ensures var casts := VerticalCasts(subs, world, position, distance);
      distance == 0.0 ==> Colliders(casts) == subs && Sum(Counts(casts)) == 0
  {
    var casts := VerticalCasts(subs, world, position, distance);
    if distance != 0.0 {
      assert forall i :: 0 <= i < |casts| ==> Counts(casts)[i] == VerticalHitCounts(Colliders(casts))[i];
    } else {
      assert Colliders(casts) == subs;
      SumOfCounts(Counts(casts));
    }
  }

  /** The pooled sub-collider count is zero exactly when no sub-collider holds a hit. */
  lemma PooledVerticalCount(cs: seq<Collider>)
    ensures Sum(VerticalHitCounts(cs)) >= 0
    ensures Sum(VerticalHitCounts(cs)) == 0 <==> forall i :: 0 <= i < |cs| ==> |cs[i].vertical.hits| == 0
  {
    var xs := VerticalHitCounts(cs);
    SumOfCounts(xs);
    assert forall i :: 0 <= i < |cs| ==> xs[i] == |cs[i].vertical.hits|;
  }

  lemma PooledHorizontalCount(cs: seq<Collider>)
    ensures Sum(HorizontalHitCounts(cs)) >= 0
    ensures Sum(HorizontalHitCounts(cs)) == 0 <==> forall i :: 0 <= i < |cs| ==> |cs[i].horizontal.hits| == 0
  {
    var xs := HorizontalHitCounts(cs);
    SumOfCounts(xs);
    assert forall i :: 0 <= i < |cs| ==> xs[i] == |cs[i].horizontal.hits|;
  }

  lemma HorizontalCastCounts(subs: seq<Collider>, env: Env, position: Vec3, velocity: Vec3, displacement: Vec3)
    ensures var casts := HorizontalCasts(subs, env, position, velocity, displacement);
      Counts(casts) == HorizontalHitCounts(Colliders(casts))
  {
    var casts := HorizontalCasts(subs, env, position, velocity, displacement);
    assert forall i :: 0 <= i < |casts| ==> Counts(casts)[i] == HorizontalHitCounts(Colliders(casts))[i];
  }

  /** No collider of the body reports a vertical hit. */
  predicate NoVerticalHits(ch: Character) {
    |ch.collider.vertical.hits| == 0
      && forall i :: 0 <= i < |ch.verticalSubColliders| ==> |ch.verticalSubColliders[i].vertical.hits| == 0
  }

  predicate NoHorizontalHits(ch: Character) {
    |ch.collider.horizontal.hits| == 0
      && forall i :: 0 <= i < |ch.horizontalSubColliders| ==> |ch.horizontalSubColliders[i].horizontal.hits| == 0
  }

  /**
   * The private `CheckVerticalCollision`: the main collider and every
   * vertical sub-collider cast, and their counts add up. A zero distance
   * casts nothing; otherwise the total is zero exactly when no collider
   * reports a hit.
   */
  function CheckVerticalCollisionAll(ch: Character, world: World, distance: real): (r: (Character, int))
    ensures r.0 == ch.(collider := r.0.collider, verticalSubColliders := r.0.verticalSubColliders)
    ensures |r.0.verticalSubColliders| == |ch.verticalSubColliders|
    ensures r.0.collider == CheckVerticalCollision(ch.collider, world, ch.position, distance, Zero).0
    ensures forall i :: 0 <= i < |ch.verticalSubColliders| ==>
      r.0.verticalSubColliders[i] == CheckVerticalCollision(ch.verticalSubColliders[i], world, ch.position, distance, Zero).0
    ensures distance == 0.0 ==> r == (ch, 0)
    ensures r.1 >= 0
    ensures distance != 0.0 ==>
      r.1 == |r.0.collider.vertical.hits| + Sum(VerticalHitCounts(r.0.verticalSubColliders))
    ensures distance != 0.0 ==> (r.1 == 0 <==> NoVerticalHits(r.0))
  {
    var p := CheckVerticalCollision(ch.collider, world, ch.position, distance, Zero);
    var subs := VerticalCasts(ch.verticalSubColliders, world, ch.position, distance);
    var counts := Counts(subs);
    VerticalCastCounts(ch.verticalSubColliders, world, ch.position, distance);
    PooledVerticalCount(Colliders(subs));
    (ch.(collider := p.0, verticalSubColliders := Colliders(subs)), p.1 + Sum(counts))
  }

  /** The private `CheckHorizontalCollision`: every horizontal collider casts, counts add up. */
  function CheckHorizontalCollisionAll(ch: Character, env: Env, velocity: Vec3, displacement: Vec3): (r: (Character, int))
    ensures r.0 == ch.(collider := r.0.collider, horizontalSubColliders := r.0.horizontalSubColliders)
    ensures |r.0.horizontalSubColliders| == |ch.horizontalSubColliders|
    ensures r.0.collider == CheckHorizontalCollision(ch.collider, env.world, env.numerics, ch.position, velocity, displacement).0
    ensures forall i :: 0 <= i < |ch.horizontalSubColliders| ==>
      r.0.horizontalSubColliders[i]
        == CheckHorizontalCollision(ch.horizontalSubColliders[i], env.world, env.numerics, ch.position, velocity, displacement).0
    ensures r.1 >= 0
    ensures r.1 == |r.0.collider.horizontal.hits| + Sum(HorizontalHitCounts(r.0.horizontalSubColliders))
    ensures r.1 == 0 <==> NoHorizontalHits(r.0)
  {
    var p := CheckHorizontalCollision(ch.collider, env.world, env.numerics, ch.position, velocity, displacement);
    var subs := HorizontalCasts(ch.horizontalSubColliders, env, ch.position, velocity, displacement);
    var counts := Counts(subs);
    HorizontalCastCounts(ch.horizontalSubColliders, env, ch.position, velocity, displacement);
    PooledHorizontalCount(Colliders(subs));
    (ch.(collider := p.0, horizontalSubColliders := Colliders(subs)), p.1 + Sum(counts))
  }

  /**
   * The private `GetClosestVerticalHits` / `GetClosestHorizontalHits`:
   * starting from the main collider's closest hit, each sub-collider's
   * closest hit in turn replaces it when strictly nearer.
   */
  function ClosestAcross(main: Hit, subs: seq<Hit>): (h: Hit)
    ensures h.distance <= main.distance
    ensures forall i :: 0 <= i < |subs| ==> h.distance <= subs[i].distance
    ensures h == main || exists i :: 0 <= i < |subs| && h == subs[i]
    ensures || (h == main && forall i :: 0 <= i < |subs| ==> main.distance <= subs[i].distance)
            || exists k :: 0 <= k < |subs| && h == subs[k] && subs[k].distance < main.distance
                 && forall i :: 0 <= i < k ==> subs[k].distance < subs[i].distance
    decreases |subs|
  {
    if |subs| == 0 then main
    else
      var n := |subs| - 1;
      var h := ClosestAcross(main, subs[..n]);
      assert forall i :: 0 <= i < n ==> subs[..n][i] == subs[i];
      if subs[n].distance < h.distance then subs[n] else h
  }

  /** The closest hit of each vertical sub-collider, in list order. */
  function VerticalClosests(subs: seq<Collider>): (cs: seq<Hit>)
    ensures |cs| == |subs|
    ensures forall i :: 0 <= i < |subs| ==> cs[i] == ClosestOf(subs[i].vertical.hits)
  {
    seq(|subs|, i requires 0 <= i < |subs| => ClosestOf(subs[i].vertical.hits))
  }

  /**
   * The pooled scan's choice stated per collider: the main collider's
   * closest hit unless some sub-collider's is strictly nearer, and then the
   * first sub-collider strictly nearer than all before it.
   */
  lemma VerticalPooledChoice(ch: Character)
    ensures var main := ClosestOf(ch.collider.vertical.hits);
      var subs := ch.verticalSubColliders;
      var h := ClosestAcross(main, VerticalClosests(subs));
      || (h == main && forall i :: 0 <= i < |subs| ==> main.distance <= ClosestOf(subs[i].vertical.hits).distance)
      || exists k :: 0 <= k < |subs| && h == ClosestOf(subs[k].vertical.hits) && h.distance < main.distance
           && forall i :: 0 <= i < k ==> h.distance < ClosestOf(subs[i].vertical.hits).distance
  {
    var main := ClosestOf(ch.collider.vertical.hits);
    var subs := ch.verticalSubColliders;
    var cs := VerticalClosests(subs);
    var h := ClosestAcross(main, cs);
    if !(h == main && forall i :: 0 <= i < |cs| ==> main.distance <= cs[i].distance) {
      var k :| 0 <= k < |cs| && h == cs[k] && cs[k].distance < main.distance
                 && forall i :: 0 <= i < k ==> cs[k].distance < cs[i].distance;
      assert h == ClosestOf(subs[k].vertical.hits);
      assert forall i :: 0 <= i < k ==> h.distance < ClosestOf(subs[i].vertical.hits).distance;
    }
  }

  /** Each buffer's closest hit is no farther than any of its entries. */
  lemma VerticalClosestsBelowEntries(subs: seq<Collider>)
    ensures var closests := VerticalClosests(subs);
      forall i, j :: 0 <= i < |subs| && 0 <= j < |subs[i].vertical.hits| ==>
        closests[i].distance <= subs[i].vertical.hits[j].distance
  {
  }

  function ClosestVerticalAll(ch: Character): (h: Hit)
    ensures forall j :: 0 <= j < |ch.collider.vertical.hits| ==> h.distance <= ch.collider.vertical.hits[j].distance
    ensures forall i, j :: 0 <= i < |ch.verticalSubColliders| && 0 <= j < |ch.verticalSubColliders[i].vertical.hits|
              ==> h.distance <= ch.verticalSubColliders[i].vertical.hits[j].distance
    ensures var main := ClosestOf(ch.collider.vertical.hits);
      var subs := ch.verticalSubColliders;
      || (h == main && forall i :: 0 <= i < |subs| ==> main.distance <= ClosestOf(subs[i].vertical.hits).distance)
      || exists k :: 0 <= k < |subs| && h == ClosestOf(subs[k].vertical.hits) && h.distance < main.distance
           && forall i :: 0 <= i < k ==> h.distance < ClosestOf(subs[i].vertical.hits).distance
  {
    VerticalClosestsBelowEntries(ch.verticalSubColliders);
    VerticalPooledChoice(ch);
    ClosestAcross(ClosestOf(ch.collider.vertical.hits), VerticalClosests(ch.verticalSubColliders))
  }

  /** The closest hit of each horizontal sub-collider, in list order. */
  function HorizontalClosests(subs: seq<Collider>): (cs: seq<Hit>)
    ensures |cs| == |subs|
    ensures forall i :: 0 <= i < |subs| ==> cs[i] == ClosestOf(subs[i].horizontal.hits)
  {
    seq(|subs|, i requires 0 <= i < |subs| => ClosestOf(subs[i].horizontal.hits))
  }

  /**
   * The pooled scan's choice stated per collider: the main collider's
   * closest hit unless some sub-collider's is strictly nearer, and then the
   * first sub-collider strictly nearer than all before it.
   */
  lemma HorizontalPooledChoice(ch: Character)
    ensures var main := ClosestOf(ch.collider.horizontal.hits);
      var subs := ch.horizontalSubColliders;
      var h := ClosestAcross(main, HorizontalClosests(subs));
      || (h == main && forall i :: 0 <= i < |subs| ==> main.distance <= ClosestOf(subs[i].horizontal.hits).distance)
      || exists k :: 0 <= k < |subs| && h == ClosestOf(subs[k].horizontal.hits) && h.distance < main.distance
           && forall i :: 0 <= i < k ==> h.distance < ClosestOf(subs[i].horizontal.hits).distance
  {
    var main := ClosestOf(ch.collider.horizontal.hits);
    var subs := ch.horizontalSubColliders;
    var cs := HorizontalClosests(subs);
    var h := ClosestAcross(main, cs);
    if !(h == main && forall i :: 0 <= i < |cs| ==> main.distance <= cs[i].distance) {
      var k :| 0 <= k < |cs| && h == cs[k] && cs[k].distance < main.distance
                 && forall i :: 0 <= i < k ==> cs[k].distance < cs[i].distance;
      assert h == ClosestOf(subs[k].horizontal.hits);
      assert forall i :: 0 <= i < k ==> h.distance < ClosestOf(subs[i].horizontal.hits).distance;
    }
  }

  /** Each buffer's closest hit is no farther than any of its entries. */
  lemma HorizontalClosestsBelowEntries(subs: seq<Collider>)
    ensures var closests := HorizontalClosests(subs);
      forall i, j :: 0 <= i < |subs| && 0 <= j < |subs[i].horizontal.hits| ==>
        closests[i].distance <= subs[i].horizontal.hits[j].distance
  {
  }

  function ClosestHorizontalAll(ch: Character): (h: Hit)
    ensures forall j :: 0 <= j < |ch.collider.horizontal.hits| ==> h.distance <= ch.collider.horizontal.hits[j].distance
    ensures forall i, j :: 0 <= i < |ch.horizontalSubColliders| && 0 <= j < |ch.horizontalSubColliders[i].horizontal.hits|
              ==> h.distance <= ch.horizontalSubColliders[i].horizontal.hits[j].distance
    ensures var main := ClosestOf(ch.collider.horizontal.hits);
      var subs := ch.horizontalSubColliders;
      || (h == main && forall i :: 0 <= i < |subs| ==> main.distance <= ClosestOf(subs[i].horizontal.hits).distance)
      || exists k :: 0 <= k < |subs| && h == ClosestOf(subs[k].horizontal.hits) && h.distance < main.distance
           && forall i :: 0 <= i < k ==> h.distance < ClosestOf(subs[i].horizontal.hits).distance
  {
    HorizontalClosestsBelowEntries(ch.horizontalSubColliders);
    HorizontalPooledChoice(ch);
    ClosestAcross(ClosestOf(ch.collider.horizontal.hits), HorizontalClosests(ch.horizontalSubColliders))
  }

  /**
   * A collider with nothing in its buffer contributes the default hit at
   * distance 0, which no real hit beats: one empty sub-collider makes the
   * pooled closest hit's distance zero.
   */
  lemma EmptySubColliderWins(ch: Character, k: nat)
    requires k < |ch.verticalSubColliders| && |ch.verticalSubColliders[k].vertical.hits| == 0
    requires forall j :: 0 <= j < |ch.collider.vertical.hits| ==> ch.collider.vertical.hits[j].distance >= 0.0
    requires forall i, j :: 0 <= i < |ch.verticalSubColliders| && 0 <= j < |ch.verticalSubColliders[i].vertical.hits|
               ==> ch.verticalSubColliders[i].vertical.hits[j].distance >= 0.0
    ensures ClosestVerticalAll(ch).distance == 0.0
  {
    var subs := ch.verticalSubColliders;
    var closests := VerticalClosests(subs);
    var main := ClosestOf(ch.collider.vertical.hits);
    assert closests[k] == DefaultHit;
    assert main.distance >= 0.0 by {
      if |ch.collider.vertical.hits| > 0 {
        var j :| 0 <= j < |ch.collider.vertical.hits| && ch.collider.vertical.hits[j] == main;
      }
    }
    forall i | 0 <= i < |subs| ensures closests[i].distance >= 0.0 {
      if |subs[i].vertical.hits| > 0 {
        var j :| 0 <= j < |subs[i].vertical.hits| && subs[i].vertical.hits[j] == closests[i];
      }
    }
  }

  // ---- the vertical pass --------------------------------------------------

  /**
   * `ProcessVerticalDisplacement` for a vertical move of `dy`: all vertical
   * colliders cast; with no hit the body moves by the full `dy` and both
   * collision states are kept; with hits, the ceiling (moving up) or the
   * floor (moving down) records the pooled closest hit and the move is
   * capped to it, and a surface too steep to stand on returns the slide
   * the capped part becomes. Nothing resets the states here.
   */
  function ProcessVerticalDisplacement(ch: Character, env: Env, dy: real): (r: (Character, Vec3))
    ensures r.0.position.x == ch.position.x && r.0.position.z == ch.position.z
    ensures var cast := CheckVerticalCollisionAll(ch, env.world, dy);
      && r.0.collider == cast.0.collider && r.0.verticalSubColliders == cast.0.verticalSubColliders
      && r.0.horizontalSubColliders == ch.horizontalSubColliders
      && (cast.1 == 0 ==>
            r.0 == Translate(ch.(collider := r.0.collider, verticalSubColliders := r.0.verticalSubColliders),
                             Vec3(0.0, dy, 0.0))
            && r.1 == Zero)
      && (cast.1 > 0 ==> r.0.position == Add(ch.position, CapTranslation(dy, ClosestVerticalAll(cast.0))))
      && (cast.1 > 0 && dy > 0.0 ==>
            r.0.ceilingState == RecordHit(ClosestVerticalAll(cast.0), Down, env.settings.maxSlopeAngle, env.numerics)
            && r.0.floorState == ch.floorState)
      && (cast.1 > 0 && dy < 0.0 ==>
            r.0.floorState == RecordHit(ClosestVerticalAll(cast.0), Up, env.settings.maxSlopeAngle, env.numerics)
            && r.0.ceilingState == ch.ceilingState)
    ensures r.1 != Zero ==>
      || (dy > 0.0 && r.0.ceilingState.colliding && r.0.ceilingState.slopeState == StepSlope)
      || (dy < 0.0 && r.0.floorState.colliding && r.0.floorState.slopeState == StepSlope)
  {
    var (cast, hitCount) := CheckVerticalCollisionAll(ch, env.world, dy);
    var move := Vec3(0.0, dy, 0.0);
    if hitCount > 0 then
      var closest := ClosestVerticalAll(cast);
      var capped := CapTranslation(dy, closest);
      if dy > 0.0 then
        var ceiling := RecordHit(closest, Down, env.settings.maxSlopeAngle, env.numerics);
        var extra := if ceiling.slopeState == StepSlope then SteepSlopeTranslation(Sub(move, capped), ceiling, env.numerics) else Zero;
        (Translate(cast.(ceilingState := ceiling), capped), extra)
      else if dy < 0.0 then
        var floor := RecordHit(closest, Up, env.settings.maxSlopeAngle, env.numerics);
        var extra := if floor.slopeState == StepSlope then SteepSlopeTranslation(Sub(move, capped), floor, env.numerics) else Zero;
        (Translate(cast.(floorState := floor), capped), extra)
      else
        (Translate(cast, move), Zero)
    else
      (Translate(cast, move), Zero)
  }

  /**
   * Against a world that reports hits only within reach, the pooled
   * closest hit of a vertical cast lies within the move.
   */
  lemma PooledVerticalHitWithinMove(ch: Character, world: World, dy: real)
    requires WithinReach(world) && dy != 0.0
    ensures var cast := CheckVerticalCollisionAll(ch, world, dy).0;
      0.0 <= ClosestVerticalAll(cast).distance <= Abs(dy)
  {
    var cast := CheckVerticalCollisionAll(ch, world, dy).0;
    var subs := cast.verticalSubColliders;
    var closests := VerticalClosests(subs);
    var main := ClosestOf(cast.collider.vertical.hits);
    VerticalCastWithinMove(ch.collider, world, ch.position, dy, Zero);
    assert 0.0 <= main.distance <= Abs(dy) by {
      if |cast.collider.vertical.hits| > 0 {
        var j :| 0 <= j < |cast.collider.vertical.hits| && cast.collider.vertical.hits[j] == main;
      }
    }
    forall i | 0 <= i < |subs| ensures 0.0 <= closests[i].distance <= Abs(dy) {
      VerticalCastWithinMove(ch.verticalSubColliders[i], world, ch.position, dy, Zero);
      if |subs[i].vertical.hits| > 0 {
        var j :| 0 <= j < |subs[i].vertical.hits| && subs[i].vertical.hits[j] == closests[i];
      }
    }
    var h := ClosestAcross(main, closests);
    assert h == main || exists i :: 0 <= i < |closests| && h == closests[i];
  }

  /** The height the vertical pass moves the body by: the whole move, or the move capped at the pooled hit. */
  function VerticalPassRise(ch: Character, env: Env, dy: real): (rise: real)
    ensures rise == ProcessVerticalDisplacement(ch, env, dy).0.position.y - ch.position.y
  {
    var cast := CheckVerticalCollisionAll(ch, env.world, dy);
    if cast.1 > 0 then CapTranslation(dy, ClosestVerticalAll(cast.0)).y else dy
  }

  /**
   * Against a world that reports hits only within reach, the vertical
   * pass never moves the body farther than asked, nor the other way.
   */
  lemma VerticalPassNeverOvershoots(ch: Character, env: Env, dy: real)
    requires WithinReach(env.world)
    ensures var rise := VerticalPassRise(ch, env, dy);
      Abs(rise) <= Abs(dy) && SameSense(rise, dy)
  {
    var cast := CheckVerticalCollisionAll(ch, env.world, dy);
    if cast.1 > 0 {
      PooledVerticalHitWithinMove(ch, env.world, dy);
      CapNeverLengthens(dy, ClosestVerticalAll(cast.0));
    }
  }

  // ---- step climbing ------------------------------------------------------

  /** The trial heights `TryClimbSteps` visits. */
  function StepCountOf(env: Env): nat {
    StepSamples(env.settings.stepCount)
  }

  function TrialHeight(env: Env, i: nat): real
    requires i < StepCountOf(env)
  {
    SampleHeight(env.settings.totalStepHeight, env.settings.stepCount, i)
  }

  /**
   * The probe at trial height `i`, taken from the body as it was before
   * the search: the horizontal colliders cast along `t` from the base
   * lifted by that height.
   */
  function ClimbSample(ch: Character, env: Env, t: Vec3, i: nat): (s: Sample)
    requires i < StepCountOf(env)
    ensures s.height == TrialHeight(env, i)
  {
    var height := TrialHeight(env, i);
    var cast := CheckHorizontalCollisionAll(ch, env, t, Vec3(0.0, height, 0.0));
    Sample(height, cast.1, ClosestHorizontalAll(cast.0).distance)
  }

  function ClimbSamples(ch: Character, env: Env, t: Vec3): (ss: seq<Sample>)
    ensures |ss| == StepCountOf(env)
  {
    seq(StepCountOf(env), i requires 0 <= i < StepCountOf(env) => ClimbSample(ch, env, t, i))
  }

  /**
   * The loop of `TryClimbSteps`, threading the body through the casts it
   * makes: at each height in turn, the first free one ends the search,
   * otherwise a nearest hit farther than the best by more than
   * `minDifference` becomes the best.
   */
  function ClimbLoop(ch: Character, env: Env, t: Vec3, distance: real, minDifference: real, i: nat,
                     best: StepChoice)
    : (r: (Character, StepChoice))
    requires i <= StepCountOf(env)
    ensures r.0.position == ch.position && r.0.verticalSubColliders == ch.verticalSubColliders
    ensures r.0.floorState == ch.floorState && r.0.ceilingState == ch.ceilingState
    decreases StepCountOf(env) - i
  {
    if i == StepCountOf(env) then (ch, best)
    else
      var height := TrialHeight(env, i);
      var (cast, hitCount) := CheckHorizontalCollisionAll(ch, env, t, Vec3(0.0, height, 0.0));
      if hitCount <= 0 then (cast, StepChoice(height, distance))
      else
        var hit := ClosestHorizontalAll(cast);
        var next := if MoreThan(hit.distance, best.distance, minDifference) then StepChoice(height, hit.distance) else best;
        ClimbLoop(cast, env, t, distance, minDifference, i + 1, next)
  }

  /** A horizontal cast overwrites the horizontal records, so the next one does not see it. */
  lemma HorizontalCastsForget(ch: Character, env: Env, v1: Vec3, d1: Vec3, v2: Vec3, d2: Vec3)
    ensures CheckHorizontalCollisionAll(CheckHorizontalCollisionAll(ch, env, v1, d1).0, env, v2, d2)
         == CheckHorizontalCollisionAll(ch, env, v2, d2)
  {
    var mid := CheckHorizontalCollisionAll(ch, env, v1, d1).0;
    var a := HorizontalCasts(mid.horizontalSubColliders, env, ch.position, v2, d2);
    var b := HorizontalCasts(ch.horizontalSubColliders, env, ch.position, v2, d2);
    forall i | 0 <= i < |a| ensures a[i] == b[i] {
      HorizontalCastOverwrites(ch.horizontalSubColliders[i], env.world, env.numerics, ch.position, v1, v2, d1, d2);
    }
    assert a == b;
    HorizontalCastOverwrites(ch.collider, env.world, env.numerics, ch.position, v1, v2, d1, d2);
  }

  lemma ClimbSamplesUnchangedByCast(ch: Character, env: Env, t: Vec3, v: Vec3, d: Vec3)
    ensures ClimbSamples(CheckHorizontalCollisionAll(ch, env, v, d).0, env, t) == ClimbSamples(ch, env, t)
  {
    var mid := CheckHorizontalCollisionAll(ch, env, v, d).0;
    forall i | 0 <= i < StepCountOf(env) ensures ClimbSample(mid, env, t, i) == ClimbSample(ch, env, t, i) {
      HorizontalCastsForget(ch, env, v, d, t, Vec3(0.0, TrialHeight(env, i), 0.0));
    }
  }

  /**
   * The loop makes the choice `SelectStep` makes over the samples probed
   * independently from the body before the search: threading the casts
   * through the body changes nothing.
   */
  lemma {:induction false} ClimbLoopSelects(ch: Character, env: Env, t: Vec3, distance: real, minDifference: real,
                                            i: nat, best: StepChoice)
    requires i <= StepCountOf(env)
    ensures ClimbLoop(ch, env, t, distance, minDifference, i, best).1
         == SelectStep(ClimbSamples(ch, env, t)[i..], distance, minDifference, best)
    decreases StepCountOf(env) - i
  {
    var samples := ClimbSamples(ch, env, t);
    if i < StepCountOf(env) {
      var height := TrialHeight(env, i);
      var (cast, hitCount) := CheckHorizontalCollisionAll(ch, env, t, Vec3(0.0, height, 0.0));
      var hit := ClosestHorizontalAll(cast);
      assert samples[i..][0] == samples[i] == ClimbSample(ch, env, t, i) == Sample(height, hitCount, hit.distance);
      assert samples[i..][1..] == samples[i + 1..];
      if hitCount > 0 {
        var next := if MoreThan(hit.distance, best.distance, minDifference) then StepChoice(height, hit.distance) else best;
        ClimbLoopSelects(cast, env, t, distance, minDifference, i + 1, next);
        ClimbSamplesUnchangedByCast(ch, env, t, t, Vec3(0.0, height, 0.0));
      }
    }
  }

  /**
   * `TryClimbSteps`: the move's direction at the chosen distance, lifted by
   * the chosen trial height, where the choice is the step search over the
   * trial heights probed from the body as it stood.
   */
  function TryClimbSteps(ch: Character, env: Env, t: Vec3): (r: (Character, Vec3))
    ensures r.1 == ClimbTranslation(
      SelectStep(ClimbSamples(ch, env, t), env.numerics.magnitude(t), MinDifference, NoStep), t, env.numerics)
    ensures r.0.position == ch.position && r.0.verticalSubColliders == ch.verticalSubColliders
    ensures r.0.floorState == ch.floorState && r.0.ceilingState == ch.ceilingState
  {
    var distance := env.numerics.magnitude(t);
    var loop := ClimbLoop(ch, env, t, distance, MinDifference, 0, NoStep);
    ClimbLoopSelects(ch, env, t, distance, MinDifference, 0, NoStep);
    (loop.0, ClimbTranslation(loop.1, t, env.numerics))
  }

  // ---- the horizontal pass and the tick -----------------------------------

  /**
   * The later `SelectVerticalTranslation`: the vertical part of the climbed
   * move, except that on a floor a downward part becomes a descent of the
   * full step height — or nothing, when it is too short to normalise.
   */
  function SelectVerticalTranslation(floor: CollisionState, climbed: Vec3, totalStepHeight: real): (v: Vec3)
    ensures v.x == 0.0 && v.z == 0.0
    ensures floor.colliding && climbed.y < -NormalizeEpsilon ==> v.y == -totalStepHeight
    ensures floor.colliding && -NormalizeEpsilon <= climbed.y < 0.0 ==> v == Zero
    ensures !(floor.colliding && climbed.y < 0.0) ==> v.y == climbed.y
  {
    var vertical := VerticalComponent(climbed);
    if floor.colliding && vertical.y < 0.0 then Scale(totalStepHeight, NormalizedVertical(vertical.y))
    else vertical
  }

  /**
   * `ProcessHorizontalDisplacement`: the move is redirected by the
   * governing surface, climbed, applied horizontally, and followed by a
   * vertical pass for its vertical part.
   */
  function ProcessHorizontalDisplacement(ch: Character, env: Env, h: Vec3, extra: Vec3): (r: Character)
    ensures var t := SelectHorizontalTranslation(ch.floorState, ch.ceilingState, h, extra, env.numerics);
      var climbed := TryClimbSteps(ch, env, t).1;
      r.position.x == ch.position.x + climbed.x && r.position.z == ch.position.z + climbed.z
  {
    var t := SelectHorizontalTranslation(ch.floorState, ch.ceilingState, h, extra, env.numerics);
    var (climbedBody, climbed) := TryClimbSteps(ch, env, t);
    var moved := Translate(climbedBody, HorizontalComponent(climbed));
    var v := SelectVerticalTranslation(moved.floorState, climbed, env.settings.totalStepHeight);
    ProcessVerticalDisplacement(moved, env, v.y).0
  }

  /**
   * `FixedUpdate` with `Speed` and `Time.fixedDeltaTime` as inputs: a
   * negligible speed leaves the body alone; otherwise both states are
   * reset and the vertical pass runs before the horizontal one.
   */
  function FixedUpdate(ch: Character, env: Env, speed: Vec3, fixedDeltaTime: real): (r: Character)
    ensures SqrMagnitude(speed) <= FloatEpsilon ==> r == ch
  {
    if SqrMagnitude(speed) > FloatEpsilon then
      var cleared := ch.(ceilingState := Reset(ch.ceilingState), floorState := Reset(ch.floorState));
      var translation := Scale(fixedDeltaTime, speed);
      var (vertical, extra) := ProcessVerticalDisplacement(cleared, env, VerticalComponent(translation).y);
      ProcessHorizontalDisplacement(vertical, env, HorizontalComponent(translation), extra)
    else ch
  }
  /**
   * Against a world that reports hits only within reach, the follow-through
   * of the horizontal pass moves the body vertically no farther than the
   * selected vertical translation, and in its direction.
   */
  lemma HorizontalPassFollowThrough(ch: Character, env: Env, h: Vec3, extra: Vec3)
    requires WithinReach(env.world)
    ensures var t := SelectHorizontalTranslation(ch.floorState, ch.ceilingState, h, extra, env.numerics);
      var climbed := TryClimbSteps(ch, env, t).1;
      var v := SelectVerticalTranslation(ch.floorState, climbed, env.settings.totalStepHeight).y;
      var rise := ProcessHorizontalDisplacement(ch, env, h, extra).position.y - ch.position.y;
      Abs(rise) <= Abs(v) && SameSense(rise, v)
  {
    var t := SelectHorizontalTranslation(ch.floorState, ch.ceilingState, h, extra, env.numerics);
    var (climbedBody, climbed) := TryClimbSteps(ch, env, t);
    var moved := Translate(climbedBody, HorizontalComponent(climbed));
    assert moved.position.y == ch.position.y;
    var v := SelectVerticalTranslation(moved.floorState, climbed, env.settings.totalStepHeight).y;
    VerticalPassNeverOvershoots(moved, env, v);
  }

  // ---- free motion --------------------------------------------------------

  /** In an empty scene the pooled casts report no hits. */
  lemma EmptyWorldVerticalMiss(ch: Character, world: World, numerics: Numerics, dy: real)
    requires Empty(world)
    ensures CheckVerticalCollisionAll(ch, world, dy).1 == 0
  {
    var v := CheckVerticalCollisionAll(ch, world, dy).0;
    if dy != 0.0 {
      EmptyWorldCastsMiss(ch.collider, world, numerics, ch.position, dy, Zero, Zero);
      forall i | 0 <= i < |ch.verticalSubColliders| ensures |v.verticalSubColliders[i].vertical.hits| == 0 {
        EmptyWorldCastsMiss(ch.verticalSubColliders[i], world, numerics, ch.position, dy, Zero, Zero);
      }
    }
  }

  lemma EmptyWorldHorizontalMiss(ch: Character, env: Env, velocity: Vec3, displacement: Vec3)
    requires Empty(env.world)
    ensures CheckHorizontalCollisionAll(ch, env, velocity, displacement).1 == 0
  {
    var h := CheckHorizontalCollisionAll(ch, env, velocity, displacement).0;
    EmptyWorldCastsMiss(ch.collider, env.world, env.numerics, ch.position, 0.0, velocity, displacement);
    forall i | 0 <= i < |ch.horizontalSubColliders| ensures |h.horizontalSubColliders[i].horizontal.hits| == 0 {
      EmptyWorldCastsMiss(ch.horizontalSubColliders[i], env.world, env.numerics, ch.position, 0.0, velocity, displacement);
    }
  }

  /**
   * With nothing in the way, a tick moves the body by exactly
   * `speed * fixedDeltaTime`, provided at least one trial height is probed
   * and the float numerics rebuild the horizontal move from its magnitude
   * and direction.
   */
  lemma FreeMotion(ch: Character, env: Env, speed: Vec3, fixedDeltaTime: real)
    requires Empty(env.world) && env.settings.stepCount > 0.0
    requires SqrMagnitude(speed) > FloatEpsilon
    requires var h := HorizontalComponent(Scale(fixedDeltaTime, speed));
      Scale(env.numerics.magnitude(h), env.numerics.normalized(h)) == h
    ensures FixedUpdate(ch, env, speed, fixedDeltaTime).position == Add(ch.position, Scale(fixedDeltaTime, speed))
  {
    var cleared := ch.(ceilingState := Reset(ch.ceilingState), floorState := Reset(ch.floorState));
    var translation := Scale(fixedDeltaTime, speed);
    var h := HorizontalComponent(translation);
    EmptyWorldVerticalMiss(cleared, env.world, env.numerics, translation.y);
    var (vertical, extra) := ProcessVerticalDisplacement(cleared, env, translation.y);
    assert vertical.position == Add(ch.position, Vec3(0.0, translation.y, 0.0));
    assert extra == Zero && vertical.floorState == cleared.floorState && vertical.ceilingState == cleared.ceilingState;
    FreeHorizontalPass(vertical, env, h);
  }

  /** From cleared states in an empty scene, the horizontal pass moves the body by exactly `h`. */
  lemma FreeHorizontalPass(ch: Character, env: Env, h: Vec3)
    requires Empty(env.world) && env.settings.stepCount > 0.0
    requires ch.floorState == Reset(ch.floorState) && ch.ceilingState == Reset(ch.ceilingState)
    requires h.y == 0.0 && Scale(env.numerics.magnitude(h), env.numerics.normalized(h)) == h
    ensures ProcessHorizontalDisplacement(ch, env, h, Zero).position == Add(ch.position, h)
  {
    assert SelectHorizontalTranslation(ch.floorState, ch.ceilingState, h, Zero, env.numerics) == h;
    var samples := ClimbSamples(ch, env, h);
    EmptyWorldHorizontalMiss(ch, env, h, Vec3(0.0, TrialHeight(env, 0), 0.0));
    assert samples[0].hitCount == 0;
    FirstFreeSampleWins(samples, env.numerics.magnitude(h), MinDifference, NoStep, 0);
    assert TrialHeight(env, 0) == 0.0;
    var (climbedBody, climbed) := TryClimbSteps(ch, env, h);
    assert climbed == h;
    var moved := Translate(climbedBody, HorizontalComponent(climbed));
    assert moved.position == Add(ch.position, h);
    var v := SelectVerticalTranslation(moved.floorState, climbed, env.settings.totalStepHeight);
    assert v.y == 0.0;
    EmptyWorldVerticalMiss(moved, env.world, env.numerics, v.y);
    assert ProcessVerticalDisplacement(moved, env, v.y).0.position == moved.position;
  }

  /**
   * A moving tick starts from cleared states: what the previous tick
   * recorded about floor and ceiling does not affect it.
   */
  lemma TickForgetsStates(ch: Character, env: Env, speed: Vec3, fixedDeltaTime: real,
                          ceiling: CollisionState, floor: CollisionState)
    requires SqrMagnitude(speed) > FloatEpsilon
    ensures FixedUpdate(ch.(ceilingState := ceiling, floorState := floor), env, speed, fixedDeltaTime)
         == FixedUpdate(ch, env, speed, fixedDeltaTime)
  {
  }
}
