/**
 * The hit buffer of one `CylinderCollider` cast: raw raycast results are
 * shifted by the skin depth, clamped at zero, and merged so that each
 * struck collider appears once, with its nearest hit. Also the closest-hit
 * scan over the live prefix of the buffer.
 */
module HitBuffer {
  import opened Wrappers
  import opened Vectors

  /** A `RaycastHit`, reduced to what the controller reads. */
  datatype Hit = Hit(colliderId: int, distance: real, normal: Vec3)

  /** `new RaycastHit()`: every field zero. */
  const DefaultHit: Hit := Hit(0, 0.0, Zero)

  /**
   * The skin adjustment of a raw hit distance: `distance -= skinDepth`,
   * then a negative result is set to 0.
   */
  function AdjustDistance(raw: real, skinDepth: real): (d: real)
    ensures d >= 0.0 && d >= raw - skinDepth
    ensures d == 0.0 || d == raw - skinDepth
  {
    var d := raw - skinDepth;
    if d < 0.0 then 0.0 else d
  }

  function Adjusted(h: Hit, skinDepth: real): Hit {
    h.(distance := AdjustDistance(h.distance, skinDepth))
  }

  /** The first slot holding collider `id`, or `|hits|` when none does. */
  function IndexOfId(hits: seq<Hit>, id: int): (k: nat)
    ensures k <= |hits|
    ensures k < |hits| ==> hits[k].colliderId == id
    ensures forall j :: 0 <= j < k ==> hits[j].colliderId != id
  {
    if |hits| == 0 then 0
    else if hits[0].colliderId == id then 0
    else 1 + IndexOfId(hits[1..], id)
  }

  /**
   * One ray's contribution: a hit on a collider already in the prefix
   * replaces that entry only when strictly nearer and never grows the
   * prefix; a hit on a new collider is appended.
   */
  function Absorb(hits: seq<Hit>, h: Hit): (r: seq<Hit>)
    ensures |r| == |hits| + 1 <==> forall j :: 0 <= j < |hits| ==> hits[j].colliderId != h.colliderId
    ensures |r| == |hits| || |r| == |hits| + 1
    ensures var k := IndexOfId(hits, h.colliderId);
      && k < |r| && r[k].colliderId == h.colliderId
      && (k == |hits| ==> r[k] == h)
      && (k < |hits| ==> r[k] == h || r[k] == hits[k])
      && r[k].distance <= h.distance
      && (k < |hits| ==> r[k].distance <= hits[k].distance)
      && (forall j :: 0 <= j < |hits| && j != k ==> r[j] == hits[j])
  {
    var k := IndexOfId(hits, h.colliderId);
    if k == |hits| then hits + [h]
    else if h.distance < hits[k].distance then hits[k := h]
    else hits
  }

  /** The live prefix a cast leaves, for ray results in iteration order. */
  function Dedup(rays: seq<Option<Hit>>, skinDepth: real): (hits: seq<Hit>)
    ensures |hits| <= |rays|
    decreases |rays|
  {
    if |rays| == 0 then []
    else
      var prefix := Dedup(rays[..|rays| - 1], skinDepth);
      match rays[|rays| - 1]
      case None => prefix
      case Some(raw) => Absorb(prefix, Adjusted(raw, skinDepth))
  }

  ghost predicate IdsDistinct(hits: seq<Hit>) {
    forall i, j :: 0 <= i < j < |hits| ==> hits[i].colliderId != hits[j].colliderId
  }

  ghost predicate HasId(hits: seq<Hit>, id: int) {
    exists k :: 0 <= k < |hits| && hits[k].colliderId == id
  }

  /** Some ray of the cast struck collider `id`. */
  ghost predicate Strikes(rays: seq<Option<Hit>>, id: int) {
    exists i :: 0 <= i < |rays| && rays[i].Some? && rays[i].value.colliderId == id
  }

  /** Every entry is at most the adjusted distance of every ray that struck its collider. */
  ghost predicate NoNearerRay(hits: seq<Hit>, rays: seq<Option<Hit>>, skinDepth: real) {
    forall k, i ::
      0 <= k < |hits| && 0 <= i < |rays| && rays[i].Some? && rays[i].value.colliderId == hits[k].colliderId
      ==> hits[k].distance <= AdjustDistance(rays[i].value.distance, skinDepth)
  }

  /**
   * `h` is the adjusted hit of ray `i`, and every earlier ray on the same
   * collider was strictly farther: ties keep the earliest ray.
   */
  ghost predicate EarliestNearestRay(rays: seq<Option<Hit>>, skinDepth: real, i: int, h: Hit) {
    && 0 <= i < |rays| && rays[i].Some? && h == Adjusted(rays[i].value, skinDepth)
    && forall j :: 0 <= j < i && rays[j].Some? && rays[j].value.colliderId == h.colliderId
         ==> AdjustDistance(rays[j].value.distance, skinDepth) > h.distance
  }

  /** `h` is the adjusted hit of the earliest nearest ray on its collider. */
  ghost predicate FromRays(rays: seq<Option<Hit>>, skinDepth: real, h: Hit) {
    exists i :: EarliestNearestRay(rays, skinDepth, i, h)
  }

  ghost predicate EntriesFromRays(hits: seq<Hit>, rays: seq<Option<Hit>>, skinDepth: real) {
    forall k :: 0 <= k < |hits| ==> FromRays(rays, skinDepth, hits[k])
  }

  /** The number of rays that hit something. */
  function HitRays(rays: seq<Option<Hit>>): (n: nat)
    ensures n <= |rays|
  {
    if |rays| == 0 then 0
    else HitRays(rays[..|rays| - 1]) + (if rays[|rays| - 1].Some? then 1 else 0)
  }

  lemma PrefixAgrees(rays: seq<Option<Hit>>)
    requires |rays| > 0
    ensures forall i :: 0 <= i < |rays| - 1 ==> rays[..|rays| - 1][i] == rays[i]
  {
  }

  /** The count grows by at most one per ray that hit. */
  lemma {:induction false} DedupCountBound(rays: seq<Option<Hit>>, skinDepth: real)
    ensures |Dedup(rays, skinDepth)| <= HitRays(rays)
    decreases |rays|
  {
    if |rays| > 0 {
      DedupCountBound(rays[..|rays| - 1], skinDepth);
    }
  }

  /** No collider appears twice in the live prefix. */
  lemma {:induction false} DedupIdsDistinct(rays: seq<Option<Hit>>, skinDepth: real)
    ensures IdsDistinct(Dedup(rays, skinDepth))
    decreases |rays|
  {
    if |rays| > 0 {
      var p := Dedup(rays[..|rays| - 1], skinDepth);
      DedupIdsDistinct(rays[..|rays| - 1], skinDepth);
      match rays[|rays| - 1]
      case None =>
      case Some(raw) =>
        var h := Adjusted(raw, skinDepth);
        var k := IndexOfId(p, h.colliderId);
        if k == |p| {
          assert forall i :: 0 <= i < |p| ==> p[i].colliderId != h.colliderId;
        }
    }
  }

  /** A collider is in the prefix exactly when some ray of the cast struck it. */
  lemma {:induction false} DedupCoversStruckIds(rays: seq<Option<Hit>>, skinDepth: real)
    ensures forall id :: HasId(Dedup(rays, skinDepth), id) <==> Strikes(rays, id)
    decreases |rays|
  {
    if |rays| > 0 {
      var pre := rays[..|rays| - 1];
      var p := Dedup(pre, skinDepth);
      DedupCoversStruckIds(pre, skinDepth);
      PrefixAgrees(rays);
      var d := Dedup(rays, skinDepth);
      forall id
        ensures HasId(d, id) <==> Strikes(rays, id)
      {
        assert Strikes(pre, id) ==> Strikes(rays, id);
        match rays[|rays| - 1]
        case None =>
          if Strikes(rays, id) {
            var i :| 0 <= i < |rays| && rays[i].Some? && rays[i].value.colliderId == id;
            assert pre[i] == rays[i];
          }
        case Some(raw) =>
          var h := Adjusted(raw, skinDepth);
          var k := IndexOfId(p, h.colliderId);
          if Strikes(rays, id) {
            var i :| 0 <= i < |rays| && rays[i].Some? && rays[i].value.colliderId == id;
            if i < |rays| - 1 {
              assert pre[i] == rays[i];
              var m :| 0 <= m < |p| && p[m].colliderId == id;
              assert d[m].colliderId == id;
            } else {
              assert d[if k == |p| then |p| else k].colliderId == id;
            }
          }
          if HasId(d, id) {
            var m :| 0 <= m < |d| && d[m].colliderId == id;
            if m < |p| && p[m].colliderId == id {
              assert HasId(p, id);
            } else {
              assert id == h.colliderId;
              assert rays[|rays| - 1].value.colliderId == id;
            }
          }
      }
    }
  }

  /** Each entry's distance is the minimum adjusted distance over the rays that struck its collider. */
  lemma {:induction false} DedupKeepsNearest(rays: seq<Option<Hit>>, skinDepth: real)
    ensures NoNearerRay(Dedup(rays, skinDepth), rays, skinDepth)
    decreases |rays|
  {
    if |rays| > 0 {
      var pre := rays[..|rays| - 1];
      var p := Dedup(pre, skinDepth);
      DedupKeepsNearest(pre, skinDepth);
      DedupIdsDistinct(pre, skinDepth);
      DedupCoversStruckIds(pre, skinDepth);
      PrefixAgrees(rays);
      var d := Dedup(rays, skinDepth);
      match rays[|rays| - 1]
      case None =>
      case Some(raw) =>
        var h := Adjusted(raw, skinDepth);
        var k := IndexOfId(p, h.colliderId);
        forall m, i | 0 <= m < |d| && 0 <= i < |rays| && rays[i].Some? && rays[i].value.colliderId == d[m].colliderId
          ensures d[m].distance <= AdjustDistance(rays[i].value.distance, skinDepth)
        {
          if i < |rays| - 1 {
            assert pre[i] == rays[i];
            assert Strikes(pre, rays[i].value.colliderId);
          }
        }
    }
  }

  /**
   * Each entry is the adjusted hit of a ray of the cast: the earliest ray
   * with the minimum distance on that collider.
   */
  lemma {:induction false} DedupEntriesFromRays(rays: seq<Option<Hit>>, skinDepth: real)
    ensures EntriesFromRays(Dedup(rays, skinDepth), rays, skinDepth)
    decreases |rays|
  {
    if |rays| > 0 {
      var pre := rays[..|rays| - 1];
      var p := Dedup(pre, skinDepth);
      DedupEntriesFromRays(pre, skinDepth);
      DedupKeepsNearest(pre, skinDepth);
      DedupIdsDistinct(pre, skinDepth);
      DedupCoversStruckIds(pre, skinDepth);
      PrefixAgrees(rays);
      var d := Dedup(rays, skinDepth);
      var last := |rays| - 1;
      forall m | 0 <= m < |d|
        ensures FromRays(rays, skinDepth, d[m])
      {
        if m < |p| && d[m] == p[m] {
          var i :| EarliestNearestRay(pre, skinDepth, i, p[m]);
          assert EarliestNearestRay(rays, skinDepth, i, d[m]);
        } else {
          var raw := rays[last].value;
          var h := Adjusted(raw, skinDepth);
          assert d[m] == h;
          forall j | 0 <= j < last && rays[j].Some? && rays[j].value.colliderId == h.colliderId
            ensures AdjustDistance(rays[j].value.distance, skinDepth) > h.distance
          {
            assert pre[j] == rays[j];
            assert Strikes(pre, h.colliderId);
            assert HasId(p, h.colliderId);
            var k := IndexOfId(p, h.colliderId);
            assert k < |p| && h.distance < p[k].distance;
          }
          assert EarliestNearestRay(rays, skinDepth, last, d[m]);
        }
      }
    }
  }

  /**
   * The cast loop of `CheckHorizontalCollision` and
   * `CheckVertical{Down,Up}Collision` over a reused buffer: each ray's
   * result is written at slot `count`, skin-adjusted, then either merged
   * into an earlier slot with the same collider (and `count` kept) or kept
   * by advancing `count`. Slots past `count` are left stale.
   */
  method FillHitBuffer(buffer: seq<Hit>, rays: seq<Option<Hit>>, skinDepth: real)
    returns (filled: seq<Hit>, count: nat)
    requires |rays| <= |buffer|
    ensures |filled| == |buffer|
    ensures count <= |rays|
    ensures filled[..count] == Dedup(rays, skinDepth)
  {
    var a := new Hit[|buffer|](i requires 0 <= i < |buffer| => buffer[i]);
    count := 0;
    var i := 0;
    while i < |rays|
      invariant 0 <= count <= i <= |rays|
      invariant a[..count] == Dedup(rays[..i], skinDepth)
    {
      assert rays[..i + 1][..i] == rays[..i];
      ghost var prefix := a[..count];
      match rays[i] {
      case None =>
        // the `out` argument is written even on a miss
        a[count] := DefaultHit;
        assert a[..count] == prefix;
      case Some(raw) =>
        a[count] := raw;
        a[count] := a[count].(distance := a[count].distance - skinDepth);
        if a[count].distance < 0.0 {
          a[count] := a[count].(distance := 0.0);
        }
        assert a[..count] == prefix;
        count := MergeSlot(a, count, prefix);
      }
      i := i + 1;
    }
    assert rays[..i] == rays;
    filled := a[..];
  }

  /**
   * The inner loop of a cast: the entry just written at slot `count` is
   * merged into the earlier slot with the same collider, or kept by
   * advancing the count.
   */
  method MergeSlot(a: array<Hit>, count: nat, ghost prefix: seq<Hit>) returns (next: nat)
    requires count < a.Length && a[..count] == prefix
    modifies a
    ensures next <= count + 1
    ensures a[..next] == Absorb(prefix, old(a[count]))
  {
    ghost var h := a[count];
    var replace := false;
    var k := 0;
    while k < count
      invariant 0 <= k <= count
      invariant a[..count] == prefix
      invariant a[count] == h
      invariant forall m :: 0 <= m < k ==> prefix[m].colliderId != h.colliderId
    {
      if a[count].colliderId == a[k].colliderId {
        assert IndexOfId(prefix, h.colliderId) == k;
        if a[count].distance < a[k].distance {
          a[k] := a[count];
        }
        replace := true;
        break;
      }
      k := k + 1;
    }
    next := count;
    if !replace {
      assert IndexOfId(prefix, h.colliderId) == count;
      next := count + 1;
    }
  }

  /**
   * The index the closest-hit scan settles on: the first entry, replaced
   * by each later entry that is strictly nearer.
   */
  function ClosestIndex(hits: seq<Hit>): (k: nat)
    requires |hits| > 0
    ensures k < |hits|
    ensures forall j :: 0 <= j < |hits| ==> hits[k].distance <= hits[j].distance
    ensures forall j :: 0 <= j < k ==> hits[j].distance > hits[k].distance
    decreases |hits|
  {
    if |hits| == 1 then 0
    else
      var k := ClosestIndex(hits[..|hits| - 1]);
      if hits[k].distance > hits[|hits| - 1].distance then |hits| - 1 else k
  }

  /**
   * `GetClosestVerticalHit` / `GetClosestHorizontalHit` on a live prefix:
   * the earliest entry of least distance, or the default hit when the
   * prefix is empty.
   */
  function ClosestOf(hits: seq<Hit>): (c: Hit)
    ensures |hits| == 0 ==> c == DefaultHit
    ensures |hits| > 0 ==> exists k :: 0 <= k < |hits| && hits[k] == c
    ensures forall j :: 0 <= j < |hits| ==> c.distance <= hits[j].distance
    ensures forall j :: 0 <= j < |hits| && hits[j].distance == c.distance ==> c == hits[ClosestIndex(hits)]
  {
    if |hits| == 0 then DefaultHit else hits[ClosestIndex(hits)]
  }

  /** The closest-hit loop, with its `assigned` flag (here `hasHit`), over the first `count` slots. */
  method ScanClosest(buffer: seq<Hit>, count: nat) returns (hit: Hit)
    requires count <= |buffer|
    ensures hit == ClosestOf(buffer[..count])
    ensures count == 0 ==> hit == DefaultHit
    ensures forall j :: 0 <= j < count ==> hit.distance <= buffer[j].distance
  {
    var hasHit := false;
    hit := DefaultHit;
    var i := 0;
    while i < count
      invariant 0 <= i <= count
      invariant hasHit <==> i > 0
      invariant i == 0 ==> hit == DefaultHit
      invariant i > 0 ==> hit == buffer[ClosestIndex(buffer[..i])]
    {
      assert buffer[..i + 1][..i] == buffer[..i];
      if !hasHit {
        hit := buffer[i];
        hasHit := true;
      }
      if hit.distance > buffer[i].distance {
        hit := buffer[i];
      }
      i := i + 1;
    }
  }
}
