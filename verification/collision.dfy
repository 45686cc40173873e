/**
 * The collision policy both revisions of `CharacterPhysics` share: the
 * per-surface `CollisionState` and its slope classification, the capping
 * of a vertical move at the nearest hit, the translations that redirect a
 * move along a slope, and the choice of step height when climbing.
 */
module Collision {
  import opened Vectors
  import opened HitBuffer

  datatype SlopeState = Flat | Slope | StepSlope

  /** What the last vertical pass learnt about a floor or a ceiling. */
  datatype CollisionState = CollisionState(colliding: bool, normal: Vec3, slopeState: SlopeState)

  /** `CollisionState.Reset`: the state of a surface nothing touched. */
  function Reset(s: CollisionState): (r: CollisionState)
    ensures !r.colliding && r.normal == Zero && r.slopeState == Flat
  {
    CollisionState(false, Zero, Flat)
  }

  /** A reset keeps nothing of the state it clears. */
  lemma ResetForgets(a: CollisionState, b: CollisionState)
    ensures Reset(a) == Reset(b)
  {
  }

  /** How steep a surface is, in the order the classification uses. */
  function Severity(s: SlopeState): nat {
    match s
    case Flat => 0
    case Slope => 1
    case StepSlope => 2
  }

  /**
   * The classification of `UpdateFloorState` / `UpdateCeilingState`: an
   * angle above the maximum is too steep to stand on, any other positive
   * angle is a walkable slope, and the rest is flat.
   */
  function Classify(angle: real, maxSlopeAngle: real): (s: SlopeState)
    ensures s == StepSlope <==> angle > maxSlopeAngle
    ensures s == Slope <==> 0.0 < angle <= maxSlopeAngle
    ensures s == Flat <==> angle <= 0.0 && angle <= maxSlopeAngle
  {
    if angle > maxSlopeAngle then StepSlope
    else if angle > 0.0 then Slope
    else Flat
  }

  /** A steeper surface never classifies as less severe. */
  lemma ClassifyMonotone(a1: real, a2: real, maxSlopeAngle: real)
    requires a1 <= a2
    ensures Severity(Classify(a1, maxSlopeAngle)) <= Severity(Classify(a2, maxSlopeAngle))
  {
  }

  /**
   * Recording a hit: the surface is touched, its normal is kept, and the
   * slope is classified by the normal's angle to `reference` (`Vector3.up`
   * for a floor, `Vector3.down` for a ceiling).
   */
  function RecordHit(hit: Hit, reference: Vec3, maxSlopeAngle: real, numerics: Numerics): (s: CollisionState)
    ensures s.colliding && s.normal == hit.normal
    ensures s.slopeState == StepSlope <==> numerics.angle(hit.normal, reference) > maxSlopeAngle
    ensures s.slopeState == Flat ==> numerics.angle(hit.normal, reference) <= 0.0
  {
    CollisionState(true, hit.normal, Classify(numerics.angle(hit.normal, reference), maxSlopeAngle))
  }

  /** `a` does not point against `b`. */
  predicate SameSense(a: real, b: real) {
    (b > 0.0 ==> a >= 0.0) && (b < 0.0 ==> a <= 0.0)
  }

  /**
   * `CapTranslationToCollision` for a vertical move of `dy`: the move is
   * shortened to the hit's distance along the move's own direction; a move
   * too short to normalise is capped to nothing.
   */
  function CapTranslation(dy: real, hit: Hit): (t: Vec3)
    ensures t.x == 0.0 && t.z == 0.0
    ensures Abs(dy) > NormalizeEpsilon ==> Abs(t.y) == Abs(hit.distance)
    ensures Abs(dy) > NormalizeEpsilon && hit.distance >= 0.0 ==> SameSense(t.y, dy)
    ensures Abs(dy) <= NormalizeEpsilon ==> t == Zero
  {
    Scale(hit.distance, NormalizedVertical(dy))
  }

  /**
   * A hit no farther than the move itself never lengthens the move or
   * turns it around.
   */
  lemma CapNeverLengthens(dy: real, hit: Hit)
    requires 0.0 <= hit.distance <= Abs(dy)
    ensures var t := CapTranslation(dy, hit);
      Abs(t.y) <= Abs(dy) && SameSense(t.y, dy)
  {
  }

  /**
   * `GetSteepSlopeTranslation`: the part of a vertical move a steep
   * surface stopped (`remainder`) becomes a move along the surface, the
   * surface normal turned a right angle about `remainder × normal` and
   * scaled by `-|remainder.y|`.
   */
  function SteepSlopeTranslation(remainder: Vec3, state: CollisionState, numerics: Numerics): (t: Vec3)
    ensures remainder.y == 0.0 ==> t == Zero
  {
    Scale(-Abs(remainder.y), numerics.angleAxisRotate(90.0, Cross(remainder, state.normal), state.normal))
  }

  /**
   * `GetSlopeTranslation`: the horizontal move `h` rotated by the rotation
   * taking up onto the floor normal projected on the plane that contains
   * `h` and the vertical.
   */
  function SlopeTranslation(h: Vec3, floorNormal: Vec3, numerics: Numerics): (t: Vec3)
  {
    numerics.fromToRotate(Up, ProjectOnPlane(floorNormal, Cross(h, Up)), h)
  }

  /** The floor's state governs the horizontal move when touched, the ceiling's otherwise. */
  function Governing(floor: CollisionState, ceiling: CollisionState): (s: CollisionState)
    ensures s == floor || s == ceiling
    ensures floor.colliding ==> s == floor
    ensures !floor.colliding ==> s == ceiling
  {
    if floor.colliding then floor else ceiling
  }

  /**
   * `SelectHorizontalTranslation`: a flat governing surface keeps the
   * move, a walkable slope redirects it along the floor, and a steep one
   * replaces it by the slide the vertical pass computed.
   */
  function SelectHorizontalTranslation(floor: CollisionState, ceiling: CollisionState, h: Vec3, extra: Vec3,
                                       numerics: Numerics): (t: Vec3)
    ensures Governing(floor, ceiling).slopeState == Flat ==> t == h
    ensures Governing(floor, ceiling).slopeState == Slope ==> t == SlopeTranslation(h, floor.normal, numerics)
    ensures Governing(floor, ceiling).slopeState == StepSlope ==> t == extra
  {
    match Governing(floor, ceiling).slopeState
    case Slope => SlopeTranslation(h, floor.normal, numerics)
    case StepSlope => extra
    case Flat => h
  }

  /**
   * A sloped ceiling redirects the move with the floor's normal, which is
   * the zero vector when the floor was not touched since its reset.
   */
  lemma CeilingSlopeUsesFloorNormal(floor: CollisionState, ceiling: CollisionState, h: Vec3, extra: Vec3,
                                    numerics: Numerics)
    requires floor == Reset(floor) && ceiling.slopeState == Slope
    ensures SelectHorizontalTranslation(floor, ceiling, h, extra, numerics) == numerics.fromToRotate(Up, Zero, h)
  {
    assert ProjectOnPlane(Zero, Cross(h, Up)) == Zero;
  }

  /** What the horizontal probe reported at one trial step height. */
  datatype Sample = Sample(height: real, hitCount: int, closest: real)

  /** The step height chosen so far and how far the move may go at it. */
  datatype StepChoice = StepChoice(height: real, distance: real)

  const NoStep: StepChoice := StepChoice(0.0, 0.0)

  /** `MoreThan`: `first` exceeds `second` by more than the tolerance. */
  predicate MoreThan(first: real, second: real, minDifference: real): (b: bool)
    ensures minDifference >= 0.0 && b ==> first > second
    ensures b <==> first > second + minDifference
  {
    first - second > minDifference
  }

  /**
   * The step search of `TryClimbSteps`, over the samples in increasing
   * height: the first height where no ray hits wins outright with the full
   * `distance`; otherwise a height replaces the best so far when its
   * nearest hit is farther by more than the tolerance.
   */
  function SelectStep(samples: seq<Sample>, distance: real, minDifference: real, best: StepChoice): (c: StepChoice)
    ensures c == best || exists k :: 0 <= k < |samples| && c.height == samples[k].height
  {
    if |samples| == 0 then best
    else
      var s := samples[0];
      if s.hitCount <= 0 then StepChoice(s.height, distance)
      else if MoreThan(s.closest, best.distance, minDifference) then
        var c := SelectStep(samples[1..], distance, minDifference, StepChoice(s.height, s.closest));
        assert c.height == s.height || exists k :: 0 <= k < |samples| && c.height == samples[k].height by {
          if c != StepChoice(s.height, s.closest) {
            var k :| 0 <= k < |samples[1..]| && c.height == samples[1..][k].height;
            assert samples[k + 1] == samples[1..][k];
          }
        }
        c
      else
        var c := SelectStep(samples[1..], distance, minDifference, best);
        assert c == best || exists k :: 0 <= k < |samples| && c.height == samples[k].height by {
          if c != best {
            var k :| 0 <= k < |samples[1..]| && c.height == samples[1..][k].height;
            assert samples[k + 1] == samples[1..][k];
          }
        }
        c
  }

  /** No sample before `n` is free of hits. */
  ghost predicate AllBlocked(samples: seq<Sample>, n: int) {
    forall j :: 0 <= j < n && j < |samples| ==> samples[j].hitCount > 0
  }

  /** The first sample where nothing hits decides the search. */
  lemma {:induction false} FirstFreeSampleWins(samples: seq<Sample>, distance: real, minDifference: real,
                                               best: StepChoice, k: nat)
    requires k < |samples| && samples[k].hitCount <= 0 && AllBlocked(samples, k)
    ensures SelectStep(samples, distance, minDifference, best) == StepChoice(samples[k].height, distance)
    decreases k
  {
    if k > 0 {
      var s := samples[0];
      assert s.hitCount > 0;
      var next := if MoreThan(s.closest, best.distance, minDifference) then StepChoice(s.height, s.closest) else best;
      assert samples[1..][k - 1] == samples[k];
      FirstFreeSampleWins(samples[1..], distance, minDifference, next, k - 1);
    }
  }

  /**
   * The search as the loop runs it: after blocked samples, one more sample
   * wins outright when nothing hits at its height, replaces the choice so
   * far only when its nearest hit is farther by more than the tolerance,
   * and otherwise leaves the choice alone.
   */
  lemma {:induction false} SelectStepAppend(samples: seq<Sample>, distance: real, minDifference: real,
                                            best: StepChoice, s: Sample)
    requires AllBlocked(samples, |samples|)
    ensures var c := SelectStep(samples, distance, minDifference, best);
      SelectStep(samples + [s], distance, minDifference, best)
        == if s.hitCount <= 0 then StepChoice(s.height, distance)
           else if MoreThan(s.closest, c.distance, minDifference) then StepChoice(s.height, s.closest)
           else c
    decreases |samples|
  {
    if |samples| == 0 {
      assert samples + [s] == [s];
      assert [s][1..] == [];
    } else {
      var first := samples[0];
      assert first.hitCount > 0;
      var next := if MoreThan(first.closest, best.distance, minDifference) then StepChoice(first.height, first.closest)
                  else best;
      assert (samples + [s])[0] == first;
      assert (samples + [s])[1..] == samples[1..] + [s];
      assert AllBlocked(samples[1..], |samples[1..]|) by {
        forall j | 0 <= j < |samples[1..]| ensures samples[1..][j].hitCount > 0 {
          assert samples[1..][j] == samples[j + 1];
        }
      }
      SelectStepAppend(samples[1..], distance, minDifference, next, s);
    }
  }

  /**
   * Near-equal distances do not thrash: a later blocked height whose
   * nearest hit is not farther than the current choice by more than the
   * tolerance leaves the choice as it was, so the earliest of near-equal
   * heights wins.
   */
  lemma NearEqualLaterLoses(samples: seq<Sample>, distance: real, minDifference: real, best: StepChoice, s: Sample)
    requires AllBlocked(samples, |samples|) && s.hitCount > 0
    requires !MoreThan(s.closest, SelectStep(samples, distance, minDifference, best).distance, minDifference)
    ensures SelectStep(samples + [s], distance, minDifference, best) == SelectStep(samples, distance, minDifference, best)
  {
    SelectStepAppend(samples, distance, minDifference, best, s);
  }

  /** Two blocked heights half a tolerance apart: the lower one is kept. */
  lemma NearEqualExample()
    ensures SelectStep([Sample(0.0, 1, 0.5), Sample(0.05, 1, 0.5005)], 1.0, 0.001, NoStep) == StepChoice(0.0, 0.5)
  {
    NearEqualLaterLoses([Sample(0.0, 1, 0.5)], 1.0, 0.001, NoStep, Sample(0.05, 1, 0.5005));
    assert [Sample(0.0, 1, 0.5)] + [Sample(0.05, 1, 0.5005)] == [Sample(0.0, 1, 0.5), Sample(0.05, 1, 0.5005)];
  }

  /**
   * When every sample hits, the search keeps the start when no sample
   * clears it by the tolerance, and otherwise picks a sample `k` that
   * clears the start by the tolerance, is strictly farther than every
   * earlier sample, and that nothing after it beats by the tolerance.
   */
  ghost predicate BestOfBlocked(samples: seq<Sample>, minDifference: real, best: StepChoice, c: StepChoice) {
    || (c == best && forall j :: 0 <= j < |samples| ==> !MoreThan(samples[j].closest, best.distance, minDifference))
    || exists k :: 0 <= k < |samples| && IsStepWinner(samples, minDifference, best, k)
                   && c == StepChoice(samples[k].height, samples[k].closest)
  }

  ghost predicate IsStepWinner(samples: seq<Sample>, minDifference: real, best: StepChoice, k: int)
    requires 0 <= k < |samples|
  {
    && MoreThan(samples[k].closest, best.distance, minDifference)
    && (forall j :: 0 <= j < k ==> samples[j].closest < samples[k].closest)
    && (forall j :: k < j < |samples| ==> !MoreThan(samples[j].closest, samples[k].closest, minDifference))
  }

  lemma {:induction false} BlockedSearchPicksWinner(samples: seq<Sample>, distance: real, minDifference: real,
                                                    best: StepChoice)
    requires minDifference >= 0.0
    requires AllBlocked(samples, |samples|)
    ensures BestOfBlocked(samples, minDifference, best, SelectStep(samples, distance, minDifference, best))
    decreases |samples|
  {
    if |samples| > 0 {
      var s := samples[0];
      var rest := samples[1..];
      assert AllBlocked(rest, |rest|) by {
        forall j | 0 <= j < |rest| ensures rest[j].hitCount > 0 {
          assert rest[j] == samples[j + 1];
        }
      }
      var c := SelectStep(samples, distance, minDifference, best);
      if MoreThan(s.closest, best.distance, minDifference) {
        var b := StepChoice(s.height, s.closest);
        BlockedSearchPicksWinner(rest, distance, minDifference, b);
        if c == b && forall j :: 0 <= j < |rest| ==> !MoreThan(rest[j].closest, b.distance, minDifference) {
          assert IsStepWinner(samples, minDifference, best, 0) by {
            forall j | 0 < j < |samples| ensures !MoreThan(samples[j].closest, s.closest, minDifference) {
              assert samples[j] == rest[j - 1];
            }
          }
        } else {
          var k :| 0 <= k < |rest| && IsStepWinner(rest, minDifference, b, k)
                   && c == StepChoice(rest[k].height, rest[k].closest);
          assert samples[k + 1] == rest[k];
          assert IsStepWinner(samples, minDifference, best, k + 1) by {
            forall j | 0 <= j < k + 1 ensures samples[j].closest < samples[k + 1].closest {
              if j > 0 { assert samples[j] == rest[j - 1]; }
            }
            forall j | k + 1 < j < |samples| ensures !MoreThan(samples[j].closest, samples[k + 1].closest, minDifference) {
              assert samples[j] == rest[j - 1];
            }
          }
        }
      } else {
        BlockedSearchPicksWinner(rest, distance, minDifference, best);
        if c == best && forall j :: 0 <= j < |rest| ==> !MoreThan(rest[j].closest, best.distance, minDifference) {
          forall j | 0 <= j < |samples| ensures !MoreThan(samples[j].closest, best.distance, minDifference) {
            if j > 0 { assert samples[j] == rest[j - 1]; }
          }
        } else {
          var k :| 0 <= k < |rest| && IsStepWinner(rest, minDifference, best, k)
                   && c == StepChoice(rest[k].height, rest[k].closest);
          assert samples[k + 1] == rest[k];
          assert IsStepWinner(samples, minDifference, best, k + 1) by {
            forall j | 0 <= j < k + 1 ensures samples[j].closest < samples[k + 1].closest {
              if j > 0 { assert samples[j] == rest[j - 1]; }
              else { assert !MoreThan(s.closest, best.distance, minDifference); }
            }
            forall j | k + 1 < j < |samples| ensures !MoreThan(samples[j].closest, samples[k + 1].closest, minDifference) {
              assert samples[j] == rest[j - 1];
            }
          }
        }
      }
    }
  }

  /**
   * The number of trial heights `for (int i = 0; i < stepCount; i++)`
   * visits when `stepCount` is a float: the least count not below it.
   */
  function StepSamples(stepCount: real): (n: nat)
    ensures n as real >= stepCount
    ensures n == 0 || (n - 1) as real < stepCount
  {
    if stepCount <= 0.0 then 0 else stepCount.Floor + (if stepCount.Floor as real == stepCount then 0 else 1)
  }

  /** Trial height `i`: `i` equal sub-steps of `totalStepHeight / stepCount`. */
  function SampleHeight(totalStepHeight: real, stepCount: real, i: nat): (h: real)
    requires stepCount != 0.0
    ensures i == 0 ==> h == 0.0
    ensures i as real == stepCount ==> h == totalStepHeight
    ensures totalStepHeight >= 0.0 && stepCount > 0.0 ==> h >= 0.0
  {
    (totalStepHeight / stepCount) * i as real
  }

  /**
   * Every trial height lies in `[0, totalStepHeight)`: the search starts
   * on the ground and never tries the full step height.
   */
  lemma SampleHeightsBelowTop(totalStepHeight: real, stepCount: real, i: nat)
    requires totalStepHeight > 0.0 && stepCount > 0.0 && i < StepSamples(stepCount)
    ensures 0.0 <= SampleHeight(totalStepHeight, stepCount, i) < totalStepHeight
  {
    var sub := totalStepHeight / stepCount;
    assert sub > 0.0;
    assert (i as real) < stepCount;
    assert sub * (i as real) < sub * stepCount;
    assert sub * stepCount == totalStepHeight;
  }

  /** The climbed move: the move's direction at the chosen distance, lifted by the chosen height. */
  function ClimbTranslation(c: StepChoice, t: Vec3, numerics: Numerics): (r: Vec3)
    ensures r.y == c.distance * numerics.normalized(t).y + c.height
    ensures r.x == c.distance * numerics.normalized(t).x && r.z == c.distance * numerics.normalized(t).z
  {
    Add(Scale(c.distance, numerics.normalized(t)), Vec3(0.0, c.height, 0.0))
  }
}
