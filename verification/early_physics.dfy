/**
 * `CharacterPhysics`, earlier revision: one collider and no sub-colliders,
 * a configurable step-search tolerance, a tick that runs whatever the
 * speed, a vertical pass that clears both collision states after casting,
 * and a follow-through that, on a floor, turns any vertical part into a
 * full step height.
 */
module EarlyPhysics {
  import opened Vectors
  import opened HitBuffer
  import opened Probe
  import opened Collision
  import Physics

  /**
   * The serialized fields: `debug` (serialized but never read), `maxSlopeAngle`,
   * `totalStepHeight`, `stepCount`, `minDifference`.
   */
  datatype Settings = Settings(debug: bool, maxSlopeAngle: real, totalStepHeight: real, stepCount: real,
                               minDifference: real)

  const DefaultSettings: Settings := Settings(false, 75.0, 0.2, 4.0, 0.001)

  datatype Env = Env(world: World, numerics: Numerics, settings: Settings)

  datatype Character = Character(position: Vec3, collider: Collider, ceilingState: CollisionState, floorState: CollisionState)

  function Translate(ch: Character, v: Vec3): Character {
    ch.(position := Add(ch.position, v))
  }

  /** The same body seen by the later revision: no sub-colliders. */
  function Lift(ch: Character): (b: Physics.Character)
    ensures b.horizontalSubColliders == [] && b.verticalSubColliders == []
  {
    Physics.Character(ch.position, ch.collider, [], [], ch.ceilingState, ch.floorState)
  }

  function LaterEnv(env: Env): Physics.Env {
    Physics.Env(env.world, env.numerics,
                Physics.Settings(env.settings.maxSlopeAngle, env.settings.totalStepHeight, env.settings.stepCount))
  }

  /** Both collision states cleared. */
  function Cleared(ch: Character): Character {
    ch.(ceilingState := Reset(ch.ceilingState), floorState := Reset(ch.floorState))
  }

  /**
   * The earlier `ProcessVerticalDisplacement`: the collider casts, both
   * states are cleared, and a hit is then recorded on the ceiling (moving
   * up) or the floor (moving down) and caps the move, a too-steep surface
   * also yielding the slide the capped part becomes.
   */
  function ProcessVerticalDisplacement(ch: Character, env: Env, dy: real): (r: (Character, Vec3))
    ensures r.0.position.x == ch.position.x && r.0.position.z == ch.position.z
    ensures !(r.0.floorState.colliding && r.0.ceilingState.colliding)
    ensures var cast := CheckVerticalCollision(ch.collider, env.world, ch.position, dy, Zero);
      && r.0.collider == cast.0
      && (cast.1 == 0 ==>
            r.0.position == Add(ch.position, Vec3(0.0, dy, 0.0)) && r.1 == Zero
            && !r.0.floorState.colliding && !r.0.ceilingState.colliding)
      && (cast.1 > 0 ==> r.0.position == Add(ch.position, CapTranslation(dy, ClosestOf(cast.0.vertical.hits))))
      && (cast.1 > 0 && dy > 0.0 ==>
            r.0.ceilingState == RecordHit(ClosestOf(cast.0.vertical.hits), Down, env.settings.maxSlopeAngle, env.numerics)
            && !r.0.floorState.colliding)
      && (cast.1 > 0 && dy < 0.0 ==>
            r.0.floorState == RecordHit(ClosestOf(cast.0.vertical.hits), Up, env.settings.maxSlopeAngle, env.numerics)
            && !r.0.ceilingState.colliding)
  {
    var (c, hitCount) := CheckVerticalCollision(ch.collider, env.world, ch.position, dy, Zero);
    var cast := Cleared(ch.(collider := c));
    var move := Vec3(0.0, dy, 0.0);
    if hitCount > 0 then
      var closest := ClosestOf(c.vertical.hits);
      var capped := CapTranslation(dy, closest);
      if dy > 0.0 then
        var ceiling := RecordHit(closest, Down, env.settings.maxSlopeAngle, env.numerics);
        var extra := if ceiling.slopeState == StepSlope then SteepSlopeTranslation(Sub(move, capped), ceiling, env.numerics) else Zero;
        (Translate(cast.(ceilingState := ceiling), capped), extra)
      else if dy < 0.0 then
        var floor := RecordHit(closest, Up, env.settings.maxSlopeAngle, env.numerics);
        var extra := if floor.slopeState == StepSlope then SteepSlopeTranslation(Sub(move, capped), floor, env.numerics) else Zero;
        (Translate(cast.(floorState := floor), capped), extra)
      else
        (Translate(cast, move), Zero)
    else
      (Translate(cast, move), Zero)
  }

  /**
   * The earlier vertical pass is the later one run on cleared states and
   * with no sub-colliders: the later revision moved the clearing out of
   * the pass into the tick.
   */
  lemma VerticalPassIsLaterAfterReset(ch: Character, env: Env, dy: real)
    ensures var early := ProcessVerticalDisplacement(ch, env, dy);
      var later := Physics.ProcessVerticalDisplacement(Lift(Cleared(ch)), LaterEnv(env), dy);
      later.0 == Lift(early.0) && later.1 == early.1
  {
    var (c, hitCount) := CheckVerticalCollision(ch.collider, env.world, ch.position, dy, Zero);
    var pooled := Physics.CheckVerticalCollisionAll(Lift(Cleared(ch)), env.world, dy);
    assert pooled.1 == hitCount;
    assert pooled.0 == Lift(Cleared(ch.(collider := c)));
    assert Physics.ClosestVerticalAll(pooled.0) == ClosestOf(c.vertical.hits);
  }

  /** Every vertical pass ends with states that owe nothing to the ones it started with. */
  lemma VerticalPassForgetsStates(ch: Character, env: Env, dy: real, ceiling: CollisionState, floor: CollisionState)
    ensures ProcessVerticalDisplacement(ch.(ceilingState := ceiling, floorState := floor), env, dy)
         == ProcessVerticalDisplacement(ch, env, dy)
  {
  }

  /** The probe at trial height `i`, from the body as it was before the search. */
  function ClimbSample(ch: Character, env: Env, t: Vec3, i: nat): (s: Sample)
    requires i < StepSamples(env.settings.stepCount)
    ensures s.height == SampleHeight(env.settings.totalStepHeight, env.settings.stepCount, i)
  {
    var height := SampleHeight(env.settings.totalStepHeight, env.settings.stepCount, i);
    var cast := CheckHorizontalCollision(ch.collider, env.world, env.numerics, ch.position, t, Vec3(0.0, height, 0.0));
    Sample(height, cast.1, ClosestOf(cast.0.horizontal.hits).distance)
  }

  function ClimbSamples(ch: Character, env: Env, t: Vec3): (ss: seq<Sample>)
    ensures |ss| == StepSamples(env.settings.stepCount)
  {
    seq(StepSamples(env.settings.stepCount), i requires 0 <= i < StepSamples(env.settings.stepCount) => ClimbSample(ch, env, t, i))
  }

  /** The loop of the earlier `TryClimbSteps`, over the one collider. */
  function ClimbLoop(ch: Character, env: Env, t: Vec3, distance: real, i: nat, best: StepChoice)
    : (r: (Character, StepChoice))
    requires i <= StepSamples(env.settings.stepCount)
    ensures r.0 == ch.(collider := r.0.collider)
    decreases StepSamples(env.settings.stepCount) - i
  {
    if i == StepSamples(env.settings.stepCount) then (ch, best)
    else
      var height := SampleHeight(env.settings.totalStepHeight, env.settings.stepCount, i);
      var (c, hitCount) := CheckHorizontalCollision(ch.collider, env.world, env.numerics, ch.position, t, Vec3(0.0, height, 0.0));
      if hitCount <= 0 then (ch.(collider := c), StepChoice(height, distance))
      else
        var hit := ClosestOf(c.horizontal.hits);
        var next := if MoreThan(hit.distance, best.distance, env.settings.minDifference) then StepChoice(height, hit.distance) else best;
        ClimbLoop(ch.(collider := c), env, t, distance, i + 1, next)
  }

  /** On a body without sub-colliders the pooled horizontal cast is the collider's own. */
  lemma HorizontalCastIsLater(ch: Character, env: Env, t: Vec3, displacement: Vec3)
    ensures var c := CheckHorizontalCollision(ch.collider, env.world, env.numerics, ch.position, t, displacement);
      var pooled := Physics.CheckHorizontalCollisionAll(Lift(ch), LaterEnv(env), t, displacement);
      pooled.1 == c.1 && pooled.0 == Lift(ch.(collider := c.0))
      && Physics.ClosestHorizontalAll(pooled.0) == ClosestOf(c.0.horizontal.hits)
  {
  }

  lemma ClimbSamplesUnchangedByCast(ch: Character, env: Env, t: Vec3, v: Vec3, d: Vec3)
    ensures var c := CheckHorizontalCollision(ch.collider, env.world, env.numerics, ch.position, v, d).0;
      ClimbSamples(ch.(collider := c), env, t) == ClimbSamples(ch, env, t)
  {
    var c := CheckHorizontalCollision(ch.collider, env.world, env.numerics, ch.position, v, d).0;
    forall i | 0 <= i < StepSamples(env.settings.stepCount)
      ensures ClimbSample(ch.(collider := c), env, t, i) == ClimbSample(ch, env, t, i)
    {
      var height := SampleHeight(env.settings.totalStepHeight, env.settings.stepCount, i);
      HorizontalCastOverwrites(ch.collider, env.world, env.numerics, ch.position, v, t, d, Vec3(0.0, height, 0.0));
    }
  }

  /**
   * The earlier loop makes the choice `SelectStep` makes, with the
   * configured tolerance, over the samples probed from the body before
   * the search.
   */
  lemma {:induction false} ClimbLoopSelects(ch: Character, env: Env, t: Vec3, distance: real, i: nat, best: StepChoice)
    requires i <= StepSamples(env.settings.stepCount)
    ensures ClimbLoop(ch, env, t, distance, i, best).1
         == SelectStep(ClimbSamples(ch, env, t)[i..], distance, env.settings.minDifference, best)
    decreases StepSamples(env.settings.stepCount) - i
  {
    var samples := ClimbSamples(ch, env, t);
    if i < StepSamples(env.settings.stepCount) {
      var height := SampleHeight(env.settings.totalStepHeight, env.settings.stepCount, i);
      var (c, hitCount) := CheckHorizontalCollision(ch.collider, env.world, env.numerics, ch.position, t, Vec3(0.0, height, 0.0));
      assert samples[i..][0] == samples[i] == ClimbSample(ch, env, t, i);
      assert samples[i..][1..] == samples[i + 1..];
      if hitCount > 0 {
        var hit := ClosestOf(c.horizontal.hits);
        var next := if MoreThan(hit.distance, best.distance, env.settings.minDifference) then StepChoice(height, hit.distance) else best;
        ClimbLoopSelects(ch.(collider := c), env, t, distance, i + 1, next);
        ClimbSamplesUnchangedByCast(ch, env, t, t, Vec3(0.0, height, 0.0));
      }
    }
  }

  /**
   * The earlier `TryClimbSteps`: the step search with the configured
   * tolerance over the trial heights probed from the body as it stood.
   */
  function TryClimbSteps(ch: Character, env: Env, t: Vec3): (r: (Character, Vec3))
    ensures r.1 == ClimbTranslation(
      SelectStep(ClimbSamples(ch, env, t), env.numerics.magnitude(t), env.settings.minDifference, NoStep), t, env.numerics)
    ensures r.0 == ch.(collider := r.0.collider)
  {
    var distance := env.numerics.magnitude(t);
    var loop := ClimbLoop(ch, env, t, distance, 0, NoStep);
    ClimbLoopSelects(ch, env, t, distance, 0, NoStep);
    assert ClimbSamples(ch, env, t)[0..] == ClimbSamples(ch, env, t);
    (loop.0, ClimbTranslation(loop.1, t, env.numerics))
  }

  /** Without sub-colliders, the earlier trial heights probe exactly what the later ones do. */
  lemma ClimbSamplesAreLater(ch: Character, env: Env, t: Vec3)
    ensures ClimbSamples(ch, env, t) == Physics.ClimbSamples(Lift(ch), LaterEnv(env), t)
  {
    forall i | 0 <= i < StepSamples(env.settings.stepCount)
      ensures ClimbSample(ch, env, t, i) == Physics.ClimbSample(Lift(ch), LaterEnv(env), t, i)
    {
      HorizontalCastIsLater(ch, env, t, Vec3(0.0, SampleHeight(env.settings.totalStepHeight, env.settings.stepCount, i), 0.0));
    }
  }

  /**
   * The two revisions climb alike on a body without sub-colliders when the
   * configured tolerance is the later revision's `MIN_DIFFERENCE`.
   */
  lemma ClimbIsLater(ch: Character, env: Env, t: Vec3)
    requires env.settings.minDifference == Physics.MinDifference
    ensures TryClimbSteps(ch, env, t).1 == Physics.TryClimbSteps(Lift(ch), LaterEnv(env), t).1
  {
    ClimbSamplesAreLater(ch, env, t);
  }
  /**
   * The two revisions ship the same defaults: the earlier one's serialized
   * tolerance equals the later one's constant, so with default settings the
   * earlier step search is the later one.
   */
  lemma DefaultsAgree(ch: Character, world: World, numerics: Numerics, t: Vec3)
    ensures LaterEnv(Env(world, numerics, DefaultSettings)).settings == Physics.DefaultSettings
    ensures TryClimbSteps(ch, Env(world, numerics, DefaultSettings), t).1
         == Physics.TryClimbSteps(Lift(ch), Physics.Env(world, numerics, Physics.DefaultSettings), t).1
  {
    ClimbIsLater(ch, Env(world, numerics, DefaultSettings), t);
  }


  /**
   * The earlier `SelectVerticalTranslation`: off a floor, the vertical part
   * of the climbed move; on a floor, a full step height in that part's
   * direction — up as well as down — or nothing when it is too short to
   * normalise.
   */
  function SelectVerticalTranslation(floor: CollisionState, climbed: Vec3, totalStepHeight: real): (v: Vec3)
    ensures v.x == 0.0 && v.z == 0.0
    ensures !floor.colliding ==> v.y == climbed.y
    ensures floor.colliding && climbed.y > NormalizeEpsilon ==> v.y == totalStepHeight
    ensures floor.colliding && climbed.y < -NormalizeEpsilon ==> v.y == -totalStepHeight
    ensures floor.colliding && Abs(climbed.y) <= NormalizeEpsilon ==> v == Zero
  {
    var vertical := VerticalComponent(climbed);
    if !floor.colliding then vertical
    else Scale(totalStepHeight, NormalizedVertical(vertical.y))
  }

  /**
   * The two revisions agree off a floor and for a downward part; on a
   * floor an upward part differs: the earlier one lifts the body by the
   * whole step height, the later one only by the part itself.
   */
  lemma VerticalSelectionRevisions(floor: CollisionState, climbed: Vec3, totalStepHeight: real)
    ensures !floor.colliding || climbed.y < 0.0 ==>
      SelectVerticalTranslation(floor, climbed, totalStepHeight)
        == Physics.SelectVerticalTranslation(floor, climbed, totalStepHeight)
    ensures floor.colliding && climbed.y > NormalizeEpsilon ==>
      && SelectVerticalTranslation(floor, climbed, totalStepHeight).y == totalStepHeight
      && Physics.SelectVerticalTranslation(floor, climbed, totalStepHeight).y == climbed.y
  {
  }

  /** The earlier `ProcessHorizontalDisplacement`: redirect, climb, move, follow through. */
  function ProcessHorizontalDisplacement(ch: Character, env: Env, h: Vec3, extra: Vec3): (r: Character)
    ensures var t := SelectHorizontalTranslation(ch.floorState, ch.ceilingState, h, extra, env.numerics);
      var climbed := TryClimbSteps(ch, env, t).1;
      r.position.x == ch.position.x + climbed.x && r.position.z == ch.position.z + climbed.z
    ensures !(r.floorState.colliding && r.ceilingState.colliding)
  {
    var t := SelectHorizontalTranslation(ch.floorState, ch.ceilingState, h, extra, env.numerics);
    var (climbedBody, climbed) := TryClimbSteps(ch, env, t);
    var moved := Translate(climbedBody, HorizontalComponent(climbed));
    var v := SelectVerticalTranslation(moved.floorState, climbed, env.settings.totalStepHeight);
    ProcessVerticalDisplacement(moved, env, v.y).0
  }

  /**
   * The earlier `FixedUpdate`: both passes run on every tick, whatever the
   * speed, and since each vertical pass clears both states before recording
   * one, a tick never ends with floor and ceiling both in contact.
   */
  function FixedUpdate(ch: Character, env: Env, speed: Vec3, fixedDeltaTime: real): (r: Character)
    ensures !(r.floorState.colliding && r.ceilingState.colliding)
  {
    var translation := Scale(fixedDeltaTime, speed);
    var (vertical, extra) := ProcessVerticalDisplacement(ch, env, VerticalComponent(translation).y);
    ProcessHorizontalDisplacement(vertical, env, HorizontalComponent(translation), extra)
  }

  /** Every tick, idle or not, is independent of the states the previous one left. */
  lemma TickForgetsStates(ch: Character, env: Env, speed: Vec3, fixedDeltaTime: real,
                          ceiling: CollisionState, floor: CollisionState)
    ensures FixedUpdate(ch.(ceilingState := ceiling, floorState := floor), env, speed, fixedDeltaTime)
         == FixedUpdate(ch, env, speed, fixedDeltaTime)
  {
    var translation := Scale(fixedDeltaTime, speed);
    VerticalPassForgetsStates(ch, env, translation.y, ceiling, floor);
  }
  /**
   * With nothing in the way, a tick moves the body by exactly
   * `speed * fixedDeltaTime`, provided at least one trial height is probed
   * and the float numerics rebuild the horizontal move from its magnitude
   * and direction.
   */
  lemma FreeMotion(ch: Character, env: Env, speed: Vec3, fixedDeltaTime: real)
    requires Empty(env.world) && env.settings.stepCount > 0.0
    requires var h := HorizontalComponent(Scale(fixedDeltaTime, speed));
      Scale(env.numerics.magnitude(h), env.numerics.normalized(h)) == h
    ensures FixedUpdate(ch, env, speed, fixedDeltaTime).position == Add(ch.position, Scale(fixedDeltaTime, speed))
  {
    var translation := Scale(fixedDeltaTime, speed);
    var h := HorizontalComponent(translation);
    EmptyWorldCastsMiss(ch.collider, env.world, env.numerics, ch.position, translation.y, h, Zero);
    var (vertical, extra) := ProcessVerticalDisplacement(ch, env, translation.y);
    assert vertical.position == Add(ch.position, Vec3(0.0, translation.y, 0.0));
    assert extra == Zero && !vertical.floorState.colliding && vertical.ceilingState == Reset(ch.ceilingState);
    assert SelectHorizontalTranslation(vertical.floorState, vertical.ceilingState, h, extra, env.numerics) == h;
    var samples := ClimbSamples(vertical, env, h);
    var height := SampleHeight(env.settings.totalStepHeight, env.settings.stepCount, 0);
    EmptyWorldCastsMiss(vertical.collider, env.world, env.numerics, vertical.position, 0.0, h, Vec3(0.0, height, 0.0));
    assert samples[0].hitCount == 0;
    FirstFreeSampleWins(samples, env.numerics.magnitude(h), env.settings.minDifference, NoStep, 0);
    assert height == 0.0;
    var (climbedBody, climbed) := TryClimbSteps(vertical, env, h);
    assert climbed == h;
    var moved := Translate(climbedBody, HorizontalComponent(climbed));
    assert moved.position == Add(vertical.position, h);
    var v := SelectVerticalTranslation(moved.floorState, climbed, env.settings.totalStepHeight);
    assert v.y == 0.0;
    assert ProcessVerticalDisplacement(moved, env, v.y).0.position == moved.position;
  }
}
