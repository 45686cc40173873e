# Cylinder character controller — a Dafny model

This project models the decision logic of a Unity character controller whose
body is a vertical cylinder. Two pieces do the work:

- a **cylinder collider** (`CylinderCollider`) lays out a fan of vertical rays
  under and over the cylinder and a grid of horizontal rays around it. It
  casts them, corrects each raw hit distance by the skin depth, folds the
  hits into a buffer with one entry per struck collider (the nearest), and
  reports the closest entry;
- a **movement resolver** (`CharacterPhysics`) runs once per physics tick.
  It moves the body vertically and caps the move at the nearest floor or
  ceiling, classifying that surface as flat, slope or too steep. It then
  moves horizontally: the move is redirected by the governing surface, stairs
  are climbed by probing a ladder of trial heights, and a vertical
  follow-through runs last.

The repository holds two revisions of each, and both are modelled:

| piece | later revision | earlier revision |
|---|---|---|
| collider | `CylinderCharacterController/CylinderCollider.cs` | `Assets/CylinderCollider.cs` |
| resolver | `CylinderCharacterController/CharacterPhysics.cs` | `Assets/CylinderCharacterController/CharacterPhysics.cs` |
| vector extensions | `Assets/CylinderCharacterController/Vector3Extensions.cs` | `Assets/Vector3Extensions.cs` |

The later resolver differs from the earlier one in five ways:
- its step-search tolerance is the fixed constant `MIN_DIFFERENCE` (0.001) instead of the serialized field `minDifference`;
- it resets the floor and ceiling states once per tick, not at the start of every vertical pass;
- it skips a tick whose speed is negligible;
- on a floor, its follow-through only rescales a downward move;
- it pools the casts of optional sub-colliders with the main collider's.

## Modules

- `wrappers.dfy` (`Wrappers`): `Option` and `Result`.
- `vectors.dfy` (`Vectors`): `Vector3` as a real triple, and the vertical and horizontal components.
  - Unity's `normalized` is exact for vertical vectors: zero below magnitude `1e-5`, otherwise the unit vector of the same sign.
  - Square roots, angles and rotations are fields of a `Numerics` record that every operation takes as a parameter.
- `ray_layout.dfy` (`RayLayout`): the integer ray-count arithmetic and the fill of the vertical fan. Integer division truncates as in C#.
  - Layout generation returns an error where the source would throw: a negative array size, or an integer division by zero.
- `hit_buffer.dfy` (`HitBuffer`): the skin-depth adjustment, the dedup, and the closest-hit scan.
  - The dedup is a left fold over the rays in cast order.
  - `FillHitBuffer` is the in-place buffer loop, proved equal to the fold.
- `probe.dfy` (`Probe`): a collider and its casts. The raycast is an oracle `World`, a function from a ray query to an optional hit.
  - A ray query names the collider, the ray's slot, the ray's base point, and its length.
  - A collider keeps the live prefix of each of its hit buffers.
- `collision.dfy` (`Collision`): what the two resolver revisions share:
  - collision states and slope classification;
  - capping a vertical move;
  - choosing the horizontal translation;
  - the step search over trial heights.
- `physics.dfy` (`Physics`): the later resolver.
- `early_physics.dfy` (`EarlyPhysics`): the earlier resolver. Bridge lemmas relate it to the later one.

## Model

| member | source | states |
|---|---|---|
| Vectors.VerticalComponent | Assets/CylinderCharacterController/Vector3Extensions.cs:10-13 | the vertical component keeps only `y` |
| Vectors.HorizontalComponent | Assets/CylinderCharacterController/Vector3Extensions.cs:18-21 | projecting on the plane normal to up keeps `x` and `z` and zeroes `y` |
| Vectors.ProjectOnPlane | Assets/CylinderCharacterController/Vector3Extensions.cs:18-21 | a normal too short to divide by leaves the vector alone; otherwise the projection has no component along the normal |
| Vectors.ProjectionIsOrthogonal | Assets/CylinderCharacterController/Vector3Extensions.cs:18-21 | removing from a vector its scaled component along a non-zero normal leaves a vector orthogonal to that normal |
| Vectors.ComponentsSum | Assets/Vector3Extensions.cs:7-15 | the vertical plus the horizontal component give back the vector |
| Vectors.ComponentsIdempotent | Assets/Vector3Extensions.cs:7-15 | taking a component of a component changes nothing |
| Vectors.ComponentsAnnihilate | Assets/Vector3Extensions.cs:7-15 | the horizontal part of a vertical component and the vertical part of a horizontal one are zero |
| Vectors.NormalizedVertical | CylinderCharacterController/CharacterPhysics.cs:112-115 | a vertical direction is a unit vector of the move's sign, or zero when the move is below the normalisation threshold |
| RayLayout.NatDiv | CylinderCharacterController/CylinderCollider.cs:51 | the quotient of naturals is at most the dividend, and positive exactly when the divisor fits in the dividend |
| RayLayout.NatDivRemainder | CylinderCharacterController/CylinderCollider.cs:51 | the quotient times the divisor falls short of the dividend by less than the divisor |
| RayLayout.TruncDiv | CylinderCharacterController/CylinderCollider.cs:51 | C# integer division lies between zero and the dividend, and a non-negative dividend gives a positive quotient exactly when the divisor fits |
| RayLayout.TruncDivRoundsTowardZero | CylinderCharacterController/CylinderCollider.cs:51 | the remainder of C# division has the dividend's sign and is smaller than the divisor |
| RayLayout.RadiusPointCount | CylinderCharacterController/CylinderCollider.cs:44 | a full ring's point count is non-negative exactly for at least one horizontal point and positive exactly for at least two |
| RayLayout.FanSize | CylinderCharacterController/CylinderCollider.cs:46-54 | no rings give an empty fan; over a non-negative radius count the fan is never negative and, with a ring, holds at least the outer ring's full count; over a negative radius count any ring makes the size negative, so the allocation throws |
| RayLayout.RingRadius | CylinderCharacterController/CylinderCollider.cs:111-117 | the outer ring lies at the skinless radius and ring `verticalRings` at the centre; every ring in between lies within the skinless radius |
| RayLayout.CountVerticalPoints | CylinderCharacterController/CylinderCollider.cs:46-54 | the counting loop yields the fan size: the sum over rings `i = 1..verticalRings` of `RadiusPointCount / i` |
| RayLayout.FanSizeMonotone | CylinderCharacterController/CylinderCollider.cs:109-127 | the points written after each ring never exceed the whole fan, so the fill cannot overrun |
| RayLayout.FixedTwoRingFan | Assets/CylinderCollider.cs:43-50 | with two rings the fan holds `R + R/2` rays, i.e. `3 * (horizontalPointCount - 1)` |
| RayLayout.Ring | CylinderCharacterController/CylinderCollider.cs:114-127 | ring `j` holds `RadiusPointCount / (j + 1)` points |
| RayLayout.FanLayout | CylinderCharacterController/CylinderCollider.cs:105-129 | the rings laid end to end fill exactly the fan size |
| RayLayout.FillRing | CylinderCharacterController/CylinderCollider.cs:118-127 | filling one ring appends exactly that ring's points after the ones already written and touches nothing before them |
| RayLayout.GenerateVerticalPoints | CylinderCharacterController/CylinderCollider.cs:105-129 | succeeds exactly when no ring has zero points; then it writes exactly the fan, ring after ring |
| RayLayout.GenerateLayout | CylinderCharacterController/CylinderCollider.cs:63-129 | fails with a negative array size exactly for a non-positive horizontal count or negative layer count; succeeds exactly for at least two horizontal points and no ring with zero points; on success the buffers have capacity `horizontalPointCount * verticalPointsCount` and the fan size |
| HitBuffer.AdjustDistance | CylinderCharacterController/CylinderCollider.cs:158-159 | the adjusted distance is `max(raw - skinDepth, 0)`: never negative |
| HitBuffer.IndexOfId | CylinderCharacterController/CylinderCollider.cs:160-169 | the search stops at the first entry with the id, or at the end when none has it |
| HitBuffer.Absorb | CylinderCharacterController/CylinderCollider.cs:160-171 | the buffer grows by one exactly when no entry has the hit's collider; the entry for that collider ends up as the new hit or the old entry, no farther than either, and every other entry is untouched |
| HitBuffer.Dedup | CylinderCharacterController/CylinderCollider.cs:160-171 | folding the rays never keeps more entries than there are rays |
| HitBuffer.DedupCountBound | CylinderCharacterController/CylinderCollider.cs:160-171 | the number of entries is at most the number of rays that hit anything |
| HitBuffer.DedupIdsDistinct | CylinderCharacterController/CylinderCollider.cs:211-222 | the entries have pairwise distinct collider ids |
| HitBuffer.DedupCoversStruckIds | CylinderCharacterController/CylinderCollider.cs:211-222 | an id has an entry exactly when some ray struck that collider |
| HitBuffer.DedupKeepsNearest | CylinderCharacterController/CylinderCollider.cs:164-165 | each entry's distance is at most the adjusted distance of every ray that struck the same collider |
| HitBuffer.DedupEntriesFromRays | CylinderCharacterController/CylinderCollider.cs:215-216 | each entry is the adjusted hit of the earliest ray at the minimum distance for its collider |
| HitBuffer.FillHitBuffer | Assets/CylinderCollider.cs:170-199 | the in-place loop leaves the buffer's length alone, counts no more than the rays, and its live prefix equals the fold |
| HitBuffer.ClosestIndex | CylinderCharacterController/CylinderCollider.cs:262-279 | the chosen entry is no farther than any entry and strictly nearer than every entry before it |
| HitBuffer.ClosestOf | CylinderCharacterController/CylinderCollider.cs:282-299 | the closest hit is the default hit for an empty prefix, otherwise a prefix entry at the minimum distance, the earliest on ties |
| HitBuffer.ScanClosest | Assets/CylinderCollider.cs:233-250 | the scan with its `assigned` flag returns the closest hit of the first `count` slots, the default hit when there are none |
| Probe.Awake | CylinderCharacterController/CylinderCollider.cs:58-61 | a new collider succeeds exactly when its layout does, and starts with that layout and empty buffers |
| Probe.Edit | CylinderCharacterController/CylinderCollider.cs:301-304 | an edit regenerates the layout from the new shape and fails exactly when generation fails or a stale hit count no longer fits its new buffer; the collider keeps its id, hit counts and ray lengths, and every slot of each live prefix reads as the default hit |
| Probe.EditMatchesFreshLayout | Assets/CylinderCollider.cs:252-255 | a successful edit gives the layout a freshly created collider of that shape would have, and an edit always succeeds when the fresh layout exists and the stale counts fit it |
| Probe.EditForgetsHits | CylinderCharacterController/CylinderCollider.cs:88-109 | after an edit the closest vertical and the closest horizontal hit are both the default hit, since the buffers are reallocated |
| Probe.EditThenCastMatchesFresh | CylinderCharacterController/CylinderCollider.cs:197-201 | a vertical cast after an edit resets the count and keeps exactly what a fresh collider of the same shape would keep |
| Probe.VerticalRays | CylinderCharacterController/CylinderCollider.cs:202-206 | one ray per fan slot, in slot order, of the given direction and length |
| Probe.LayerRays | CylinderCharacterController/CylinderCollider.cs:151-156 | one ray per column of a layer, in column order |
| Probe.GridRays | CylinderCharacterController/CylinderCollider.cs:149-156 | the grid casts `columns * layers` rays |
| Probe.HorizontalRays | CylinderCharacterController/CylinderCollider.cs:149-156 | a horizontal cast fires exactly as many rays as the buffer holds |
| Probe.GridOrder | CylinderCharacterController/CylinderCollider.cs:149-156 | layers are outer and columns inner: ray `(i, j)` is cast in position `j * columns + i` |
| Probe.EmptyGridMisses | CylinderCharacterController/CylinderCollider.cs:149-156 | with nothing in the scene no ray of the grid hits |
| Probe.CheckVerticalCollision | CylinderCharacterController/CylinderCollider.cs:190-227 | distance zero casts nothing and returns 0; otherwise the sign picks upward or downward rays of length `\|distance\| + skinDepth`, only the vertical buffer changes, the count equals the deduplicated entries and stays within the fan size |
| Probe.CheckHorizontalCollision | CylinderCharacterController/CylinderCollider.cs:142-177 | rays reach `\|velocity\| + skinDepth`, only the horizontal buffer changes, and the count stays within the grid's capacity |
| Probe.VerticalCastSound | CylinderCharacterController/CylinderCollider.cs:229-260 | after a vertical cast the ids are distinct, every struck collider has an entry, and each entry is the nearest adjusted hit |
| Probe.HorizontalCastSound | Assets/CylinderCollider.cs:127-161 | the same three facts for a horizontal cast |
| Probe.VerticalCastOverwrites | CylinderCharacterController/CylinderCollider.cs:197-203 | a vertical cast's result does not depend on the previous cast |
| Probe.HorizontalCastOverwrites | CylinderCharacterController/CylinderCollider.cs:142-146 | a horizontal cast's result does not depend on the previous cast |
| Probe.VerticalCastWithinMove | CylinderCharacterController/CylinderCollider.cs:200-210 | against a scene that reports hits only within ray length, every vertical entry lies between 0 and the move's length |
| Probe.NoStrikeNoHits | CylinderCharacterController/CylinderCollider.cs:160-171 | when no ray hits, the buffer stays empty |
| Probe.EmptyWorldCastsMiss | Assets/CylinderCollider.cs:163-199 | with nothing in the scene both casts report zero hits |
| Collision.Reset | CylinderCharacterController/CharacterPhysics.cs:290-295 | a reset state is not colliding, has a zero normal and is flat |
| Collision.ResetForgets | Assets/CylinderCharacterController/CharacterPhysics.cs:214-219 | a reset state does not depend on what was there before |
| Collision.Classify | CylinderCharacterController/CharacterPhysics.cs:94-98 | step slope exactly above the maximum angle, slope exactly in `(0, max]`, flat exactly for a non-positive angle not above the maximum |
| Collision.ClassifyMonotone | Assets/CylinderCharacterController/CharacterPhysics.cs:79-100 | a steeper surface is never classified as gentler |
| Collision.RecordHit | CylinderCharacterController/CharacterPhysics.cs:90-110 | a recorded hit makes the state colliding with the hit's normal; step slope exactly when the angle to the reference direction exceeds the maximum |
| Collision.CapTranslation | CylinderCharacterController/CharacterPhysics.cs:112-115 | the capped move is vertical, as long as the hit distance and in the move's direction, or zero for a move too short to normalise |
| Collision.CapNeverLengthens | Assets/CylinderCharacterController/CharacterPhysics.cs:102-105 | capping at a hit within the move never lengthens or reverses it |
| Collision.SteepSlopeTranslation | CylinderCharacterController/CharacterPhysics.cs:185-191 | a remainder with no vertical part slides nowhere |
| Collision.Governing | CylinderCharacterController/CharacterPhysics.cs:161-165 | the floor state governs exactly when it collides; otherwise the ceiling state governs |
| Collision.SelectHorizontalTranslation | CylinderCharacterController/CharacterPhysics.cs:159-175 | a flat governing surface keeps the move, a slope redirects it along the floor's normal, a too-steep one replaces it by the slide |
| Collision.CeilingSlopeUsesFloorNormal | CylinderCharacterController/CharacterPhysics.cs:166-167 | under a sloped ceiling with no floor contact, the redirect uses the reset floor's zero normal |
| Collision.MoreThan | CylinderCharacterController/CharacterPhysics.cs:278-281 | the first value clears the second by more than the tolerance; with a non-negative tolerance that means it is strictly larger |
| Collision.ClimbTranslation | CylinderCharacterController/CharacterPhysics.cs:156 | the climbed move goes the chosen distance along the move's direction, and rises by the chosen height on top of that |
| Collision.SelectStep | CylinderCharacterController/CharacterPhysics.cs:136-155 | the search ends with the starting choice or with one of the trial heights |
| Collision.FirstFreeSampleWins | CylinderCharacterController/CharacterPhysics.cs:140-145 | the first trial height where nothing hits wins with the full distance, whatever came before |
| Collision.BlockedSearchPicksWinner | CylinderCharacterController/CharacterPhysics.cs:146-154 | when every height hits, the search keeps the start if no height clears it by the tolerance; otherwise it picks a height that clears the start by the tolerance, is strictly farther than every earlier height, and that no later height beats by more than the tolerance |
| Collision.SelectStepAppend | CylinderCharacterController/CharacterPhysics.cs:136-155 | after blocked heights, one more height wins outright when nothing hits there, replaces the choice so far exactly when its nearest hit is farther by more than the tolerance, and otherwise leaves the choice unchanged |
| Collision.NearEqualLaterLoses | CylinderCharacterController/CharacterPhysics.cs:146-154 | a later blocked height that does not clear the current choice by more than the tolerance leaves the choice as it was, so the earliest of near-equal heights wins |
| Collision.NearEqualExample | CylinderCharacterController/CharacterPhysics.cs:146-154 | with tolerance 0.001, blocked heights with nearest hits 0.5 and 0.5005 keep the first height |
| Collision.StepSamples | CylinderCharacterController/CharacterPhysics.cs:136 | the loop over a float count runs the least whole number of times not below the count |
| Collision.SampleHeight | CylinderCharacterController/CharacterPhysics.cs:131-138 | trial height 0 is the ground, trial `stepCount` would be the full step height, and no trial height is negative for a positive step and count |
| Collision.SampleHeightsBelowTop | CylinderCharacterController/CharacterPhysics.cs:131-138 | every trial height lies in `[0, totalStepHeight)` |
| Physics.DefaultStepLadder | CylinderCharacterController/CharacterPhysics.cs:10-15 | with the shipped defaults the step search tries four heights, `0.05` apart, from the ground up to `0.15` |
| Physics.IsOnFloor | CylinderCharacterController/CharacterPhysics.cs:25-27 | on the floor exactly when the floor state collides and its slope is not too steep to stand on (flat or walkable slope, never a step slope) |
| Physics.IsTouchingCeiling | CylinderCharacterController/CharacterPhysics.cs:28-31 | touching the ceiling exactly when the ceiling state collides |
| Physics.IndexOfCollider | CylinderCharacterController/CharacterPhysics.cs:209-213 | the first listed occurrence of an id, or the end when the id is not listed |
| Physics.AddSubCollider | CylinderCharacterController/CharacterPhysics.cs:203-207 | a listed collider is not added again; an unlisted one is appended |
| Physics.RemoveSubCollider | CylinderCharacterController/CharacterPhysics.cs:209-213 | removing an unlisted collider changes nothing; otherwise exactly one entry goes |
| Physics.AddSubColliderKeepsSet | CylinderCharacterController/CharacterPhysics.cs:215-219 | adding twice is adding once, a list without duplicates keeps none, and the listed ids are the old ones plus the new one |
| Physics.RemoveSubColliderUnlists | CylinderCharacterController/CharacterPhysics.cs:221-225 | from a list without duplicates, removal unlists exactly that collider; adding a new collider and removing it restores the list |
| Physics.AddHorizontalSubCollider | CylinderCharacterController/CharacterPhysics.cs:203-207 | only the horizontal list changes; it then lists the collider and stays duplicate-free |
| Physics.RemoveHorizontalSubCollider | CylinderCharacterController/CharacterPhysics.cs:209-213 | only the horizontal list changes; a duplicate-free list no longer lists the collider |
| Physics.AddVerticalSubCollider | CylinderCharacterController/CharacterPhysics.cs:215-219 | only the vertical list changes; it then lists the collider and stays duplicate-free |
| Physics.RemoveVerticalSubCollider | CylinderCharacterController/CharacterPhysics.cs:221-225 | only the vertical list changes; a duplicate-free list no longer lists the collider |
| Physics.SumOfCounts | CylinderCharacterController/CharacterPhysics.cs:227-234 | a sum of hit counts is never negative and is zero exactly when every count is |
| Physics.CheckVerticalCollisionAll | CylinderCharacterController/CharacterPhysics.cs:227-234 | every vertical collider casts from the body's position and nothing else changes; zero distance casts nothing and returns 0; otherwise the pooled count is the main collider's live hit count plus the sum of the sub-colliders' live hit counts, and it is zero exactly when no collider holds a hit |
| Physics.CheckHorizontalCollisionAll | CylinderCharacterController/CharacterPhysics.cs:247-254 | every horizontal collider casts and nothing else changes; the pooled count is the main collider's live hit count plus the sum of the sub-colliders' live hit counts, and it is zero exactly when no collider holds a hit |
| Physics.ClosestAcross | CylinderCharacterController/CharacterPhysics.cs:236-246 | the pooled closest hit is no farther than the main collider's or any sub-collider's; it is the main collider's hit unless a sub-collider's is strictly nearer, and then it is the first sub-collider hit strictly nearer than the main hit and all earlier ones, so ties keep the earlier hit |
| Physics.ClosestVerticalAll | CylinderCharacterController/CharacterPhysics.cs:236-246 | the pooled closest vertical hit is no farther than any entry of any vertical collider's buffer; it is the main collider's closest hit unless some sub-collider's closest hit is strictly nearer, and then it is the first sub-collider's closest hit that is strictly nearer than the main one and all earlier ones (ties keep the earlier hit) |
| Physics.ClosestHorizontalAll | CylinderCharacterController/CharacterPhysics.cs:256-266 | the pooled closest horizontal hit is no farther than any entry of any horizontal collider's buffer; it is the main collider's closest hit unless some sub-collider's closest hit is strictly nearer, and then it is the first sub-collider's closest hit that is strictly nearer than the main one and all earlier ones (ties keep the earlier hit) |
| Physics.VerticalPooledChoice | CylinderCharacterController/CharacterPhysics.cs:236-246 | the left-to-right strict-less scan over the vertical colliders keeps the main collider's closest hit unless a sub-collider's closest is strictly nearer, and then picks the first sub-collider strictly nearer than the main one and all before it |
| Physics.HorizontalPooledChoice | CylinderCharacterController/CharacterPhysics.cs:256-266 | the same choice for the horizontal colliders |
| Physics.EmptySubColliderWins | CylinderCharacterController/CharacterPhysics.cs:236-246 | when every buffered distance is non-negative, a vertical sub-collider with an empty buffer makes the pooled closest hit's distance zero, since its closest hit is the default hit at distance 0 and no other entry is nearer |
| Physics.ProcessVerticalDisplacement | CylinderCharacterController/CharacterPhysics.cs:51-88 | the pass moves only along `y`; with no hit it applies the full move and keeps both states; with hits it caps at the pooled closest hit and records it on the ceiling when rising or the floor when falling; a slide is returned only for a too-steep surface |
| Physics.PooledVerticalHitWithinMove | CylinderCharacterController/CharacterPhysics.cs:236-246 | against a scene that reports hits only within reach, the pooled closest vertical hit lies within the move |
| Physics.VerticalPassNeverOvershoots | CylinderCharacterController/CharacterPhysics.cs:51-88 | against such a scene the vertical pass never moves the body farther than asked, nor in the opposite direction |
| Physics.ClimbLoop | CylinderCharacterController/CharacterPhysics.cs:136-155 | probing trial heights leaves the position, the vertical colliders and both states alone |
| Physics.HorizontalCastsForget | CylinderCharacterController/CharacterPhysics.cs:247-254 | a pooled horizontal cast does not depend on the previous one |
| Physics.ClimbLoopSelects | CylinderCharacterController/CharacterPhysics.cs:128-157 | the loop picks the same height and distance as the step search over the trial heights probed from the unmoved body |
| Physics.TryClimbSteps | CylinderCharacterController/CharacterPhysics.cs:128-157 | the climbed move is the move's direction at the searched distance lifted by the searched height; the body does not move |
| Physics.SelectVerticalTranslation | CylinderCharacterController/CharacterPhysics.cs:193-201 | on a floor a downward follow-through becomes a descent of exactly the step height (zero when too short to normalise); anything else passes the vertical part unchanged |
| Physics.ProcessHorizontalDisplacement | CylinderCharacterController/CharacterPhysics.cs:117-126 | the body moves horizontally by exactly the climbed move's horizontal part |
| Physics.HorizontalPassFollowThrough | CylinderCharacterController/CharacterPhysics.cs:122-125 | against a scene that reports hits only within reach, the follow-through moves the body vertically no farther than the selected vertical move, and in its direction |
| Physics.FixedUpdate | CylinderCharacterController/CharacterPhysics.cs:38-49 | a tick whose squared speed is at most `float.Epsilon` leaves the body as it was |
| Physics.FreeMotion | CylinderCharacterController/CharacterPhysics.cs:38-49 | in an empty scene, a tick whose speed is not negligible (`sqrMagnitude > float.Epsilon`) moves the body by exactly `speed * fixedDeltaTime`, provided `stepCount > 0` and the float magnitude times the normalised horizontal move gives back that move |
| Physics.FreeHorizontalPass | CylinderCharacterController/CharacterPhysics.cs:117-126 | from cleared states in an empty scene the horizontal pass moves the body by exactly the horizontal move |
| Physics.TickForgetsStates | CylinderCharacterController/CharacterPhysics.cs:40-44 | a moving tick does not depend on the states the previous tick left |
| EarlyPhysics.ProcessVerticalDisplacement | Assets/CylinderCharacterController/CharacterPhysics.cs:38-77 | the pass moves only along `y` and never ends in contact with both floor and ceiling; with no hit it applies the full move and clears both states; with a hit it caps the move and records the hit on the ceiling or the floor, clearing the other |
| EarlyPhysics.VerticalPassIsLaterAfterReset | Assets/CylinderCharacterController/CharacterPhysics.cs:42-44 | the earlier pass is the later one run on cleared states without sub-colliders |
| EarlyPhysics.VerticalPassForgetsStates | Assets/CylinderCharacterController/CharacterPhysics.cs:42-44 | the earlier pass does not depend on the states it started with |
| EarlyPhysics.ClimbLoop | Assets/CylinderCharacterController/CharacterPhysics.cs:126-145 | probing trial heights changes only the collider's buffers |
| EarlyPhysics.ClimbLoopSelects | Assets/CylinderCharacterController/CharacterPhysics.cs:126-145 | the loop makes the step search's choice, with the configured tolerance, over the trial heights probed from the unmoved body |
| EarlyPhysics.ClimbSamplesAreLater | Assets/CylinderCharacterController/CharacterPhysics.cs:128-138 | without sub-colliders the earlier trial heights probe exactly what the later ones do |
| EarlyPhysics.ClimbIsLater | Assets/CylinderCharacterController/CharacterPhysics.cs:118-147 | with the configured tolerance equal to `MIN_DIFFERENCE` the two revisions climb alike |
| EarlyPhysics.DefaultsAgree | Assets/CylinderCharacterController/CharacterPhysics.cs:7-16 | the earlier revision's shipped defaults are the later one's, tolerance included, so with defaults both revisions climb alike |
| EarlyPhysics.TryClimbSteps | Assets/CylinderCharacterController/CharacterPhysics.cs:118-147 | the climbed move follows the step search with the configurable tolerance; the body does not move |
| EarlyPhysics.SelectVerticalTranslation | Assets/CylinderCharacterController/CharacterPhysics.cs:183-190 | on a floor the follow-through becomes exactly the step height up or down, by the sign of the move (zero when too short to normalise); off the floor it is unchanged |
| EarlyPhysics.VerticalSelectionRevisions | Assets/CylinderCharacterController/CharacterPhysics.cs:183-190 | the two revisions agree off the floor and for downward moves, and differ on a floor for an upward move |
| EarlyPhysics.ProcessHorizontalDisplacement | Assets/CylinderCharacterController/CharacterPhysics.cs:107-116 | the body moves horizontally by exactly the climbed move's horizontal part and never ends touching floor and ceiling at once |
| EarlyPhysics.FixedUpdate | Assets/CylinderCharacterController/CharacterPhysics.cs:30-36 | every tick, even at zero speed, ends with at most one of floor and ceiling in contact |
| EarlyPhysics.TickForgetsStates | Assets/CylinderCharacterController/CharacterPhysics.cs:30-36 | every tick is independent of the states the previous one left |
| EarlyPhysics.FreeMotion | Assets/CylinderCharacterController/CharacterPhysics.cs:30-36 | in an empty scene a tick moves the body by exactly `speed * fixedDeltaTime`, provided `stepCount > 0` and the float magnitude times the normalised horizontal move gives back that move |

## Left out

- The raycast (`Physics.Raycast`) is an oracle, not geometry. The scene is a function from a ray query to an optional hit, and the ray's origin and direction are not computed.
  - The layer mask and the query's trigger handling are inside the oracle.
  - Sub-colliders are treated as rigidly attached: their offsets from the body are part of the oracle's answer for their ids.
- Ray placement is not modelled: the vertical fan's points come from `Quaternion.AngleAxis` and the horizontal shape points from `GeneratePointPositions`. A fan point keeps only its ring, its index, its radius and its angle. The angle is the point's index times `360 / radiusPoints`, an integer division that truncates. The horizontal grid keeps only its column and layer counts.
- Float arithmetic is modelled with reals:
  - magnitudes, normalisation of non-vertical vectors, `Vector3.Angle` and both rotations are parameters (`Numerics`);
  - `float.Epsilon`, `0.001` and the skin depth are constants or inputs;
  - the float rounding of `subStep * i` is not modelled.
- `QuaternionExtensions.FromToRotation`, with its `1E-6` fallback, is not part of this model. Both slope redirects (`GetSlopeTranslation`, `GetSteepSlopeTranslation`) go through the abstract rotations.
- Collision.SlopeTranslation: states nothing about the redirected vector, because it is a quaternion rotation left abstract.
- Collision.SteepSlopeTranslation: states only that a remainder without vertical part slides nowhere, for the same reason.
- Physics.FixedUpdate: states only the idle-tick guard as its contract. A moving tick is described by `Physics.FreeMotion` and `Physics.TickForgetsStates`.
- The 32-bit range of C# `int` is not modelled. Ray counts are unbounded integers, since overflow needs more rays than a buffer can hold.
- The earlier resolver calls the two-argument `CheckHorizontalCollision(velocity, displacement)`. Only the later collider declares that overload; the earlier collider has only `CheckHorizontalCollision(velocity)`. Both resolvers are therefore modelled over the later collider's casts. The earlier collider's one-argument cast is the same cast with a zero displacement.
- A collider's buffers keep stale entries past the live prefix in the source. The model keeps only the live prefix; `FillHitBuffer` proves that the in-place loop's prefix equals it.
- Probe.Edit: a stale hit count larger than a reallocated buffer is reported as a failed edit (`IndexOutOfRange`). In the source the edit itself succeeds, and the exception comes from the next `GetClosestVerticalHit` or `GetClosestHorizontalHit` that reads past the buffer; a cast in between resets the count and avoids it. A failed edit also leaves no collider in the model, whereas the source keeps whatever buffers it had already reallocated before throwing.
- Unity's lifecycle is not modelled: `Awake`, the `FixedUpdate` scheduling, `transform.Translate` and `Time.fixedDeltaTime`. The position is a field and the tick length is an input.
- Gizmo drawing and `Debug.Log` have no effect on the state and are not modelled. The earlier revision's `Debug.Log` runs whatever the `debug` field holds; that field is serialized but never read, and in the model too it is a settings field nothing reads.
- The input and driver scripts are not part of this model: both `CharacterController.cs` files, both `PlayerCharacter.cs` files and `TestMovement.cs`.
- `LessThan` is never called in either revision and is not modelled.
