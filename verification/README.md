# Animation blending of `bone_setup.cpp`, in Dafny

This project models the arithmetic that a Source-engine entity uses to blend
a sequence's animation clips and to read root motion and playback rate from
the blend. It covers the functions of `CEntity/stuff/bone_setup.cpp` listed
below and proves properties of them.

- **Pose-parameter codec** (`Studio_SetPoseParameter`, `Studio_GetPoseParameter`).
  A raw control value, such as an aim angle, may be wrapped into one period of a
  cyclic parameter. It is then encoded as a 0..1 fraction of the parameter's
  range, clamped, and decoded back (module `PoseParams`).
- **Per-axis resolver** (`Studio_LocalPoseParameter`). A global pose parameter
  becomes a grid interval index and a fraction across that interval. This
  happens either on an evenly spaced grid or by a forward scan of a table of
  pose keys (module `LocalPose`).
- **Bilinear blend selector** (`Studio_SeqAnims`). The four clips at the corners
  of the selected grid cell get bilinear weights (module `SeqBlend`).
- **Root-motion integrator** (`Studio_AnimPosition`, `Studio_AnimMovement`).
  A cycle is split into whole loops and an in-loop position. The first movement
  segment that reaches the frame is integrated with the constant-acceleration
  formula, and each whole loop adds one loop's displacement (module `AnimMotion`).
- **Aggregators** (`Studio_CPS`, `Studio_Duration`, `Studio_SeqMovement`).
  These are weighted sums over the four blended clips (module `SeqAggregate`).

Floats are exact `real`s. C's `(int)` conversion is `Numeric.Trunc` (toward zero)
and `floor` is `.Floor`. The header's accessors are immutable tables:
- `pPoseParameter` is a sequence, because the code bounds-checks the index;
- `GetSharedPoseParameter`, `iRelativeAnim`, `pAnimdesc` and `pSeqdesc` are total
  functions, because the code trusts the asset store for those;
- `seqdesc.anim(i, j)` and `poseKey(axis, i)` are tables of the sequence descriptor.

Output parameters become the fields of result datatypes. An output the source
may leave unwritten is passed in and returned unchanged on that path: this
applies to `ctlValue`, and to `deltaPos`/`deltaAngle` of `Studio_AnimMovement`.

`Studio_LocalPoseParameter` applies the cyclic wrap of lines 260-265 to the
0..1-encoded global value. It uses the parameter's raw-unit `start`, `end` and
`loop`, exactly as `Studio_SetPoseParameter` does for a raw value. The model
does the same (`LocalPose.LocalPoseParameter` calls `PoseParams.Wrap` on the
control value). The wrap's laws are proved for any value, so they hold
whichever units the caller meant.

`Studio_SeqMovement` adds each moving clip's angle change scaled by its weight,
a line the source itself marks as making no sense (line 193). The model keeps
it as written. A clip's movement query changes only the yaw, so the sum is a
weighted sum of yaw changes with pitch and roll left at 0.

## Model

| member | source | states |
|---|---|---|
| Numeric.Trunc | CEntity/stuff/bone_setup.cpp:24-28 | `(int)` of a float is the integer toward zero: at most `x` and within 1 of it for `x >= 0`, at least `x` and within 1 of it for `x < 0` |
| Numeric.Clamp01 | CEntity/stuff/bone_setup.cpp:93-94 | the two-`if` clamp lands in [0,1], fixes values already in [0,1], and sends values below 0 to 0 and above 1 to 1 |
| PoseParams.Wrap | CEntity/stuff/bone_setup.cpp:83-89 | a cyclic value is moved by a whole number of periods into the period ending at the wrap point `(start+end)/2 + loop/2`: `[wrap-loop, wrap)` for a positive period, `(wrap, wrap-loop]` for a negative one; a non-cyclic value is unchanged |
| PoseParams.WrapFixed | CEntity/stuff/bone_setup.cpp:83-89 | for a cyclic parameter (`loop != 0`, of either sign), a value already inside the wrap period is left where it is |
| PoseParams.WrapIdempotent | CEntity/stuff/bone_setup.cpp:83-89 | wrapping a wrapped value changes nothing |
| PoseParams.WrapPeriodic | CEntity/stuff/bone_setup.cpp:83-89 | values any whole number of periods apart wrap to the same value |
| PoseParams.GetPoseParameter | CEntity/stuff/bone_setup.cpp:107-117 | an unknown parameter index gives 0; otherwise control value 0 decodes to `start`, 1 to `end`, and any value in [0,1] to a raw value between the two ends |
| PoseParams.Encode | CEntity/stuff/bone_setup.cpp:83-98 | the control value is in [0,1] and the returned raw value is what it decodes to; the wrapped value is clamped to the nearer end: between the ends it comes back unchanged, past `end` the result is `(end, 1)`, short of `start` it is `(start, 0)`, for either orientation of the range |
| PoseParams.SetPoseParameter | CEntity/stuff/bone_setup.cpp:72-99 | an unknown index returns 0 and leaves `ctlValue` as the caller had it; otherwise `ctlValue` is in [0,1], the returned value is `Studio_GetPoseParameter` of it, and the wrapped input is clamped to the nearer end: returned as is between the ends, `(end, 1)` past `end`, `(start, 0)` short of `start` |
| PoseParams.FractionBeyond | CEntity/stuff/bone_setup.cpp:90-93 | for a non-degenerate range (`end != start`), a raw value past `end` has a fraction above 1 and one short of `start` a fraction below 0, for either orientation of the range, so the clamp picks the nearer end |
| PoseParams.ExactWhenBetween | CEntity/stuff/bone_setup.cpp:91-98 | for a non-degenerate range (`end != start`), a raw value between the range's ends survives the clamp and the map back unchanged |
| PoseParams.DecodeThenEncode | CEntity/stuff/bone_setup.cpp:72-117 | for a non-cyclic parameter, encoding the decoding of a control value in [0,1] returns that raw value and the same control value (the codec's round trip) |
| PoseParams.EncodedInsideWrap | CEntity/stuff/bone_setup.cpp:83-98 | for a cyclic parameter with a non-degenerate range (`end != start`), every returned raw value lies inside the wrap period, whatever the period's length and the range's orientation |
| PoseParams.SetPoseParameterIdempotent | CEntity/stuff/bone_setup.cpp:72-99 | for a known parameter with a non-degenerate range (`end != start`), cyclic or not, setting it to the value a previous setting returned gives the same result again |
| PoseParams.ClampScenario | CEntity/stuff/bone_setup.cpp:91-98 | on a [-30,30] parameter, 90 encodes to 30 with control value 1 |
| PoseParams.CyclicScenario | CEntity/stuff/bone_setup.cpp:83-98 | on a [0,360] parameter with period 360, 370 wraps to 10 with control value 1/36 |
| LocalPose.UniformFraction | CEntity/stuff/bone_setup.cpp:270-274 | the control value that encodes the axis's `paramstart` maps to 0 and the one that encodes `paramend` maps to 1 |
| LocalPose.UniformFractionInRawUnits | CEntity/stuff/bone_setup.cpp:268-274 | for a non-degenerate parameter range and axis sub-range, and the control value of a raw value, the local fraction is the share of the axis's raw sub-range `[paramstart, paramend]` that the raw value covers |
| LocalPose.GridSplit | CEntity/stuff/bone_setup.cpp:282-289 | with more than two grid boundaries, the index is in `[0, groupsize-2]`, `index + setting` equals the clamped fraction times `groupsize-1`, the setting is in [0,1], and it is 1 only at the far end; otherwise index 0 and the fraction unchanged |
| LocalPose.UniformSetting | CEntity/stuff/bone_setup.cpp:268-289 | the evenly spaced branch: setting in [0,1], index inside the grid, and `index + setting` is the clamped local fraction in interval units |
| LocalPose.KeyScan | CEntity/stuff/bone_setup.cpp:299-316 | the forward key search from interval `i` stops at or after `i` and no later than `max(i, groupsize-2)`; every interval it passes was a real overshoot (fraction above 1, before the last interval) and the one it stops at is not |
| LocalPose.KeyTableSetting | CEntity/stuff/bone_setup.cpp:293-322 | the key-table branch decodes the control value to raw units, scans from interval 0 to an index within `max(0, groupsize-2)`, skipping only overshot intervals, and clamps the fraction across the chosen interval into [0,1] |
| LocalPose.RisingFraction | CEntity/stuff/bone_setup.cpp:301-310 | across a rising key interval, the fraction exceeds 1 exactly when the value passes the upper key, and is non-negative exactly when the value reaches the lower key |
| LocalPose.KeyScanBrackets | CEntity/stuff/bone_setup.cpp:293-322 | against its reference: for increasing keys and a value inside the table, the scan stops at the first interval whose upper key reaches the value, that interval brackets the value, and the clamp leaves its fraction alone |
| LocalPose.KeyScanBelowFirst | CEntity/stuff/bone_setup.cpp:299-322 | for strictly increasing keys, a value below the first key leaves the scan at interval 0 and the clamp gives 0 |
| LocalPose.KeyScanAboveLast | CEntity/stuff/bone_setup.cpp:299-322 | for strictly increasing keys, a value above the last key takes the scan to the last interval and the clamp gives 1 |
| LocalPose.LocalPoseParameter | CEntity/stuff/bone_setup.cpp:245-324 | an axis with no driving parameter resolves to setting 0 and index 0; otherwise the wrapped control value goes to the evenly spaced or the key-table branch; the setting is always in [0,1] and the index in `[0, max(0, groupsize-2)]` |
| LocalPose.UniformAtLocalEnds | CEntity/stuff/bone_setup.cpp:268-289 | on an evenly spaced axis driven by a non-cyclic parameter (`loop == 0`), the control value of `paramstart` resolves to the start of the grid and that of `paramend` to the end of its last interval |
| LocalPose.KeyTableBrackets | CEntity/stuff/bone_setup.cpp:291-323 | on a key-table axis with increasing keys and a value inside the table, the chosen interval brackets the decoded value and the setting is the exact fraction across it |
| SeqBlend.SeqAnims | CEntity/stuff/bone_setup.cpp:210-237 | without a header or for an unknown sequence, all weights are 0 and no clip is chosen; otherwise corner `k` holds the clip of cell `(i0 + k%2, i1 + k/2)`, each weight is in [0,1], the weights sum to 1, the far-side marginals are the two local settings, and the two axes blend independently (the products of opposite corners' weights agree) |
| SeqBlend.CornerWeights | CEntity/stuff/bone_setup.cpp:225-234 | the four corner weights for a point of the unit cell are each in [0,1], sum to 1, have far-side marginals `s0` and `s1`, and blend the two axes independently |
| SeqBlend.BilinearWeights | CEntity/stuff/bone_setup.cpp:225-236 | for settings in [0,1] the four bilinear weights are each in [0,1] and sum to 1, which is the source's non-negativity assertion and more |
| SeqBlend.BlendCentroid | CEntity/stuff/bone_setup.cpp:218-234 | the weighted mean of the four corners' grid coordinates is `(i0 + s0, i1 + s1)`, the point the local settings name |
| AnimMotion.SplitLoops | CEntity/stuff/bone_setup.cpp:21-30 | the reduced cycle plus the loop count is the input cycle, and the reduced cycle is in [0,1]; cycles in [0,1] keep 0 loops; above 1 the reduced cycle is below 1, and below 0 it is above 0 |
| AnimMotion.SplitWholeCycle | CEntity/stuff/bone_setup.cpp:21-30 | a whole cycle `k > 1` reduces to the start of loop `k`; a whole cycle `k < 0` reduces to the end of loop `k-1` |
| AnimMotion.SplitMinusOne | CEntity/stuff/bone_setup.cpp:26-30 | cycle -1 reduces to cycle 1 with -2 loops |
| AnimMotion.SegmentScan | CEntity/stuff/bone_setup.cpp:34-60 | the segment loop stops at the first segment whose end frame reaches the frame, having passed only segments that end before it, or runs off the end |
| AnimMotion.FirstReaching | CEntity/stuff/bone_setup.cpp:34-38 | a segment is found exactly when some segment's end frame reaches the frame |
| AnimMotion.SegmentFraction | CEntity/stuff/bone_setup.cpp:40 | the fraction through a segment is 0 at the previous segment's end frame and 1 at the segment's own |
| AnimMotion.IntegrateAtStart | CEntity/stuff/bone_setup.cpp:40-45 | for a segment whose end frame differs from the previous one, at the start of the segment the integration gives the previous segment's cumulative position and yaw |
| AnimMotion.IntegrateAtEnd | CEntity/stuff/bone_setup.cpp:40-45 | for a segment whose end frame differs from the previous one, at the end of the segment the whole constant-acceleration distance `v0 + (v1-v0)/2` along its direction has been added and its yaw reached |
| AnimMotion.AnimPosition | CEntity/stuff/bone_setup.cpp:12-63 | a clip with no segments gives false and zero outputs; otherwise the result is true exactly when some segment reaches the frame; when none does, the outputs are the last segment's cumulative position and yaw; pitch and roll stay 0 |
| AnimMotion.AddLoopsCompose | CEntity/stuff/bone_setup.cpp:46-51 | adding `a` loops and then `b` loops is adding `a + b` loops |
| AnimMotion.DefinedWhenFirstSegmentNonZero | CEntity/stuff/bone_setup.cpp:34-40 | the segment division can be by zero only at the first segment: for a clip with segments whose first end frame is not 0, every cycle is safe |
| AnimMotion.AnimPositionAtStart | CEntity/stuff/bone_setup.cpp:12-52 | for a clip with movement segments whose first segment ends after frame 0, at cycle 0 the root has not moved or turned, and the query succeeds |
| AnimMotion.AnimPositionAtEnd | CEntity/stuff/bone_setup.cpp:12-52 | at cycle 1 a well-formed track reports the last segment's cumulative position and yaw |
| AnimMotion.AnimPositionAtSegmentEnd | CEntity/stuff/bone_setup.cpp:32-52 | on a well-formed track, at the cycle whose frame is segment `k`'s end frame the query succeeds with segment `k`'s cumulative position and yaw, so the scan picks that segment and not an earlier or later one |
| AnimMotion.Decompose | CEntity/stuff/bone_setup.cpp:21-52 | on a well-formed track, a cycle's result is its in-loop result moved on by its whole loops |
| AnimMotion.OneMoreLoop | CEntity/stuff/bone_setup.cpp:21-52 | on a well-formed track, one more cycle adds exactly one loop's displacement and yaw, including across the loop boundaries the reduction treats specially |
| AnimMotion.IntegerCycles | CEntity/stuff/bone_setup.cpp:21-52 | at a whole cycle `k`, including negative `k`, a well-formed track has moved `k` loops' displacement and turned `k` loops' yaw |
| AnimMotion.AnimMovement | CEntity/stuff/bone_setup.cpp:333-351 | true exactly when the clip has segments; false leaves the caller's outputs untouched; true writes only the yaw of the angle output, which is the end yaw minus the start yaw |
| AnimMotion.MovementYawAntisymmetric | CEntity/stuff/bone_setup.cpp:340-347 | for a clip with movement segments whose query is defined at `c1` and `c2`, the yaw change from `c1` to `c2` is the negation of the change from `c2` to `c1` |
| AnimMotion.MovementYawAdditive | CEntity/stuff/bone_setup.cpp:340-347 | for a clip with movement segments whose queries over both spans are defined, the yaw changes over two consecutive spans add up to the change over the whole span |
| AnimMotion.MovementOverNoTime | CEntity/stuff/bone_setup.cpp:333-351 | for a clip with movement segments whose query is defined, over an empty span nothing moves or turns, given a rotation that fixes the zero vector |
| AnimMotion.MovementOverWholeLoop | CEntity/stuff/bone_setup.cpp:333-351 | over exactly one cycle a well-formed clip turns by one loop's yaw and moves by one loop's displacement, rotated into the starting heading |
| SeqAggregate.CPS | CEntity/stuff/bone_setup.cpp:124-141 | with no header or an unknown sequence the rate is 0; when every chosen clip plays forward the rate is not negative |
| SeqAggregate.RateTermSign | CEntity/stuff/bone_setup.cpp:135-137 | a slot whose weight is non-negative adds a non-negative rate when the blend's clips play forward |
| SeqAggregate.CPSBetweenRates | CEntity/stuff/bone_setup.cpp:124-141 | the blended rate is a weighted average: for a known sequence whose corner clips all have more than one frame, if every corner clip's own rate `fps/(numframes-1)` is in `[lo, hi]`, so is the sequence's |
| SeqAggregate.CPSOfSingleClip | CEntity/stuff/bone_setup.cpp:124-141 | a known sequence whose four corners are one clip with more than one frame plays at that clip's own rate |
| SeqAggregate.Duration | CEntity/stuff/bone_setup.cpp:148-157 | the duration is 0 when the rate is 0 and otherwise its reciprocal (duration times rate is 1) |
| SeqAggregate.DurationOfSingleClip | CEntity/stuff/bone_setup.cpp:148-157 | a known sequence whose four corners are one clip with more than one frame and a non-zero frame rate lasts `(numframes-1)/fps` seconds |
| SeqAggregate.QueriesConsistent | CEntity/stuff/bone_setup.cpp:181-189 | each weighted slot's movement query succeeds exactly when its clip has segments and changes only the yaw |
| SeqAggregate.StepEffect | CEntity/stuff/bone_setup.cpp:181-200 | one pass of the slot loop sets the flag when the slot is found, and adds the slot's weighted position change and weighted yaw change |
| SeqAggregate.RunEffect | CEntity/stuff/bone_setup.cpp:179-201 | the remaining passes set the flag exactly when a remaining slot is found and add the remaining weighted sums |
| SeqAggregate.SeqMovement | CEntity/stuff/bone_setup.cpp:165-203 | the flag is set exactly when some corner is weighted and either moves or is a still non-delta clip in a sequence that weights bone 0; the position change is the weighted sum of the moving corners' changes and the angle change is a pure yaw by the weighted sum of their yaws |
| SeqAggregate.NothingWeighted | CEntity/stuff/bone_setup.cpp:179-181 | with every weight 0 no slot is found and both sums are zero |
| SeqAggregate.SeqMovementOfUnknownSequence | CEntity/stuff/bone_setup.cpp:165-216 | an unknown sequence gives false with zero position and angle changes |
| SeqAggregate.SeqMovementYawAntisymmetric | CEntity/stuff/bone_setup.cpp:179-194 | the blended yaw change from `c1` to `c2` is the negation of the change from `c2` to `c1` |
| SeqAggregate.OneMotionSums | CEntity/stuff/bone_setup.cpp:189-194 | under weights summing to 1, when every corner holds a clip with movement segments and every weighted slot's query returned one motion, the weighted sums are that motion's own changes |
| SeqAggregate.SeqMovementOfSingleClip | CEntity/stuff/bone_setup.cpp:165-203 | a sequence whose four corners are one moving clip moves and turns exactly as that clip does, and reports true |

## Left out

- `VectorYawRotate` (line 348) is trigonometry in code outside this file. It is a function parameter `yawRotate` and nothing is assumed about it, except in `MovementOverNoTime`, which asks it to fix the zero vector.
- IEEE float rounding, infinities and NaN are not modelled, so `IsFinite` and the `Assert`s at lines 81, 96 and 236 are not modelled either. Line 236's assertion is proved as `SeqBlend.BilinearWeights`.
- The overflow of `(int)` conversions of huge floats is not modelled. `Numeric.Trunc` is exact truncation toward zero.
- Unguarded divisions become preconditions, because the source has no answer for them:
  - `end == start` of a pose parameter;
  - `paramend == paramstart` of an axis;
  - equal adjacent pose keys reached by the scan;
  - a picked segment whose end frame equals the previous one.
- PoseParams.SetPoseParameter: requires `end != start` of a known parameter, because line 91 divides by it.
- AnimMotion.AnimPosition: requires the picked segment to be non-degenerate, because line 40 divides by its length. `AnimMotion.DefinedWhenFirstSegmentNonZero` shows this holds whenever the first segment ends after frame 0.
- LocalPose.LocalPoseParameter: requires the resolved parameter index to address both the header's table and `poseParameter`, besides the division guards. The source reads both arrays unchecked.
- SeqAggregate.SeqMovement: requires every weighted corner's movement query to be defined. It takes a present header, because the source reads `pSeqdesc` before any null check.
- SeqAggregate.Duration: takes a present header, for the same reason.
- SeqAggregate.CPS: its own contract states only the zero and sign cases. Its value as a weighted average of clip rates is stated by `CPSBetweenRates` and `CPSOfSingleClip`.
- The internals of `CStudioHdr` are given tables, not code: `iRelativeAnim`, `GetSharedPoseParameter`, and the memory layout behind `pMovement` and `poseKey`.
- `seqdesc.weight(0)` is the field `boneWeight0`. The `STUDIO_DELTA` flag is the field `isDelta`.
- The commented-out backward step of the key scan (lines 302-308) is not part of the code and is not modelled.
- The geometric meaning of the weighted angle sum at line 194 is not claimed. It is modelled as written.
