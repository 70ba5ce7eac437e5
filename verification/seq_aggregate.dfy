/**
 Per-sequence quantities read off a blend: the playback rate in cycles per
 second (`Studio_CPS`), its reciprocal the duration (`Studio_Duration`),
 and the blended root motion between two cycles (`Studio_SeqMovement`).
 */
module SeqAggregate {
  import opened Numeric
  import opened Geometry
  import opened StudioData
  import opened AnimMotion
  import opened SeqBlend

  predicate WellShaped(b: Blend) {
    |b.anims| == 4 && |b.weights| == 4
  }

  /** The blend of sequence `iSequence` at the given pose, with the sequence's own descriptor. */
  function SequenceBlend(hdr: StudioHdr, iSequence: int, poseParameter: seq<real>): (b: Blend)
    requires SeqAnimsDefined(Some(hdr), poseParameter, hdr.seqDesc(iSequence), iSequence)
    ensures WellShaped(b)
  {
    SeqAnims(Some(hdr), hdr.seqDesc(iSequence), iSequence, poseParameter)
  }

  // ---------------------------------------------------------------------------
  // Playback rate and duration

  /** Cycles per second of a clip played on its own: its frame rate over its frame count less one. */
  function Rate(a: AnimDesc): real
    requires a.numframes > 1
  {
    a.fps / (a.numframes - 1) as real
  }

  /** Slot `k` adds to the rate: it has positive weight and a clip of more than one frame. */
  predicate Paced(b: Blend, k: int)
    requires WellShaped(b) && 0 <= k < 4
  {
    b.weights[k] > 0.0 && b.anims[k].Some? && b.anims[k].value.numframes > 1
  }

  /** What slot `k` adds to the rate: its clip's rate times its weight, when the slot is paced. */
  function RateTerm(b: Blend, k: int): real
    requires WellShaped(b) && 0 <= k < 4
  {
    if Paced(b, k) then Rate(b.anims[k].value) * b.weights[k] else 0.0
  }

  /** Every chosen clip of the blend plays forward (or not at all). */
  predicate ForwardClips(b: Blend)
    requires WellShaped(b)
  {
    forall k :: 0 <= k < 4 && b.anims[k].Some? ==> b.anims[k].value.fps >= 0.0
  }

  /**
   `Studio_CPS`: the rates of the blend's clips, weighted by the blend.
   Slots of zero weight and single-frame clips add nothing; without a
   header, or for an unknown sequence, the rate is 0. Forward clips give a
   rate that is not negative.
   */
  function CPS(hdr: Option<StudioHdr>, sd: SeqDesc, iSequence: int, poseParameter: seq<real>): (t: real)
    requires SeqAnimsDefined(hdr, poseParameter, sd, iSequence)
    ensures !Resolvable(hdr, iSequence) ==> t == 0.0
    ensures ForwardClips(SeqAnims(hdr, sd, iSequence, poseParameter)) ==> t >= 0.0
  {
    var b := SeqAnims(hdr, sd, iSequence, poseParameter);
    RateTermSign(b, 0);
    RateTermSign(b, 1);
    RateTermSign(b, 2);
    RateTermSign(b, 3);
    RateTerm(b, 0) + RateTerm(b, 1) + RateTerm(b, 2) + RateTerm(b, 3)
  }

  lemma RateNonNegative(a: AnimDesc)
    requires a.numframes > 1 && a.fps >= 0.0
    ensures Rate(a) >= 0.0
  {
    var n := (a.numframes - 1) as real;
    SignOfQuotient(Rate(a), n, a.fps);
  }

  /** A slot of non-negative weight adds a non-negative rate when its clip plays forward. */
  lemma RateTermSign(b: Blend, k: int)
    requires WellShaped(b) && 0 <= k < 4 && b.weights[k] >= 0.0
    ensures ForwardClips(b) ==> RateTerm(b, k) >= 0.0
  {
    if Paced(b, k) && ForwardClips(b) {
      var a := b.anims[k].value;
      RateNonNegative(a);
      MulNonNeg(Rate(a), b.weights[k]);
    }
  }

  /**
   The blended rate is a weighted average of the clips' own rates: when
   every corner clip has more than one frame and a rate in `[lo, hi]`, the
   sequence's rate is in `[lo, hi]` too.
   */
  lemma CPSBetweenRates(hdr: StudioHdr, sd: SeqDesc, iSequence: int, poseParameter: seq<real>, lo: real, hi: real)
    requires iSequence < hdr.numSeq && SeqAnimsDefined(Some(hdr), poseParameter, sd, iSequence)
    requires var b := SeqAnims(Some(hdr), sd, iSequence, poseParameter);
      forall k :: 0 <= k < 4 ==>
        b.anims[k].Some? && b.anims[k].value.numframes > 1 && lo <= Rate(b.anims[k].value) <= hi
    ensures lo <= CPS(Some(hdr), sd, iSequence, poseParameter) <= hi
  {
    var b := SeqAnims(Some(hdr), sd, iSequence, poseParameter);
    WeightedRatesBetween(b, lo, hi);
  }

  /** Under weights summing to 1, the weighted rates of four clips with rates in `[lo, hi]` lie in `[lo, hi]`. */
  lemma WeightedRatesBetween(b: Blend, lo: real, hi: real)
    requires WellShaped(b)
    requires forall k :: 0 <= k < 4 ==> b.weights[k] >= 0.0
    requires b.weights[0] + b.weights[1] + b.weights[2] + b.weights[3] == 1.0
    requires forall k :: 0 <= k < 4 ==>
      b.anims[k].Some? && b.anims[k].value.numframes > 1 && lo <= Rate(b.anims[k].value) <= hi
    ensures lo <= RateTerm(b, 0) + RateTerm(b, 1) + RateTerm(b, 2) + RateTerm(b, 3) <= hi
  {
    var w := b.weights;
    var a0, a1, a2, a3 := b.anims[0].value, b.anims[1].value, b.anims[2].value, b.anims[3].value;
    FourBetween(Rate(a0), Rate(a1), Rate(a2), Rate(a3), w[0], w[1], w[2], w[3],
                RateTerm(b, 0), RateTerm(b, 1), RateTerm(b, 2), RateTerm(b, 3), lo, hi);
  }

  /** A term `t = r*w` (or 0 with weight 0) of a rate `r` in `[lo, hi]` lies between `lo*w` and `hi*w`. */
  lemma SlotBetween(r: real, w: real, t: real, lo: real, hi: real)
    requires w >= 0.0 && lo <= r <= hi && (t == r * w || (t == 0.0 && w == 0.0))
    ensures lo * w <= t <= hi * w
  {
    MulNonNeg(r - lo, w);
    MulNonNeg(hi - r, w);
    assert (r - lo) * w == r * w - lo * w;
    assert (hi - r) * w == hi * w - r * w;
  }

  /** A weighted average of four values in `[lo, hi]` under weights summing to 1 is in `[lo, hi]`. */
  lemma FourBetween(r0: real, r1: real, r2: real, r3: real, w0: real, w1: real, w2: real, w3: real,
                    t0: real, t1: real, t2: real, t3: real, lo: real, hi: real)
    requires w0 >= 0.0 && w1 >= 0.0 && w2 >= 0.0 && w3 >= 0.0 && w0 + w1 + w2 + w3 == 1.0
    requires lo <= r0 <= hi && lo <= r1 <= hi && lo <= r2 <= hi && lo <= r3 <= hi
    requires t0 == r0 * w0 || (t0 == 0.0 && w0 == 0.0)
    requires t1 == r1 * w1 || (t1 == 0.0 && w1 == 0.0)
    requires t2 == r2 * w2 || (t2 == 0.0 && w2 == 0.0)
    requires t3 == r3 * w3 || (t3 == 0.0 && w3 == 0.0)
    ensures lo <= t0 + t1 + t2 + t3 <= hi
  {
    SlotBetween(r0, w0, t0, lo, hi);
    SlotBetween(r1, w1, t1, lo, hi);
    SlotBetween(r2, w2, t2, lo, hi);
    SlotBetween(r3, w3, t3, lo, hi);
    assert lo * w0 + lo * w1 + lo * w2 + lo * w3 == lo * (w0 + w1 + w2 + w3);
    assert hi * w0 + hi * w1 + hi * w2 + hi * w3 == hi * (w0 + w1 + w2 + w3);
  }

  /** A sequence whose four corners are one clip plays at that clip's rate. */
  lemma CPSOfSingleClip(hdr: StudioHdr, sd: SeqDesc, iSequence: int, poseParameter: seq<real>, a: AnimDesc)
    requires iSequence < hdr.numSeq && SeqAnimsDefined(Some(hdr), poseParameter, sd, iSequence)
    requires SeqAnims(Some(hdr), sd, iSequence, poseParameter).anims == [Some(a), Some(a), Some(a), Some(a)]
    requires a.numframes > 1
    ensures CPS(Some(hdr), sd, iSequence, poseParameter) == Rate(a)
  {
    CPSBetweenRates(hdr, sd, iSequence, poseParameter, Rate(a), Rate(a));
  }

  /**
   `Studio_Duration`: seconds per cycle of sequence `iSequence`, the
   reciprocal of its rate, or 0 for a sequence that does not advance.
   */
  function Duration(hdr: StudioHdr, iSequence: int, poseParameter: seq<real>): (d: real)
    requires SeqAnimsDefined(Some(hdr), poseParameter, hdr.seqDesc(iSequence), iSequence)
    ensures InverseOf(d, CPS(Some(hdr), hdr.seqDesc(iSequence), iSequence, poseParameter))
  {
    InverseOrZero(CPS(Some(hdr), hdr.seqDesc(iSequence), iSequence, poseParameter))
  }

  /** A sequence whose four corners are one moving clip lasts as long as that clip: its frame count less one over its rate. */
  lemma DurationOfSingleClip(hdr: StudioHdr, iSequence: int, poseParameter: seq<real>, a: AnimDesc)
    requires iSequence < hdr.numSeq && SeqAnimsDefined(Some(hdr), poseParameter, hdr.seqDesc(iSequence), iSequence)
    requires SequenceBlend(hdr, iSequence, poseParameter).anims == [Some(a), Some(a), Some(a), Some(a)]
    requires a.numframes > 1 && a.fps != 0.0
    ensures Duration(hdr, iSequence, poseParameter) == (a.numframes - 1) as real / a.fps
  {
    CPSOfSingleClip(hdr, hdr.seqDesc(iSequence), iSequence, poseParameter, a);
    InverseOfQuotient(a.fps, (a.numframes - 1) as real);
  }

  // ---------------------------------------------------------------------------
  // Blended root motion

  /** A slot the movement loop visits has a clip whose movement query is defined. */
  predicate SlotDefined(b: Blend, k: int, flCycleFrom: real, flCycleTo: real)
    requires WellShaped(b) && 0 <= k < 4
  {
    b.weights[k] != 0.0 ==> b.anims[k].Some? && AnimMovementDefined(b.anims[k].value, flCycleFrom, flCycleTo)
  }

  predicate MotionDefined(b: Blend, flCycleFrom: real, flCycleTo: real) {
    WellShaped(b) && forall k :: 0 <= k < 4 ==> SlotDefined(b, k, flCycleFrom, flCycleTo)
  }

  /** Slot `k` is weighted and its clip has movement segments: it contributes motion. */
  predicate Moving(b: Blend, k: int)
    requires WellShaped(b) && 0 <= k < 4
  {
    b.weights[k] != 0.0 && b.anims[k].Some? && |b.anims[k].value.movements| > 0
  }

  /**
   Slot `k` makes the sequence count as a movement sequence: it is weighted
   and its clip either moves, or is a non-delta clip without movement in a
   sequence that weights bone 0.
   */
  predicate Found(b: Blend, boneWeight0: real, k: int)
    requires WellShaped(b) && 0 <= k < 4
  {
    b.weights[k] != 0.0 && b.anims[k].Some? &&
    (|b.anims[k].value.movements| > 0 || (!b.anims[k].value.isDelta && boneWeight0 > 0.0))
  }

  /** The motion of slot `k`'s clip between the two cycles, into zeroed outputs. */
  function SlotMotion(b: Blend, k: int, flCycleFrom: real, flCycleTo: real, yawRotate: (Vec3, real) -> Vec3): RootMotion
    requires MotionDefined(b, flCycleFrom, flCycleTo) && 0 <= k < 4
  {
    if b.weights[k] != 0.0 then
      assert SlotDefined(b, k, flCycleFrom, flCycleTo);
      AnimMovement(b.anims[k].value, flCycleFrom, flCycleTo, Zero, ZeroAngle, yawRotate)
    else
      RootMotion(false, Zero, ZeroAngle)
  }

  /** The movement queries of the four slots; an unweighted slot is not queried and reads as no motion. */
  function SlotMotions(b: Blend, flCycleFrom: real, flCycleTo: real, yawRotate: (Vec3, real) -> Vec3): (ms: seq<RootMotion>)
    requires MotionDefined(b, flCycleFrom, flCycleTo)
    ensures |ms| == 4
  {
    [SlotMotion(b, 0, flCycleFrom, flCycleTo, yawRotate), SlotMotion(b, 1, flCycleFrom, flCycleTo, yawRotate),
     SlotMotion(b, 2, flCycleFrom, flCycleTo, yawRotate), SlotMotion(b, 3, flCycleFrom, flCycleTo, yawRotate)]
  }

  /**
   What the movement loop relies on about the query results `ms`: a weighted
   slot holds a clip, its query succeeds exactly when the clip has movement
   segments, and it changes only the yaw.
   */
  predicate Consistent(b: Blend, ms: seq<RootMotion>) {
    WellShaped(b) && |ms| == 4 &&
    forall k :: 0 <= k < 4 && b.weights[k] != 0.0 ==>
      b.anims[k].Some? && (ms[k].ok <==> |b.anims[k].value.movements| > 0) &&
      ms[k].angle.x == 0.0 && ms[k].angle.z == 0.0
  }

  lemma QueriesConsistent(b: Blend, flCycleFrom: real, flCycleTo: real, yawRotate: (Vec3, real) -> Vec3)
    requires MotionDefined(b, flCycleFrom, flCycleTo)
    ensures Consistent(b, SlotMotions(b, flCycleFrom, flCycleTo, yawRotate))
  {
    var ms := SlotMotions(b, flCycleFrom, flCycleTo, yawRotate);
    forall k | 0 <= k < 4 && b.weights[k] != 0.0
      ensures b.anims[k].Some? && (ms[k].ok <==> |b.anims[k].value.movements| > 0) &&
              ms[k].angle.x == 0.0 && ms[k].angle.z == 0.0
    {
      assert SlotDefined(b, k, flCycleFrom, flCycleTo);
      assert ms[k] == SlotMotion(b, k, flCycleFrom, flCycleTo, yawRotate);
    }
  }

  /**
   One pass of the `Studio_SeqMovement` loop, over slot `k` with query
   result `ms[k]`, with the outputs so far in `acc`: a weighted slot whose
   clip moves adds its weighted position and angle change and sets the flag;
   a weighted still clip that is not a delta clip sets the flag alone, when
   the sequence weights bone 0.
   */
  function Step(b: Blend, boneWeight0: real, ms: seq<RootMotion>, k: int, acc: RootMotion): RootMotion
    requires Consistent(b, ms) && 0 <= k < 4
  {
    if b.weights[k] != 0.0 then
      var m := ms[k];
      var a := b.anims[k].value;
      var w := b.weights[k];
      if m.ok then
        RootMotion(true, Add(acc.pos, Scale(w, m.pos)), AddAngle(acc.angle, ScaleAngle(w, m.angle)))
      else if !a.isDelta && |a.movements| == 0 && boneWeight0 > 0.0 then
        acc.(ok := true)
      else
        acc
    else
      acc
  }

  /** The weighted position change slot `k` contributes. */
  function SlotPos(b: Blend, ms: seq<RootMotion>, k: int): Vec3
    requires Consistent(b, ms) && 0 <= k < 4
  {
    if Moving(b, k) then Scale(b.weights[k], ms[k].pos) else Zero
  }

  /** The weighted yaw change slot `k` contributes. */
  function SlotYaw(b: Blend, ms: seq<RootMotion>, k: int): real
    requires Consistent(b, ms) && 0 <= k < 4
  {
    if Moving(b, k) then b.weights[k] * ms[k].angle.y else 0.0
  }

  /**
   The effect of one pass: the flag is set when it was or the slot is
   found, and the slot's weighted position and yaw changes are added
   (pitch and roll are left alone).
   */
  lemma StepEffect(b: Blend, boneWeight0: real, ms: seq<RootMotion>, k: int, acc: RootMotion)
    requires Consistent(b, ms) && 0 <= k < 4
    ensures Step(b, boneWeight0, ms, k, acc) ==
      RootMotion(acc.ok || Found(b, boneWeight0, k), Add(acc.pos, SlotPos(b, ms, k)), AddAngle(acc.angle, Yaw(SlotYaw(b, ms, k))))
  {
    if b.weights[k] != 0.0 && ms[k].ok {
      assert ScaleAngle(b.weights[k], ms[k].angle) == Yaw(b.weights[k] * ms[k].angle.y);
    } else {
      assert Add(acc.pos, Zero) == acc.pos;
      assert AddAngle(acc.angle, Yaw(0.0)) == acc.angle;
    }
  }

  /** Every slot `Studio_SeqMovement` will query has a defined movement query. */
  predicate SeqMovementDefined(hdr: StudioHdr, iSequence: int, flCycleFrom: real, flCycleTo: real, poseParameter: seq<real>) {
    SeqAnimsDefined(Some(hdr), poseParameter, hdr.seqDesc(iSequence), iSequence) &&
    MotionDefined(SequenceBlend(hdr, iSequence, poseParameter), flCycleFrom, flCycleTo)
  }

  /** The passes of the `Studio_SeqMovement` loop over slots `k` to 3, with the outputs so far in `acc`. */
  function Run(b: Blend, boneWeight0: real, ms: seq<RootMotion>, k: int, acc: RootMotion): RootMotion
    requires Consistent(b, ms) && 0 <= k <= 4
    decreases 4 - k
  {
    if k == 4 then acc else Run(b, boneWeight0, ms, k + 1, Step(b, boneWeight0, ms, k, acc))
  }

  /** Some slot from `k` on is found. */
  predicate FoundFrom(b: Blend, boneWeight0: real, k: int)
    requires WellShaped(b) && 0 <= k <= 4
  {
    exists j :: k <= j < 4 && Found(b, boneWeight0, j)
  }

  /** The sum of the weighted position changes of slots `k` to 3. */
  function PosFrom(b: Blend, ms: seq<RootMotion>, k: int): Vec3
    requires Consistent(b, ms) && 0 <= k <= 4
    decreases 4 - k
  {
    if k == 4 then Zero else Add(SlotPos(b, ms, k), PosFrom(b, ms, k + 1))
  }

  /** The sum of the weighted yaw changes of slots `k` to 3. */
  function YawFrom(b: Blend, ms: seq<RootMotion>, k: int): real
    requires Consistent(b, ms) && 0 <= k <= 4
    decreases 4 - k
  {
    if k == 4 then 0.0 else SlotYaw(b, ms, k) + YawFrom(b, ms, k + 1)
  }

  /**
   What the remaining passes do: set the flag when some remaining slot is
   found, and add the remaining weighted position and yaw changes.
   */
  lemma {:induction false} RunEffect(b: Blend, boneWeight0: real, ms: seq<RootMotion>, k: int, acc: RootMotion)
    requires Consistent(b, ms) && 0 <= k <= 4
    decreases 4 - k
    ensures Run(b, boneWeight0, ms, k, acc) ==
      RootMotion(acc.ok || FoundFrom(b, boneWeight0, k), Add(acc.pos, PosFrom(b, ms, k)),
                 AddAngle(acc.angle, Yaw(YawFrom(b, ms, k))))
  {
    if k == 4 {
      AddZeroRight(acc.pos);
      AddYaws(acc.angle, 0.0, 0.0);
    } else {
      var next := Step(b, boneWeight0, ms, k, acc);
      StepEffect(b, boneWeight0, ms, k, acc);
      RunEffect(b, boneWeight0, ms, k + 1, next);
      FoundFromSplit(b, boneWeight0, k);
      AddAssoc(acc.pos, SlotPos(b, ms, k), PosFrom(b, ms, k + 1));
      AddYaws(acc.angle, SlotYaw(b, ms, k), YawFrom(b, ms, k + 1));
    }
  }

  /** Some slot from `k` on is found exactly when slot `k` is or some later one is. */
  lemma FoundFromSplit(b: Blend, boneWeight0: real, k: int)
    requires WellShaped(b) && 0 <= k < 4
    ensures FoundFrom(b, boneWeight0, k) <==> Found(b, boneWeight0, k) || FoundFrom(b, boneWeight0, k + 1)
  {
    if FoundFrom(b, boneWeight0, k + 1) {
      var j :| k + 1 <= j < 4 && Found(b, boneWeight0, j);
      assert k <= j;
    }
  }

  /** With every weight 0 nothing from slot `k` on is found or moves. */
  lemma {:induction false} NothingWeighted(b: Blend, boneWeight0: real, ms: seq<RootMotion>, k: int)
    requires Consistent(b, ms) && 0 <= k <= 4 && b.weights == [0.0, 0.0, 0.0, 0.0]
    decreases 4 - k
    ensures PosFrom(b, ms, k) == Zero && YawFrom(b, ms, k) == 0.0 && !FoundFrom(b, boneWeight0, k)
  {
    if k < 4 {
      NothingWeighted(b, boneWeight0, ms, k + 1);
      assert Add(Zero, Zero) == Zero;
    }
  }

  /**
   `r` is the blended root motion of the slots: its flag tells whether some
   slot is found, its position change is the weighted sum of the slots'
   position changes, and its angle change is a pure yaw by the weighted sum
   of their yaw changes.
   */
  predicate Summarizes(b: Blend, boneWeight0: real, ms: seq<RootMotion>, r: RootMotion)
    requires Consistent(b, ms)
  {
    (r.ok <==> exists k :: 0 <= k < 4 && Found(b, boneWeight0, k)) &&
    r.pos == PosFrom(b, ms, 0) && r.angle == Yaw(YawFrom(b, ms, 0))
  }

  /**
   `Studio_SeqMovement`: the blend-weighted root motion of the sequence
   between two cycles. The flag is set exactly when some corner is found
   (weighted, and either moving or a non-delta still clip in a sequence that
   weights bone 0); the position and yaw changes are the weighted sums over
   the moving corners, and pitch and roll stay 0. An unknown sequence has
   all weights 0 and gives no motion.
   */
  function SeqMovement(hdr: StudioHdr, iSequence: int, flCycleFrom: real, flCycleTo: real,
                       poseParameter: seq<real>, yawRotate: (Vec3, real) -> Vec3): (r: RootMotion)
    requires SeqMovementDefined(hdr, iSequence, flCycleFrom, flCycleTo, poseParameter)
    ensures var b := SequenceBlend(hdr, iSequence, poseParameter);
      var ms := SlotMotions(b, flCycleFrom, flCycleTo, yawRotate);
      Consistent(b, ms) && Summarizes(b, hdr.seqDesc(iSequence).boneWeight0, ms, r)
  {
    var b := SequenceBlend(hdr, iSequence, poseParameter);
    var bw0 := hdr.seqDesc(iSequence).boneWeight0;
    var ms := SlotMotions(b, flCycleFrom, flCycleTo, yawRotate);
    QueriesConsistent(b, flCycleFrom, flCycleTo, yawRotate);
    WholeRun(b, bw0, ms);
    Run(b, bw0, ms, 0, RootMotion(false, Zero, ZeroAngle))
  }

  /**
   The whole loop from zeroed outputs: the flag tells whether some slot is
   found, and the outputs are the weighted sums.
   */
  lemma WholeRun(b: Blend, boneWeight0: real, ms: seq<RootMotion>)
    requires Consistent(b, ms)
    ensures Summarizes(b, boneWeight0, ms, Run(b, boneWeight0, ms, 0, RootMotion(false, Zero, ZeroAngle)))
  {
    RunEffect(b, boneWeight0, ms, 0, RootMotion(false, Zero, ZeroAngle));
    AddZero(PosFrom(b, ms, 0));
    AddYaw(ZeroAngle, 0.0, YawFrom(b, ms, 0));
  }

  /** With every weight 0 the loop leaves the zeroed outputs as they were. */
  lemma IdleRun(b: Blend, boneWeight0: real, ms: seq<RootMotion>)
    requires Consistent(b, ms) && b.weights == [0.0, 0.0, 0.0, 0.0]
    ensures Run(b, boneWeight0, ms, 0, RootMotion(false, Zero, ZeroAngle)) == RootMotion(false, Zero, ZeroAngle)
  {
    WholeRun(b, boneWeight0, ms);
    NothingWeighted(b, boneWeight0, ms, 0);
  }

  /** An unknown sequence gives no motion: the flag stays false and both changes stay zero. */
  lemma SeqMovementOfUnknownSequence(hdr: StudioHdr, iSequence: int, flCycleFrom: real, flCycleTo: real,
                                     poseParameter: seq<real>, yawRotate: (Vec3, real) -> Vec3)
    requires SeqMovementDefined(hdr, iSequence, flCycleFrom, flCycleTo, poseParameter)
    requires iSequence >= hdr.numSeq
    ensures SeqMovement(hdr, iSequence, flCycleFrom, flCycleTo, poseParameter, yawRotate) == RootMotion(false, Zero, ZeroAngle)
  {
    var b := SequenceBlend(hdr, iSequence, poseParameter);
    var ms := SlotMotions(b, flCycleFrom, flCycleTo, yawRotate);
    QueriesConsistent(b, flCycleFrom, flCycleTo, yawRotate);
    IdleRun(b, hdr.seqDesc(iSequence).boneWeight0, ms);
  }

  /** When every moving slot's yaw change is negated, so is the sum of the weighted yaw changes from slot `k` on. */
  lemma {:induction false} YawFromAntisymmetric(b: Blend, there: seq<RootMotion>, back: seq<RootMotion>, k: int)
    requires Consistent(b, there) && Consistent(b, back) && 0 <= k <= 4
    requires forall j :: 0 <= j < 4 && Moving(b, j) ==> back[j].angle.y == -there[j].angle.y
    decreases 4 - k
    ensures YawFrom(b, back, k) == -YawFrom(b, there, k)
  {
    if k < 4 {
      if Moving(b, k) {
        Negate(b.weights[k], there[k].angle.y);
      }
      YawFromAntisymmetric(b, there, back, k + 1);
    }
  }

  /** The blended yaw change from one cycle to another is the negation of the change back. */
  lemma SeqMovementYawAntisymmetric(hdr: StudioHdr, iSequence: int, c1: real, c2: real,
                                    poseParameter: seq<real>, yawRotate: (Vec3, real) -> Vec3)
    requires SeqMovementDefined(hdr, iSequence, c1, c2, poseParameter)
    ensures SeqMovementDefined(hdr, iSequence, c2, c1, poseParameter)
    ensures SeqMovement(hdr, iSequence, c2, c1, poseParameter, yawRotate).angle.y
         == -SeqMovement(hdr, iSequence, c1, c2, poseParameter, yawRotate).angle.y
  {
    var b := SequenceBlend(hdr, iSequence, poseParameter);
    assert MotionDefined(b, c2, c1) by {
      forall k | 0 <= k < 4 ensures SlotDefined(b, k, c2, c1) {
        assert SlotDefined(b, k, c1, c2);
      }
    }
    QueriesConsistent(b, c1, c2, yawRotate);
    QueriesConsistent(b, c2, c1, yawRotate);
    var there := SlotMotions(b, c1, c2, yawRotate);
    var back := SlotMotions(b, c2, c1, yawRotate);
    forall k | 0 <= k < 4 && Moving(b, k) ensures back[k].angle.y == -there[k].angle.y {
      QueryYawAntisymmetric(b, c1, c2, yawRotate, k);
    }
    YawFromAntisymmetric(b, there, back, 0);
  }

  /** Swapping the two cycles negates the yaw change a moving slot's query reports. */
  lemma QueryYawAntisymmetric(b: Blend, c1: real, c2: real, yawRotate: (Vec3, real) -> Vec3, k: int)
    requires MotionDefined(b, c1, c2) && MotionDefined(b, c2, c1) && 0 <= k < 4 && Moving(b, k)
    ensures SlotMotions(b, c2, c1, yawRotate)[k].angle.y == -SlotMotions(b, c1, c2, yawRotate)[k].angle.y
  {
    var a := b.anims[k].value;
    var y1 := SlotMotionYaw(b, k, c1, c2, yawRotate, a);
    var y2 := SlotMotionYaw(b, k, c2, c1, yawRotate, a);
    MovementYawAntisymmetric(a, c1, c2, Zero, ZeroAngle, yawRotate);
  }

  /** The yaw change slot `k`'s query reports is that of its clip's movement query. */
  lemma SlotMotionYaw(b: Blend, k: int, c1: real, c2: real, yawRotate: (Vec3, real) -> Vec3, a: AnimDesc) returns (y: real)
    requires MotionDefined(b, c1, c2) && 0 <= k < 4 && b.weights[k] != 0.0 && b.anims[k] == Some(a)
    ensures AnimMovementDefined(a, c1, c2)
    ensures y == SlotMotions(b, c1, c2, yawRotate)[k].angle.y == AnimMovement(a, c1, c2, Zero, ZeroAngle, yawRotate).angle.y
  {
    assert SlotDefined(b, k, c1, c2);
    assert SlotMotions(b, c1, c2, yawRotate)[k] == SlotMotion(b, k, c1, c2, yawRotate);
    y := SlotMotions(b, c1, c2, yawRotate)[k].angle.y;
  }

  lemma Negate(w: real, y: real)
    ensures w * -y == -(w * y)
  {
  }

  /** The sum of the vectors `c[k..]`. */
  function VecSumFrom(c: seq<Vec3>, k: int): Vec3
    requires |c| == 4 && 0 <= k <= 4
    decreases 4 - k
  {
    if k == 4 then Zero else Add(c[k], VecSumFrom(c, k + 1))
  }

  /** The sum of the numbers `c[k..]`. */
  function SumFrom(c: seq<real>, k: int): real
    requires |c| == 4 && 0 <= k <= 4
    decreases 4 - k
  {
    if k == 4 then 0.0 else c[k] + SumFrom(c, k + 1)
  }

  /** Copies of `v`, one scaled by each weight. */
  function ScaledCopies(w: seq<real>, v: Vec3): (c: seq<Vec3>)
    requires |w| == 4
    ensures |c| == 4 && forall j :: 0 <= j < 4 ==> c[j] == Scale(w[j], v)
  {
    seq(4, j requires 0 <= j < 4 => Scale(w[j], v))
  }

  /** Copies of `y`, one multiplied by each weight. */
  function WeightedCopies(w: seq<real>, y: real): (c: seq<real>)
    requires |w| == 4
    ensures |c| == 4 && forall j :: 0 <= j < 4 ==> c[j] == w[j] * y
  {
    seq(4, j requires 0 <= j < 4 => w[j] * y)
  }

  /** When slot `j` contributes position change `c[j]`, the position sum from slot `k` on is the sum of `c[k..]`. */
  lemma {:induction false} PosFromTerms(b: Blend, ms: seq<RootMotion>, c: seq<Vec3>, k: int)
    requires Consistent(b, ms) && |c| == 4 && 0 <= k <= 4
    requires forall j :: 0 <= j < 4 ==> SlotPos(b, ms, j) == c[j]
    decreases 4 - k
    ensures PosFrom(b, ms, k) == VecSumFrom(c, k)
  {
    if k < 4 {
      PosFromTerms(b, ms, c, k + 1);
    }
  }

  /** When slot `j` contributes yaw change `c[j]`, the yaw sum from slot `k` on is the sum of `c[k..]`. */
  lemma {:induction false} YawFromTerms(b: Blend, ms: seq<RootMotion>, c: seq<real>, k: int)
    requires Consistent(b, ms) && |c| == 4 && 0 <= k <= 4
    requires forall j :: 0 <= j < 4 ==> SlotYaw(b, ms, j) == c[j]
    decreases 4 - k
    ensures YawFrom(b, ms, k) == SumFrom(c, k)
  {
    if k < 4 {
      YawFromTerms(b, ms, c, k + 1);
    }
  }

  /**
   When every clip moves and every weighted slot's query returned the same
   motion `m`, each slot contributes `m`'s position change scaled by its
   weight (an unweighted slot contributes nothing, which is the same).
   */
  lemma SlotPosOfOneMotion(b: Blend, ms: seq<RootMotion>, m: RootMotion)
    requires Consistent(b, ms)
    requires forall j :: 0 <= j < 4 ==> b.anims[j].Some? && |b.anims[j].value.movements| > 0
    requires forall j :: 0 <= j < 4 && b.weights[j] != 0.0 ==> ms[j] == m
    ensures forall j :: 0 <= j < 4 ==> SlotPos(b, ms, j) == Scale(b.weights[j], m.pos)
  {
    forall j | 0 <= j < 4 ensures SlotPos(b, ms, j) == Scale(b.weights[j], m.pos) {
      if b.weights[j] == 0.0 {
        assert Scale(0.0, m.pos) == Zero;
      }
    }
  }

  /** The yaw counterpart of `SlotPosOfOneMotion`: each slot contributes `m`'s yaw change times its weight. */
  lemma SlotYawOfOneMotion(b: Blend, ms: seq<RootMotion>, m: RootMotion)
    requires Consistent(b, ms)
    requires forall j :: 0 <= j < 4 ==> b.anims[j].Some? && |b.anims[j].value.movements| > 0
    requires forall j :: 0 <= j < 4 && b.weights[j] != 0.0 ==> ms[j] == m
    ensures forall j :: 0 <= j < 4 ==> SlotYaw(b, ms, j) == b.weights[j] * m.angle.y
  {
  }

  /**
   The sums collapse for one motion: under weights summing to 1, when every
   clip moves and every weighted slot's query returned `m`, the sums are
   `m`'s own changes.
   */
  lemma OneMotionSums(b: Blend, ms: seq<RootMotion>, m: RootMotion)
    requires Consistent(b, ms) && b.weights[0] + b.weights[1] + b.weights[2] + b.weights[3] == 1.0
    requires forall j :: 0 <= j < 4 ==> b.anims[j].Some? && |b.anims[j].value.movements| > 0
    requires forall j :: 0 <= j < 4 && b.weights[j] != 0.0 ==> ms[j] == m
    ensures PosFrom(b, ms, 0) == m.pos && YawFrom(b, ms, 0) == m.angle.y
  {
    OnePosSum(b, ms, m);
    OneYawSum(b, ms, m);
  }

  lemma OnePosSum(b: Blend, ms: seq<RootMotion>, m: RootMotion)
    requires Consistent(b, ms) && b.weights[0] + b.weights[1] + b.weights[2] + b.weights[3] == 1.0
    requires forall j :: 0 <= j < 4 ==> b.anims[j].Some? && |b.anims[j].value.movements| > 0
    requires forall j :: 0 <= j < 4 && b.weights[j] != 0.0 ==> ms[j] == m
    ensures PosFrom(b, ms, 0) == m.pos
  {
    PosOfOneMotion(b, ms, m);
    ScaledUnitSum(b.weights, m.pos);
  }

  lemma OneYawSum(b: Blend, ms: seq<RootMotion>, m: RootMotion)
    requires Consistent(b, ms) && b.weights[0] + b.weights[1] + b.weights[2] + b.weights[3] == 1.0
    requires forall j :: 0 <= j < 4 ==> b.anims[j].Some? && |b.anims[j].value.movements| > 0
    requires forall j :: 0 <= j < 4 && b.weights[j] != 0.0 ==> ms[j] == m
    ensures YawFrom(b, ms, 0) == m.angle.y
  {
    YawOfOneMotion(b, ms, m);
    WeightedUnitSum(b.weights, m.angle.y);
  }

  /** The position sum for one motion is the sum of copies of its position change, scaled by the weights. */
  lemma PosOfOneMotion(b: Blend, ms: seq<RootMotion>, m: RootMotion)
    requires Consistent(b, ms)
    requires forall j :: 0 <= j < 4 ==> b.anims[j].Some? && |b.anims[j].value.movements| > 0
    requires forall j :: 0 <= j < 4 && b.weights[j] != 0.0 ==> ms[j] == m
    ensures PosFrom(b, ms, 0) == VecSumFrom(ScaledCopies(b.weights, m.pos), 0)
  {
    SlotPosOfOneMotion(b, ms, m);
    PosFromTerms(b, ms, ScaledCopies(b.weights, m.pos), 0);
  }

  /** The yaw sum for one motion is the sum of copies of its yaw change, times the weights. */
  lemma YawOfOneMotion(b: Blend, ms: seq<RootMotion>, m: RootMotion)
    requires Consistent(b, ms)
    requires forall j :: 0 <= j < 4 ==> b.anims[j].Some? && |b.anims[j].value.movements| > 0
    requires forall j :: 0 <= j < 4 && b.weights[j] != 0.0 ==> ms[j] == m
    ensures YawFrom(b, ms, 0) == SumFrom(WeightedCopies(b.weights, m.angle.y), 0)
  {
    SlotYawOfOneMotion(b, ms, m);
    YawFromTerms(b, ms, WeightedCopies(b.weights, m.angle.y), 0);
  }

  /** Under weights summing to 1, when every clip moves some slot is found. */
  lemma MovingClipFound(b: Blend, boneWeight0: real)
    requires WellShaped(b) && b.weights[0] + b.weights[1] + b.weights[2] + b.weights[3] == 1.0
    requires forall j :: 0 <= j < 4 ==> b.anims[j].Some? && |b.anims[j].value.movements| > 0
    ensures exists k :: 0 <= k < 4 && Found(b, boneWeight0, k)
  {
    var k := SomeWeight(b);
    assert Found(b, boneWeight0, k);
  }

  /** Copies of `v` weighted by weights that sum to 1 add up to `v`. */
  lemma ScaledUnitSum(w: seq<real>, v: Vec3)
    requires |w| == 4 && w[0] + w[1] + w[2] + w[3] == 1.0
    ensures VecSumFrom(ScaledCopies(w, v), 0) == v
  {
    var c := ScaledCopies(w, v);
    assert VecSumFrom(c, 3) == c[3];
    assert VecSumFrom(c, 0) == Add(c[0], Add(c[1], Add(c[2], c[3])));
    UnitSum(v.x, w[0], w[1], w[2], w[3]);
    UnitSum(v.y, w[0], w[1], w[2], w[3]);
    UnitSum(v.z, w[0], w[1], w[2], w[3]);
  }

  /** Copies of `y` weighted by weights that sum to 1 add up to `y`. */
  lemma WeightedUnitSum(w: seq<real>, y: real)
    requires |w| == 4 && w[0] + w[1] + w[2] + w[3] == 1.0
    ensures SumFrom(WeightedCopies(w, y), 0) == y
  {
    var c := WeightedCopies(w, y);
    assert SumFrom(c, 3) == c[3];
    assert SumFrom(c, 0) == c[0] + (c[1] + (c[2] + c[3]));
    UnitSum(y, w[0], w[1], w[2], w[3]);
  }

  lemma UnitSum(c: real, w0: real, w1: real, w2: real, w3: real)
    requires w0 + w1 + w2 + w3 == 1.0
    ensures w0 * c + (w1 * c + (w2 * c + w3 * c)) == c
  {
    assert w0 * c + (w1 * c + (w2 * c + w3 * c)) == (w0 + w1 + w2 + w3) * c;
  }

  /** Weights summing to 1 have a nonzero member. */
  lemma SomeWeight(b: Blend) returns (k: int)
    requires WellShaped(b) && b.weights[0] + b.weights[1] + b.weights[2] + b.weights[3] == 1.0
    ensures 0 <= k < 4 && b.weights[k] != 0.0
  {
    k := if b.weights[0] != 0.0 then 0 else if b.weights[1] != 0.0 then 1 else if b.weights[2] != 0.0 then 2 else 3;
  }

  /**
   A sequence whose four corners are one moving clip moves exactly as that
   clip does: the blend weights sum to 1, so the weighted sums collapse.
   */
  lemma SeqMovementOfSingleClip(hdr: StudioHdr, iSequence: int, c1: real, c2: real,
                                poseParameter: seq<real>, yawRotate: (Vec3, real) -> Vec3, a: AnimDesc)
    requires iSequence < hdr.numSeq
    requires SeqAnimsDefined(Some(hdr), poseParameter, hdr.seqDesc(iSequence), iSequence)
    requires SequenceBlend(hdr, iSequence, poseParameter).anims == [Some(a), Some(a), Some(a), Some(a)]
    requires |a.movements| > 0 && AnimMovementDefined(a, c1, c2)
    ensures SeqMovementDefined(hdr, iSequence, c1, c2, poseParameter)
    ensures var m := AnimMovement(a, c1, c2, Zero, ZeroAngle, yawRotate);
      SeqMovement(hdr, iSequence, c1, c2, poseParameter, yawRotate) == RootMotion(true, m.pos, Yaw(m.angle.y))
  {
    var b := SequenceBlend(hdr, iSequence, poseParameter);
    SlotsOfOneClip(b, a, c1, c2, yawRotate);
    var m := AnimMovement(a, c1, c2, Zero, ZeroAngle, yawRotate);
    var ms := SlotMotions(b, c1, c2, yawRotate);
    QueriesConsistent(b, c1, c2, yawRotate);
    OneMotionSummary(b, hdr.seqDesc(iSequence).boneWeight0, ms, m,
                     SeqMovement(hdr, iSequence, c1, c2, poseParameter, yawRotate));
  }

  /** When all four corners hold one clip, every weighted slot's query is that clip's own movement. */
  lemma SlotsOfOneClip(b: Blend, a: AnimDesc, c1: real, c2: real, yawRotate: (Vec3, real) -> Vec3)
    requires WellShaped(b) && b.anims == [Some(a), Some(a), Some(a), Some(a)] && AnimMovementDefined(a, c1, c2)
    ensures MotionDefined(b, c1, c2)
    ensures forall k :: 0 <= k < 4 && b.weights[k] != 0.0 ==>
      SlotMotions(b, c1, c2, yawRotate)[k] == AnimMovement(a, c1, c2, Zero, ZeroAngle, yawRotate)
  {
    forall k | 0 <= k < 4 ensures SlotDefined(b, k, c1, c2) {
      assert b.anims[k] == Some(a);
    }
    var ms := SlotMotions(b, c1, c2, yawRotate);
    forall k | 0 <= k < 4 && b.weights[k] != 0.0
      ensures ms[k] == AnimMovement(a, c1, c2, Zero, ZeroAngle, yawRotate)
    {
      assert ms[k] == SlotMotion(b, k, c1, c2, yawRotate);
    }
  }

  /** A summary of a blend whose weighted slots all returned `m` is `m`'s own motion, found. */
  lemma OneMotionSummary(b: Blend, boneWeight0: real, ms: seq<RootMotion>, m: RootMotion, r: RootMotion)
    requires Consistent(b, ms) && b.weights[0] + b.weights[1] + b.weights[2] + b.weights[3] == 1.0
    requires forall j :: 0 <= j < 4 ==> b.anims[j].Some? && |b.anims[j].value.movements| > 0
    requires forall j :: 0 <= j < 4 && b.weights[j] != 0.0 ==> ms[j] == m
    requires Summarizes(b, boneWeight0, ms, r)
    ensures r == RootMotion(true, m.pos, Yaw(m.angle.y))
  {
    OneMotionSums(b, ms, m);
    MovingClipFound(b, boneWeight0);
  }
}
