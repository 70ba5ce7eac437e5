/**
 Root motion of a single clip: where the clip's root has moved to (and how
 far it has turned) at a point of its cycle, reconstructed from the clip's
 piecewise constant-acceleration movement track, with whole extra loops
 extrapolated from the displacement of one full loop.
 */
module AnimMotion {
  import opened Numeric
  import opened Geometry
  import opened StudioData

  /** A cycle split into a whole number of extra loops and a position within one loop. */
  datatype LoopSplit = LoopSplit(loops: int, cycle: real)

  /**
   The loop reduction at the top of `Studio_AnimPosition`. Cycles in [0,1]
   (1 included) stay as they are; above 1 the loop boundary belongs to the
   upper loop, below 0 to the lower one, so -1 is the end of loop -2.
   */
  function SplitLoops(flCycle: real): (r: LoopSplit)
    ensures r.cycle + r.loops as real == flCycle
    ensures 0.0 <= r.cycle <= 1.0
    ensures 0.0 <= flCycle <= 1.0 ==> r.loops == 0
    ensures flCycle > 1.0 ==> r.cycle < 1.0
    ensures flCycle < 0.0 ==> r.cycle > 0.0
  {
    var loops := if flCycle > 1.0 then Trunc(flCycle) else if flCycle < 0.0 then Trunc(flCycle) - 1 else 0;
    LoopSplit(loops, flCycle - loops as real)
  }

  /**
   Whole-number cycles past either end of [0,1]: above 1 the cycle lands on
   the start of its loop, below 0 on the end of the loop before, so -1
   counts as two loops back plus a full cycle.
   */
  lemma SplitWholeCycle(k: int)
    ensures k > 1 ==> SplitLoops(k as real) == LoopSplit(k, 0.0)
    ensures k < 0 ==> SplitLoops(k as real) == LoopSplit(k - 1, 1.0)
  {
    if k > 1 {
      assert Trunc(k as real) == k;
    } else if k < 0 {
      assert Trunc(k as real) == k;
    }
  }

  /** The boundary case the loop reduction singles out: cycle -1 is the end of loop -2. */
  lemma SplitMinusOne()
    ensures SplitLoops(-1.0) == LoopSplit(-2, 1.0)
  {
    SplitWholeCycle(-1);
  }

  /** What `Studio_AnimPosition` and `Studio_AnimMovement` report: the boolean result and the two outputs. */
  datatype RootMotion = RootMotion(ok: bool, pos: Vec3, angle: QAngle)

  /** The (fractional) frame of the clip that a cycle lands on, once whole loops are removed. */
  function Frame(anim: AnimDesc, flCycle: real): real {
    SplitLoops(flCycle).cycle * ((anim.numframes - 1) as real)
  }

  /**
   The segment loop of `Studio_AnimPosition`, from segment `i` on: the index
   of the first segment whose end frame reaches `frame`, or `|ms|` if none does.
   */
  function SegmentScan(ms: seq<Movement>, frame: real, i: nat): (k: nat)
    requires i <= |ms|
    ensures i <= k <= |ms|
    ensures forall j :: i <= j < k ==> (ms[j].endframe as real) < frame
    ensures k < |ms| ==> (ms[k].endframe as real) >= frame
    decreases |ms| - i
  {
    if i == |ms| then |ms|
    else if (ms[i].endframe as real) >= frame then i
    else SegmentScan(ms, frame, i + 1)
  }

  /** The first segment reaching `frame`: `SegmentScan` from the start. */
  function FirstReaching(ms: seq<Movement>, frame: real): (k: nat)
    ensures k <= |ms|
    ensures k < |ms| <==> exists j :: 0 <= j < |ms| && (ms[j].endframe as real) >= frame
  {
    SegmentScan(ms, frame, 0)
  }

  // What the segment loop holds on entering segment k: the previous segment's
  // end frame, cumulative position and cumulative yaw (zero before the first).

  function PrevFrame(ms: seq<Movement>, k: nat): real
    requires k <= |ms|
  {
    if k == 0 then 0.0 else ms[k - 1].endframe as real
  }

  function PrevPos(ms: seq<Movement>, k: nat): Vec3
    requires k <= |ms|
  {
    if k == 0 then Zero else ms[k - 1].position
  }

  function PrevYaw(ms: seq<Movement>, k: nat): real
    requires k <= |ms|
  {
    if k == 0 then 0.0 else ms[k - 1].angle
  }

  function Last(ms: seq<Movement>): Movement
    requires |ms| > 0
  {
    ms[|ms| - 1]
  }

  /** The source divides by `endframe - prevframe` of the segment it picks; that difference must not be zero. */
  predicate AnimPositionDefined(anim: AnimDesc, flCycle: real) {
    var ms := anim.movements;
    var k := FirstReaching(ms, Frame(anim, flCycle));
    k < |ms| ==> (ms[k].endframe as real) != PrevFrame(ms, k)
  }

  /** A root position together with the yaw the root has turned through. */
  datatype Placement = Placement(pos: Vec3, yaw: real)

  /** The distance covered over a whole segment under constant acceleration: `v0*f + (v1-v0)*f*f/2` at f = 1. */
  function SegmentDistance(m: Movement): real {
    m.v0 + 0.5 * (m.v1 - m.v0)
  }

  /**
   Integration inside segment `k` up to `frame`: `f` is how far through the
   segment the frame is, the distance follows the constant-acceleration
   formula along the segment's direction, and the yaw is blended linearly.
   */
  function Integrate(ms: seq<Movement>, k: nat, frame: real): Placement
    requires k < |ms| && (ms[k].endframe as real) != PrevFrame(ms, k)
  {
    var m := ms[k];
    var f := SegmentFraction(ms, k, frame);
    var d := m.v0 * f + 0.5 * (m.v1 - m.v0) * f * f;
    Placement(Add(PrevPos(ms, k), Scale(d, m.vector)), PrevYaw(ms, k) * (1.0 - f) + m.angle * f)
  }

  /** How far through segment `k` the frame lies: 0 at its start, 1 at its end. */
  function SegmentFraction(ms: seq<Movement>, k: nat, frame: real): (f: real)
    requires k < |ms| && (ms[k].endframe as real) != PrevFrame(ms, k)
    ensures frame == PrevFrame(ms, k) ==> f == 0.0
    ensures frame == ms[k].endframe as real ==> f == 1.0
  {
    var span := ms[k].endframe as real - PrevFrame(ms, k);
    MulDivCancel(span, 1.0, span);
    (frame - PrevFrame(ms, k)) / span
  }

  /** At the start of a segment nothing of it has been covered yet. */
  lemma IntegrateAtStart(ms: seq<Movement>, k: nat)
    requires k < |ms| && (ms[k].endframe as real) != PrevFrame(ms, k)
    ensures Integrate(ms, k, PrevFrame(ms, k)) == Placement(PrevPos(ms, k), PrevYaw(ms, k))
  {
  }

  /** At the end of a segment its whole distance has been covered and its yaw reached. */
  lemma IntegrateAtEnd(ms: seq<Movement>, k: nat)
    requires k < |ms| && (ms[k].endframe as real) != PrevFrame(ms, k)
    ensures Integrate(ms, k, ms[k].endframe as real)
         == Placement(Add(PrevPos(ms, k), Scale(SegmentDistance(ms[k]), ms[k].vector)), ms[k].angle)
  {
  }

  /**
   `Studio_AnimPosition`: the root's displacement and yaw at cycle `flCycle`
   relative to the start of the clip. A clip without movement segments is
   not a movement clip (false, zero outputs). Otherwise the result is true
   exactly when some segment reaches the frame the cycle lands on; then the
   position is integrated inside the first such segment and the displacement
   of every whole extra loop is added. When no segment reaches the frame the
   loop runs out holding the last segment's cumulative position and yaw.
   Only the yaw component of the angle is ever written.
   */
  function AnimPosition(anim: AnimDesc, flCycle: real): (r: RootMotion)
    requires AnimPositionDefined(anim, flCycle)
    ensures r.angle.x == 0.0 && r.angle.z == 0.0
    ensures |anim.movements| == 0 ==> r == RootMotion(false, Zero, ZeroAngle)
    ensures |anim.movements| > 0 ==>
      (r.ok <==> exists j :: 0 <= j < |anim.movements| && (anim.movements[j].endframe as real) >= Frame(anim, flCycle))
    ensures |anim.movements| > 0 && !r.ok ==>
      r.pos == Last(anim.movements).position && r.angle.y == Last(anim.movements).angle
  {
    var ms := anim.movements;
    if |ms| == 0 then RootMotion(false, Zero, ZeroAngle)
    else
      var split := SplitLoops(flCycle);
      var frame := Frame(anim, flCycle);
      var k := FirstReaching(ms, frame);
      if k == |ms| then RootMotion(false, Last(ms).position, Yaw(Last(ms).angle))
      else
        var p := Integrate(ms, k, frame);
        if split.loops != 0 then
          var n := split.loops as real;
          RootMotion(true, Add(p.pos, Scale(n, Last(ms).position)), Yaw(p.yaw + n * Last(ms).angle))
        else
          RootMotion(true, p.pos, Yaw(p.yaw))
  }

  /** Both cycles of a movement query must pick non-degenerate segments. */
  predicate AnimMovementDefined(anim: AnimDesc, flCycleFrom: real, flCycleTo: real) {
    |anim.movements| > 0 ==> AnimPositionDefined(anim, flCycleFrom) && AnimPositionDefined(anim, flCycleTo)
  }

  /**
   `Studio_AnimMovement`: the change of root position and yaw from one cycle
   to another, with the position change turned into the frame of the start
   yaw by the yaw-rotation helper `yawRotate` (`VectorYawRotate`). A clip
   without movement segments gives false and leaves the caller's outputs
   as they were; otherwise only the yaw of `deltaAngle` is written.
   */
  function AnimMovement(anim: AnimDesc, flCycleFrom: real, flCycleTo: real, deltaPos: Vec3, deltaAngle: QAngle,
                        yawRotate: (Vec3, real) -> Vec3): (r: RootMotion)
    requires AnimMovementDefined(anim, flCycleFrom, flCycleTo)
    ensures r.ok <==> |anim.movements| > 0
    ensures !r.ok ==> r.pos == deltaPos && r.angle == deltaAngle
    ensures r.ok ==> r.angle.x == deltaAngle.x && r.angle.z == deltaAngle.z
    ensures r.ok ==> r.angle.y == AnimPosition(anim, flCycleTo).angle.y - AnimPosition(anim, flCycleFrom).angle.y
  {
    if |anim.movements| == 0 then RootMotion(false, deltaPos, deltaAngle)
    else
      var start := AnimPosition(anim, flCycleFrom);
      var end := AnimPosition(anim, flCycleTo);
      var tmp := Sub(end.pos, start.pos);
      RootMotion(true, yawRotate(tmp, -start.angle.y), deltaAngle.(y := end.angle.y - start.angle.y))
  }

  // ---------------------------------------------------------------------
  // Laws of a well-formed movement track.

  /**
   A movement track as the asset compiler lays it out: segment end frames
   start after frame 0 and strictly increase up to the clip's last frame, and
   every segment's cumulative position is the previous one plus the distance
   the segment covers along its direction.
   */
  predicate WellFormedTrack(anim: AnimDesc) {
    var ms := anim.movements;
    && |ms| > 0
    && ms[0].endframe > 0
    && (forall i, j :: 0 <= i < j < |ms| ==> ms[i].endframe < ms[j].endframe)
    && Last(ms).endframe == anim.numframes - 1
    && (forall k :: 0 <= k < |ms| ==> SegmentConsistent(ms, k))
  }

  /** Segment `k`'s cumulative position is the previous one plus the distance it covers along its direction. */
  predicate SegmentConsistent(ms: seq<Movement>, k: nat)
    requires k < |ms|
  {
    ms[k].position == Add(PrevPos(ms, k), Scale(SegmentDistance(ms[k]), ms[k].vector))
  }

  /** A result moved on by `n` whole loops of a track whose last segment is `last`. */
  function AddLoops(r: RootMotion, n: real, last: Movement): RootMotion {
    RootMotion(r.ok, Add(r.pos, Scale(n, last.position)), Yaw(r.angle.y + n * last.angle))
  }

  /** Moving a motionless start on by `n` loops is `n` times one loop's displacement and yaw. */
  lemma LoopsFromStart(n: real, last: Movement)
    ensures AddLoops(RootMotion(true, Zero, ZeroAngle), n, last)
         == RootMotion(true, Scale(n, last.position), Yaw(n * last.angle))
  {
  }

  lemma AddNoLoops(r: RootMotion, last: Movement)
    requires r.angle == Yaw(r.angle.y)
    ensures AddLoops(r, 0.0, last) == r
  {
  }

  /** Two yaw-only results that are equal after moving both on by the same loops were equal before. */
  lemma AddLoopsInjective(r: RootMotion, s: RootMotion, n: real, last: Movement)
    requires r.angle == Yaw(r.angle.y) && s.angle == Yaw(s.angle.y)
    requires AddLoops(r, n, last) == AddLoops(s, n, last)
    ensures r == s
  {
  }

  /** Moving on by `a` loops and then by `b` loops is moving on by `a + b`. */
  lemma AddLoopsCompose(r: RootMotion, a: real, b: real, last: Movement)
    ensures AddLoops(AddLoops(r, a, last), b, last) == AddLoops(r, a + b, last)
  {
  }

  /**
   The only division the source leaves unguarded can only be zero at the
   first segment: later segments are picked only when they start before the
   frame and end at or after it.
   */
  lemma DefinedWhenFirstSegmentNonZero(anim: AnimDesc, flCycle: real)
    requires |anim.movements| > 0 && anim.movements[0].endframe != 0
    ensures AnimPositionDefined(anim, flCycle)
  {
  }

  /**
   The shape of a successful `AnimPosition`: the placement integrated in the
   segment picked for the cycle's frame, moved on by the cycle's whole loops
   (adding zero loops where the source skips the addition).
   */
  lemma Shape(anim: AnimDesc, flCycle: real)
    requires AnimPositionDefined(anim, flCycle)
    requires FirstReaching(anim.movements, Frame(anim, flCycle)) < |anim.movements|
    ensures
      var p := Integrate(anim.movements, FirstReaching(anim.movements, Frame(anim, flCycle)), Frame(anim, flCycle));
      AnimPosition(anim, flCycle) == AddLoops(RootMotion(true, p.pos, Yaw(p.yaw)), SplitLoops(flCycle).loops as real, Last(anim.movements))
  {
    var ms := anim.movements;
    var frame := Frame(anim, flCycle);
    var p := Integrate(ms, FirstReaching(ms, frame), frame);
    var x := RootMotion(true, p.pos, Yaw(p.yaw));
    var n := SplitLoops(flCycle).loops;
    FoundPosition(anim, flCycle);
    if n == 0 {
      AddNoLoops(x, Last(ms));
    }
  }

  /** The two found branches of `AnimPosition`: without and with whole extra loops. */
  lemma FoundPosition(anim: AnimDesc, flCycle: real)
    requires AnimPositionDefined(anim, flCycle)
    requires FirstReaching(anim.movements, Frame(anim, flCycle)) < |anim.movements|
    ensures
      var ms := anim.movements;
      var p := Integrate(ms, FirstReaching(ms, Frame(anim, flCycle)), Frame(anim, flCycle));
      var n := SplitLoops(flCycle).loops as real;
      AnimPosition(anim, flCycle)
        == if n == 0.0 then RootMotion(true, p.pos, Yaw(p.yaw))
           else RootMotion(true, Add(p.pos, Scale(n, Last(ms).position)), Yaw(p.yaw + n * Last(ms).angle))
  {
  }

  /** At cycle 0 a clip whose first segment ends after frame 0 has not moved or turned. */
  lemma AnimPositionAtStart(anim: AnimDesc)
    requires |anim.movements| > 0 && anim.movements[0].endframe > 0
    ensures AnimPosition(anim, 0.0) == RootMotion(true, Zero, ZeroAngle)
  {
    var ms := anim.movements;
    assert SplitLoops(0.0) == LoopSplit(0, 0.0);
    assert Frame(anim, 0.0) == 0.0;
    assert FirstReaching(ms, 0.0) == 0;
    IntegrateAtStart(ms, 0);
    assert Integrate(ms, 0, 0.0) == Placement(Zero, 0.0);
  }

  /** At cycle 1 a well-formed track has covered exactly one loop: the last segment's cumulative motion. */
  lemma AnimPositionAtEnd(anim: AnimDesc)
    requires WellFormedTrack(anim)
    ensures AnimPositionDefined(anim, 1.0)
    ensures AnimPosition(anim, 1.0) == RootMotion(true, Last(anim.movements).position, Yaw(Last(anim.movements).angle))
  {
    var ms := anim.movements;
    assert SplitLoops(1.0) == LoopSplit(0, 1.0);
    var frame := Frame(anim, 1.0);
    assert frame == Last(ms).endframe as real;
    var k := FirstReaching(ms, frame);
    assert k == |ms| - 1;
    assert PrevFrame(ms, k) < frame by {
      if k > 0 {
        assert ms[k - 1].endframe < ms[k].endframe;
      }
    }
    IntegrateAtEnd(ms, k);
    assert SegmentConsistent(ms, k);
    assert Integrate(ms, k, frame) == Placement(Last(ms).position, Last(ms).angle);
  }

  /** The cycle at which the clip reaches the end frame of segment `k`. */
  function SegmentEndCycle(anim: AnimDesc, k: nat): real
    requires k < |anim.movements|
  {
    if anim.numframes - 1 == 0 then 0.0
    else (anim.movements[k].endframe as real) / ((anim.numframes - 1) as real)
  }

  /**
   At the cycle where a well-formed track reaches the end frame of segment
   `k`, the root has moved to that segment's cumulative position and turned
   through its cumulative yaw: the scan picks segment `k` itself, not a later
   one that also reaches the frame, nor an earlier one.
   */
  lemma AnimPositionAtSegmentEnd(anim: AnimDesc, k: nat)
    requires WellFormedTrack(anim) && k < |anim.movements|
    ensures AnimPositionDefined(anim, SegmentEndCycle(anim, k))
    ensures AnimPosition(anim, SegmentEndCycle(anim, k))
         == RootMotion(true, anim.movements[k].position, Yaw(anim.movements[k].angle))
  {
    var ms := anim.movements;
    var n := (anim.numframes - 1) as real;
    var c := SegmentEndCycle(anim, k);
    var e := ms[k].endframe as real;
    assert n == Last(ms).endframe as real && n > 0.0 by {
      if |ms| > 1 {
        assert ms[0].endframe < Last(ms).endframe;
      }
    }
    assert e <= n by {
      if k < |ms| - 1 {
        assert ms[k].endframe < Last(ms).endframe;
      }
    }
    assert 0.0 < e;
    assert c * n == e;
    DivUnit(e, n);
    assert SplitLoops(c) == LoopSplit(0, c);
    assert Frame(anim, c) == e;
    var j := FirstReaching(ms, e);
    assert j == k;
    assert PrevFrame(ms, k) < e by {
      if k > 0 {
        assert ms[k - 1].endframe < ms[k].endframe;
      }
    }
    IntegrateAtEnd(ms, k);
    assert SegmentConsistent(ms, k);
  }

  /** On a well-formed track every cycle has a segment reaching its frame, and none is degenerate. */
  lemma WellFormedReaches(anim: AnimDesc, flCycle: real)
    requires WellFormedTrack(anim)
    ensures AnimPositionDefined(anim, flCycle)
    ensures FirstReaching(anim.movements, Frame(anim, flCycle)) < |anim.movements|
  {
    var ms := anim.movements;
    var split := SplitLoops(flCycle);
    ScaleBetween(split.cycle, (anim.numframes - 1) as real);
    assert (Last(ms).endframe as real) >= Frame(anim, flCycle);
    DefinedWhenFirstSegmentNonZero(anim, flCycle);
  }

  /** Reducing a cycle to its in-loop part does not move the frame it lands on. */
  lemma FrameOfInLoopCycle(anim: AnimDesc, flCycle: real)
    ensures SplitLoops(SplitLoops(flCycle).cycle) == LoopSplit(0, SplitLoops(flCycle).cycle)
    ensures Frame(anim, SplitLoops(flCycle).cycle) == Frame(anim, flCycle)
  {
    var c := SplitLoops(flCycle).cycle;
    assert SplitLoops(c) == LoopSplit(0, c);
  }

  /** On a well-formed track, a cycle's result is its in-loop result moved on by its whole extra loops. */
  lemma Decompose(anim: AnimDesc, flCycle: real)
    requires WellFormedTrack(anim)
    ensures AnimPositionDefined(anim, flCycle) && AnimPositionDefined(anim, SplitLoops(flCycle).cycle)
    ensures AnimPosition(anim, flCycle)
         == AddLoops(AnimPosition(anim, SplitLoops(flCycle).cycle), SplitLoops(flCycle).loops as real, Last(anim.movements))
  {
    var split := SplitLoops(flCycle);
    WellFormedReaches(anim, flCycle);
    WellFormedReaches(anim, split.cycle);
    FrameOfInLoopCycle(anim, flCycle);
    Shape(anim, flCycle);
    Shape(anim, split.cycle);
    var ms := anim.movements;
    var frame := Frame(anim, flCycle);
    var p := Integrate(ms, FirstReaching(ms, frame), frame);
    var x := RootMotion(true, p.pos, Yaw(p.yaw));
    assert AnimPosition(anim, split.cycle) == AddLoops(x, 0.0, Last(ms));
    AddLoopsCompose(x, 0.0, split.loops as real, Last(ms));
  }

  /** On a well-formed track the end of the first loop is the start moved on by one loop. */
  lemma EndIsOneLoopFromStart(anim: AnimDesc)
    requires WellFormedTrack(anim)
    ensures AnimPositionDefined(anim, 0.0) && AnimPositionDefined(anim, 1.0)
    ensures AnimPosition(anim, 1.0) == AddLoops(AnimPosition(anim, 0.0), 1.0, Last(anim.movements))
  {
    WellFormedReaches(anim, 0.0);
    AnimPositionAtStart(anim);
    AnimPositionAtEnd(anim);
  }

  /**
   One more cycle adds exactly one loop's displacement and yaw, on a
   well-formed track, whatever the cycle, across the loop boundaries too.
   */
  lemma OneMoreLoop(anim: AnimDesc, flCycle: real, next: real)
    requires WellFormedTrack(anim) && next == flCycle + 1.0
    ensures AnimPositionDefined(anim, flCycle) && AnimPositionDefined(anim, next)
    ensures AnimPosition(anim, next) == AddLoops(AnimPosition(anim, flCycle), 1.0, Last(anim.movements))
  {
    var a := SplitLoops(flCycle);
    var b := SplitLoops(next);
    var m := a.loops - b.loops + 1;
    assert b.cycle - a.cycle == m as real;
    if m == 0 {
      OneMoreLoopSameFraction(anim, flCycle, next);
    } else if m == 1 {
      OneMoreLoopFromLoopStart(anim, flCycle, next);
    } else {
      OneMoreLoopFromLoopEnd(anim, flCycle, next);
    }
  }

  /** `OneMoreLoop` when both cycles land on the same in-loop position. */
  lemma OneMoreLoopSameFraction(anim: AnimDesc, flCycle: real, next: real)
    requires WellFormedTrack(anim) && next == flCycle + 1.0
    requires SplitLoops(next).cycle == SplitLoops(flCycle).cycle
    ensures AnimPositionDefined(anim, flCycle) && AnimPositionDefined(anim, next)
    ensures AnimPosition(anim, next) == AddLoops(AnimPosition(anim, flCycle), 1.0, Last(anim.movements))
  {
    var a := SplitLoops(flCycle);
    var b := SplitLoops(next);
    Decompose(anim, flCycle);
    Decompose(anim, next);
    var pa := AnimPosition(anim, a.cycle);
    assert b.loops as real == a.loops as real + 1.0;
    AddLoopsCompose(pa, a.loops as real, 1.0, Last(anim.movements));
  }

  /** `OneMoreLoop` from the start of a loop (in-loop position 0) to the end of the same loop (position 1). */
  lemma OneMoreLoopFromLoopStart(anim: AnimDesc, flCycle: real, next: real)
    requires WellFormedTrack(anim) && next == flCycle + 1.0
    requires SplitLoops(next).cycle == SplitLoops(flCycle).cycle + 1.0
    ensures AnimPositionDefined(anim, flCycle) && AnimPositionDefined(anim, next)
    ensures AnimPosition(anim, next) == AddLoops(AnimPosition(anim, flCycle), 1.0, Last(anim.movements))
  {
    var last := Last(anim.movements);
    var a := SplitLoops(flCycle);
    var b := SplitLoops(next);
    assert a.cycle == 0.0 && b.cycle == 1.0 && b.loops == a.loops;
    Decompose(anim, flCycle);
    Decompose(anim, next);
    EndIsOneLoopFromStart(anim);
    var pa := AnimPosition(anim, 0.0);
    var n := a.loops as real;
    AddLoopsCompose(pa, 1.0, n, last);
    AddLoopsCompose(pa, n, 1.0, last);
    assert 1.0 + n == n + 1.0;
  }

  /** `OneMoreLoop` from the end of a loop (in-loop position 1) to the start of the loop after next (position 0). */
  lemma OneMoreLoopFromLoopEnd(anim: AnimDesc, flCycle: real, next: real)
    requires WellFormedTrack(anim) && next == flCycle + 1.0
    requires SplitLoops(next).cycle == SplitLoops(flCycle).cycle - 1.0
    ensures AnimPositionDefined(anim, flCycle) && AnimPositionDefined(anim, next)
    ensures AnimPosition(anim, next) == AddLoops(AnimPosition(anim, flCycle), 1.0, Last(anim.movements))
  {
    var last := Last(anim.movements);
    var a := SplitLoops(flCycle);
    var b := SplitLoops(next);
    assert a.cycle == 1.0 && b.cycle == 0.0 && b.loops == a.loops + 2;
    Decompose(anim, flCycle);
    Decompose(anim, next);
    EndIsOneLoopFromStart(anim);
    var pb := AnimPosition(anim, 0.0);
    var n := a.loops as real;
    AddLoopsCompose(pb, 1.0, n, last);
    AddLoopsCompose(pb, 1.0 + n, 1.0, last);
    assert 1.0 + n + 1.0 == b.loops as real;
  }

  /** `IntegerCycles` stated as whole loops added to a motionless start. */
  lemma {:induction false} IntegerCyclesFromStart(anim: AnimDesc, k: int)
    requires WellFormedTrack(anim)
    ensures AnimPositionDefined(anim, k as real)
    ensures AnimPosition(anim, k as real) == AddLoops(RootMotion(true, Zero, ZeroAngle), k as real, Last(anim.movements))
    decreases if k < 0 then -k else k
  {
    var last := Last(anim.movements);
    var start := RootMotion(true, Zero, ZeroAngle);
    var kr := k as real;
    if k == 0 {
      assert kr == 0.0;
      WellFormedReaches(anim, kr);
      AnimPositionAtStart(anim);
      AddNoLoops(start, last);
    } else if k > 0 {
      var pr := (k - 1) as real;
      IntegerCyclesFromStart(anim, k - 1);
      OneMoreLoop(anim, pr, kr);
      AddLoopsCompose(start, pr, 1.0, last);
      assert pr + 1.0 == kr;
    } else {
      var nx := (k + 1) as real;
      IntegerCyclesFromStart(anim, k + 1);
      OneMoreLoop(anim, kr, nx);
      WellFormedReaches(anim, kr);
      var r := AnimPosition(anim, kr);
      AddLoopsCompose(start, kr, 1.0, last);
      assert kr + 1.0 == nx;
      AddLoopsInjective(r, AddLoops(start, kr, last), 1.0, last);
    }
  }

  /**
   At a whole-number cycle `k` a well-formed track has moved and turned by
   exactly `k` loops' worth, including for negative `k`.
   */
  lemma IntegerCycles(anim: AnimDesc, k: int)
    requires WellFormedTrack(anim)
    ensures AnimPositionDefined(anim, k as real)
    ensures AnimPosition(anim, k as real)
         == RootMotion(true, Scale(k as real, Last(anim.movements).position), Yaw(k as real * Last(anim.movements).angle))
  {
    IntegerCyclesFromStart(anim, k);
    LoopsFromStart(k as real, Last(anim.movements));
  }


  // ---------------------------------------------------------------------
  // Laws of the movement delta between two cycles.

  /** Running the clip backward undoes the yaw change of running it forward. */
  lemma MovementYawAntisymmetric(anim: AnimDesc, c1: real, c2: real, p: Vec3, q: QAngle, yawRotate: (Vec3, real) -> Vec3)
    requires |anim.movements| > 0 && AnimMovementDefined(anim, c1, c2)
    ensures AnimMovement(anim, c1, c2, p, q, yawRotate).angle.y == -AnimMovement(anim, c2, c1, p, q, yawRotate).angle.y
  {
  }

  /** Yaw changes over consecutive spans add up to the yaw change over the whole span. */
  lemma MovementYawAdditive(anim: AnimDesc, c1: real, c2: real, c3: real, p: Vec3, q: QAngle, yawRotate: (Vec3, real) -> Vec3)
    requires |anim.movements| > 0 && AnimMovementDefined(anim, c1, c2) && AnimMovementDefined(anim, c2, c3)
    ensures AnimMovementDefined(anim, c1, c3)
    ensures AnimMovement(anim, c1, c2, p, q, yawRotate).angle.y + AnimMovement(anim, c2, c3, p, q, yawRotate).angle.y
         == AnimMovement(anim, c1, c3, p, q, yawRotate).angle.y
  {
  }

  /** Over an empty span nothing moves, given a rotation that keeps the zero vector at zero. */
  lemma MovementOverNoTime(anim: AnimDesc, c: real, p: Vec3, q: QAngle, yawRotate: (Vec3, real) -> Vec3)
    requires |anim.movements| > 0 && AnimMovementDefined(anim, c, c)
    requires yawRotate(Zero, -AnimPosition(anim, c).angle.y) == Zero
    ensures AnimMovement(anim, c, c, p, q, yawRotate) == RootMotion(true, Zero, q.(y := 0.0))
  {
    var r := AnimPosition(anim, c);
    assert Sub(r.pos, r.pos) == Zero;
  }

  /**
   Over exactly one cycle a well-formed clip turns by one loop's yaw and
   moves by one loop's displacement, seen from the heading it started at.
   */
  lemma MovementOverWholeLoop(anim: AnimDesc, c: real, p: Vec3, q: QAngle, yawRotate: (Vec3, real) -> Vec3)
    requires WellFormedTrack(anim)
    ensures AnimMovementDefined(anim, c, c + 1.0)
    ensures AnimMovement(anim, c, c + 1.0, p, q, yawRotate)
         == RootMotion(true, yawRotate(Last(anim.movements).position, -AnimPosition(anim, c).angle.y),
                       q.(y := Last(anim.movements).angle))
  {
    OneMoreLoop(anim, c, c + 1.0);
    var s := AnimPosition(anim, c);
    var e := AnimPosition(anim, c + 1.0);
    assert Sub(e.pos, s.pos) == Last(anim.movements).position;
  }
}
