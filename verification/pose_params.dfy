/**
 The pose parameter codec: a raw control value (an aim angle, a speed) is
 encoded as a 0..1 fraction of its parameter's range, optionally after being
 wrapped into one period of a cyclic parameter, and decoded back.
 */
module PoseParams {
  import opened Numeric
  import opened StudioData

  /** The value at which a cyclic parameter wraps: half a period past the midpoint of its range. */
  function WrapPoint(p: PoseParamDesc): real {
    (p.start + p.end) / 2.0 + p.loop / 2.0
  }

  /**
   The cyclic wrap shared by the codec and the local resolver: a parameter
   with a nonzero `loop` has its value moved by a whole number of periods
   into the period that ends at the wrap point.
   */
  function Wrap(p: PoseParamDesc, v: real): (w: real)
    ensures p.loop == 0.0 ==> w == v
    ensures p.loop != 0.0 ==> IsIntegral((v - w) / p.loop)
    ensures p.loop > 0.0 ==> WrapPoint(p) - p.loop <= w < WrapPoint(p)
    ensures p.loop < 0.0 ==> WrapPoint(p) < w <= WrapPoint(p) - p.loop
  {
    if p.loop != 0.0 then
      var n := Periods(p, v);
      var w := v - p.loop * (n as real);
      RemovePeriods(p.loop, v, p.loop - WrapPoint(p), n, w);
      w
    else
      v
  }

  /** The number of whole periods the wrap removes from `v`. */
  function Periods(p: PoseParamDesc, v: real): int
    requires p.loop != 0.0
  {
    ((v + (p.loop - WrapPoint(p))) / p.loop).Floor
  }

  /** Removing `n = floor((v + shift)/L)` periods from `v` moves it by a whole number of periods into [-shift, L - shift). */
  lemma RemovePeriods(loop: real, v: real, shift: real, n: int, w: real)
    requires loop != 0.0 && n == ((v + shift) / loop).Floor && w == v - loop * (n as real)
    ensures IsIntegral((v - w) / loop)
    ensures loop > 0.0 ==> -shift <= w < loop - shift
    ensures loop < 0.0 ==> loop - shift < w <= -shift
  {
    assert v - w == loop * (n as real);
    MulDivCancel(loop, n as real, v - w);
    IntIsIntegral(n);
    if loop > 0.0 {
      FloorRemainder(loop, v + shift, n);
    } else {
      FloorRemainderNeg(loop, v + shift, n);
    }
  }

  predicate InParamRange(hdr: StudioHdr, i: int) {
    0 <= i < |hdr.poseParams|
  }

  /** True when `v` lies between the two ends of the parameter's range. */
  predicate Between(p: PoseParamDesc, v: real) {
    (p.start <= v <= p.end) || (p.end <= v <= p.start)
  }

  /** `v` lies past the `end` of the range, on the side away from `start`. */
  predicate BeyondEnd(p: PoseParamDesc, v: real) {
    (p.start < p.end && v > p.end) || (p.end < p.start && v < p.end)
  }

  /** `v` lies before the `start` of the range, on the side away from `end`. */
  predicate BeforeStart(p: PoseParamDesc, v: real) {
    (p.start < p.end && v < p.start) || (p.end < p.start && v > p.start)
  }

  /** Past either end of the range, the fraction of the range leaves [0,1] on that end's side. */
  lemma FractionBeyond(p: PoseParamDesc, v: real)
    requires p.end != p.start
    ensures BeyondEnd(p, v) ==> (v - p.start) / (p.end - p.start) > 1.0
    ensures BeforeStart(p, v) ==> (v - p.start) / (p.end - p.start) < 0.0
  {
    var d := p.end - p.start;
    var q := (v - p.start) / d;
    assert q * d == v - p.start;
    if d > 0.0 {
      assert (q - 1.0) * d == (v - p.start) - d;
      SignOfQuotient(q - 1.0, d, (v - p.start) - d);
      SignOfQuotient(q, d, v - p.start);
    } else {
      var m := -d;
      assert q * m == p.start - v;
      assert (q - 1.0) * m == (p.start - v) - m;
      SignOfQuotient(q - 1.0, m, (p.start - v) - m);
      SignOfQuotient(q, m, p.start - v);
    }
  }

  /** A raw value between the ends of the range survives the clamp and decodes back exactly. */
  lemma ExactWhenBetween(p: PoseParamDesc, w: real)
    requires p.end != p.start
    ensures Between(p, w) ==> Clamp01((w - p.start) / (p.end - p.start)) * (p.end - p.start) + p.start == w
  {
    FractionInRange(p, w);
  }

  /** The raw value a control value stands for: the affine map taking 0 to `start` and 1 to `end`. */
  function Decode(p: PoseParamDesc, c: real): real {
    c * (p.end - p.start) + p.start
  }

  /** A control value in [0,1] decodes to a raw value between the ends of the range. */
  lemma DecodedBetween(p: PoseParamDesc, c: real)
    ensures 0.0 <= c <= 1.0 ==> Between(p, Decode(p, c))
  {
    var d := p.end - p.start;
    ScaleBetween(c, d);
    assert Decode(p, c) == c * d + p.start;
  }

  /** What `Studio_SetPoseParameter` produces: its return value and its `ctlValue` out-parameter. */
  datatype PoseSetting = PoseSetting(ranged: real, ctl: real)

  /**
   Decodes a 0..1 control value to raw units (`Studio_GetPoseParameter`);
   an unknown parameter index decodes to 0. No clamping, no wrap.
   */
  function GetPoseParameter(hdr: StudioHdr, iParameter: int, ctlValue: real): (v: real)
    ensures !InParamRange(hdr, iParameter) ==> v == 0.0
    ensures InParamRange(hdr, iParameter) ==>
      var p := hdr.poseParams[iParameter];
      (ctlValue == 0.0 ==> v == p.start) && (ctlValue == 1.0 ==> v == p.end) &&
      (0.0 <= ctlValue <= 1.0 ==> Between(p, v))
  {
    if !InParamRange(hdr, iParameter) then 0.0
    else
      var p := hdr.poseParams[iParameter];
      DecodedBetween(p, ctlValue);
      Decode(p, ctlValue)
  }

  /**
   The encoding of a raw value against one parameter: wrap if cyclic, map to
   a fraction of the range, clamp it to [0,1], and report the raw value that
   the clamped fraction stands for.
   */
  function Encode(p: PoseParamDesc, flValue: real): (r: PoseSetting)
    requires p.end != p.start
    ensures 0.0 <= r.ctl <= 1.0 && Between(p, r.ranged)
    ensures r.ranged == Decode(p, r.ctl)
    ensures p.loop == 0.0 && Between(p, flValue) ==> r.ranged == flValue
    ensures Between(p, Wrap(p, flValue)) ==> r.ranged == Wrap(p, flValue)
    ensures BeyondEnd(p, Wrap(p, flValue)) ==> r == PoseSetting(p.end, 1.0)
    ensures BeforeStart(p, Wrap(p, flValue)) ==> r == PoseSetting(p.start, 0.0)
  {
    ClampToRange(p, Wrap(p, flValue))
  }

  /**
   Lines 90-98 on an already wrapped value `w`: its fraction of the range,
   clamped to [0,1], and the raw value that clamped fraction stands for.
   */
  function ClampToRange(p: PoseParamDesc, w: real): (r: PoseSetting)
    requires p.end != p.start
    ensures 0.0 <= r.ctl <= 1.0 && Between(p, r.ranged)
    ensures r.ranged == Decode(p, r.ctl)
    ensures Between(p, w) ==> r.ranged == w
    ensures BeyondEnd(p, w) ==> r == PoseSetting(p.end, 1.0)
    ensures BeforeStart(p, w) ==> r == PoseSetting(p.start, 0.0)
  {
    var d := p.end - p.start;
    var u := (w - p.start) / d;
    var ctl := Clamp01(u);
    var t := ctl * d;
    ExactWhenBetween(p, w);
    FractionBeyond(p, w);
    DecodedBetween(p, ctl);
    PoseSetting(t + p.start, ctl)
  }

  /**
   `Studio_SetPoseParameter`: the encoding of `flValue` against parameter
   `iParameter`. An unknown index returns 0 and leaves the caller's
   `ctlValue` as it was.
   */
  function SetPoseParameter(hdr: StudioHdr, iParameter: int, flValue: real, ctlValue: real): (r: PoseSetting)
    requires InParamRange(hdr, iParameter) ==> hdr.poseParams[iParameter].end != hdr.poseParams[iParameter].start
    ensures !InParamRange(hdr, iParameter) ==> r == PoseSetting(0.0, ctlValue)
    ensures InParamRange(hdr, iParameter) ==>
      0.0 <= r.ctl <= 1.0 && r.ranged == GetPoseParameter(hdr, iParameter, r.ctl) &&
      Between(hdr.poseParams[iParameter], r.ranged)
    ensures InParamRange(hdr, iParameter) ==>
      var p := hdr.poseParams[iParameter];
      p.loop == 0.0 && Between(p, flValue) ==> r.ranged == flValue
    ensures InParamRange(hdr, iParameter) ==>
      var p := hdr.poseParams[iParameter];
      var w := Wrap(p, flValue);
      (Between(p, w) ==> r.ranged == w) &&
      (BeyondEnd(p, w) ==> r == PoseSetting(p.end, 1.0)) &&
      (BeforeStart(p, w) ==> r == PoseSetting(p.start, 0.0))
  {
    if !InParamRange(hdr, iParameter) then PoseSetting(0.0, ctlValue)
    else Encode(hdr.poseParams[iParameter], flValue)
  }

  /** A value between the ends of a non-degenerate range is a fraction in [0,1] of it, and decodes back exactly. */
  lemma FractionInRange(p: PoseParamDesc, v: real)
    requires p.end != p.start
    ensures Between(p, v) ==> 0.0 <= (v - p.start) / (p.end - p.start) <= 1.0
    ensures ((v - p.start) / (p.end - p.start)) * (p.end - p.start) + p.start == v
  {
    if Between(p, v) {
      DivUnit(v - p.start, p.end - p.start);
    }
  }

  /** A value already inside the wrap period is left alone. */
  lemma WrapFixed(p: PoseParamDesc, v: real)
    requires (p.loop > 0.0 && WrapPoint(p) - p.loop <= v < WrapPoint(p))
          || (p.loop < 0.0 && WrapPoint(p) < v <= WrapPoint(p) - p.loop)
    ensures Wrap(p, v) == v
  {
    FloorOfFraction(p.loop, v + (p.loop - WrapPoint(p)));
  }

  /** Wrapping twice is wrapping once. */
  lemma WrapIdempotent(p: PoseParamDesc, v: real)
    ensures Wrap(p, Wrap(p, v)) == Wrap(p, v)
  {
    if p.loop != 0.0 {
      WrapFixed(p, Wrap(p, v));
    }
  }

  /** Values a whole number of periods apart wrap to the same value. */
  lemma WrapPeriodic(p: PoseParamDesc, v: real, k: int)
    ensures Wrap(p, v + (k as real) * p.loop) == Wrap(p, v)
  {
    if p.loop != 0.0 {
      var shift := p.loop - WrapPoint(p);
      var u := v + (k as real) * p.loop;
      FloorShift(p.loop, v + shift, k, u + shift);
      assert Periods(p, u) == Periods(p, v) + k;
      RemoveMorePeriods(v, p.loop, Periods(p, v), k, Periods(p, u));
    } else {
      assert (k as real) * p.loop == 0.0;
    }
  }

  lemma RemoveMorePeriods(v: real, L: real, n: int, k: int, m: int)
    requires m == n + k
    ensures (v + (k as real) * L) - L * (m as real) == v - L * (n as real)
  {
    assert L * ((n + k) as real) == L * (n as real) + L * (k as real);
  }

  /** Encoding the decoding of a control value in [0,1] gives it back, for a non-cyclic parameter. */
  lemma DecodeThenEncode(hdr: StudioHdr, i: int, c: real, ctlValue: real)
    requires InParamRange(hdr, i)
    requires hdr.poseParams[i].loop == 0.0 && hdr.poseParams[i].end != hdr.poseParams[i].start
    requires 0.0 <= c <= 1.0
    ensures SetPoseParameter(hdr, i, GetPoseParameter(hdr, i, c), ctlValue) == PoseSetting(GetPoseParameter(hdr, i, c), c)
  {
    var p := hdr.poseParams[i];
    var v := GetPoseParameter(hdr, i, c);
    MulDivCancel(p.end - p.start, c, v - p.start);
  }

  /**
   Every encoded raw value of a cyclic parameter lies inside the wrap
   period, whatever the period's length: the period is centred on the
   midpoint of the range, so when the wrapped value falls past an end of the
   range, that end lies between the midpoint and the wrapped value.
   */
  lemma EncodedInsideWrap(p: PoseParamDesc, v: real)
    requires p.end != p.start && p.loop != 0.0
    ensures p.loop > 0.0 ==> WrapPoint(p) - p.loop <= Encode(p, v).ranged < WrapPoint(p)
    ensures p.loop < 0.0 ==> WrapPoint(p) < Encode(p, v).ranged <= WrapPoint(p) - p.loop
  {
    var r := Encode(p, v);
    var w := Wrap(p, v);
    var mid := (p.start + p.end) / 2.0;
    if p.loop > 0.0 {
      assert WrapPoint(p) - p.loop < mid < WrapPoint(p);
    } else {
      assert WrapPoint(p) < mid < WrapPoint(p) - p.loop;
    }
    assert Between(p, w) || BeyondEnd(p, w) || BeforeStart(p, w);
  }

  /**
   Encoding the raw value that an encoding returned changes nothing: the
   returned value is inside the wrap period and between the ends of the range,
   so the second call neither wraps nor clamps it.
   */
  lemma SetPoseParameterIdempotent(hdr: StudioHdr, i: int, v: real, c1: real, c2: real)
    requires InParamRange(hdr, i)
    requires hdr.poseParams[i].end != hdr.poseParams[i].start
    ensures SetPoseParameter(hdr, i, SetPoseParameter(hdr, i, v, c1).ranged, c2) == SetPoseParameter(hdr, i, v, c1)
  {
    var p := hdr.poseParams[i];
    var r := Encode(p, v);
    if p.loop != 0.0 {
      EncodedInsideWrap(p, v);
      WrapFixed(p, r.ranged);
    }
    MulDivCancel(p.end - p.start, r.ctl, r.ranged - p.start);
  }

  /** A value beyond a non-cyclic range encodes to its end: [-30,30] turns 90 into 30, control value 1. */
  lemma ClampScenario(hdr: StudioHdr, c: real)
    requires hdr.poseParams == [PoseParamDesc(-30.0, 30.0, 0.0)]
    ensures SetPoseParameter(hdr, 0, 90.0, c) == PoseSetting(30.0, 1.0)
  {
  }

  /** A cyclic [0,360] parameter with period 360 wraps 370 to 10, control value 1/36. */
  lemma CyclicScenario(hdr: StudioHdr, c: real)
    requires hdr.poseParams == [PoseParamDesc(0.0, 360.0, 360.0)]
    ensures SetPoseParameter(hdr, 0, 370.0, c) == PoseSetting(10.0, 1.0 / 36.0)
  {
    var p := hdr.poseParams[0];
    assert Wrap(p, 370.0) == 10.0;
    assert Between(p, 10.0);
    var r := ClampToRange(p, 10.0);
    assert r.ranged == 10.0 && r.ctl * 360.0 == 10.0;
  }
}
