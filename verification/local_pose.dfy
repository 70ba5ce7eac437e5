/**
 Resolution of a global pose parameter to a position on one axis of a
 sequence's blend grid (`Studio_LocalPoseParameter`): which grid interval
 the value falls in (`index`) and how far across it (`setting`, in [0,1]).
 Sequences either spread their grid evenly over a sub-range of the
 parameter, or list the parameter value at every grid boundary (pose keys).
 */
module LocalPose {
  import opened Numeric
  import opened StudioData
  import opened PoseParams

  /** The two outputs of the resolver: the fraction across the interval and the interval's index. */
  datatype LocalSetting = LocalSetting(setting: real, index: int)

  /** The header pose parameter that drives axis `a` of the sequence, or -1 when none does. */
  function SharedPose(hdr: StudioHdr, sd: SeqDesc, iSequence: int, a: AxisIndex): int {
    hdr.sharedPose(iSequence, Axis(sd, a).paramIndex)
  }

  // ---------------------------------------------------------------------------
  // Evenly spaced grids

  /**
   Where a control value lies in the axis's sub-range `[paramStart, paramEnd]`,
   as a fraction: 0 at `paramStart`, 1 at `paramEnd`, with both ends first
   expressed as control values of the parameter.
   */
  function UniformFraction(p: PoseParamDesc, ax: AxisDesc, value: real): (f: real)
    requires p.end != p.start && ax.paramEnd != ax.paramStart
    ensures value == (ax.paramStart - p.start) / (p.end - p.start) ==> f == 0.0
    ensures value == (ax.paramEnd - p.start) / (p.end - p.start) ==> f == 1.0
  {
    var d := p.end - p.start;
    var ls := (ax.paramStart - p.start) / d;
    var le := (ax.paramEnd - p.start) / d;
    LocalSpan(d, ax.paramStart - p.start, ax.paramEnd - p.start);
    MulDivCancel(le - ls, 1.0, le - ls);
    (value - ls) / (le - ls)
  }

  /** Two distinct raw offsets stay distinct once divided by the same nonzero width. */
  lemma LocalSpan(d: real, a: real, b: real)
    requires d != 0.0
    ensures b / d - a / d == (b - a) / d
    ensures a != b ==> b / d - a / d != 0.0
  {
    var qa := a / d;
    var qb := b / d;
    assert qa * d == a && qb * d == b;
    assert (qb - qa) * d == b - a;
    MulDivCancel(d, qb - qa, b - a);
  }

  /**
   Splits a position `s` in [0,1] along a grid of `gs` boundaries into an
   interval index and the fraction across it. With more than two boundaries
   the split is exact (`index + setting` is the position in interval units),
   the index stays inside the grid, and only the far end gives a full
   fraction; with two or fewer, `s` itself is the fraction of interval 0.
   */
  function GridSplit(s: real, gs: int): (r: LocalSetting)
    requires 0.0 <= s <= 1.0
    ensures 0.0 <= r.setting <= 1.0
    ensures gs > 2 ==> 0 <= r.index <= gs - 2
    ensures gs > 2 ==> r.index as real + r.setting == s * (gs - 1) as real
    ensures gs > 2 ==> (r.setting == 1.0 <==> s == 1.0)
    ensures gs <= 2 ==> r == LocalSetting(s, 0)
  {
    if gs > 2 then
      var n := (gs - 1) as real;
      var x := s * n;
      var i := Trunc(x);
      var index := if i == gs - 1 then gs - 2 else i;
      GridSplitFacts(s, n, x, i, gs);
      var setting := x - index as real;
      assert i == gs - 1 ==> setting == 1.0 && s == 1.0;
      assert i < gs - 1 ==> setting < 1.0 && s < 1.0;
      LocalSetting(setting, index)
    else
      LocalSetting(s, 0)
  }

  lemma GridSplitFacts(s: real, n: real, x: real, i: int, gs: int)
    requires gs > 2 && n == (gs - 1) as real && 0.0 <= s <= 1.0 && x == s * n && i == Trunc(x)
    ensures 0 <= i <= gs - 1
    ensures i == gs - 1 ==> x == n && s == 1.0
    ensures i < gs - 1 ==> 0.0 <= x - i as real < 1.0 && s < 1.0
  {
    ScaleBetween(s, n);
    assert n - x == (1.0 - s) * n;
    assert i as real <= x < i as real + 1.0;
    if s < 1.0 {
      MulPos(1.0 - s, n);
      assert x < n;
      assert i < gs - 1;
    } else {
      assert x == n && Trunc(n) == gs - 1;
    }
  }

  /** The evenly spaced resolution: the clamped fraction, split along the grid. */
  function UniformSetting(p: PoseParamDesc, ax: AxisDesc, value: real): (r: LocalSetting)
    requires p.end != p.start && ax.paramEnd != ax.paramStart
    ensures 0.0 <= r.setting <= 1.0
    ensures ax.groupSize > 2 ==>
      0 <= r.index <= ax.groupSize - 2 &&
      r.index as real + r.setting == Clamp01(UniformFraction(p, ax, value)) * (ax.groupSize - 1) as real
    ensures ax.groupSize <= 2 ==> r == LocalSetting(Clamp01(UniformFraction(p, ax, value)), 0)
  {
    GridSplit(Clamp01(UniformFraction(p, ax, value)), ax.groupSize)
  }

  /**
   For a control value that encodes raw value `raw` (no wrap), the uniform
   fraction is the fraction of the axis's raw sub-range that `raw` covers.
   */
  lemma UniformFractionInRawUnits(p: PoseParamDesc, ax: AxisDesc, raw: real)
    requires p.end != p.start && ax.paramEnd != ax.paramStart
    ensures UniformFraction(p, ax, (raw - p.start) / (p.end - p.start))
         == (raw - ax.paramStart) / (ax.paramEnd - ax.paramStart)
  {
    var d := p.end - p.start;
    LocalSpan(d, ax.paramStart - p.start, raw - p.start);
    LocalSpan(d, ax.paramStart - p.start, ax.paramEnd - p.start);
    var num := (raw - p.start) / d - (ax.paramStart - p.start) / d;
    var den := (ax.paramEnd - p.start) / d - (ax.paramStart - p.start) / d;
    assert num == (raw - ax.paramStart) / d;
    assert den == (ax.paramEnd - ax.paramStart) / d;
    RatioOfQuotients(raw - ax.paramStart, ax.paramEnd - ax.paramStart, d);
  }

  lemma RatioOfQuotients(a: real, b: real, d: real)
    requires d != 0.0 && b != 0.0
    ensures (a / d) / (b / d) == a / b
  {
    var qa := a / d;
    var qb := b / d;
    assert qa * d == a && qb * d == b;
    assert qb != 0.0;
    var r := a / b;
    assert r * b == a;
    assert (r * qb) * d == qa * d;
    assert r * qb == qa;
    MulDivCancel(qb, r, qa);
  }

  // ---------------------------------------------------------------------------
  // Pose-key tables

  /** The fraction `value` covers of key interval `j`, from `keys[j]` to `keys[j+1]`. */
  function KeyFraction(keys: seq<real>, value: real, j: int): real
    requires 0 <= j && j + 1 < |keys| && keys[j + 1] != keys[j]
  {
    (value - keys[j]) / (keys[j + 1] - keys[j])
  }

  /** Key interval `j` exists, is not empty, and the scan moves past it. */
  predicate Skipped(keys: seq<real>, value: real, gs: int, j: int) {
    0 <= j && j + 1 < |keys| && keys[j + 1] != keys[j] && j < gs - 2 && KeyFraction(keys, value, j) > 1.0
  }

  /**
   The scan from interval `i` reads only intervals that exist and are not
   empty: the divisions it performs are all defined.
   */
  predicate KeyScanSafe(keys: seq<real>, value: real, gs: int, i: int)
    decreases gs - i
  {
    0 <= i && i + 1 < |keys| && keys[i + 1] != keys[i] &&
    (i < gs - 2 && KeyFraction(keys, value, i) > 1.0 ==> KeyScanSafe(keys, value, gs, i + 1))
  }

  /**
   The linear key search from interval `i`: the first interval at or after
   `i` that `value` does not overshoot, or the last interval of the grid.
   */
  function KeyScan(keys: seq<real>, value: real, gs: int, i: int): (k: int)
    requires KeyScanSafe(keys, value, gs, i)
    decreases gs - i
    ensures i <= k <= Max(i, gs - 2)
    ensures k + 1 < |keys| && keys[k + 1] != keys[k]
    ensures forall j :: i <= j < k ==> Skipped(keys, value, gs, j)
    ensures !Skipped(keys, value, gs, k)
  {
    if i < gs - 2 && KeyFraction(keys, value, i) > 1.0 then
      KeyScan(keys, value, gs, i + 1)
    else
      i
  }

  /**
   The key-table resolution: the control value is decoded to raw units, the
   interval found by the scan, and the fraction across it clamped.
   */
  function KeyTableSetting(p: PoseParamDesc, ax: AxisDesc, value: real): (r: LocalSetting)
    requires KeyScanSafe(ax.poseKeys, Decode(p, value), ax.groupSize, 0)
    ensures 0.0 <= r.setting <= 1.0
    ensures 0 <= r.index <= Max(0, ax.groupSize - 2)
    ensures r.index + 1 < |ax.poseKeys| && ax.poseKeys[r.index + 1] != ax.poseKeys[r.index]
    ensures forall j :: 0 <= j < r.index ==> Skipped(ax.poseKeys, Decode(p, value), ax.groupSize, j)
    ensures !Skipped(ax.poseKeys, Decode(p, value), ax.groupSize, r.index)
    ensures r.setting == Clamp01(KeyFraction(ax.poseKeys, Decode(p, value), r.index))
  {
    var v := Decode(p, value);
    var k := KeyScan(ax.poseKeys, v, ax.groupSize, 0);
    LocalSetting(Clamp01(KeyFraction(ax.poseKeys, v, k)), k)
  }

  /** Key `j` is strictly below key `j+1`. */
  predicate KeyRises(keys: seq<real>, j: int) {
    0 <= j && j + 1 < |keys| && keys[j] < keys[j + 1]
  }

  /** The first `gs` keys strictly increase. */
  predicate IncreasingKeys(keys: seq<real>, gs: int) {
    gs >= 2 && |keys| >= gs && forall j :: 0 <= j < gs - 1 ==> KeyRises(keys, j)
  }

  /** Over a rising interval, the fraction overshoots exactly when the value passes the upper key. */
  lemma RisingFraction(keys: seq<real>, value: real, j: int)
    requires KeyRises(keys, j)
    ensures KeyFraction(keys, value, j) > 1.0 <==> value > keys[j + 1]
    ensures KeyFraction(keys, value, j) >= 0.0 <==> value >= keys[j]
  {
    var d := keys[j + 1] - keys[j];
    var f := KeyFraction(keys, value, j);
    assert f * d == value - keys[j];
    SignOfQuotient(f - 1.0, d, value - keys[j + 1]);
    SignOfQuotient(f, d, value - keys[j]);
  }

  /**
   With increasing keys and `keys[i] <= value <= keys[gs-1]`, the scan from
   `i` is safe and stops at the interval that brackets `value`, having
   skipped only intervals whose upper key lies below it.
   */
  lemma {:induction false} KeyScanBracketsFrom(keys: seq<real>, value: real, gs: int, i: int)
    requires IncreasingKeys(keys, gs) && 0 <= i <= gs - 2
    requires keys[i] <= value <= keys[gs - 1]
    ensures KeyScanSafe(keys, value, gs, i)
    ensures var k := KeyScan(keys, value, gs, i);
      keys[k] <= value <= keys[k + 1] && (forall j :: i < j <= k ==> keys[j] < value)
    decreases gs - i
  {
    assert KeyRises(keys, i);
    RisingFraction(keys, value, i);
    if i < gs - 2 && KeyFraction(keys, value, i) > 1.0 {
      KeyScanBracketsFrom(keys, value, gs, i + 1);
      var k := KeyScan(keys, value, gs, i + 1);
      assert KeyScan(keys, value, gs, i) == k;
      assert keys[i + 1] < value;
    } else {
      assert KeyScan(keys, value, gs, i) == i;
    }
  }

  /**
   The key search against its reference: for increasing keys and a value
   inside the table, the scan returns the first interval whose upper key is
   at least the value, that interval brackets the value, and the clamp
   leaves the fraction across it unchanged.
   */
  lemma KeyScanBrackets(keys: seq<real>, value: real, gs: int)
    requires IncreasingKeys(keys, gs)
    requires keys[0] <= value <= keys[gs - 1]
    ensures KeyScanSafe(keys, value, gs, 0)
    ensures var k := KeyScan(keys, value, gs, 0);
      0 <= k <= gs - 2 && keys[k] <= value <= keys[k + 1] &&
      (forall j :: 0 < j <= k ==> keys[j] < value) &&
      Clamp01(KeyFraction(keys, value, k)) == KeyFraction(keys, value, k)
  {
    KeyScanBracketsFrom(keys, value, gs, 0);
    var k := KeyScan(keys, value, gs, 0);
    assert KeyRises(keys, k);
    RisingFraction(keys, value, k);
  }

  /** Below the first key of an increasing table the scan stays at interval 0 and the clamp gives 0. */
  lemma KeyScanBelowFirst(keys: seq<real>, value: real, gs: int)
    requires IncreasingKeys(keys, gs) && value < keys[0]
    ensures KeyScanSafe(keys, value, gs, 0)
    ensures KeyScan(keys, value, gs, 0) == 0
    ensures Clamp01(KeyFraction(keys, value, 0)) == 0.0
  {
    assert KeyRises(keys, 0);
    RisingFraction(keys, value, 0);
  }

  /** Above the last key of an increasing table the scan reaches the last interval and the clamp gives 1. */
  lemma KeyScanAboveLast(keys: seq<real>, value: real, gs: int)
    requires IncreasingKeys(keys, gs) && value > keys[gs - 1]
    ensures KeyScanSafe(keys, value, gs, 0)
    ensures KeyScan(keys, value, gs, 0) == gs - 2
    ensures Clamp01(KeyFraction(keys, value, gs - 2)) == 1.0
  {
    KeyScanAboveFrom(keys, value, gs, 0);
    assert KeyRises(keys, gs - 2);
    RisingFraction(keys, value, gs - 2);
  }

  lemma {:induction false} KeyScanAboveFrom(keys: seq<real>, value: real, gs: int, i: int)
    requires IncreasingKeys(keys, gs) && value > keys[gs - 1] && 0 <= i <= gs - 2
    ensures KeyScanSafe(keys, value, gs, i)
    ensures KeyScan(keys, value, gs, i) == gs - 2
    decreases gs - i
  {
    assert KeyRises(keys, i);
    RisingFraction(keys, value, i);
    if i < gs - 2 {
      KeysBelowLast(keys, gs, i + 1);
      KeyScanAboveFrom(keys, value, gs, i + 1);
    }
  }

  /** In an increasing table every key up to the last is at most the last. */
  lemma {:induction false} KeysBelowLast(keys: seq<real>, gs: int, j: int)
    requires IncreasingKeys(keys, gs) && 0 <= j <= gs - 1
    ensures keys[j] <= keys[gs - 1]
    decreases gs - j
  {
    if j < gs - 1 {
      assert KeyRises(keys, j);
      KeysBelowLast(keys, gs, j + 1);
    }
  }

  // ---------------------------------------------------------------------------
  // The resolver

  /**
   What the resolver needs of its inputs: the driving parameter is -1 or
   names a header parameter and a slot of `poseParameter`; an evenly spaced
   axis needs non-degenerate parameter and axis ranges (it divides by both);
   a key table needs the intervals the scan visits to exist and be non-empty.
   */
  predicate LocalPoseDefined(hdr: StudioHdr, poseParameter: seq<real>, sd: SeqDesc, iSequence: int, a: AxisIndex) {
    var iPose := SharedPose(hdr, sd, iSequence, a);
    var ax := Axis(sd, a);
    iPose == -1 ||
    (0 <= iPose < |hdr.poseParams| && iPose < |poseParameter| &&
     var p := hdr.poseParams[iPose];
     var value := Wrap(p, poseParameter[iPose]);
     if !sd.usesPoseKeys then p.end != p.start && ax.paramEnd != ax.paramStart
     else KeyScanSafe(ax.poseKeys, Decode(p, value), ax.groupSize, 0))
  }

  /**
   `Studio_LocalPoseParameter` for axis `a` of sequence `iSequence`. An axis
   no parameter drives sits at the start of interval 0. Otherwise the
   parameter's control value, wrapped if the parameter is cyclic, is
   resolved on the evenly spaced grid or against the pose keys. The setting
   is always in [0,1] and the index always names an interval of the grid.
   */
  function LocalPoseParameter(hdr: StudioHdr, poseParameter: seq<real>, sd: SeqDesc, iSequence: int, a: AxisIndex): (r: LocalSetting)
    requires LocalPoseDefined(hdr, poseParameter, sd, iSequence, a)
    ensures SharedPose(hdr, sd, iSequence, a) == -1 ==> r == LocalSetting(0.0, 0)
    ensures 0.0 <= r.setting <= 1.0
    ensures 0 <= r.index <= Max(0, Axis(sd, a).groupSize - 2)
    ensures SharedPose(hdr, sd, iSequence, a) != -1 ==>
      var iPose := SharedPose(hdr, sd, iSequence, a);
      var p := hdr.poseParams[iPose];
      var value := Wrap(p, poseParameter[iPose]);
      (!sd.usesPoseKeys ==> r == UniformSetting(p, Axis(sd, a), value)) &&
      (sd.usesPoseKeys ==> r == KeyTableSetting(p, Axis(sd, a), value))
  {
    var iPose := SharedPose(hdr, sd, iSequence, a);
    if iPose == -1 then
      LocalSetting(0.0, 0)
    else
      var p := hdr.poseParams[iPose];
      var value := Wrap(p, poseParameter[iPose]);
      if !sd.usesPoseKeys then UniformSetting(p, Axis(sd, a), value)
      else KeyTableSetting(p, Axis(sd, a), value)
  }

  /**
   On an evenly spaced axis driven by a non-cyclic parameter, the control
   value that encodes the axis's `paramStart` resolves to the start of the
   grid, and the one that encodes `paramEnd` to the end of its last interval.
   */
  lemma UniformAtLocalEnds(hdr: StudioHdr, poseParameter: seq<real>, sd: SeqDesc, iSequence: int, a: AxisIndex)
    requires LocalPoseDefined(hdr, poseParameter, sd, iSequence, a)
    requires SharedPose(hdr, sd, iSequence, a) != -1 && !sd.usesPoseKeys
    requires hdr.poseParams[SharedPose(hdr, sd, iSequence, a)].loop == 0.0
    ensures var iPose := SharedPose(hdr, sd, iSequence, a);
      var p := hdr.poseParams[iPose];
      var ax := Axis(sd, a);
      var r := LocalPoseParameter(hdr, poseParameter, sd, iSequence, a);
      (poseParameter[iPose] == (ax.paramStart - p.start) / (p.end - p.start) ==> r == LocalSetting(0.0, 0)) &&
      (poseParameter[iPose] == (ax.paramEnd - p.start) / (p.end - p.start) ==>
         r == LocalSetting(1.0, Max(0, ax.groupSize - 2)))
  {
    var iPose := SharedPose(hdr, sd, iSequence, a);
    var p := hdr.poseParams[iPose];
    var ax := Axis(sd, a);
    var r := LocalPoseParameter(hdr, poseParameter, sd, iSequence, a);
    if ax.groupSize > 2 && poseParameter[iPose] == (ax.paramStart - p.start) / (p.end - p.start) {
      assert r.index as real + r.setting == 0.0;
    }
    if ax.groupSize > 2 && poseParameter[iPose] == (ax.paramEnd - p.start) / (p.end - p.start) {
      assert r.setting == 1.0;
    }
  }

  /**
   On a key-table axis with increasing keys, a parameter whose decoded value
   lies inside the table resolves to the interval that brackets it, with the
   unclamped fraction across that interval.
   */
  lemma KeyTableBrackets(hdr: StudioHdr, poseParameter: seq<real>, sd: SeqDesc, iSequence: int, a: AxisIndex)
    requires SharedPose(hdr, sd, iSequence, a) != -1 && sd.usesPoseKeys
    requires var iPose := SharedPose(hdr, sd, iSequence, a);
      0 <= iPose < |hdr.poseParams| && iPose < |poseParameter|
    requires IncreasingKeys(Axis(sd, a).poseKeys, Axis(sd, a).groupSize)
    requires var iPose := SharedPose(hdr, sd, iSequence, a);
      var p := hdr.poseParams[iPose];
      var keys := Axis(sd, a).poseKeys;
      keys[0] <= Decode(p, Wrap(p, poseParameter[iPose])) <= keys[Axis(sd, a).groupSize - 1]
    ensures LocalPoseDefined(hdr, poseParameter, sd, iSequence, a)
    ensures var iPose := SharedPose(hdr, sd, iSequence, a);
      var p := hdr.poseParams[iPose];
      var keys := Axis(sd, a).poseKeys;
      var v := Decode(p, Wrap(p, poseParameter[iPose]));
      var r := LocalPoseParameter(hdr, poseParameter, sd, iSequence, a);
      keys[r.index] <= v <= keys[r.index + 1] && r.setting == KeyFraction(keys, v, r.index)
  {
    var iPose := SharedPose(hdr, sd, iSequence, a);
    var p := hdr.poseParams[iPose];
    var ax := Axis(sd, a);
    KeyScanBrackets(ax.poseKeys, Decode(p, Wrap(p, poseParameter[iPose])), ax.groupSize);
  }
}
