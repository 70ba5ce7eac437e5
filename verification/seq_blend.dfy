/**
 The blend of a sequence (`Studio_SeqAnims`): the two local pose settings
 pick a cell of the sequence's clip grid, and the four clips at the corners
 of that cell are mixed with bilinear weights.
 */
module SeqBlend {
  import opened StudioData
  import opened LocalPose

  /**
   The four corner clips and their weights, in the source's order: the
   corner (0,0), then (1,0), (0,1) and (1,1) relative to the cell. A corner
   the function does not write (the early return) is `None`.
   */
  datatype Blend = Blend(anims: seq<Option<AnimDesc>>, weights: seq<real>)

  /** The grid coordinates of corner `k` of the cell whose lower corner is `(i0, i1)`. */
  function Corner(i0: int, i1: int, k: int): (int, int) {
    (i0 + k % 2, i1 + k / 2)
  }

  /** The header is present and knows the sequence: the case in which the blend is computed. */
  predicate Resolvable(hdr: Option<StudioHdr>, iSequence: int) {
    hdr.Some? && iSequence < hdr.value.numSeq
  }

  /** Both axes of the sequence can be resolved whenever the blend is computed. */
  predicate SeqAnimsDefined(hdr: Option<StudioHdr>, poseParameter: seq<real>, sd: SeqDesc, iSequence: int) {
    Resolvable(hdr, iSequence) ==>
      LocalPoseDefined(hdr.value, poseParameter, sd, iSequence, 0) &&
      LocalPoseDefined(hdr.value, poseParameter, sd, iSequence, 1)
  }

  /** The clip the header stores for grid cell `cell` of sequence `iSequence`. */
  function CellAnim(hdr: StudioHdr, sd: SeqDesc, iSequence: int, cell: (int, int)): AnimDesc {
    hdr.animDesc(hdr.relativeAnim(iSequence, sd.anim(cell.0, cell.1)))
  }

  /**
   `Studio_SeqAnims`. Without a header, or for a sequence number past the
   header's count, every weight is 0 and no clip is chosen. Otherwise each
   corner `k` holds the clip of its grid cell, every weight lies in [0,1],
   the weights sum to 1, their far-side marginals are the two local
   settings, and the two axes blend independently.
   */
  function SeqAnims(hdr: Option<StudioHdr>, sd: SeqDesc, iSequence: int, poseParameter: seq<real>): (b: Blend)
    requires SeqAnimsDefined(hdr, poseParameter, sd, iSequence)
    ensures |b.anims| == 4 && |b.weights| == 4
    ensures forall k :: 0 <= k < 4 ==> 0.0 <= b.weights[k] <= 1.0
    ensures !Resolvable(hdr, iSequence) ==>
      b.weights == [0.0, 0.0, 0.0, 0.0] && b.anims == [None, None, None, None]
    ensures Resolvable(hdr, iSequence) ==>
      b.weights[0] + b.weights[1] + b.weights[2] + b.weights[3] == 1.0
    ensures Resolvable(hdr, iSequence) ==> Independent(b.weights)
    ensures Resolvable(hdr, iSequence) ==>
      b.weights[1] + b.weights[3] == LocalPoseParameter(hdr.value, poseParameter, sd, iSequence, 0).setting &&
      b.weights[2] + b.weights[3] == LocalPoseParameter(hdr.value, poseParameter, sd, iSequence, 1).setting
    ensures Resolvable(hdr, iSequence) ==>
      var l0 := LocalPoseParameter(hdr.value, poseParameter, sd, iSequence, 0);
      var l1 := LocalPoseParameter(hdr.value, poseParameter, sd, iSequence, 1);
      forall k :: 0 <= k < 4 ==> b.anims[k] == Some(CellAnim(hdr.value, sd, iSequence, Corner(l0.index, l1.index, k)))
  {
    if !Resolvable(hdr, iSequence) then
      Blend([None, None, None, None], [0.0, 0.0, 0.0, 0.0])
    else
      var h := hdr.value;
      CellBlend(h, sd, iSequence, LocalPoseParameter(h, poseParameter, sd, iSequence, 0),
                LocalPoseParameter(h, poseParameter, sd, iSequence, 1))
  }

  /** The four corner clips of the cell at `(l0.index, l1.index)`, weighted for the point `(l0.setting, l1.setting)`. */
  function CellBlend(h: StudioHdr, sd: SeqDesc, iSequence: int, l0: LocalSetting, l1: LocalSetting): (b: Blend)
    requires 0.0 <= l0.setting <= 1.0 && 0.0 <= l1.setting <= 1.0
    ensures |b.anims| == 4 && b.weights == CornerWeights(l0.setting, l1.setting)
    ensures forall k :: 0 <= k < 4 ==> b.anims[k] == Some(CellAnim(h, sd, iSequence, Corner(l0.index, l1.index, k)))
  {
    var i0, i1 := l0.index, l1.index;
    Blend(
      [Some(CellAnim(h, sd, iSequence, (i0, i1))),
       Some(CellAnim(h, sd, iSequence, (i0 + 1, i1))),
       Some(CellAnim(h, sd, iSequence, (i0, i1 + 1))),
       Some(CellAnim(h, sd, iSequence, (i0 + 1, i1 + 1)))],
      CornerWeights(l0.setting, l1.setting))
  }

  /**
   The two axes of a four-corner blend are independent: the products of
   the weights of opposite corners agree, which is what makes the weights
   those of a product of two one-axis blends.
   */
  predicate Independent(w: seq<real>)
    requires |w| == 4
  {
    w[0] * w[3] == w[1] * w[2]
  }

  /**
   The bilinear weights of the four corners, in corner order, for the point
   `(s0, s1)` of the unit cell: each in [0,1], summing to 1, with far-side
   marginals `s0` and `s1`, and the two axes blending independently.
   */
  function CornerWeights(s0: real, s1: real): (w: seq<real>)
    requires 0.0 <= s0 <= 1.0 && 0.0 <= s1 <= 1.0
    ensures |w| == 4 && forall k :: 0 <= k < 4 ==> 0.0 <= w[k] <= 1.0
    ensures w[0] + w[1] + w[2] + w[3] == 1.0
    ensures w[1] + w[3] == s0 && w[2] + w[3] == s1
    ensures Independent(w)
  {
    BilinearWeights(s0, s1);
    [(1.0 - s0) * (1.0 - s1), s0 * (1.0 - s1), (1.0 - s0) * s1, s0 * s1]
  }

  /** The four bilinear weights of a point of the unit square are fractions that sum to 1. */
  lemma BilinearWeights(s0: real, s1: real)
    requires 0.0 <= s0 <= 1.0 && 0.0 <= s1 <= 1.0
    ensures 0.0 <= (1.0 - s0) * (1.0 - s1) <= 1.0 && 0.0 <= s0 * (1.0 - s1) <= 1.0
    ensures 0.0 <= (1.0 - s0) * s1 <= 1.0 && 0.0 <= s0 * s1 <= 1.0
    ensures (1.0 - s0) * (1.0 - s1) + s0 * (1.0 - s1) + (1.0 - s0) * s1 + s0 * s1 == 1.0
    ensures s0 * (1.0 - s1) + s0 * s1 == s0 && (1.0 - s0) * s1 + s0 * s1 == s1
    ensures ((1.0 - s0) * (1.0 - s1)) * (s0 * s1) == (s0 * (1.0 - s1)) * ((1.0 - s0) * s1)
  {
    Regroup(1.0 - s0, 1.0 - s1, s0, s1);
    UnitProduct(1.0 - s0, 1.0 - s1);
    UnitProduct(s0, 1.0 - s1);
    UnitProduct(1.0 - s0, s1);
    UnitProduct(s0, s1);
  }

  /** Regrouping a product of four factors. */
  lemma Regroup(a: real, b: real, c: real, d: real)
    ensures (a * b) * (c * d) == (c * b) * (a * d)
  {
    assert (a * b) * (c * d) == a * (b * (c * d));
    assert (c * b) * (a * d) == a * (b * (c * d));
  }

  lemma UnitProduct(a: real, b: real)
    requires 0.0 <= a <= 1.0 && 0.0 <= b <= 1.0
    ensures 0.0 <= a * b <= 1.0
  {
    assert a * b <= a * 1.0 by {
      assert a * (1.0 - b) >= 0.0;
    }
  }

  /**
   The weights place the blend at the sequence's local position: the
   weighted mean of the four corners' grid coordinates is
   `(index0 + setting0, index1 + setting1)`.
   */
  lemma BlendCentroid(hdr: StudioHdr, sd: SeqDesc, iSequence: int, poseParameter: seq<real>)
    requires iSequence < hdr.numSeq
    requires SeqAnimsDefined(Some(hdr), poseParameter, sd, iSequence)
    ensures var b := SeqAnims(Some(hdr), sd, iSequence, poseParameter);
      var l0 := LocalPoseParameter(hdr, poseParameter, sd, iSequence, 0);
      var l1 := LocalPoseParameter(hdr, poseParameter, sd, iSequence, 1);
      Mean(b.weights, l0.index, l1.index, 0) == l0.index as real + l0.setting &&
      Mean(b.weights, l0.index, l1.index, 1) == l1.index as real + l1.setting
  {
    var b := SeqAnims(Some(hdr), sd, iSequence, poseParameter);
    var l0 := LocalPoseParameter(hdr, poseParameter, sd, iSequence, 0);
    var l1 := LocalPoseParameter(hdr, poseParameter, sd, iSequence, 1);
    var w := b.weights;
    assert |w| == 4 && w[0] + w[1] + w[2] + w[3] == 1.0;
    assert w[1] + w[3] == l0.setting && w[2] + w[3] == l1.setting;
    MeanOfMarginals(w, l0.index, l1.index);
  }

  /**
   The weighted mean, under weights `w`, of coordinate `axis` of the four
   corners of the cell at `(i0, i1)`, in the corner order of `Corner`.
   */
  function Mean(w: seq<real>, i0: int, i1: int, axis: AxisIndex): real
    requires |w| == 4
  {
    if axis == 0 then
      w[0] * (i0 as real) + w[1] * (i0 as real + 1.0) + w[2] * (i0 as real) + w[3] * (i0 as real + 1.0)
    else
      w[0] * (i1 as real) + w[1] * (i1 as real) + w[2] * (i1 as real + 1.0) + w[3] * (i1 as real + 1.0)
  }

  /** Under weights summing to 1, the mean along an axis is the lower coordinate plus the weight on the far side. */
  lemma MeanOfMarginals(w: seq<real>, i0: int, i1: int)
    requires |w| == 4 && w[0] + w[1] + w[2] + w[3] == 1.0
    ensures Mean(w, i0, i1, 0) == i0 as real + (w[1] + w[3])
    ensures Mean(w, i0, i1, 1) == i1 as real + (w[2] + w[3])
  {
    var x, y := i0 as real, i1 as real;
    assert w[0] * x + w[1] * (x + 1.0) + w[2] * x + w[3] * (x + 1.0)
        == (w[0] + w[1] + w[2] + w[3]) * x + (w[1] + w[3]);
    assert w[0] * y + w[1] * y + w[2] * (y + 1.0) + w[3] * (y + 1.0)
        == (w[0] + w[1] + w[2] + w[3]) * y + (w[2] + w[3]);
  }
}
