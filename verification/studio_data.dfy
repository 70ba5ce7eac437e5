/**
 The read-only animation asset tables the blending code queries. The
 header's accessors are given as immutable tables: sequences where the code
 indexes them with a bounds check, total functions where it relies on the
 asset store to answer any index it is handed.
 */
module StudioData {
  import opened Geometry

  datatype Option<T> = None | Some(value: T)

  /** A pose parameter's range in raw units and its cyclic period (0 = not cyclic). */
  datatype PoseParamDesc = PoseParamDesc(start: real, end: real, loop: real)

  /**
   One segment of a clip's root-motion track: it ends at integer frame
   `endframe`, its speed ramps linearly from `v0` to `v1` along the direction
   `vector`, and `position`/`angle` are the cumulative displacement and yaw
   at its end.
   */
  datatype Movement = Movement(endframe: int, v0: real, v1: real, vector: Vec3, position: Vec3, angle: real)

  /** An animation clip: playback rate, frame count, the delta-motion flag and its movement segments. */
  datatype AnimDesc = AnimDesc(fps: real, numframes: int, isDelta: bool, movements: seq<Movement>)

  /**
   One blend axis of a sequence: the sequence-local pose parameter slot it
   reads, the sub-range of that parameter it spans, how many grid cells lie
   along it, and (for key-table resolution) the grid-boundary pose keys.
   */
  datatype AxisDesc = AxisDesc(paramIndex: int, paramStart: real, paramEnd: real, groupSize: int, poseKeys: seq<real>)

  /** The two axis indices of a sequence's blend grid. */
  type AxisIndex = a: int | 0 <= a < 2

  /**
   A sequence descriptor. `usesPoseKeys` is the source's `posekeyindex != 0`;
   `anim` maps a grid cell to a sequence-relative clip number; `boneWeight0`
   is the sequence's weight for bone 0.
   */
  datatype SeqDesc = SeqDesc(
    axis0: AxisDesc,
    axis1: AxisDesc,
    usesPoseKeys: bool,
    anim: (int, int) -> int,
    boneWeight0: real)

  function Axis(sd: SeqDesc, a: AxisIndex): AxisDesc {
    if a == 0 then sd.axis0 else sd.axis1
  }

  /**
   The model header. `sharedPose(seq, local)` resolves a sequence's local pose
   slot to a header pose parameter (or -1); `relativeAnim(seq, a)` turns a
   sequence-relative clip number into a header clip number; `animDesc` and
   `seqDesc` look clips and sequences up by number.
   */
  datatype StudioHdr = StudioHdr(
    poseParams: seq<PoseParamDesc>,
    numSeq: int,
    sharedPose: (int, int) -> int,
    relativeAnim: (int, int) -> int,
    animDesc: int -> AnimDesc,
    seqDesc: int -> SeqDesc)
}
