/** Types shared by the OpenCL post-processors in vpp/: the YamiStatus they return,
    the crop rectangle of a video frame, and C's 32-bit unsigned arithmetic. */
module VppCommon {

  /** YamiStatus, as far as the post-processors distinguish it. A status that
      ensureContext or the base class's setParameters passes through unchanged is
      carried as it came, so no numeric values are assumed. */
  datatype YamiStatus = YamiSuccess | YamiFail | YamiInvalidParam | YamiOther(code: int)

  const UINT32_MODULUS: int := 0x1_0000_0000

  type Uint32 = x: int | 0 <= x < 0x1_0000_0000

  /** C's conversion of an integer to uint32_t: reduction modulo 2^32. */
  function U32(x: int): (r: Uint32)
    ensures 0 <= x < 0x1_0000_0000 ==> r == x
    ensures -0x1_0000_0000 <= x < 0 ==> r == x + 0x1_0000_0000
    ensures (r - x) % 0x1_0000_0000 == 0
  {
    x % 0x1_0000_0000
  }

  /** YAMI_FOURCC('N','V','1','2'): the four characters packed little-endian. */
  const FOURCC_NV12: nat := 0x3231564E

  /** VideoRect: the crop rectangle, four uint32 fields. */
  datatype VideoRect = VideoRect(x: Uint32, y: Uint32, width: Uint32, height: Uint32)

  /** The parts of a VideoFrame the post-processors look at. */
  datatype VideoFrame = VideoFrame(fourcc: nat, crop: VideoRect)
}
