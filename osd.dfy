/** The on-screen-display post-processor of vpp/oclpostprocess_osd.cpp. Before the
    OpenCL kernel draws text in a colour contrasting with the background, the host
    walks the destination's luma plane in columns of blocks, one block per
    `blockWidth` columns across the crop's full height, and marks each block 1 when it
    is dark (its luma sum is at most the threshold times its pixel count) and 0 when it
    is bright. The OpenCL calls are opaque; a launch is recorded with its arguments. */
module Osd {
  import opened Wrappers
  import opened VppCommon

  type Byte = x: int | 0 <= x < 256

  type Int32 = x: int | -0x8000_0000 <= x < 0x8000_0000

  /** The luma plane (plane 0) of a mapped frame, row by row: pixel (x, y) is
      `plane[y][x]`. */
  type LumaPlane = seq<seq<Byte>>

  /** Coordinates are uint32 in the source: every row and the plane itself are shorter
      than 2^32, so no coordinate the loops compute wraps around. */
  predicate PlaneFits(plane: LumaPlane)
  {
    |plane| < 0x1_0000_0000 && forall y :: 0 <= y < |plane| ==> |plane[y]| < 0x1_0000_0000
  }

  /** The rectangle of `w` columns from `x0` and `h` rows from `y0` lies inside the plane. */
  predicate Covers(plane: LumaPlane, x0: nat, y0: nat, w: nat, h: nat)
  {
    y0 + h <= |plane| && forall y :: y0 <= y < y0 + h ==> x0 + w <= |plane[y]|
  }

  /** The sum of the `n` pixels of a row from column `x0`. */
  function RowSum(row: seq<Byte>, x0: nat, n: nat): (sum: nat)
    requires x0 + n <= |row|
    ensures sum <= 255 * n
  {
    if n == 0 then 0 else RowSum(row, x0, n - 1) + row[x0 + n - 1]
  }

  /** The sum of the luma over a rectangle, row by row. */
  function BlockSum(plane: LumaPlane, x0: nat, y0: nat, w: nat, h: nat): (sum: nat)
    requires Covers(plane, x0, y0, w, h)
  {
    if h == 0 then 0 else BlockSum(plane, x0, y0, w, h - 1) + RowSum(plane[y0 + h - 1], x0, w)
  }

  /** `(int)crop.width`: the uint32 reinterpreted as a 32-bit signed int. */
  function AsInt32(x: Uint32): (r: Int32)
    ensures x < 0x8000_0000 ==> r == x
    ensures x >= 0x8000_0000 ==> r < 0
  {
    if x < 0x8000_0000 then x else x - 0x1_0000_0000
  }

  /** C's `/` on int, which truncates toward zero. */
  function TruncDiv(a: int, b: int): (q: int)
    requires b > 0
    ensures a >= 0 ==> q == a / b
    ensures a < 0 ==> q <= 0
  {
    if a >= 0 then a / b else -((-a) / b)
  }

  /** The block count after the first step of computeBlockLuma: it grows to the number
      of whole blocks across the crop when that is larger, and never shrinks. A width
      of 2^31 or more reads as negative through the int cast and never grows it. */
  function GrownBlockCount(count: int, cropWidth: Uint32, blockWidth: int): (r: int)
    requires count >= 0 && blockWidth > 0
    ensures r >= count
    ensures cropWidth < 0x8000_0000 ==> r >= cropWidth / blockWidth
    ensures r == count || r == cropWidth / blockWidth
    ensures cropWidth >= 0x8000_0000 ==> r == count
  {
    if count < TruncDiv(AsInt32(cropWidth), blockWidth) then cropWidth / blockWidth else count
  }

  /** `m_threshold * m_blockWidth * crop.height`, computed in unsigned 32-bit arithmetic. */
  function BlockThreshold(threshold: Uint32, blockWidth: int, height: Uint32): Uint32
  {
    U32(threshold * blockWidth * height)
  }

  /** The left column of block `i`: blocks follow each other `w` columns apart. */
  function BlockLeft(x0: nat, i: nat, w: nat): nat
  {
    x0 + i * w
  }

  lemma BlockLeftNext(x0: nat, i: nat, w: nat)
    ensures BlockLeft(x0, i + 1, w) == BlockLeft(x0, i, w) + w
  {
  }

  /** Every block of the first `count` lies inside the plane. */
  ghost predicate BlocksCovered(plane: LumaPlane, crop: VideoRect, w: nat, count: nat)
  {
    forall i :: 0 <= i < count ==> Covers(plane, BlockLeft(crop.x, i, w), crop.y, w, crop.height)
  }

  /** One block's entry: 1 when its luma sum, as the 32-bit accumulator holds it, is at
      most the limit, and 0 otherwise. */
  function Dark(plane: LumaPlane, x0: nat, y0: nat, w: nat, h: nat, limit: Uint32): (d: int)
    requires Covers(plane, x0, y0, w, h)
    ensures d == 0 || d == 1
    ensures d == 1 <==> U32(BlockSum(plane, x0, y0, w, h)) <= limit
  {
    if U32(BlockSum(plane, x0, y0, w, h)) <= limit then 1 else 0
  }

  /** The classification of the first `count` blocks of the crop, against
      BlockThreshold. */
  function BlockLuma(plane: LumaPlane, crop: VideoRect, blockWidth: nat, threshold: Uint32, count: nat): (luma: seq<int>)
    requires BlocksCovered(plane, crop, blockWidth, count)
    ensures |luma| == count
  {
    seq(count, i requires 0 <= i < count =>
      Dark(plane, BlockLeft(crop.x, i, blockWidth), crop.y, blockWidth, crop.height,
           BlockThreshold(threshold, blockWidth, crop.height)))
  }

  lemma MulLeq(a: nat, b: nat, c: nat)
    requires a <= b
    ensures a * c <= b * c
  {
  }

  /** Block `i` of `count` lies inside the strip of `count` blocks. */
  lemma BlockInsideStrip(plane: LumaPlane, x0: nat, y0: nat, w: nat, h: nat, i: nat, count: nat)
    requires i < count && Covers(plane, x0, y0, count * w, h)
    ensures Covers(plane, BlockLeft(x0, i, w), y0, w, h)
  {
    MulLeq(i + 1, count, w);
  }

  /** When the strip of `count` blocks lies in the plane, so does every block. */
  lemma StripCoversBlocks(plane: LumaPlane, crop: VideoRect, w: nat, count: nat)
    requires Covers(plane, crop.x, crop.y, count * w, crop.height)
    ensures BlocksCovered(plane, crop, w, count)
  {
    forall i | 0 <= i < count
      ensures Covers(plane, BlockLeft(crop.x, i, w), crop.y, w, crop.height)
    {
      BlockInsideStrip(plane, crop.x, crop.y, w, crop.height, i, count);
    }
  }

  // ---------------------------------------------------------------------------
  // The blocks tile the strip.

  /** A run of pixels split at `a` sums to the sums of its two parts. */
  lemma {:induction false} RowSumSplit(row: seq<Byte>, x0: nat, a: nat, b: nat)
    requires x0 + a + b <= |row|
    ensures RowSum(row, x0, a + b) == RowSum(row, x0, a) + RowSum(row, x0 + a, b)
  {
    if b > 0 {
      RowSumSplit(row, x0, a, b - 1);
    }
  }

  /** A rectangle split at column `a` sums to the sums of its two parts. */
  lemma {:induction false} BlockSumSplit(plane: LumaPlane, x0: nat, y0: nat, a: nat, b: nat, h: nat)
    requires Covers(plane, x0, y0, a + b, h)
    ensures Covers(plane, x0, y0, a, h) && Covers(plane, x0 + a, y0, b, h)
    ensures BlockSum(plane, x0, y0, a + b, h) == BlockSum(plane, x0, y0, a, h) + BlockSum(plane, x0 + a, y0, b, h)
  {
    assert Covers(plane, x0, y0, a, h) && Covers(plane, x0 + a, y0, b, h);
    if h > 0 {
      assert Covers(plane, x0, y0, a + b, h - 1);
      BlockSumSplit(plane, x0, y0, a, b, h - 1);
      RowSumSplit(plane[y0 + h - 1], x0, a, b);
    }
  }

  /** A rectangle no column wide sums to zero. */
  lemma {:induction false} NarrowBlockSum(plane: LumaPlane, x0: nat, y0: nat, h: nat)
    requires Covers(plane, x0, y0, 0, h)
    ensures BlockSum(plane, x0, y0, 0, h) == 0
  {
    if h > 0 {
      assert Covers(plane, x0, y0, 0, h - 1);
      NarrowBlockSum(plane, x0, y0, h - 1);
    }
  }

  /** The sum of the first `count` block sums. */
  function BlocksTotal(plane: LumaPlane, x0: nat, y0: nat, w: nat, h: nat, count: nat): nat
    requires Covers(plane, x0, y0, count * w, h)
  {
    if count == 0 then 0
    else
      BlockInsideStrip(plane, x0, y0, w, h, count - 1, count);
      MulLeq(count - 1, count, w);
      BlocksTotal(plane, x0, y0, w, h, count - 1) + BlockSum(plane, BlockLeft(x0, count - 1, w), y0, w, h)
  }

  /** The blocks are contiguous and do not overlap: together they sum to exactly the
      strip of `count * w` columns starting at the crop's left edge. */
  lemma {:induction false} BlocksTileTheStrip(plane: LumaPlane, x0: nat, y0: nat, w: nat, h: nat, count: nat)
    requires Covers(plane, x0, y0, count * w, h)
    ensures BlocksTotal(plane, x0, y0, w, h, count) == BlockSum(plane, x0, y0, count * w, h)
  {
    if count > 0 {
      var a := (count - 1) * w;
      assert count * w == a + w;
      BlockSumSplit(plane, x0, y0, a, w, h);
      assert BlockLeft(x0, count - 1, w) == x0 + a;
      BlocksTileTheStrip(plane, x0, y0, w, h, count - 1);
      assert BlocksTotal(plane, x0, y0, w, h, count)
             == BlocksTotal(plane, x0, y0, w, h, count - 1) + BlockSum(plane, x0 + a, y0, w, h);
      assert BlockSum(plane, x0, y0, count * w, h) == BlockSum(plane, x0, y0, a + w, h);
    } else {
      NarrowBlockSum(plane, x0, y0, h);
    }
  }

  // ---------------------------------------------------------------------------
  // What an entry means.

  /** A rectangle of `w * h` pixels sums to at most 255 per pixel. */
  lemma {:induction false} BlockSumBound(plane: LumaPlane, x0: nat, y0: nat, w: nat, h: nat)
    requires Covers(plane, x0, y0, w, h)
    ensures BlockSum(plane, x0, y0, w, h) <= 255 * w * h
  {
    if h > 0 {
      assert Covers(plane, x0, y0, w, h - 1);
      BlockSumBound(plane, x0, y0, w, h - 1);
      assert 255 * w * h == 255 * w * (h - 1) + 255 * w;
    }
  }

  /** While neither the block's sum nor the threshold product wraps around 32 bits, a
      block is marked 1 exactly when its mean luma is at most the threshold. */
  lemma DarkIffMeanAtMostThreshold(plane: LumaPlane, x0: nat, y0: nat, w: nat, h: Uint32, threshold: Uint32)
    requires Covers(plane, x0, y0, w, h)
    requires 255 * w * h < 0x1_0000_0000
    requires threshold * w * h < 0x1_0000_0000
    ensures Dark(plane, x0, y0, w, h, BlockThreshold(threshold, w, h)) == 1
            <==> BlockSum(plane, x0, y0, w, h) <= threshold * w * h
  {
    BlockSumBound(plane, x0, y0, w, h);
  }

  /** The crop the kernel is given: the plane is read as two-byte pixels, so x and
      width are halved, and y is rounded down to an even row (`y & ~1`) to start on a
      chroma row pair. */
  function KernelCrop(crop: VideoRect): (r: VideoRect)
    ensures 2 * r.x <= crop.x < 2 * r.x + 2
    ensures 2 * r.width <= crop.width < 2 * r.width + 2
    ensures r.y % 2 == 0 && r.y <= crop.y < r.y + 2
    ensures r.height == crop.height
  {
    VideoRect(crop.x / OSD_PIXEL_SIZE, crop.y - crop.y % 2, crop.width / OSD_PIXEL_SIZE, crop.height)
  }

  /** getPixelSize of the destination image's CL_RG / CL_UNORM_INT8 format: two
      channels of one byte. */
  const OSD_PIXEL_SIZE: nat := 2

  /** What the OpenCL calls of one `process` call report: the status of ensureContext,
      whether the luma buffer is created and written, whether the two images are made,
      and whether the kernel takes its arguments and is enqueued. */
  datatype OsdEnv = OsdEnv(
    contextStatus: YamiStatus,
    lumaBufferWritten: bool,
    srcImageMade: bool,
    dstImageMade: bool,
    kernelLaunches: bool)

  /** The kernel launch: the adjusted crop, the block classification and the block width. */
  datatype OsdLaunch = OsdLaunch(crop: VideoRect, luma: seq<int>, blockWidth: int)

  class OclPostProcessOsd {
    var blockWidth: Int32
    var blockCount: int
    var threshold: Uint32
    var osdLuma: seq<int>

    /** The classification vector always has one 0-or-1 entry per block. */
    ghost predicate Valid()
      reads this`blockCount, this`osdLuma
    {
      0 <= blockCount && |osdLuma| == blockCount
      && forall i :: 0 <= i < |osdLuma| ==> osdLuma[i] == 0 || osdLuma[i] == 1
    }

    constructor()
      ensures blockWidth == 64 && blockCount == 0 && threshold == 128 && osdLuma == []
      ensures Valid()
    {
      blockWidth := 64;
      blockCount := 0;
      threshold := 128;
      osdLuma := [];
    }

    method SetBlockWidth(width: Int32) returns (status: YamiStatus)
      modifies this`blockWidth
      ensures blockWidth == width && status == YamiSuccess
    {
      blockWidth := width;
      status := YamiSuccess;
    }

    /** The int argument is stored in the uint32 field, so a negative one wraps. */
    method SetThreshold(t: Int32) returns (status: YamiStatus)
      modifies this`threshold
      ensures threshold == U32(t) && status == YamiSuccess
    {
      threshold := U32(t);
      status := YamiSuccess;
    }

    /** Grows the block count if the crop is wider, then rewrites every entry. */
    method ComputeBlockLuma(crop: VideoRect, plane: LumaPlane)
      requires Valid() && blockWidth > 0 && PlaneFits(plane)
      requires BlocksCovered(plane, crop, blockWidth, GrownBlockCount(blockCount, crop.width, blockWidth))
      modifies this`blockCount, this`osdLuma
      ensures Valid()
      ensures blockCount == GrownBlockCount(old(blockCount), crop.width, blockWidth)
      ensures osdLuma == BlockLuma(plane, crop, blockWidth, threshold, blockCount)
    {
      if blockCount < TruncDiv(AsInt32(crop.width), blockWidth) {
        blockCount := crop.width / blockWidth;
        osdLuma := osdLuma + seq(blockCount - |osdLuma|, _ => 0);
      }
      ghost var luma := BlockLuma(plane, crop, blockWidth, threshold, blockCount);
      var offsetX: nat := crop.x;
      var offsetY: nat := crop.y;
      var blockThreshold := U32(threshold * blockWidth * crop.height);
      var i := 0;
      while i < blockCount
        invariant 0 <= i <= blockCount && |osdLuma| == blockCount == |luma|
        invariant offsetX == BlockLeft(crop.x, i, blockWidth)
        invariant forall k :: 0 <= k < i ==> osdLuma[k] == luma[k]
      {
        var acc := SumBlock(plane, offsetX, offsetY, blockWidth, crop.height);
        osdLuma := osdLuma[i := if acc <= blockThreshold then 1 else 0];
        BlockLeftNext(crop.x, i, blockWidth);
        offsetX := offsetX + blockWidth;
        i := i + 1;
      }
      assert osdLuma == luma;
    }

    /** `process` on the destination frame whose luma plane is given: the context
        status first, then the block classification, which stays in place whatever
        the OpenCL calls after it report. */
    method Process(dst: VideoFrame, plane: LumaPlane, env: OsdEnv) returns (status: YamiStatus, launch: Option<OsdLaunch>)
      requires Valid()
      requires env.contextStatus == YamiSuccess ==>
                 blockWidth > 0 && PlaneFits(plane)
                 && BlocksCovered(plane, dst.crop, blockWidth, GrownBlockCount(blockCount, dst.crop.width, blockWidth))
      modifies this`blockCount, this`osdLuma
      ensures Valid()
      ensures env.contextStatus != YamiSuccess ==>
                status == env.contextStatus && launch.None?
                && blockCount == old(blockCount) && osdLuma == old(osdLuma)
      ensures env.contextStatus == YamiSuccess ==>
                blockCount == GrownBlockCount(old(blockCount), dst.crop.width, blockWidth)
                && osdLuma == BlockLuma(plane, dst.crop, blockWidth, threshold, blockCount)
                && (status == YamiSuccess || status == YamiFail)
                && (status == YamiSuccess
                    <==> env.lumaBufferWritten && env.srcImageMade && env.dstImageMade && env.kernelLaunches)
      ensures launch.Some? <==> status == YamiSuccess
      ensures launch.Some? ==> launch.value == OsdLaunch(KernelCrop(dst.crop), osdLuma, blockWidth)
    {
      status := env.contextStatus;
      launch := None;
      if status != YamiSuccess {
        return;
      }
      ComputeBlockLuma(dst.crop, plane);
      if !env.lumaBufferWritten || !env.srcImageMade || !env.dstImageMade || !env.kernelLaunches {
        return YamiFail, None;
      }
      launch := Some(OsdLaunch(KernelCrop(dst.crop), osdLuma, blockWidth));
    }
  }

  /** The two inner loops of computeBlockLuma: the 32-bit accumulator over one block. */
  method SumBlock(plane: LumaPlane, offsetX: nat, offsetY: nat, blockWidth: nat, height: nat) returns (acc: Uint32)
    requires Covers(plane, offsetX, offsetY, blockWidth, height)
    ensures acc == U32(BlockSum(plane, offsetX, offsetY, blockWidth, height))
  {
    acc := 0;
    var y := offsetY;
    while y < offsetY + height
      invariant offsetY <= y <= offsetY + height
      invariant Covers(plane, offsetX, offsetY, blockWidth, y - offsetY)
      invariant acc == U32(BlockSum(plane, offsetX, offsetY, blockWidth, y - offsetY))
    {
      WrapAdd(BlockSum(plane, offsetX, offsetY, blockWidth, y - offsetY), RowSum(plane[y], offsetX, blockWidth));
      acc := AddRow(plane[y], offsetX, blockWidth, acc);
      y := y + 1;
    }
  }

  /** The innermost loop: one row of a block added into the accumulator. */
  method AddRow(row: seq<Byte>, offsetX: nat, blockWidth: nat, acc0: Uint32) returns (acc: Uint32)
    requires offsetX + blockWidth <= |row|
    ensures acc == U32(acc0 + RowSum(row, offsetX, blockWidth))
  {
    acc := acc0;
    var x := offsetX;
    while x < offsetX + blockWidth
      invariant offsetX <= x <= offsetX + blockWidth
      invariant acc == U32(acc0 + RowSum(row, offsetX, x - offsetX))
    {
      WrapAdd(acc0 + RowSum(row, offsetX, x - offsetX), row[x]);
      acc := U32(acc + row[x]);
      x := x + 1;
    }
  }

  /** Adding to a wrapped value and wrapping again is wrapping the true sum. */
  lemma WrapAdd(a: int, b: int)
    ensures U32(U32(a) + b) == U32(a + b)
  {
  }
}
