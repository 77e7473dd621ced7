# libyami decoder and post-processing core, modelled in Dafny

This project models four pieces of libyami, Intel's VA-API video library.

- **The H.265 decoder's own logic** (`decoder/vaapidecoder_h265.cpp`):
  - NAL-unit type classification;
  - the picture-order-count derivation and its cross-picture state;
  - the NoRaslOutputFlag / PicOutputFlag rules;
  - the weighted-prediction table with its chroma-offset formula and `clip3`;
  - scaling-list selection and the DC bias;
  - the slice data byte offset and the reference-list reset;
  - the decode-context resize decision;
  - the NAL dispatch that groups slices into pictures and hands finished pictures to output.
- **The decoder's surface pool** (`decoder/vaapidecsurfacepool.cpp`). It is a fixed set of surfaces, each free or allocated with a set of outstanding obligations (decoding, to render, rendering). It also has a FIFO of render buffers and a flushing flag.
- **The OpenCL flip/rotate post-processor** (`vpp/oclpostprocess_transform.cpp`). It rewrites "flip both ways" as a half turn, chooses the kernels and their arguments, and caches a scratch image.
- **The OpenCL on-screen-display post-processor** (`vpp/oclpostprocess_osd.cpp`). It classifies fixed-width column blocks of the luma plane as dark or light against a threshold.

What the accelerator, the OpenCL runtime, the surface allocator and the bitstream parser answer is never computed. Each call's answers are parameters: `Backend`, `SliceParse` and `paramSetOk` for a decoded NAL unit; `OclEnv` and `OsdEnv` for a `process` call; `created` for pool creation. Behaviour is stated as a function of those answers.

## How the model is organised

- Files and modules:
  - `status.dfy` (`Status`): decode status values.
  - `h265_syntax.dfy` (`H265Syntax`): NAL types and parsed records.
  - `h265_poc.dfy` (`H265Poc`): order count.
  - `h265_params.dfy` (`H265Params`): parameter-buffer translation.
  - `h265_context.dfy` (`H265Context`): context sizing.
  - `h265_decoder.dfy` (`H265Decoder`): dispatch and the decoder object.
  - `surface_pool.dfy` (`SurfacePool`).
  - `vpp_common.dfy` (`VppCommon`): `YamiStatus`, `VideoRect` and 32-bit unsigned arithmetic.
  - `transform.dfy` (`Transform`).
  - `osd.dfy` (`Osd`).
  - `wrappers.dfy`: `Option`.
- **Classes mirror the source's objects.** `VaapiDecoderH265`, `DecSurfacePool`, `OclPostProcessTransform` and `OclPostProcessOsd` are classes whose methods update their fields in place. Each method is proved against a value-level specification function, for example `DecodeNaluSpec`, `ProcessSpec` or `BlockLuma`. The lemmas about the source's promises are stated on those functions.
- **Loops stay loops.** The fill loops (`FillReference`, `FillPredWeightTableList`, `FillScalingList*`), the pool's flush loop and the OSD's three nested loops are `for` or `while` loops with invariants.
- **C integer widths are explicit:**
  - uint32 wrap-around in the slice offset, the OSD accumulator, the OSD threshold product and the transform's `width / 4 - 1`;
  - the uint8 surface count and the uint8 chroma denominator;
  - int-to-uint32 conversion of the OSD threshold;
  - truncating int division in the OSD block-count test.

### Constants taken from headers that are not part of this model

| constant | value | where it is used |
|---|---|---|
| `DECODE_MEMORY_FAIL`, `DECODE_FAIL`, `DECODE_SUCCESS`, `DECODE_FORMAT_CHANGE` | -1, 0, 1, 2 | `Status` |
| `H265_EXTRA_SURFACE_NUMBER` | 5 | `H265Context` |
| `SURFACE_DECODING`, `SURFACE_TO_RENDER`, `SURFACE_RENDERING` | 1, 2, 4 | `SurfacePool.FlagBit` |
| `VPP_TRANSFORM_FLIP_H`, `_FLIP_V`, `_ROT_90`, `_ROT_180`, `_ROT_270` | 1, 2, 4, 8, 16 | `Transform` |
| `sizeof(VppParamTransform)` | 16 (a `size_t` and a `uint32_t` on LP64) | `Transform.TRANSFORM_PARAM_SIZE` |
| `YAMI_FOURCC('N','V','1','2')` | 0x3231564E | `VppCommon.FOURCC_NV12` |
| pixel size of the OSD's CL_RG / UNORM_INT8 image | 2 | `Osd.OSD_PIXEL_SIZE` |

With DECODE_SUCCESS = 1 and DECODE_FAIL = 0, the `bool` that `decodeSlice` returns as a status (vaapidecoder_h265.cpp:542) reads as SUCCESS or FAIL (`Status.StatusOfBool`).

### Where the code departs from ITU-T H.265 or from its own comments

The model follows the code in every case below.

- **First wrap-around test** (vaapidecoder_h265.cpp:479). It compares `pic_order_cnt_lsb` with the previous picture's order-count MSB. Section 8.3.1 of ITU-T H.265 compares it with the previous LSB. `H265Poc.ForwardWrapAfterZeroMsb` exhibits a stream where the code orders a picture before its predecessor. `H265Poc.AgreesWithStandardWhenFirstTestAgrees` says when the two derivations agree.
- **Previous-picture order count** (line 492). The condition `!isRasl || !isRadl` is always true, so the previous-picture state is overwritten after every picture, RASL and RADL pictures included. Section 8.3.1 of ITU-T H.265 takes the previous picture to be prevTid0Pic, the previous TemporalId-0 picture that is not a RASL, RADL or sub-layer non-reference picture. The code's comment at line 491 marks the sub-layer non-reference case as still to do, which shows the exemption was meant. `GetPoc` and `NewPictureOnNewStream` state the code's behaviour.
- **Chroma offset** (line 348). The code subtracts 128 where section 7.4.7.3 of ITU-T H.265 adds 128 (wpOffsetHalfRangeC at 8 bits). `H265Params.ChromaOffsetBelowStandard` and `ChromaOffsetAtUnitWeight` state the difference.
- **PicOutputFlag** (lines 508-509). The flag is written into the picture and nothing in the file reads it. `decodeCurrent` (lines 138-144) hands every submitted picture to output. A RASL picture with NoRaslOutputFlag, which section 8.1.3 of ITU-T H.265 does not output, is therefore still handed to output (`H265Decoder.RaslPictureIsOutput`).
- **`m_newStream`**. It is set by the constructor (line 105) and never cleared. Every picture therefore gets NoRaslOutputFlag, not only the first of a stream (`H265Decoder.NewStreamNeverCleared`).
- **Failed submission** (lines 138-141). The code does not drop the picture. It stays current with status SUCCESS. The next first slice segment replaces it, so it is lost (`H265Decoder.FailedSubmitLosesPicture`). A non-slice unit retries its submission.
- **Cropped height**. `ensureContext` stores the crop height as the configured height (line 447) but compares the coded height with it (line 439). A stream whose crop height is below its coded height asks for a rebuild, and reports FORMAT_CHANGE, on every slice (`H265Decoder.CroppedHeightNeverDecodes`).
- **Weight-table loop bound**. The loop reads `num_ref_idx_lN_active_minus1`, which `fillReference` has just set to 0xFF (lines 312-313, 398 before 429). Its last index is therefore 254, far past the 15-entry arrays. The model makes the bound explicit: `FillPredWeightTableList` requires it to fit the arrays.
- **Unknown bits in the transform word**. When both flips are requested, any word other than exactly ROT_90, ROT_180 or ROT_270 in the remaining bits becomes ROT_180. This covers unknown bits, two or three rotations together, and an empty rest; any rotation asked for beside the flips is then lost (`Transform.IrregularRestYieldsHalfTurn`).

## Model

| member | source | states |
|---|---|---|
| Status.StatusOfBool | decoder/vaapidecoder_h265.cpp:542 | the bool fillSlice returns reads as DECODE_SUCCESS exactly when true and as DECODE_FAIL exactly when false |
| H265Syntax.IsIdr | decoder/vaapidecoder_h265.cpp:46-50 | IDR exactly for NAL types 19 and 20 |
| H265Syntax.IsBla | decoder/vaapidecoder_h265.cpp:52-57 | BLA exactly for types 16..18, never also IDR |
| H265Syntax.IsIrap | decoder/vaapidecoder_h265.cpp:59-66 | IRAP exactly for IDR, BLA, CRA and the reserved types 22 and 23 |
| H265Syntax.IsRasl | decoder/vaapidecoder_h265.cpp:68-72 | RASL exactly for NAL types 8 and 9, never IRAP |
| H265Syntax.IsRadl | decoder/vaapidecoder_h265.cpp:74-78 | RADL exactly for NAL types 6 and 7, neither IRAP nor RASL |
| H265Syntax.IsSliceNal | decoder/vaapidecoder_h265.cpp:551 | the slice range holds every IDR, BLA, RASL and RADL type and no parameter set; only reserved IRAP types 22 and 23 fall outside it |
| H265Poc.MaxPicOrderCntLsb | decoder/vaapidecoder_h265.cpp:474 | MaxPicOrderCntLsb is 2 to the power log2_max_pic_order_cnt_lsb_minus4 + 4, even and at least 16 |
| H265Poc.PicOrderCntMsb | decoder/vaapidecoder_h265.cpp:476-488 | an IRAP picture with NoRaslOutputFlag gets MSB 0; any other gets the previous MSB, plus or minus MaxPicOrderCntLsb, or unchanged |
| H265Poc.PicOrderCnt | decoder/vaapidecoder_h265.cpp:489 | an IRAP picture with NoRaslOutputFlag has order count equal to its LSB |
| H265Poc.StandardPocIsNearestToPrevious | decoder/vaapidecoder_h265.cpp:476-488 | the reference derivation of section 8.3.1 places the new order count within half a MaxPicOrderCntLsb of the previous picture's |
| H265Poc.AgreesWithStandardWhenFirstTestAgrees | decoder/vaapidecoder_h265.cpp:479-487 | the code's MSB equals section 8.3.1's whenever the first wrap test gives the same answer on the previous MSB as on the previous LSB |
| H265Poc.ForwardWrapAfterZeroMsb | decoder/vaapidecoder_h265.cpp:479-486 | with Max 16, previous MSB 0 and LSB 15, a picture with LSB 0 gets order count 0 from the code and 16 from section 8.3.1 |
| H265Poc.MsbStaysAligned | decoder/vaapidecoder_h265.cpp:476-489 | in both the code's derivation and equation (8-1), a previous MSB that is a multiple of MaxPicOrderCntLsb stays one, so the order count is congruent to its LSB |
| H265Params.RasterFromZigzag | decoder/vaapidecoder_h265.cpp:152-155 | every coefficient lands at the raster position its zig-zag index names |
| H265Params.ZigzagRoundTrip | decoder/vaapidecoder_h265.cpp:152-155 | reading a filled raster list back in scan order returns the parsed list |
| H265Params.RasterRoundTrip | decoder/vaapidecoder_h265.cpp:152-155 | every raster list is the fill of its own scan-order reading |
| H265Params.FillScalingList | decoder/vaapidecoder_h265.cpp:149-156 | every list of a size class is stored converted to raster order |
| H265Params.FillScalingListDc | decoder/vaapidecoder_h265.cpp:163-170 | each DC entry is scaling_list_dc_coef_minus8 + 8, in 1..255 for in-range coefficients |
| H265Params.ScalingListSource | decoder/vaapidecoder_h265.cpp:177-188 | the PPS list if present, else the SPS list if enabled and present, else none |
| H265Params.FillIqMatrix | decoder/vaapidecoder_h265.cpp:175-199 | true with nothing written when no list applies; false with nothing written when no buffer is available; otherwise the matrix holds the selected list |
| H265Params.SliceDataByteOffset | decoder/vaapidecoder_h265.cpp:382-387 | the offset is a uint32 value |
| H265Params.SliceDataFollowsHeader | decoder/vaapidecoder_h265.cpp:385-386 | without wrap-around the offset counts the header's bits rounded up to whole bytes |
| H265Params.SliceDataOffsetWraps | decoder/vaapidecoder_h265.cpp:385-386 | more emulation prevention bytes than header bytes wrap the uint32 result to 2^32 - 1 |
| H265Params.Clip3 | decoder/vaapidecoder_h265.cpp:323-330 | the result lies in [x, y], is z when z does, and is x when z is below it |
| H265Params.ChromaOffset | decoder/vaapidecoder_h265.cpp:344-351 | the stored offset is always in [-128, 127] and equals the unclipped formula when that is in range |
| H265Params.ChromaOffsetBelowStandard | decoder/vaapidecoder_h265.cpp:345-348 | before clipping the code's offset is 256 below section 7.4.7.3's, so it is never above it |
| H265Params.ChromaOffsetAtUnitWeight | decoder/vaapidecoder_h265.cpp:345-351 | at denominator 7 with no deltas the code stores -128 where the standard gives 0 |
| H265Params.ChromaLog2WeightDenom | decoder/vaapidecoder_h265.cpp:367-374 | a uint8; without chroma (chroma_format_idc 0) it is the luma denominator |
| H265Params.WeightTableApplies | decoder/vaapidecoder_h265.cpp:365-366 | the table is filled exactly for weighted-prediction P slices and weighted-bipred B slices, never for I slices |
| H265Params.WeightTableL1Applies | decoder/vaapidecoder_h265.cpp:376 | list 1 is filled only for a B slice whose table is filled |
| H265Params.SliceParameters.FillReference | decoder/vaapidecoder_h265.cpp:309-321 | both active counts and all 2 x 15 list entries become 0xFF, and it succeeds |
| H265Params.SliceParameters.FillPredWeightTableList | decoder/vaapidecoder_h265.cpp:332-355 | below the loop bound, luma entries are copied where the luma flag is set and chroma weights and clipped offsets written where the chroma flag is set; every other entry of both lists is unchanged |
| H265Params.SliceParameters.FillPredWeightTable | decoder/vaapidecoder_h265.cpp:360-380 | denominators recorded and list 0 (and list 1 for bipred B slices) filled only when the table applies; otherwise nothing changes; always succeeds |
| H265Params.SliceParameters.FillChromaEntry | decoder/vaapidecoder_h265.cpp:342-352 | both chroma components of one entry get the delta weight and the clipped offset; nothing else changes |
| H265Context.RequiredSurfaces | decoder/vaapidecoder_h265.cpp:437 | the uint8 count max_dec_pic_buffering_minus1 + 1 + extra, exact when below 256 |
| H265Context.Reconfigured | decoder/vaapidecoder_h265.cpp:446-453 | display size from the crop rectangle where nonzero, surfaces of the coded size, the required count, surface-number flag on, native buffers off, HEVC Main |
| H265Context.EnsureContextResult | decoder/vaapidecoder_h265.cpp:435-460 | no rebuild gives SUCCESS with the config kept; a teardown failure is returned with the config kept; otherwise the rebuilt config with start's failure or FORMAT_CHANGE; SUCCESS exactly when no rebuild is needed |
| H265Context.ReconfigureSettles | decoder/vaapidecoder_h265.cpp:438-447 | after a rebuild the same SPS fits exactly when its crop width is unset or equal to the width and its crop height is unset or not below the height |
| H265Decoder.PicOutputFlag | decoder/vaapidecoder_h265.cpp:508-509 | false exactly for a RASL picture with NoRaslOutputFlag, otherwise the header's flag |
| H265Decoder.Identified | decoder/vaapidecoder_h265.cpp:585-591 | keeps exactly the units the identifier accepted: every kept unit was accepted and comes from the buffer, and every accepted unit of the buffer is kept |
| H265Decoder.DecodeNalsAppend | decoder/vaapidecoder_h265.cpp:585-593 | decoding a buffer in two pieces is decoding the first and, unless it failed, continuing from its state |
| H265Decoder.StopsAtFirstFailure | decoder/vaapidecoder_h265.cpp:588-590 | the first failing unit's state and status are the buffer's result; later units are ignored |
| H265Decoder.UnidentifiedUnitsSkipped | decoder/vaapidecoder_h265.cpp:587 | units the identifier rejects change nothing |
| H265Decoder.NaluKeepsNewStream | decoder/vaapidecoder_h265.cpp:546-575 | no unit clears m_newStream or produces a picture without NoRaslOutputFlag |
| H265Decoder.NewStreamNeverCleared | decoder/vaapidecoder_h265.cpp:102-108 | after any buffer m_newStream is still set and every held or output picture has NoRaslOutputFlag |
| H265Decoder.NewPictureOnNewStream | decoder/vaapidecoder_h265.cpp:498-514 | a new picture gets the surface and time stamp; an IRAP picture's order count is its LSB; a RASL picture gets PicOutputFlag false; the previous-picture state is replaced for every type |
| H265Decoder.FirstSliceStartsPicture | decoder/vaapidecoder_h265.cpp:530-542 | a first slice segment outputs the picture in progress and starts one on the new surface with filled parameters and this slice only |
| H265Decoder.LaterSliceJoinsPicture | decoder/vaapidecoder_h265.cpp:540-542 | a later slice segment appends one slice to the current picture, or fails with nothing changed when there is none |
| H265Decoder.TwoPicturesFromTwoFirstSlices | decoder/vaapidecoder_h265.cpp:530-542 | two first slice segments from an idle decoder output the first picture and hold the second |
| H265Decoder.FailedSubmitLosesPicture | decoder/vaapidecoder_h265.cpp:133-146 | a failed submission outputs nothing and the next first slice segment replaces the picture |
| H265Decoder.ReconfigureInterruptsSlice | decoder/vaapidecoder_h265.cpp:526-529 | a slice needing a rebuild never reaches a picture; the status is not SUCCESS, FORMAT_CHANGE after a clean rebuild |
| H265Decoder.CroppedHeightNeverDecodes | decoder/vaapidecoder_h265.cpp:438-447 | with a crop height below the coded height, every slice after the rebuild asks for another one and is not decoded |
| H265Decoder.ReconfigureIsIdempotent | decoder/vaapidecoder_h265.cpp:446-453 | rebuilding twice for one SPS gives the configuration of rebuilding once |
| H265Decoder.NonSliceUnitCompletesPicture | decoder/vaapidecoder_h265.cpp:553-571 | any other unit outputs the current picture first; an output failure is returned, otherwise a parameter set reports the parser's verdict and any other unit succeeds |
| H265Decoder.RaslPictureIsOutput | decoder/vaapidecoder_h265.cpp:133-146 | a RASL first slice on a new stream starts a picture with PicOutputFlag false, and the next non-slice unit still appends that picture to the output |
| H265Decoder.VaapiDecoderH265.constructor | decoder/vaapidecoder_h265.cpp:102-108 | order count state zero, a new stream, no current picture |
| H265Decoder.VaapiDecoderH265.Start | decoder/vaapidecoder_h265.cpp:116-119 | start succeeds |
| H265Decoder.VaapiDecoderH265.DecodeParamSet | decoder/vaapidecoder_h265.cpp:121-125 | SUCCESS exactly when the parser accepts the unit, FAIL otherwise |
| H265Decoder.VaapiDecoderH265.DecodeCurrent | decoder/vaapidecoder_h265.cpp:133-146 | the new members and status are DecodeCurrentSpec's: no picture or failed submission keep the state with SUCCESS; otherwise output's status and the picture appended to output |
| H265Decoder.VaapiDecoderH265.EnsureContext | decoder/vaapidecoder_h265.cpp:435-460 | the configuration and status are EnsureContextResult's; no other member changes |
| H265Decoder.VaapiDecoderH265.GetPoc | decoder/vaapidecoder_h265.cpp:462-496 | the picture's order count is PicOrderCntMsb + LSB, and that MSB and LSB always become the previous ones |
| H265Decoder.VaapiDecoderH265.CreatePicture | decoder/vaapidecoder_h265.cpp:498-514 | no surface gives no picture; otherwise the picture and order count state of CreatePictureSpec |
| H265Decoder.VaapiDecoderH265.FillPicture | decoder/vaapidecoder_h265.cpp:201-207 | fails with nothing written when editPicture fails; otherwise records the picture's id, order count and size, and succeeds |
| H265Decoder.VaapiDecoderH265.FillSlice | decoder/vaapidecoder_h265.cpp:389-397 | fails when newSlice fails; otherwise appends one slice with its data offset and segment address |
| H265Decoder.VaapiDecoderH265.DecodeSlice | decoder/vaapidecoder_h265.cpp:516-544 | the new members and status are DecodeSliceSpec's |
| H265Decoder.VaapiDecoderH265.DecodeNalu | decoder/vaapidecoder_h265.cpp:546-575 | the new members and status are DecodeNaluSpec's |
| H265Decoder.VaapiDecoderH265.Decode | decoder/vaapidecoder_h265.cpp:577-594 | the new members and status are those of decoding the buffer's units in order from its time stamp, stopping at the first failure |
| SurfacePool.FlagOperationsMatchBits | decoder/vaapidecsurfacepool.cpp:193-194 | the obligation-set operations are the code's &, \|, &~ and ^ on the state word, and FREE is the zero word |
| SurfacePool.ReleasedByFlush | decoder/vaapidecsurfacepool.cpp:176-179 | exactly the queued surfaces whose only obligation is TO_RENDER |
| SurfacePool.FlushedStates | decoder/vaapidecsurfacepool.cpp:176-180 | after a flush no allocated surface waits to be rendered |
| SurfacePool.Create | decoder/vaapidecsurfacepool.cpp:38-57 | null exactly when a surface creation fails; otherwise a valid pool holding the created surfaces in order, all free |
| SurfacePool.DecSurfacePool.constructor | decoder/vaapidecsurfacepool.cpp:59-78 | one render buffer per surface with time stamp 0; every surface free in order; nothing allocated, queued or flushing |
| SurfacePool.DecSurfacePool.GetSurfaceIds | decoder/vaapidecsurfacepool.cpp:80-89 | the render buffers' surface ids, in order |
| SurfacePool.DecSurfacePool.AcquireWithWait | decoder/vaapidecsurfacepool.cpp:99-120 | flushing gives no surface and no change; an empty free list would block; otherwise the front free surface becomes allocated as DECODING only |
| SurfacePool.DecSurfacePool.Output | decoder/vaapidecsurfacepool.cpp:122-137 | an unallocated id is refused with no change; otherwise TO_RENDER is added, the buffer is stamped and appended to the queue, and nothing else changes |
| SurfacePool.DecSurfacePool.StampRenderBuffer | decoder/vaapidecsurfacepool.cpp:132-133 | only that buffer's time stamp changes |
| SurfacePool.DecSurfacePool.MarkToRender | decoder/vaapidecsurfacepool.cpp:131-135 | TO_RENDER added and the buffer appended to the back of the queue, invariant kept |
| SurfacePool.DecSurfacePool.MarkKeeps | decoder/vaapidecsurfacepool.cpp:131-135 | marking a decoding-only surface and queueing its buffer keeps ownership and queue agreement |
| SurfacePool.DecSurfacePool.TakeKeeps | decoder/vaapidecsurfacepool.cpp:144-151 | the front surface waits to be rendered and is not being rendered, and toggling it while popping the queue keeps the invariant |
| SurfacePool.DecSurfacePool.GetOutput | decoder/vaapidecsurfacepool.cpp:139-153 | an empty queue gives nothing; otherwise the front buffer in FIFO order, its surface moved from TO_RENDER to RENDERING |
| SurfacePool.DecSurfacePool.SetWaitable | decoder/vaapidecsurfacepool.cpp:164-171 | flushing becomes the negation of waitable; nothing else changes |
| SurfacePool.DecSurfacePool.RecycleLocked | decoder/vaapidecsurfacepool.cpp:186-201 | an unknown id changes nothing; otherwise only the flag is cleared, and a surface left FREE moves to the back of the free list, ending a flush when it was the last |
| SurfacePool.DecSurfacePool.Recycle | decoder/vaapidecsurfacepool.cpp:203-207 | recycleLocked's effect, with the pool invariant kept |
| SurfacePool.DecSurfacePool.RecycleRenderBuffer | decoder/vaapidecsurfacepool.cpp:209-217 | a buffer outside the array changes nothing; otherwise RENDERING is recycled on its surface |
| SurfacePool.DecSurfacePool.RecycleQueued | decoder/vaapidecsurfacepool.cpp:176-179 | every queued surface loses TO_RENDER, the released ones join the free list in queue order |
| SurfacePool.DecSurfacePool.Flush | decoder/vaapidecsurfacepool.cpp:173-184 | the queue empties, TO_RENDER is gone everywhere, released surfaces are freed in queue order, and flushing holds exactly when a surface is still out (or as before when none was out) |
| SurfacePool.DecSurfacePool.FinishFlush | decoder/vaapidecsurfacepool.cpp:180-183 | the queue is cleared and flushing set while any surface is allocated |
| SurfacePool.DecSurfacePool.PoolSize | decoder/vaapidecsurfacepool.cpp:193-196 | free and allocated surfaces together number exactly the pool's surfaces |
| Transform.Normalize | vpp/oclpostprocess_transform.cpp:65-82 | the result never has both flips; a word without both is kept; with both, the result is a plain rotation or nothing, and it is a half turn whenever the bits beside the flips are not exactly one rotation |
| Transform.NormalizeIsIdempotent | vpp/oclpostprocess_transform.cpp:65-82 | rewriting twice is rewriting once |
| Transform.NothingLeftOnlyForIdentity | vpp/oclpostprocess_transform.cpp:84-86 | no flip or rotation is left exactly when none was asked for or the word is both flips with a half turn |
| Transform.IrregularRestYieldsHalfTurn | vpp/oclpostprocess_transform.cpp:78-79 | both flips whose remaining bits are not exactly one rotation (unknown bits, two or three rotations, or nothing) become a half turn |
| Transform.FlipKernelOf | vpp/oclpostprocess_transform.cpp:196-202 | FLIP_H wins over FLIP_V; no kernel exactly when no flip bit is set |
| Transform.RotateKernelOf | vpp/oclpostprocess_transform.cpp:236-251 | priority ROT_90, ROT_180, ROT_270; no kernel exactly when no rotation bit is set |
| Transform.NormalizePreservesMeaning | vpp/oclpostprocess_transform.cpp:65-82 | for a word with at most one rotation, the rewritten word moves every pixel where the requested flips and rotation do |
| Transform.LastGroupIndex | vpp/oclpostprocess_transform.cpp:197 | width / 4 - 1 is the index of the last whole group of four columns, and wraps to 2^32 - 1 below four |
| Transform.FlipParams | vpp/oclpostprocess_transform.cpp:192-202 | a flip exactly when a flip bit is set; horizontal with the last group index of the width, vertical with the height |
| Transform.RotateParams | vpp/oclpostprocess_transform.cpp:231-251 | a rotation exactly when a rotation bit is set; quarter turns (4, last group of width, last group of height), half turn (2, last group of width, height) |
| Transform.ProcessSpec | vpp/oclpostprocess_transform.cpp:36-128 | the context status first, unchanged state; a non-NV12 frame gives INVALID_PARAM; success only after both checks pass; the word is kept or rewritten |
| Transform.DispatchSpec | vpp/oclpostprocess_transform.cpp:84-125 | INVALID_PARAM exactly when no flip or rotation bit is left; otherwise SUCCESS or FAIL |
| Transform.ThroughScratchSpec | vpp/oclpostprocess_transform.cpp:88-109 | the scratch image is kept when it has the source's size and made anew otherwise |
| Transform.SuccessRealisesRequest | vpp/oclpostprocess_transform.cpp:84-125 | a successful process launches a chain of kernels that moves every pixel where the requested transform does |
| Transform.RejectsOnlyEmptyRequests | vpp/oclpostprocess_transform.cpp:122-124 | once the checks pass, INVALID_PARAM is returned exactly when the rewritten word asks for nothing |
| Transform.ScratchIsCached | vpp/oclpostprocess_transform.cpp:91-95 | the scratch image changes only for a flip with a rotation and a source of another size |
| Transform.OclPostProcessTransform.SetParameters | vpp/oclpostprocess_transform.cpp:130-148 | a transform parameter of the right size replaces the word with SUCCESS; the wrong size gives INVALID_PARAM; other types give the base class's status; the word is kept in both |
| Transform.OclPostProcessTransform.NormalizeTransform | vpp/oclpostprocess_transform.cpp:65-82 | the word becomes its rewrite |
| Transform.OclPostProcessTransform.Process | vpp/oclpostprocess_transform.cpp:36-128 | the new word, scratch image, status and launches are ProcessSpec's |
| Transform.OclPostProcessTransform.Dispatch | vpp/oclpostprocess_transform.cpp:84-127 | the scratch image, status and launches are DispatchSpec's |
| Transform.OclPostProcessTransform.FlipThenRotate | vpp/oclpostprocess_transform.cpp:88-109 | the scratch image, status and launches are ThroughScratchSpec's |
| Osd.RowSum | vpp/oclpostprocess_osd.cpp:135-137 | a row segment of n bytes sums to at most 255 n |
| Osd.AsInt32 | vpp/oclpostprocess_osd.cpp:122 | the (int) cast keeps widths below 2^31 and makes larger ones negative |
| Osd.TruncDiv | vpp/oclpostprocess_osd.cpp:122 | C division of an int by a positive int: the quotient for non-negative values, at most 0 for negative ones |
| Osd.GrownBlockCount | vpp/oclpostprocess_osd.cpp:122-125 | the count never decreases; it becomes crop width / block width when larger; a width of 2^31 or more leaves it alone |
| Osd.Dark | vpp/oclpostprocess_osd.cpp:139-142 | 1 exactly when the block's 32-bit luma sum is at most the limit, otherwise 0 |
| Osd.BlockLuma | vpp/oclpostprocess_osd.cpp:132-144 | one entry per block, each block's Dark classification; what an entry means is stated by DarkIffMeanAtMostThreshold and BlocksTileTheStrip |
| Osd.BlocksTileTheStrip | vpp/oclpostprocess_osd.cpp:128-143 | the blocks are contiguous left to right: their sums add up to the sum of the whole strip |
| Osd.BlockSumBound | vpp/oclpostprocess_osd.cpp:134-137 | a block sums to at most 255 times its area |
| Osd.DarkIffMeanAtMostThreshold | vpp/oclpostprocess_osd.cpp:131-142 | without 32-bit wrap-around a block is dark exactly when its sum is at most threshold times its area |
| Osd.KernelCrop | vpp/oclpostprocess_osd.cpp:86-91 | x and width halved (two-byte pixels), y rounded down to even, height kept |
| Osd.OclPostProcessOsd.constructor | vpp/oclpostprocess_osd.h:51-54 | block width 64, no blocks, threshold 128 |
| Osd.OclPostProcessOsd.SetBlockWidth | vpp/oclpostprocess_osd.h:42-45 | the block width is set and SUCCESS returned |
| Osd.OclPostProcessOsd.SetThreshold | vpp/oclpostprocess_osd.h:46-49 | the threshold is the argument converted to uint32, and SUCCESS returned |
| Osd.OclPostProcessOsd.ComputeBlockLuma | vpp/oclpostprocess_osd.cpp:120-145 | the count grows as GrownBlockCount says and every entry is rewritten with its block's classification |
| Osd.OclPostProcessOsd.Process | vpp/oclpostprocess_osd.cpp:36-118 | the context status first with nothing changed; otherwise the classification is recomputed and the kernel launched with the adjusted crop exactly when every OpenCL step succeeds |
| Osd.SumBlock | vpp/oclpostprocess_osd.cpp:133-138 | the accumulator is the block's luma sum modulo 2^32 |
| Osd.AddRow | vpp/oclpostprocess_osd.cpp:135-137 | one row's bytes added to the accumulator modulo 2^32 |

## Left out

- **Bitstream parser**: NalReader's start-code splitting, `h265_parser_identify_nalu_unchecked`, `h265_parser_parse_slice_hdr` and `h265_parser_parse_nal`. Their answers are inputs: `identified`, `SliceParse`, `paramSetOk`. The parser library is not part of this model.
- **Zig-zag scans**: the parser library's `h265_quant_matrix_*_get_raster_from_zigzag` is modelled as a conversion by a scan given as a parameter (any permutation). The scan tables are not part of this model.
- **Accelerator calls**: `terminateVA`, `VaapiDecoderBase::start`, `outputPicture`, `createSurface`, `picture->decode()`, `editPicture`, `editIqMatrix` and `newSlice` are inputs (`Backend`, `bufferAvailable`).
- **Field copies**: the field-for-field copies of `fillPicture` and `fillSlice` into VA structures (vaapidecoder_h265.cpp:208-305, 401-431). Only the picture's id, order count and size and the slice's offset and address are modelled.
- **Temporal id**: the temporal-id ASSERT in `getPoc` (line 471) is not modelled. It is a debug-build check.
- **POC overflow**: the int32 picture order count is an unbounded integer. Overflow after about 2^31 pictures is not modelled.
- **Weight table in FillSlice**: `fillPredWeightTable` is modelled on its own (`SliceParameters`). `FillSlice` in the decoder object does not run it, because with the 0xFF bound set by `fillReference` the loop would index past the arrays.
- **IQ matrix in the decoder**: `fillIqMatrix` is modelled on its own. The decoder file never calls it.
- **Pool concurrency**: the mutex, condition-variable waits and signals, and the release callbacks of shared surface handles. Each pool method is one atomic step. The blocking case of `acquireWithWait` is the result `WouldBlock`. Releasing a surface handle is `Recycle(id, Decoding)`.
- **Pool surfaces**: the `resize` of each surface in `create` (line 51) and the map from ids to surface objects.
- **Transform kernels and images**: OpenCL kernel look-up, argument setting, work-group sizes and image creation are inputs (`OclEnv`). The kernels' pixel effect is modelled as a map on points, not on image contents. The internals of `createScratchImage` and `getWidth`/`getHeight` are not part of this model.
- **Base class**: `OclPostProcessBase` (`ensureContext`, its `setParameters`) is not part of this model. Its statuses are inputs.
- **OSD buffers and kernel**: the OpenCL buffer, images and kernel launch are inputs (`OsdEnv`). The launch records the values handed to the kernel. The float vector is 0/1 integers.
- **Other files**: the grid demo program `grid.cpp`, `vaapi/yamidisplay.cpp`, `vaapi/yamidisplay.h`, `vpp/oclpostprocess_blender.cpp`, `vpp/oclpostprocess_mosaic.cpp`, `vpp/oclvppimage.cpp` and `vpp/oclvppimage.h` are not part of this model. They are demo and display plumbing.
- H265Params.SliceParameters.FillPredWeightTableList: requires the loop bound to fit the arrays. The code runs with the bound 0xFF that fillReference sets, indexing past the 15-entry VA arrays, which has no defined meaning to model.
- H265Params.ChromaOffset: requires a denominator of at most 23, where the int32 shift and product of lines 345-348 do not overflow.
- H265Decoder.VaapiDecoderH265.DecodeSlice: requires a well-formed header. The shift at line 474 must be at most 30 and the slice-offset operands must be uint32 values.
- SurfacePool.Create: requires the two flag asserts of lines 44-45 to hold (no surface protection, no raw output); the code aborts on either in a debug build, and the model does not describe a pool built with them.
- SurfacePool.DecSurfacePool.Output: requires an allocated surface to be in the DECODING-only state. The code asserts this at line 130.
- SurfacePool.DecSurfacePool.Recycle: accepts only DECODING and RENDERING. These are the flags its two callers pass (lines 94, 216); TO_RENDER is cleared only by flush.
- Osd.OclPostProcessOsd.ComputeBlockLuma: requires a positive block width and every block inside the plane.
  - A zero width divides by zero at line 122.
  - A negative width set through setBlockWidth is excluded as well. On a post-processor with no blocks yet, line 122's division is defined and the count stays 0. The loops at lines 132-144 then read no pixel and `process` goes on to its OpenCL calls; the model does not cover that run.
  - With blocks left from an earlier width, a negative width reads no pixel while a block's left column is at least the width's magnitude, because the uint32 bound `offsetX + m_blockWidth` lies below the column. Once the column is below that magnitude, the bound wraps and the loop reads outside the frame.
  - A stale count wider than the crop makes the loop read past the crop's right edge.
  - Pixel coordinates are assumed not to wrap (`PlaneFits`).
- Osd.OclPostProcessOsd.Process: carries ComputeBlockLuma's requires whenever the context starts, so it leaves out the same runs: a zero or negative block width, including the no-block run that reads no pixel, and blocks outside the plane.
- Transform.OclPostProcessTransform.Process: the images made from the two frames, and the scratch image, are known only by their sizes.
