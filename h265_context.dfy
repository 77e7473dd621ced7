/** The decode-context sizing policy of decoder/vaapidecoder_h265.cpp (ensureContext):
    when the configured context no longer fits a sequence parameter set, the accelerator
    context is torn down and restarted with the new geometry and surface count. */
module H265Context {
  import opened Status
  import opened H265Syntax

  /** H265_EXTRA_SURFACE_NUMBER, the surfaces kept beyond the decoded picture buffer;
      declared in vaapidecoder_h265.h, which is not part of this model. */
  const H265_EXTRA_SURFACE_NUMBER: nat := 5

  datatype Profile = HevcMain | OtherProfile(code: int)

  /** The fields of VideoConfigBuffer that ensureContext reads or writes; the two
      booleans are the HAS_SURFACE_NUMBER and USE_NATIVE_GRAPHIC_BUFFER bits of `flag`. */
  datatype VideoConfig = VideoConfig(
    width: nat,
    height: nat,
    surfaceWidth: nat,
    surfaceHeight: nat,
    surfaceNumber: nat,
    hasSurfaceNumber: bool,
    useNativeGraphicBuffer: bool,
    profile: Profile)

  /** max_dec_pic_buffering_minus1[0] + 1 + H265_EXTRA_SURFACE_NUMBER, stored in a uint8. */
  function RequiredSurfaces(sps: Sps): (n: nat)
    ensures n < 256
    ensures sps.maxDecPicBufferingMinus1 + 1 + H265_EXTRA_SURFACE_NUMBER < 256
            ==> n == sps.maxDecPicBufferingMinus1 + 1 + H265_EXTRA_SURFACE_NUMBER
  {
    (sps.maxDecPicBufferingMinus1 + 1 + H265_EXTRA_SURFACE_NUMBER) % 256
  }

  /** The context is rebuilt when the width differs, the height is too small or there
      are too few surfaces. */
  function NeedsReconfigure(config: VideoConfig, sps: Sps): bool
  {
    config.width != sps.width || config.height < sps.height || config.surfaceNumber < RequiredSurfaces(sps)
  }

  /** The configuration a rebuild installs: display size from the crop rectangle where
      it is nonzero, surfaces of the full coded size, the required surface count, the
      surface-number flag set, native graphic buffers off, profile HEVC Main. */
  function Reconfigured(config: VideoConfig, sps: Sps): (c: VideoConfig)
    ensures c.width == (if sps.cropRectWidth != 0 then sps.cropRectWidth else sps.width)
    ensures c.height == (if sps.cropRectHeight != 0 then sps.cropRectHeight else sps.height)
    ensures c.surfaceWidth == sps.width && c.surfaceHeight == sps.height
    ensures c.surfaceNumber == RequiredSurfaces(sps) && c.hasSurfaceNumber && !c.useNativeGraphicBuffer
    ensures c.profile == HevcMain
  {
    VideoConfig(
      if sps.cropRectWidth != 0 then sps.cropRectWidth else sps.width,
      if sps.cropRectHeight != 0 then sps.cropRectHeight else sps.height,
      sps.width, sps.height, RequiredSurfaces(sps), true, false, HevcMain)
  }

  /** ensureContext's new configuration and status, given the statuses VaapiDecoderBase's
      terminateVA and start report. */
  function EnsureContextResult(config: VideoConfig, sps: Sps, terminateStatus: DecodeStatus, startStatus: DecodeStatus)
    : (r: (VideoConfig, DecodeStatus))
    ensures !NeedsReconfigure(config, sps) ==> r == (config, DECODE_SUCCESS)
    ensures NeedsReconfigure(config, sps) && terminateStatus != DECODE_SUCCESS ==> r == (config, terminateStatus)
    ensures NeedsReconfigure(config, sps) && terminateStatus == DECODE_SUCCESS
            ==> r.0 == Reconfigured(config, sps)
                && r.1 == (if startStatus != DECODE_SUCCESS then startStatus else DECODE_FORMAT_CHANGE)
    ensures r.1 == DECODE_SUCCESS <==> !NeedsReconfigure(config, sps)
  {
    if !NeedsReconfigure(config, sps) then (config, DECODE_SUCCESS)
    else if terminateStatus != DECODE_SUCCESS then (config, terminateStatus)
    else if startStatus != DECODE_SUCCESS then (Reconfigured(config, sps), startStatus)
    else (Reconfigured(config, sps), DECODE_FORMAT_CHANGE)
  }

  /** After a rebuild for `sps` the same SPS needs no further rebuild exactly when the
      crop rectangle leaves the width alone and does not shrink the height: a stream
      whose display height is cropped below its coded height (1080 of 1088, say) asks
      for a rebuild, and so reports a format change, on every slice. */
  lemma ReconfigureSettles(config: VideoConfig, sps: Sps)
    ensures !NeedsReconfigure(Reconfigured(config, sps), sps)
            <==> (sps.cropRectWidth == 0 || sps.cropRectWidth == sps.width)
                 && (sps.cropRectHeight == 0 || sps.cropRectHeight >= sps.height)
  {
  }
}
