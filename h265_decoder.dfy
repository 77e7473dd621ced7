/** The NAL-unit dispatch of decoder/vaapidecoder_h265.cpp: slices are grouped into
    pictures, a picture is submitted and handed to output when the next picture (or a
    non-slice NAL unit) begins, and the decode context is resized when a sequence
    parameter set no longer fits it.

    What the accelerator, the surface allocator and the bitstream parser answer is not
    computed here: every NAL unit carries those answers (`Backend`, `SliceParse`,
    `paramSetOk`) and the decoder's behaviour is stated as a function of them. */
module H265Decoder {
  import opened Wrappers
  import opened Status
  import opened H265Syntax
  import opened H265Poc
  import opened H265Params
  import opened H265Context

  type SurfaceId = nat

  /** The fields of the picture parameter buffer that identify the picture. */
  datatype PictureParams = PictureParams(pictureId: SurfaceId, picOrderCnt: int, width: nat, height: nat)

  /** One slice parameter buffer: where the slice data begins and the slice's address. */
  datatype SliceRecord = SliceRecord(dataByteOffset: nat, segmentAddress: nat)

  /** VaapiDecPictureH265 as far as this file fills it. */
  datatype Picture = Picture(
    surface: SurfaceId,
    timeStamp: int,
    poc: int,
    noRaslOutputFlag: bool,
    picOutputFlag: bool,
    params: Option<PictureParams>,
    slices: seq<SliceRecord>)

  /** The answers of the code this file calls into, for one NAL unit: terminateVA and
      start of VaapiDecoderBase, the picture's decode(), outputPicture, createSurface,
      editPicture and newSlice. */
  datatype Backend = Backend(
    terminateStatus: DecodeStatus,
    startStatus: DecodeStatus,
    submitOk: bool,
    outputStatus: DecodeStatus,
    surface: Option<SurfaceId>,
    pictureBufferOk: bool,
    sliceBufferOk: bool)

  /** h265_parser_parse_slice_hdr: H265_PARSER_ERROR, or the header it filled. */
  datatype SliceParse = ParseError | Parsed(header: SliceHeader)

  /** One NAL unit handed out by NalReader, with whether h265_parser_identify_nalu_unchecked
      accepted it and what the parser and the back end answer while it is decoded. */
  datatype NalInput = NalInput(nal: NalUnit, identified: bool, slice: SliceParse, paramSetOk: bool, backend: Backend)

  /** The decoder's members: m_prevPicOrderCntMsb, m_prevPicOrderCntLsb, m_newStream,
      m_current, m_configBuffer, m_currentPTS, and the pictures handed to output. */
  datatype DecoderState = DecoderState(
    prevPicOrderCntMsb: int,
    prevPicOrderCntLsb: int,
    newStream: bool,
    current: Option<Picture>,
    config: VideoConfig,
    currentPts: int,
    output: seq<Picture>)

  /** The ranges the code's fixed-width arithmetic needs: the MaxPicOrderCntLsb shift stays
      within an int32 and the slice offset's operands are uint32 values. */
  ghost predicate WellFormedHeader(h: SliceHeader, nal: NalUnit)
  {
    h.pps.sps.log2MaxPicOrderCntLsbMinus4 + 4 <= 30
    && nal.headerBytes < UINT32 && h.headerSize < UINT32 && h.nEmulationPreventionBytes < UINT32
  }

  ghost predicate WellFormed(n: NalInput)
  {
    n.slice.Parsed? ==> WellFormedHeader(n.slice.header, n.nal)
  }

  ghost predicate AllWellFormed(nals: seq<NalInput>)
  {
    forall i :: 0 <= i < |nals| ==> WellFormed(nals[i])
  }

  // ---------------------------------------------------------------- specification

  /** NoRaslOutputFlag: set for IDR and BLA pictures and for the first picture of a stream. */
  function NoRaslOutputFlag(t: NalType, newStream: bool): bool
  {
    IsIdr(t) || IsBla(t) || newStream
  }

  /** PicOutputFlag: false for a RASL picture with NoRaslOutputFlag; otherwise the slice
      header's pic_output_flag. The decoder records the flag in the picture and never
      reads it: decodeCurrent hands every submitted picture to output. */
  function PicOutputFlag(t: NalType, noRaslOutputFlag: bool, headerFlag: bool): (f: bool)
    ensures f <==> headerFlag && !(IsRasl(t) && noRaslOutputFlag)
  {
    if IsRasl(t) && noRaslOutputFlag then false else headerFlag
  }

  /** decodeCurrent: submit the current picture and hand it to output. A failed submission
      is ignored: the picture stays current and the status is success. */
  function DecodeCurrentSpec(s: DecoderState, b: Backend): (DecoderState, DecodeStatus)
  {
    if s.current.None? then (s, DECODE_SUCCESS)
    else if !b.submitOk then (s, DECODE_SUCCESS)
    else (s.(current := None, output := s.output + [s.current.value]), b.outputStatus)
  }

  /** createPicture with getPoc: no surface, no picture; otherwise a picture stamped with
      the current time stamp, its flags and its order count, and the previous-picture
      order count state replaced by this picture's for every NAL type. */
  function CreatePictureSpec(s: DecoderState, h: SliceHeader, nal: NalUnit, surface: Option<SurfaceId>)
    : (DecoderState, Option<Picture>)
    requires WellFormedHeader(h, nal)
  {
    if surface.None? then (s, None)
    else
      var noRasl := NoRaslOutputFlag(nal.nalType, s.newStream);
      var maxLsb := MaxPicOrderCntLsb(h.pps.sps.log2MaxPicOrderCntLsbMinus4);
      var msb := PicOrderCntMsb(IsIrap(nal.nalType) && noRasl, h.picOrderCntLsb,
                                s.prevPicOrderCntMsb, s.prevPicOrderCntLsb, maxLsb);
      var pic := Picture(surface.value, s.currentPts, msb + h.picOrderCntLsb, noRasl,
                         PicOutputFlag(nal.nalType, noRasl, h.picOutputFlag), None, []);
      (s.(prevPicOrderCntMsb := msb, prevPicOrderCntLsb := h.picOrderCntLsb), Some(pic))
  }

  /** fillPicture: editPicture fails, or the picture's own fields are written and the
      fill succeeds. */
  function FillPictureSpec(p: Picture, h: SliceHeader, b: Backend): (Picture, bool)
  {
    if !b.pictureBufferOk then (p, false)
    else (p.(params := Some(PictureParams(p.surface, p.poc, h.pps.sps.width, h.pps.sps.height))), true)
  }

  /** fillSlice: newSlice fails, or one slice buffer with the slice data offset and the
      segment address is added. fillReference and fillPredWeightTable both return true. */
  function FillSliceSpec(p: Picture, h: SliceHeader, nal: NalUnit, b: Backend): (Picture, bool)
    requires WellFormedHeader(h, nal)
  {
    if !b.sliceBufferOk then (p, false)
    else
      var rec := SliceRecord(SliceDataByteOffset(nal.headerBytes, h.headerSize, h.nEmulationPreventionBytes),
                             h.segmentAddress);
      (p.(slices := p.slices + [rec]), true)
  }

  /** The last step of decodeSlice: fillSlice on the current picture, its bool returned
      as a status. */
  function AddSliceSpec(s: DecoderState, h: SliceHeader, nal: NalUnit, b: Backend): (DecoderState, DecodeStatus)
    requires WellFormedHeader(h, nal) && s.current.Some?
  {
    var (p, ok) := FillSliceSpec(s.current.value, h, nal, b);
    (s.(current := Some(p)), StatusOfBool(ok))
  }

  /** decodeSlice. */
  function DecodeSliceSpec(s: DecoderState, n: NalInput): (DecoderState, DecodeStatus)
    requires WellFormed(n)
  {
    if n.slice.ParseError? then (s, DECODE_FAIL)
    else
      var h := n.slice.header;
      var b := n.backend;
      var (config, st) := EnsureContextResult(s.config, h.pps.sps, b.terminateStatus, b.startStatus);
      var s1 := s.(config := config);
      if st != DECODE_SUCCESS then (s1, st)
      else if h.firstSliceSegmentInPic then
        var (s2, st2) := DecodeCurrentSpec(s1, b);
        if st2 != DECODE_SUCCESS then (s2, st2)
        else
          var (s3, pic) := CreatePictureSpec(s2, h, n.nal, b.surface);
          if pic.None? then (s3.(current := None), DECODE_MEMORY_FAIL)
          else
            var (p, ok) := FillPictureSpec(pic.value, h, b);
            if !ok then (s3.(current := Some(p)), DECODE_FAIL)
            else AddSliceSpec(s3.(current := Some(p)), h, n.nal, b)
      else if s1.current.None? then (s1, DECODE_FAIL)
      else AddSliceSpec(s1, h, n.nal, b)
  }

  /** decodeNalu: slice NAL units (types 0 to 21) go to decodeSlice; any other unit first
      completes the current picture, then parameter sets are parsed and the rest ignored. */
  function DecodeNaluSpec(s: DecoderState, n: NalInput): (DecoderState, DecodeStatus)
    requires WellFormed(n)
  {
    if IsSliceNal(n.nal.nalType) then DecodeSliceSpec(s, n)
    else
      var (s1, st) := DecodeCurrentSpec(s, n.backend);
      if st != DECODE_SUCCESS then (s1, st)
      else if IsParameterSetNal(n.nal.nalType) then (s1, if n.paramSetOk then DECODE_SUCCESS else DECODE_FAIL)
      else (s1, DECODE_SUCCESS)
  }

  /** The loop of decode: unidentified units are skipped, the first failing unit ends the
      buffer with its status, and a buffer decoded to the end reports success. */
  function DecodeNalsSpec(s: DecoderState, nals: seq<NalInput>): (DecoderState, DecodeStatus)
    requires AllWellFormed(nals)
    decreases |nals|
  {
    if |nals| == 0 then (s, DECODE_SUCCESS)
    else if !nals[0].identified then DecodeNalsSpec(s, nals[1..])
    else
      var (s1, st) := DecodeNaluSpec(s, nals[0]);
      if st != DECODE_SUCCESS then (s1, st)
      else DecodeNalsSpec(s1, nals[1..])
  }

  /** decode: the buffer's time stamp becomes the current one, then its NAL units are decoded. */
  function DecodeSpec(s: DecoderState, timeStamp: int, nals: seq<NalInput>): (DecoderState, DecodeStatus)
    requires AllWellFormed(nals)
  {
    DecodeNalsSpec(s.(currentPts := timeStamp), nals)
  }

  /** The units of `nals` the identifier accepted, in order. */
  function Identified(nals: seq<NalInput>): (r: seq<NalInput>)
    ensures |r| <= |nals|
    ensures forall i :: 0 <= i < |r| ==> r[i].identified && r[i] in nals
    ensures forall i :: 0 <= i < |nals| && nals[i].identified ==> nals[i] in r
    decreases |nals|
  {
    if |nals| == 0 then []
    else if nals[0].identified then [nals[0]] + Identified(nals[1..])
    else Identified(nals[1..])
  }

  // ---------------------------------------------------------------- properties

  /** Decoding a buffer in two pieces is decoding the first piece and, unless it failed,
      continuing with the second from where it left off. */
  lemma {:induction false} DecodeNalsAppend(s: DecoderState, a: seq<NalInput>, b: seq<NalInput>)
    requires AllWellFormed(a) && AllWellFormed(b)
    ensures AllWellFormed(a + b)
    ensures DecodeNalsSpec(s, a + b)
            == (var (s1, st) := DecodeNalsSpec(s, a);
                if st != DECODE_SUCCESS then (s1, st) else DecodeNalsSpec(s1, b))
    decreases |a|
  {
    if |a| > 0 {
      assert (a + b)[0] == a[0];
      assert (a + b)[1..] == a[1..] + b;
      var (s1, st) := DecodeNaluSpec(s, a[0]);
      if !a[0].identified {
        DecodeNalsAppend(s, a[1..], b);
      } else if st == DECODE_SUCCESS {
        DecodeNalsAppend(s1, a[1..], b);
      }
    } else {
      assert a + b == b;
    }
  }

  /** A failing unit ends the buffer: what follows it is never looked at. */
  lemma StopsAtFirstFailure(s: DecoderState, a: seq<NalInput>, n: NalInput, rest: seq<NalInput>)
    requires AllWellFormed(a) && WellFormed(n) && AllWellFormed(rest)
    requires DecodeNalsSpec(s, a).1 == DECODE_SUCCESS
    requires n.identified && DecodeNaluSpec(DecodeNalsSpec(s, a).0, n).1 != DECODE_SUCCESS
    ensures AllWellFormed(a + [n] + rest)
    ensures DecodeNalsSpec(s, a + [n] + rest) == DecodeNaluSpec(DecodeNalsSpec(s, a).0, n)
  {
    assert a + [n] + rest == a + ([n] + rest);
    DecodeNalsAppend(s, a, [n] + rest);
    assert ([n] + rest)[0] == n;
  }

  /** Units the identifier rejects change nothing: decoding a buffer is decoding its
      identified units alone. */
  lemma {:induction false} UnidentifiedUnitsSkipped(s: DecoderState, nals: seq<NalInput>)
    requires AllWellFormed(nals)
    ensures AllWellFormed(Identified(nals))
    ensures DecodeNalsSpec(s, nals) == DecodeNalsSpec(s, Identified(nals))
    decreases |nals|
  {
    if |nals| > 0 {
      var r := Identified(nals);
      forall i | 0 <= i < |r| ensures WellFormed(r[i]) {
        var k :| 0 <= k < |nals| && nals[k] == r[i];
      }
      if nals[0].identified {
        assert r[0] == nals[0] && r[1..] == Identified(nals[1..]);
        var (s1, st) := DecodeNaluSpec(s, nals[0]);
        if st == DECODE_SUCCESS {
          UnidentifiedUnitsSkipped(s1, nals[1..]);
        }
      } else {
        UnidentifiedUnitsSkipped(s, nals[1..]);
      }
    }
  }

  /** Every picture the decoder holds or has output carries NoRaslOutputFlag. */
  ghost predicate AllNoRaslOutput(s: DecoderState)
  {
    (s.current.Some? ==> s.current.value.noRaslOutputFlag)
    && forall i :: 0 <= i < |s.output| ==> s.output[i].noRaslOutputFlag
  }

  /** m_newStream is set by the constructor and nothing in the decoder clears it, so every
      picture gets NoRaslOutputFlag: every IRAP picture restarts the order count and every
      RASL picture gets PicOutputFlag false. One unit's step. */
  lemma NaluKeepsNewStream(s: DecoderState, n: NalInput)
    requires WellFormed(n) && s.newStream && AllNoRaslOutput(s)
    ensures DecodeNaluSpec(s, n).0.newStream
    ensures AllNoRaslOutput(DecodeNaluSpec(s, n).0)
  {
    if IsSliceNal(n.nal.nalType) {
      SliceKeepsNewStream(s, n);
    } else {
      CurrentKeepsNewStream(s, n.backend);
    }
  }

  /** Handing the current picture to output keeps the flag on every picture. */
  lemma CurrentKeepsNewStream(s: DecoderState, b: Backend)
    requires s.newStream && AllNoRaslOutput(s)
    ensures DecodeCurrentSpec(s, b).0.newStream
    ensures AllNoRaslOutput(DecodeCurrentSpec(s, b).0)
  {
  }

  /** decodeSlice's step, through each of its exits. */
  lemma SliceKeepsNewStream(s: DecoderState, n: NalInput)
    requires WellFormed(n) && s.newStream && AllNoRaslOutput(s)
    ensures DecodeSliceSpec(s, n).0.newStream
    ensures AllNoRaslOutput(DecodeSliceSpec(s, n).0)
  {
    if n.slice.Parsed? {
      var h := n.slice.header;
      var b := n.backend;
      var (config, st) := EnsureContextResult(s.config, h.pps.sps, b.terminateStatus, b.startStatus);
      var s1 := s.(config := config);
      if st == DECODE_SUCCESS && h.firstSliceSegmentInPic {
        CurrentKeepsNewStream(s1, b);
      }
    }
  }

  /** m_newStream never changes, so NoRaslOutputFlag is set on every picture of every buffer. */
  lemma {:induction false} NewStreamNeverCleared(s: DecoderState, nals: seq<NalInput>)
    requires AllWellFormed(nals) && s.newStream && AllNoRaslOutput(s)
    ensures DecodeNalsSpec(s, nals).0.newStream
    ensures AllNoRaslOutput(DecodeNalsSpec(s, nals).0)
    decreases |nals|
  {
    if |nals| > 0 {
      if nals[0].identified {
        NaluKeepsNewStream(s, nals[0]);
        var (s1, st) := DecodeNaluSpec(s, nals[0]);
        if st == DECODE_SUCCESS {
          NewStreamNeverCleared(s1, nals[1..]);
        }
      } else {
        NewStreamNeverCleared(s, nals[1..]);
      }
    }
  }

  /** A new picture while m_newStream is set: an IRAP picture's order count is its LSB,
      a RASL picture gets PicOutputFlag false, and the previous-picture state becomes
      this picture's MSB and LSB whatever its NAL type, RASL and RADL pictures included
      (section 8.3.1 of ITU-T H.265 keeps the previous TemporalId-0 picture that is not
      RASL, RADL or a sub-layer non-reference picture instead). */
  lemma NewPictureOnNewStream(s: DecoderState, h: SliceHeader, nal: NalUnit, id: SurfaceId)
    requires WellFormedHeader(h, nal) && s.newStream
    ensures var (s1, pic) := CreatePictureSpec(s, h, nal, Some(id));
            pic.Some? && pic.value.surface == id && pic.value.timeStamp == s.currentPts
            && pic.value.noRaslOutputFlag
            && (IsIrap(nal.nalType) ==> pic.value.poc == h.picOrderCntLsb)
            && (IsRasl(nal.nalType) ==> !pic.value.picOutputFlag)
            && (!IsRasl(nal.nalType) ==> pic.value.picOutputFlag == h.picOutputFlag)
            && s1.prevPicOrderCntLsb == h.picOrderCntLsb
            && pic.value.poc == s1.prevPicOrderCntMsb + s1.prevPicOrderCntLsb
            && s1.current == s.current && s1.output == s.output
  {
  }

  /** Everything the back end is asked for succeeds and the context fits. */
  ghost predicate Smooth(s: DecoderState, n: NalInput)
  {
    n.slice.Parsed? && !NeedsReconfigure(s.config, n.slice.header.pps.sps)
    && n.backend.submitOk && n.backend.outputStatus == DECODE_SUCCESS && n.backend.surface.Some?
    && n.backend.pictureBufferOk && n.backend.sliceBufferOk
  }

  /** A first slice segment completes the picture in progress, which is output, and starts
      a new picture on the back end's surface whose only slice is this one. */
  lemma FirstSliceStartsPicture(s: DecoderState, n: NalInput)
    requires WellFormed(n) && IsSliceNal(n.nal.nalType) && Smooth(s, n)
    requires n.slice.header.firstSliceSegmentInPic
    ensures var (s1, st) := DecodeNaluSpec(s, n);
            var h := n.slice.header;
            st == DECODE_SUCCESS
            && s1.output == s.output + (if s.current.Some? then [s.current.value] else [])
            && s1.current.Some? && s1.current.value.surface == n.backend.surface.value
            && s1.current.value.params == Some(PictureParams(n.backend.surface.value, s1.current.value.poc, h.pps.sps.width, h.pps.sps.height))
            && s1.current.value.slices
               == [SliceRecord(SliceDataByteOffset(n.nal.headerBytes, h.headerSize, h.nEmulationPreventionBytes), h.segmentAddress)]
  {
  }

  /** A later slice segment of the same picture adds one slice to it and outputs nothing;
      without a picture in progress it fails. */
  lemma LaterSliceJoinsPicture(s: DecoderState, n: NalInput)
    requires WellFormed(n) && IsSliceNal(n.nal.nalType) && Smooth(s, n)
    requires !n.slice.header.firstSliceSegmentInPic
    ensures var (s1, st) := DecodeNaluSpec(s, n);
            var h := n.slice.header;
            (s.current.None? ==> st == DECODE_FAIL && s1 == s)
            && (s.current.Some? ==>
                  st == DECODE_SUCCESS && s1.output == s.output
                  && s1.current == Some(s.current.value.(slices := s.current.value.slices
                       + [SliceRecord(SliceDataByteOffset(n.nal.headerBytes, h.headerSize, h.nEmulationPreventionBytes), h.segmentAddress)])))
  {
  }

  /** Two first slice segments in a row from an idle decoder give two pictures: the first
      is output, the second is in progress. */
  lemma TwoPicturesFromTwoFirstSlices(s: DecoderState, n1: NalInput, n2: NalInput)
    requires s.current.None? && n1.identified && n2.identified
    requires WellFormed(n1) && IsSliceNal(n1.nal.nalType) && Smooth(s, n1) && n1.slice.header.firstSliceSegmentInPic
    requires WellFormed(n2) && IsSliceNal(n2.nal.nalType) && n2.slice.Parsed? && n2.slice.header.firstSliceSegmentInPic
    requires Smooth(DecodeNaluSpec(s, n1).0, n2)
    ensures AllWellFormed([n1, n2])
    ensures var (s2, st) := DecodeNalsSpec(s, [n1, n2]);
            st == DECODE_SUCCESS && |s2.output| == |s.output| + 1 && s2.output[..|s.output|] == s.output
            && s2.current.Some?
            && s2.output[|s.output|].surface == n1.backend.surface.value
            && s2.current.value.surface == n2.backend.surface.value
  {
    FirstSliceStartsPicture(s, n1);
    var s1 := DecodeNaluSpec(s, n1).0;
    FirstSliceStartsPicture(s1, n2);
    DecodeNalsStep(s, n1, [n2]);
    DecodeNalsStep(s1, n2, []);
    assert [n1] + [n2] == [n1, n2];
    assert [n2] + [] == [n2];
  }

  /** A unit the identifier accepted and that decodes successfully hands its state on to
      the rest of the buffer. */
  lemma DecodeNalsStep(s: DecoderState, n: NalInput, rest: seq<NalInput>)
    requires WellFormed(n) && n.identified && AllWellFormed(rest)
    requires DecodeNaluSpec(s, n).1 == DECODE_SUCCESS
    ensures AllWellFormed([n] + rest)
    ensures DecodeNalsSpec(s, [n] + rest) == DecodeNalsSpec(DecodeNaluSpec(s, n).0, rest)
  {
    assert ([n] + rest)[1..] == rest;
  }

  /** When submitting the picture in progress fails, the failure is ignored: nothing is
      output, and the next first slice segment replaces the picture, which is lost. */
  lemma FailedSubmitLosesPicture(s: DecoderState, n: NalInput)
    requires WellFormed(n) && IsSliceNal(n.nal.nalType) && n.slice.Parsed?
    requires n.slice.header.firstSliceSegmentInPic && !NeedsReconfigure(s.config, n.slice.header.pps.sps)
    requires s.current.Some? && !n.backend.submitOk && n.backend.surface.Some?
    ensures var (s1, st) := DecodeNaluSpec(s, n);
            s1.output == s.output
            && s1.current.Some? && s1.current.value.surface == n.backend.surface.value
            && |s1.current.value.slices| <= 1
  {
  }

  /** A slice whose parameter set does not fit the context never reaches a picture: the
      context is rebuilt (or the rebuild's failure reported), the status is not success,
      and the picture in progress and the output are untouched. */
  lemma ReconfigureInterruptsSlice(s: DecoderState, n: NalInput)
    requires WellFormed(n) && IsSliceNal(n.nal.nalType) && n.slice.Parsed?
    requires NeedsReconfigure(s.config, n.slice.header.pps.sps)
    ensures var (s1, st) := DecodeNaluSpec(s, n);
            st != DECODE_SUCCESS && s1.current == s.current && s1.output == s.output
            && (n.backend.terminateStatus == DECODE_SUCCESS ==> s1.config == Reconfigured(s.config, n.slice.header.pps.sps))
            && (n.backend.terminateStatus == DECODE_SUCCESS && n.backend.startStatus == DECODE_SUCCESS
                ==> st == DECODE_FORMAT_CHANGE)
  {
  }

  /** A sequence parameter set whose crop rectangle is shorter than its coded height keeps
      the decoder from ever decoding a slice after the context was sized for it: every
      slice asks for another rebuild. */
  lemma {:induction false} CroppedHeightNeverDecodes(s: DecoderState, n: NalInput, c: VideoConfig)
    requires WellFormed(n) && IsSliceNal(n.nal.nalType) && n.slice.Parsed?
    requires 0 < n.slice.header.pps.sps.cropRectHeight < n.slice.header.pps.sps.height
    requires s.config == Reconfigured(c, n.slice.header.pps.sps)
    ensures var (s1, st) := DecodeNaluSpec(s, n);
            st != DECODE_SUCCESS && s1.current == s.current && s1.output == s.output
            && (n.backend.terminateStatus == DECODE_SUCCESS ==> s1.config == s.config)
  {
    ReconfigureSettles(c, n.slice.header.pps.sps);
    ReconfigureInterruptsSlice(s, n);
    ReconfigureIsIdempotent(c, n.slice.header.pps.sps);
  }

  lemma ReconfigureIsIdempotent(c: VideoConfig, sps: Sps)
    ensures Reconfigured(Reconfigured(c, sps), sps) == Reconfigured(c, sps)
  {
  }

  /** Any other NAL unit completes the picture in progress first; a parameter set then
      reports whether the parser accepted it, and every other unit succeeds. */
  lemma NonSliceUnitCompletesPicture(s: DecoderState, n: NalInput)
    requires WellFormed(n) && !IsSliceNal(n.nal.nalType)
    requires s.current.Some? && n.backend.submitOk
    ensures var (s1, st) := DecodeNaluSpec(s, n);
            s1.current.None? && s1.output == s.output + [s.current.value]
            && (n.backend.outputStatus != DECODE_SUCCESS ==> st == n.backend.outputStatus)
            && (n.backend.outputStatus == DECODE_SUCCESS ==>
                  (st == DECODE_SUCCESS <==> !IsParameterSetNal(n.nal.nalType) || n.paramSetOk))
  {
  }

  /** PicOutputFlag is recorded but never consulted. A RASL picture that starts while
      m_newStream is set gets the flag false (section 8.1.3 of ITU-T H.265 does not
      output such a picture), yet the next non-slice unit submits it and hands it to
      output like any other picture. */
  lemma RaslPictureIsOutput(s: DecoderState, n1: NalInput, n2: NalInput)
    requires s.current.None? && s.newStream
    requires WellFormed(n1) && IsRasl(n1.nal.nalType) && Smooth(s, n1)
    requires n1.slice.header.firstSliceSegmentInPic
    requires WellFormed(n2) && !IsSliceNal(n2.nal.nalType) && n2.backend.submitOk
    ensures var s1 := DecodeNaluSpec(s, n1).0;
            s1.current.Some? && !s1.current.value.picOutputFlag
            && DecodeNaluSpec(s1, n2).0.output == s.output + [s1.current.value]
  {
    FirstSliceStartsPicture(s, n1);
    var s1 := DecodeNaluSpec(s, n1).0;
    NonSliceUnitCompletesPicture(s1, n2);
  }

  // ---------------------------------------------------------------- the decoder object

  /** VaapiDecoderH265: each method changes the decoder's members exactly as the
      corresponding specification function above says. */
  class VaapiDecoderH265 {
    var prevPicOrderCntMsb: int
    var prevPicOrderCntLsb: int
    var newStream: bool
    var current: Option<Picture>
    var config: VideoConfig
    var currentPts: int
    var output: seq<Picture>

    function State(): DecoderState
      reads this
    {
      DecoderState(prevPicOrderCntMsb, prevPicOrderCntLsb, newStream, current, config, currentPts, output)
    }

    /** The constructor: order count state zero, a new stream, no picture in progress.
        The configuration is the one VaapiDecoderBase holds. */
    constructor (initialConfig: VideoConfig)
      ensures State() == DecoderState(0, 0, true, None, initialConfig, 0, [])
      ensures AllNoRaslOutput(State())
    {
      prevPicOrderCntMsb := 0;
      prevPicOrderCntLsb := 0;
      newStream := true;
      current := None;
      config := initialConfig;
      currentPts := 0;
      output := [];
    }

    /** start does nothing and succeeds. */
    method Start(buffer: VideoConfig) returns (status: DecodeStatus)
      ensures status == DECODE_SUCCESS
    {
      status := DECODE_SUCCESS;
    }

    /** decodeParamSet: the parser's verdict as a status. */
    method DecodeParamSet(parsedOk: bool) returns (status: DecodeStatus)
      ensures status == DECODE_SUCCESS <==> parsedOk
      ensures status == DECODE_FAIL <==> !parsedOk
    {
      status := if parsedOk then DECODE_SUCCESS else DECODE_FAIL;
    }

    method DecodeCurrent(b: Backend) returns (status: DecodeStatus)
      modifies this
      ensures (State(), status) == DecodeCurrentSpec(old(State()), b)
    {
      status := DECODE_SUCCESS;
      if current.None? {
        return;
      }
      if !b.submitOk {
        return;
      }
      status := b.outputStatus;
      output := output + [current.value];
      current := None;
    }

    method EnsureContext(sps: Sps, terminateStatus: DecodeStatus, startStatus: DecodeStatus) returns (status: DecodeStatus)
      modifies this
      ensures (config, status) == EnsureContextResult(old(config), sps, terminateStatus, startStatus)
      ensures State() == old(State()).(config := config)
    {
      var surfaceNumber := RequiredSurfaces(sps);
      if config.width != sps.width || config.height < sps.height || config.surfaceNumber < surfaceNumber {
        status := terminateStatus;
        if status != DECODE_SUCCESS {
          return;
        }
        config := config.(
          width := if sps.cropRectWidth != 0 then sps.cropRectWidth else sps.width,
          height := if sps.cropRectHeight != 0 then sps.cropRectHeight else sps.height,
          surfaceWidth := sps.width,
          surfaceHeight := sps.height,
          hasSurfaceNumber := true,
          profile := HevcMain,
          useNativeGraphicBuffer := false,
          surfaceNumber := surfaceNumber);
        status := startStatus;
        if status != DECODE_SUCCESS {
          return;
        }
        status := DECODE_FORMAT_CHANGE;
        return;
      }
      status := DECODE_SUCCESS;
    }

    /** getPoc: the picture's order count, and this picture's MSB and LSB kept as the
        previous ones. */
    method GetPoc(pic: Picture, h: SliceHeader, nal: NalUnit) returns (r: Picture)
      requires WellFormedHeader(h, nal)
      modifies this
      ensures var msb := PicOrderCntMsb(IsIrap(nal.nalType) && pic.noRaslOutputFlag, h.picOrderCntLsb,
                                        old(prevPicOrderCntMsb), old(prevPicOrderCntLsb),
                                        MaxPicOrderCntLsb(h.pps.sps.log2MaxPicOrderCntLsbMinus4));
              r == pic.(poc := msb + h.picOrderCntLsb)
              && State() == old(State()).(prevPicOrderCntMsb := msb, prevPicOrderCntLsb := h.picOrderCntLsb)
    {
      var pocLsb := h.picOrderCntLsb;
      var maxLsb := MaxPicOrderCntLsb(h.pps.sps.log2MaxPicOrderCntLsbMinus4);
      var msb: int;
      if IsIrap(nal.nalType) && pic.noRaslOutputFlag {
        msb := 0;
      } else if pocLsb < prevPicOrderCntMsb && prevPicOrderCntMsb - pocLsb >= maxLsb / 2 {
        msb := prevPicOrderCntMsb + maxLsb;
      } else if pocLsb > prevPicOrderCntLsb && pocLsb - prevPicOrderCntLsb > maxLsb / 2 {
        msb := prevPicOrderCntMsb - maxLsb;
      } else {
        msb := prevPicOrderCntMsb;
      }
      r := pic.(poc := msb + pocLsb);
      if !IsRasl(nal.nalType) || !IsRadl(nal.nalType) {
        prevPicOrderCntMsb := msb;
        prevPicOrderCntLsb := pocLsb;
      }
    }

    method CreatePicture(h: SliceHeader, nal: NalUnit, surface: Option<SurfaceId>) returns (pic: Option<Picture>)
      requires WellFormedHeader(h, nal)
      modifies this
      ensures (State(), pic) == CreatePictureSpec(old(State()), h, nal, surface)
    {
      if surface.None? {
        return None;
      }
      var noRasl := IsIdr(nal.nalType) || IsBla(nal.nalType) || newStream;
      var outputFlag := if IsRasl(nal.nalType) && noRasl then false else h.picOutputFlag;
      var p := Picture(surface.value, currentPts, 0, noRasl, outputFlag, None, []);
      p := GetPoc(p, h, nal);
      pic := Some(p);
    }

    /** fillPicture on the picture in progress. */
    method FillPicture(h: SliceHeader, b: Backend) returns (ok: bool)
      requires current.Some?
      modifies this
      ensures current.Some?
      ensures (current.value, ok) == FillPictureSpec(old(current.value), h, b)
      ensures State() == old(State()).(current := current)
    {
      if !b.pictureBufferOk {
        return false;
      }
      var p := current.value;
      current := Some(p.(params := Some(PictureParams(p.surface, p.poc, h.pps.sps.width, h.pps.sps.height))));
      ok := true;
    }

    /** fillSlice on the picture in progress. */
    method FillSlice(h: SliceHeader, nal: NalUnit, b: Backend) returns (ok: bool)
      requires current.Some? && WellFormedHeader(h, nal)
      modifies this
      ensures current.Some?
      ensures (current.value, ok) == FillSliceSpec(old(current.value), h, nal, b)
      ensures State() == old(State()).(current := current)
    {
      if !b.sliceBufferOk {
        return false;
      }
      var offset := SliceDataByteOffset(nal.headerBytes, h.headerSize, h.nEmulationPreventionBytes);
      var p := current.value;
      current := Some(p.(slices := p.slices + [SliceRecord(offset, h.segmentAddress)]));
      ok := true;
    }

    method DecodeSlice(n: NalInput) returns (status: DecodeStatus)
      requires WellFormed(n)
      modifies this
      ensures (State(), status) == DecodeSliceSpec(old(State()), n)
    {
      if n.slice.ParseError? {
        return DECODE_FAIL;
      }
      var h := n.slice.header;
      var b := n.backend;
      status := EnsureContext(h.pps.sps, b.terminateStatus, b.startStatus);
      if status != DECODE_SUCCESS {
        return;
      }
      if h.firstSliceSegmentInPic {
        status := DecodeCurrent(b);
        if status != DECODE_SUCCESS {
          return;
        }
        current := CreatePicture(h, n.nal, b.surface);
        if current.None? {
          return DECODE_MEMORY_FAIL;
        }
        var filled := FillPicture(h, b);
        if !filled {
          return DECODE_FAIL;
        }
      }
      if current.None? {
        return DECODE_FAIL;
      }
      var ok := FillSlice(h, n.nal, b);
      status := StatusOfBool(ok);
    }

    method DecodeNalu(n: NalInput) returns (status: DecodeStatus)
      requires WellFormed(n)
      modifies this
      ensures (State(), status) == DecodeNaluSpec(old(State()), n)
    {
      if IsSliceNal(n.nal.nalType) {
        status := DecodeSlice(n);
      } else {
        status := DecodeCurrent(n.backend);
        if status != DECODE_SUCCESS {
          return;
        }
        if IsParameterSetNal(n.nal.nalType) {
          status := DecodeParamSet(n.paramSetOk);
        }
      }
    }

    method Decode(timeStamp: int, nals: seq<NalInput>) returns (status: DecodeStatus)
      requires AllWellFormed(nals)
      modifies this
      ensures (State(), status) == DecodeSpec(old(State()), timeStamp, nals)
    {
      currentPts := timeStamp;
      var i := 0;
      while i < |nals|
        invariant 0 <= i <= |nals|
        invariant AllWellFormed(nals[i..])
        invariant DecodeNalsSpec(State(), nals[i..]) == DecodeSpec(old(State()), timeStamp, nals)
      {
        assert nals[i..][0] == nals[i] && nals[i..][1..] == nals[i + 1..];
        if nals[i].identified {
          status := DecodeNalu(nals[i]);
          if status != DECODE_SUCCESS {
            return;
          }
        }
        i := i + 1;
      }
      status := DECODE_SUCCESS;
    }
  }
}
