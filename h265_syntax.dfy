/** The records the H.265 bitstream parser hands the decoder: NAL unit headers,
    sequence and picture parameter sets and slice segment headers, restricted to the
    fields the decoder reads; and the NAL-unit-type classification of
    decoder/vaapidecoder_h265.cpp (Table 7-1 of ITU-T H.265, section 7.4.2.2). */
module H265Syntax {

  /** nal_unit_type is a 6-bit field. */
  type NalType = t: int | 0 <= t < 64

  const TRAIL_N: NalType := 0
  const RADL_N: NalType := 6
  const RADL_R: NalType := 7
  const RASL_N: NalType := 8
  const RASL_R: NalType := 9
  const BLA_W_LP: NalType := 16
  const BLA_W_RADL: NalType := 17
  const BLA_N_LP: NalType := 18
  const IDR_W_RADL: NalType := 19
  const IDR_N_LP: NalType := 20
  const CRA_NUT: NalType := 21
  const RSV_IRAP_VCL23: NalType := 23
  const VPS_NUT: NalType := 32
  const SPS_NUT: NalType := 33
  const PPS_NUT: NalType := 34
  const AUD_NUT: NalType := 35
  const EOS_NUT: NalType := 36
  const EOB_NUT: NalType := 37
  const FD_NUT: NalType := 38
  const PREFIX_SEI_NUT: NalType := 39
  const SUFFIX_SEI_NUT: NalType := 40

  /** Instantaneous decoding refresh picture. */
  function IsIdr(t: NalType): (b: bool)
    ensures b <==> t in {19, 20}
  {
    t == IDR_W_RADL || t == IDR_N_LP
  }

  /** Broken link access picture. */
  function IsBla(t: NalType): (b: bool)
    ensures b <==> 16 <= t <= 18
    ensures b ==> !IsIdr(t)
  {
    t == BLA_W_LP || t == BLA_W_RADL || t == BLA_N_LP
  }

  /** Intra random access point: the whole range 16..23, reserved types 22 and 23 included. */
  function IsIrap(t: NalType): (b: bool)
    ensures IsIdr(t) || IsBla(t) || t == CRA_NUT ==> b
    ensures b <==> IsIdr(t) || IsBla(t) || t == CRA_NUT || t == 22 || t == 23
  {
    BLA_W_LP <= t <= RSV_IRAP_VCL23
  }

  /** Random access skipped leading picture. */
  function IsRasl(t: NalType): (b: bool)
    ensures b <==> t == 8 || t == 9
    ensures b ==> !IsIrap(t)
  {
    t == RASL_R || t == RASL_N
  }

  /** Random access decodable leading picture; never also a RASL picture. */
  function IsRadl(t: NalType): (b: bool)
    ensures b <==> t == 6 || t == 7
    ensures b ==> !IsIrap(t) && !IsRasl(t)
  {
    t == RADL_R || t == RADL_N
  }

  /** The types the dispatcher sends to slice decoding: TRAIL_N through CRA_NUT. */
  function IsSliceNal(t: NalType): (b: bool)
    ensures IsIdr(t) || IsBla(t) || IsRasl(t) || IsRadl(t) ==> b
    ensures b ==> t != VPS_NUT && t != SPS_NUT && t != PPS_NUT
    ensures !b && IsIrap(t) ==> t == 22 || t == 23
  {
    TRAIL_N <= t <= CRA_NUT
  }

  function IsParameterSetNal(t: NalType): bool
  {
    t == VPS_NUT || t == SPS_NUT || t == PPS_NUT
  }

  /** The NAL unit header fields the decoder reads. */
  datatype NalUnit = NalUnit(nalType: NalType, temporalIdPlus1: nat, headerBytes: nat)

  datatype SliceType = BSlice | PSlice | ISlice

  /** A scaling_list_data() structure: per size class, the coefficient lists in
      zig-zag order, and the DC coefficients minus 8 of the 16x16 and 32x32 classes. */
  datatype ScalingList = ScalingList(
    lists4x4: seq<seq<int>>,
    lists8x8: seq<seq<int>>,
    lists16x16: seq<seq<int>>,
    lists32x32: seq<seq<int>>,
    dcCoefMinus8of16x16: seq<int>,
    dcCoefMinus8of32x32: seq<int>)

  /** One reference list's part of pred_weight_table(); the chroma entries are
      indexed [i][j] with j the chroma component (0 for Cb, 1 for Cr). */
  datatype PredWeightList = PredWeightList(
    lumaWeightFlag: seq<bool>,
    deltaLumaWeight: seq<int>,
    lumaOffset: seq<int>,
    chromaWeightFlag: seq<bool>,
    deltaChromaWeight: seq<seq<int>>,
    deltaChromaOffset: seq<seq<int>>)

  datatype PredWeightTable = PredWeightTable(
    lumaLog2WeightDenom: nat,
    deltaChromaLog2WeightDenom: int,
    l0: PredWeightList,
    l1: PredWeightList)

  /** Sequence parameter set; maxDecPicBufferingMinus1 is sps_max_dec_pic_buffering_minus1[0]. */
  datatype Sps = Sps(
    width: nat,
    height: nat,
    cropRectWidth: nat,
    cropRectHeight: nat,
    maxDecPicBufferingMinus1: nat,
    log2MaxPicOrderCntLsbMinus4: nat,
    chromaFormatIdc: nat,
    scalingListEnabled: bool,
    scalingListDataPresent: bool,
    scalingList: ScalingList)

  datatype Pps = Pps(
    sps: Sps,
    scalingListDataPresent: bool,
    scalingList: ScalingList,
    weightedPred: bool,
    weightedBipred: bool)

  /** Slice segment header; headerSize is its length in bits and
      nEmulationPreventionBytes the emulation prevention bytes inside it. */
  datatype SliceHeader = SliceHeader(
    pps: Pps,
    firstSliceSegmentInPic: bool,
    picOutputFlag: bool,
    picOrderCntLsb: nat,
    sliceType: SliceType,
    headerSize: nat,
    nEmulationPreventionBytes: nat,
    segmentAddress: nat,
    predWeightTable: PredWeightTable)
}
