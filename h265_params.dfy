/** Translation of parsed H.265 syntax into the accelerator's parameter buffers,
    decoder/vaapidecoder_h265.cpp: scaling lists and the IQ matrix (fillScalingList*,
    fillScalingListDc*, fillIqMatrix), the reference-list reset (fillReference), the
    weighted-prediction table (clip3, fillPredWedightTableL0/L1, fillPredWeightTable)
    and the slice data byte offset (getSliceDataByteOffset). */
module H265Params {
  import opened Wrappers
  import opened H265Syntax
  import opened H265Poc

  const UINT32: nat := 0x1_0000_0000

  // ---------------------------------------------------------------- scaling lists

  /** A coefficient scan: scan[k] is the raster position of the k-th coefficient in
      zig-zag order; every raster position occurs exactly once. */
  ghost predicate IsScanOrder(scan: seq<nat>)
  {
    && (forall k :: 0 <= k < |scan| ==> scan[k] < |scan|)
    && (forall k1, k2 :: 0 <= k1 < k2 < |scan| ==> scan[k1] != scan[k2])
    && (forall p :: 0 <= p < |scan| ==> p in scan)
  }

  /** Position of raster index p in the scan. */
  function ScanIndex(scan: seq<nat>, p: nat): (k: nat)
    requires p in scan
    ensures k < |scan| && scan[k] == p
  {
    if scan[0] == p then 0 else 1 + ScanIndex(scan[1..], p)
  }

  /** The raster-order list of zig-zag-ordered coefficients (the parser library's
      h265_quant_matrix_*_get_raster_from_zigzag, with the scan as a parameter). */
  function RasterFromZigzag(coefs: seq<int>, scan: seq<nat>): (raster: seq<int>)
    requires |coefs| == |scan| && IsScanOrder(scan)
    ensures |raster| == |scan|
    ensures forall k :: 0 <= k < |scan| ==> raster[scan[k]] == coefs[k]
  {
    var r := seq(|scan|, p requires 0 <= p < |scan| => coefs[ScanIndex(scan, p)]);
    assert forall k :: 0 <= k < |scan| ==> ScanIndex(scan, scan[k]) == k;
    r
  }

  /** Reading a raster-order list back in zig-zag order. */
  function ZigzagFromRaster(raster: seq<int>, scan: seq<nat>): (coefs: seq<int>)
    requires |raster| == |scan| && IsScanOrder(scan)
    ensures |coefs| == |scan|
  {
    seq(|scan|, k requires 0 <= k < |scan| => raster[scan[k]])
  }

  /** Re-scanning a filled raster list in zig-zag order gives back the parsed list. */
  lemma ZigzagRoundTrip(coefs: seq<int>, scan: seq<nat>)
    requires |coefs| == |scan| && IsScanOrder(scan)
    ensures ZigzagFromRaster(RasterFromZigzag(coefs, scan), scan) == coefs
  {
  }

  /** ...and every raster list is the fill of its own zig-zag reading. */
  lemma RasterRoundTrip(raster: seq<int>, scan: seq<nat>)
    requires |raster| == |scan| && IsScanOrder(scan)
    ensures RasterFromZigzag(ZigzagFromRaster(raster, scan), scan) == raster
  {
    var r := RasterFromZigzag(ZigzagFromRaster(raster, scan), scan);
    forall p | 0 <= p < |scan| ensures r[p] == raster[p] {
      var k := ScanIndex(scan, p);
      assert r[scan[k]] == raster[scan[k]];
    }
  }

  /** The zig-zag scans of the two coefficient-list sizes: 16 coefficients for the
      4x4 class, 64 for the 8x8, 16x16 and 32x32 classes. */
  datatype ScanOrders = ScanOrders(scan4x4: seq<nat>, scan8x8: seq<nat>)

  ghost predicate ValidScans(scans: ScanOrders)
  {
    |scans.scan4x4| == 16 && IsScanOrder(scans.scan4x4) && |scans.scan8x8| == 64 && IsScanOrder(scans.scan8x8)
  }

  /** fillScalingList<mxm>: every list of the class, converted to raster order. */
  method FillScalingList(dst: array<seq<int>>, src: seq<seq<int>>, scan: seq<nat>)
    requires IsScanOrder(scan)
    requires |src| >= dst.Length
    requires forall i :: 0 <= i < dst.Length ==> |src[i]| == |scan|
    modifies dst
    ensures forall i :: 0 <= i < dst.Length ==> dst[i] == RasterFromZigzag(src[i], scan)
  {
    for i := 0 to dst.Length
      invariant forall k :: 0 <= k < i ==> dst[k] == RasterFromZigzag(src[k], scan)
    {
      dst[i] := RasterFromZigzag(src[i], scan);
    }
  }

  /** fillScalingListDc<mxm>: each DC entry is scaling_list_dc_coef_minus8 + 8; the
      coefficient range -7..247 of section 7.4.5 fills 1..255. */
  method FillScalingListDc(dst: array<int>, dcCoefMinus8: seq<int>)
    requires |dcCoefMinus8| >= dst.Length
    modifies dst
    ensures forall i :: 0 <= i < dst.Length ==> dst[i] == dcCoefMinus8[i] + 8
    ensures forall i :: 0 <= i < dst.Length && -7 <= dcCoefMinus8[i] <= 247 ==> 1 <= dst[i] <= 255
  {
    for i := 0 to dst.Length
      invariant forall k :: 0 <= k < i ==> dst[k] == dcCoefMinus8[k] + 8
    {
      dst[i] := dcCoefMinus8[i] + 8;
    }
  }

  /** The scaling list the IQ matrix is built from: the PPS's if it carries one, else the
      SPS's if scaling lists are enabled and the SPS carries one, else none (the
      accelerator's flat default). */
  function ScalingListSource(pps: Pps): (src: Option<ScalingList>)
    ensures pps.scalingListDataPresent ==> src == Some(pps.scalingList)
    ensures !pps.scalingListDataPresent && pps.sps.scalingListEnabled && pps.sps.scalingListDataPresent
            ==> src == Some(pps.sps.scalingList)
    ensures src.None? <==> !pps.scalingListDataPresent
                           && !(pps.sps.scalingListEnabled && pps.sps.scalingListDataPresent)
  {
    if pps.scalingListDataPresent then Some(pps.scalingList)
    else if pps.sps.scalingListEnabled && pps.sps.scalingListDataPresent then Some(pps.sps.scalingList)
    else None
  }

  /** VAIQMatrixBufferHEVC: six 4x4, six 8x8, six 16x16 and two 32x32 raster lists,
      and the DC entries of the 16x16 and 32x32 classes. */
  class IqMatrix {
    const scalingList4x4: array<seq<int>>
    const scalingList8x8: array<seq<int>>
    const scalingList16x16: array<seq<int>>
    const scalingList32x32: array<seq<int>>
    const scalingListDc16x16: array<int>
    const scalingListDc32x32: array<int>

    ghost predicate Valid()
      reads this
    {
      && scalingList4x4.Length == 6 && scalingList8x8.Length == 6
      && scalingList16x16.Length == 6 && scalingList32x32.Length == 2
      && scalingListDc16x16.Length == 6 && scalingListDc32x32.Length == 2
      && scalingList4x4 != scalingList8x8 && scalingList4x4 != scalingList16x16
      && scalingList4x4 != scalingList32x32 && scalingList8x8 != scalingList16x16
      && scalingList8x8 != scalingList32x32 && scalingList16x16 != scalingList32x32
      && scalingListDc16x16 != scalingListDc32x32
    }

    constructor ()
      ensures Valid()
      ensures fresh(scalingList4x4) && fresh(scalingList8x8) && fresh(scalingList16x16)
      ensures fresh(scalingList32x32) && fresh(scalingListDc16x16) && fresh(scalingListDc32x32)
    {
      scalingList4x4 := new seq<int>[6](_ => []);
      scalingList8x8 := new seq<int>[6](_ => []);
      scalingList16x16 := new seq<int>[6](_ => []);
      scalingList32x32 := new seq<int>[2](_ => []);
      scalingListDc16x16 := new int[6](_ => 0);
      scalingListDc32x32 := new int[2](_ => 0);
    }

    /** The IQ matrix holds exactly the conversion of `list`. */
    ghost predicate Holds(list: ScalingList, scans: ScanOrders)
      reads this, scalingList4x4, scalingList8x8, scalingList16x16, scalingList32x32
      reads scalingListDc16x16, scalingListDc32x32
      requires Valid() && ValidScans(scans) && WellFormedScalingList(list)
    {
      && (forall i :: 0 <= i < 6 ==> scalingList4x4[i] == RasterFromZigzag(list.lists4x4[i], scans.scan4x4))
      && (forall i :: 0 <= i < 6 ==> scalingList8x8[i] == RasterFromZigzag(list.lists8x8[i], scans.scan8x8))
      && (forall i :: 0 <= i < 6 ==> scalingList16x16[i] == RasterFromZigzag(list.lists16x16[i], scans.scan8x8))
      && (forall i :: 0 <= i < 2 ==> scalingList32x32[i] == RasterFromZigzag(list.lists32x32[i], scans.scan8x8))
      && (forall i :: 0 <= i < 6 ==> scalingListDc16x16[i] == list.dcCoefMinus8of16x16[i] + 8)
      && (forall i :: 0 <= i < 2 ==> scalingListDc32x32[i] == list.dcCoefMinus8of32x32[i] + 8)
    }
  }

  /** A parsed scaling_list_data() with the list counts and lengths the fill reads. */
  ghost predicate WellFormedScalingList(list: ScalingList)
  {
    && |list.lists4x4| >= 6 && (forall i :: 0 <= i < 6 ==> |list.lists4x4[i]| == 16)
    && |list.lists8x8| >= 6 && (forall i :: 0 <= i < 6 ==> |list.lists8x8[i]| == 64)
    && |list.lists16x16| >= 6 && (forall i :: 0 <= i < 6 ==> |list.lists16x16[i]| == 64)
    && |list.lists32x32| >= 2 && (forall i :: 0 <= i < 2 ==> |list.lists32x32[i]| == 64)
    && |list.dcCoefMinus8of16x16| >= 6 && |list.dcCoefMinus8of32x32| >= 2
  }

  /** fillIqMatrix. `bufferAvailable` is the answer of the picture's editIqMatrix, which
      hands out `iq`. With no explicit scaling list nothing is requested and the result
      is true; a refused buffer gives false; otherwise every list and DC entry is filled. */
  method FillIqMatrix(pps: Pps, bufferAvailable: bool, iq: IqMatrix, scans: ScanOrders) returns (ok: bool)
    requires iq.Valid() && ValidScans(scans)
    requires ScalingListSource(pps).Some? ==> WellFormedScalingList(ScalingListSource(pps).value)
    modifies iq.scalingList4x4, iq.scalingList8x8, iq.scalingList16x16, iq.scalingList32x32
    modifies iq.scalingListDc16x16, iq.scalingListDc32x32
    ensures ok <==> ScalingListSource(pps).None? || bufferAvailable
    ensures ScalingListSource(pps).Some? && bufferAvailable ==> iq.Holds(ScalingListSource(pps).value, scans)
    ensures ScalingListSource(pps).None? || !bufferAvailable ==>
              unchanged(iq.scalingList4x4, iq.scalingList8x8, iq.scalingList16x16, iq.scalingList32x32)
              && unchanged(iq.scalingListDc16x16, iq.scalingListDc32x32)
  {
    var source := ScalingListSource(pps);
    if source.None? {
      return true;
    }
    if !bufferAvailable {
      return false;
    }
    var list := source.value;
    FillScalingList(iq.scalingList4x4, list.lists4x4, scans.scan4x4);
    FillScalingList(iq.scalingList8x8, list.lists8x8, scans.scan8x8);
    FillScalingList(iq.scalingList16x16, list.lists16x16, scans.scan8x8);
    FillScalingList(iq.scalingList32x32, list.lists32x32, scans.scan8x8);
    FillScalingListDc(iq.scalingListDc16x16, list.dcCoefMinus8of16x16);
    FillScalingListDc(iq.scalingListDc32x32, list.dcCoefMinus8of32x32);
    return true;
  }

  // ---------------------------------------------------------------- slice data offset

  /** getSliceDataByteOffset: NAL header bytes plus the slice header rounded up to whole
      bytes, less the emulation prevention bytes inside the header; uint32 arithmetic. */
  function SliceDataByteOffset(nalHeaderBytes: nat, headerSize: nat, nEmulationPreventionBytes: nat): (off: nat)
    requires nalHeaderBytes < UINT32 && headerSize < UINT32 && nEmulationPreventionBytes < UINT32
    ensures off < UINT32
  {
    (nalHeaderBytes + ((headerSize + 7) % UINT32) / 8 - nEmulationPreventionBytes) % UINT32
  }

  /** Without wrap-around, the offset counts exactly the header's bytes: the slice
      data starts at the first byte boundary at or after the header's last bit. */
  lemma SliceDataFollowsHeader(nalHeaderBytes: nat, headerSize: nat, nEmulationPreventionBytes: nat)
    requires headerSize + 7 < UINT32
    requires nEmulationPreventionBytes <= nalHeaderBytes + (headerSize + 7) / 8 < UINT32
    ensures var headerBytes := SliceDataByteOffset(nalHeaderBytes, headerSize, nEmulationPreventionBytes)
                               + nEmulationPreventionBytes - nalHeaderBytes;
            headerSize <= 8 * headerBytes < headerSize + 8
  {
  }

  /** With fewer header bytes than emulation prevention bytes, the uint32 subtraction wraps. */
  lemma SliceDataOffsetWraps()
    ensures SliceDataByteOffset(0, 0, 1) == UINT32 - 1
  {
  }

  // ---------------------------------------------------------------- weighted prediction

  /** clip3(x, y, z) of the code: z clamped to [x, y]. */
  function Clip3(x: int, y: int, z: int): (r: int)
    ensures x <= y ==> x <= r <= y
    ensures x <= z <= y ==> r == z
    ensures r == z || r == x || r == y
    ensures z < x ==> r == x
  {
    if z < x then x else if z > y then y else z
  }

  /** ChromaWeight = (1 << ChromaLog2WeightDenom) + delta_chroma_weight. */
  function ChromaWeight(denom: nat, deltaWeight: int): int
  {
    Pow2(denom) + deltaWeight
  }

  /** The value at line 348 before clipping; `>>` on a possibly negative int32 is the
      arithmetic shift, which is floor division by 2^denom. The code SUBTRACTS 128 where
      section 7.4.7.3 of ITU-T H.265 adds wpOffsetHalfRangeC (128 at 8 bits). */
  function UnclippedChromaOffset(denom: nat, deltaWeight: int, deltaOffset: int): int
  {
    deltaOffset - ((128 * ChromaWeight(denom, deltaWeight)) / Pow2(denom) + 128)
  }

  /** The stored ChromaOffset: clip3(-128, 127, ...) then an int8 cast. The requires are
      the int8/int16 types of the locals and the denominators for which the int32
      shift and product at lines 345-348 do not overflow. */
  function ChromaOffset(denom: nat, deltaWeight: int, deltaOffset: int): (o: int)
    requires denom <= 23
    requires -128 <= deltaWeight <= 127 && -32768 <= deltaOffset <= 32767
    ensures -128 <= o <= 127
    ensures -128 <= UnclippedChromaOffset(denom, deltaWeight, deltaOffset) <= 127
            ==> o == UnclippedChromaOffset(denom, deltaWeight, deltaOffset)
  {
    Clip3(-128, 127, UnclippedChromaOffset(denom, deltaWeight, deltaOffset))
  }

  /** Reference: ChromaOffset by section 7.4.7.3 of ITU-T H.265 at 8 bits. */
  function StandardChromaOffset(denom: nat, deltaWeight: int, deltaOffset: int): int
  {
    Clip3(-128, 127, 128 + deltaOffset - (128 * ChromaWeight(denom, deltaWeight)) / Pow2(denom))
  }

  /** The code's offset is never above the standard's: before clipping it is 256 lower. */
  lemma ChromaOffsetBelowStandard(denom: nat, deltaWeight: int, deltaOffset: int)
    requires denom <= 23
    requires -128 <= deltaWeight <= 127 && -32768 <= deltaOffset <= 32767
    ensures UnclippedChromaOffset(denom, deltaWeight, deltaOffset) + 256
            == 128 + deltaOffset - (128 * ChromaWeight(denom, deltaWeight)) / Pow2(denom)
    ensures ChromaOffset(denom, deltaWeight, deltaOffset) <= StandardChromaOffset(denom, deltaWeight, deltaOffset)
  {
  }

  /** Denominator 7 with no deltas: weight 128, unclipped offset 0 - (128 + 128) = -256,
      stored -128; the standard gives 0. */
  lemma ChromaOffsetAtUnitWeight()
    ensures ChromaWeight(7, 0) == 128
    ensures UnclippedChromaOffset(7, 0, 0) == -256
    ensures ChromaOffset(7, 0, 0) == -128
    ensures StandardChromaOffset(7, 0, 0) == 0
  {
    assert Pow2(7) == 128;
  }

  /** ChromaLog2WeightDenom: luma_log2_weight_denom, plus delta_chroma_log2_weight_denom
      unless chroma_format_idc is 0, in a uint8. */
  function ChromaLog2WeightDenom(sps: Sps, w: PredWeightTable): (d: nat)
    ensures d < 256
    ensures sps.chromaFormatIdc == 0 ==> d == w.lumaLog2WeightDenom % 256
  {
    (w.lumaLog2WeightDenom + (if sps.chromaFormatIdc != 0 then w.deltaChromaLog2WeightDenom else 0)) % 256
  }

  /** The table is filled for weighted P slices and weighted-bipred B slices. */
  function WeightTableApplies(h: SliceHeader): (b: bool)
    ensures b <==> (h.pps.weightedPred && h.sliceType == PSlice) || (h.pps.weightedBipred && h.sliceType == BSlice)
    ensures h.sliceType == ISlice ==> !b
  {
    (h.pps.weightedPred && h.sliceType == PSlice) || (h.pps.weightedBipred && h.sliceType == BSlice)
  }

  /** List 1 is filled only for weighted-bipred B slices. */
  function WeightTableL1Applies(h: SliceHeader): (b: bool)
    ensures b ==> WeightTableApplies(h) && h.sliceType == BSlice
  {
    h.pps.weightedBipred && h.sliceType == BSlice
  }

  /** The entries 0..bound-1 of one list that the fill reads, with their C types. */
  ghost predicate WeightListReadable(w: PredWeightList, bound: nat)
  {
    && |w.lumaWeightFlag| >= bound && |w.deltaLumaWeight| >= bound && |w.lumaOffset| >= bound
    && |w.chromaWeightFlag| >= bound && |w.deltaChromaWeight| >= bound && |w.deltaChromaOffset| >= bound
    && (forall i :: 0 <= i < bound ==> |w.deltaChromaWeight[i]| == 2 && |w.deltaChromaOffset[i]| == 2)
    && (forall i, j :: 0 <= i < bound && 0 <= j < 2 ==>
          -128 <= w.deltaChromaWeight[i][j] <= 127 && -32768 <= w.deltaChromaOffset[i][j] <= 32767)
  }

  /** Entries per reference list in VASliceParameterBufferHEVC. */
  const REF_LIST_ENTRIES: nat := 15
  /** The value fillReference stores in the active counts and the list entries. */
  const INVALID_REF: int := 0xFF

  /** The part of VASliceParameterBufferHEVC this model fills. Reference list `l`'s weights
      are row `l` of the weight arrays; `entries` is their row length (15 in the VA
      structure), kept explicit so that the fill loops' bound can be checked against it. */
  class SliceParameters {
    var sliceDataByteOffset: nat
    var sliceSegmentAddress: nat
    var numRefIdxL0ActiveMinus1: nat
    var numRefIdxL1ActiveMinus1: nat
    var lumaLog2WeightDenom: nat
    var deltaChromaLog2WeightDenom: int
    const entries: nat
    const refPicList: array2<int>
    const deltaLumaWeight: array2<int>
    const lumaOffset: array2<int>
    const deltaChromaWeight: array3<int>
    const chromaOffset: array3<int>

    ghost predicate Valid()
      reads this
    {
      && refPicList.Length0 == 2 && refPicList.Length1 == REF_LIST_ENTRIES
      && deltaLumaWeight.Length0 == 2 && deltaLumaWeight.Length1 == entries
      && lumaOffset.Length0 == 2 && lumaOffset.Length1 == entries
      && deltaChromaWeight.Length0 == 2 && deltaChromaWeight.Length1 == entries && deltaChromaWeight.Length2 == 2
      && chromaOffset.Length0 == 2 && chromaOffset.Length1 == entries && chromaOffset.Length2 == 2
      && deltaLumaWeight != lumaOffset && deltaChromaWeight != chromaOffset
    }

    constructor (entries: nat)
      ensures Valid() && this.entries == entries
      ensures fresh(refPicList) && fresh(deltaLumaWeight) && fresh(lumaOffset)
      ensures fresh(deltaChromaWeight) && fresh(chromaOffset)
    {
      this.entries := entries;
      refPicList := new int[2, REF_LIST_ENTRIES];
      deltaLumaWeight := new int[2, entries];
      lumaOffset := new int[2, entries];
      deltaChromaWeight := new int[2, entries, 2];
      chromaOffset := new int[2, entries, 2];
    }

    function ActiveMinus1(list: nat): nat
      reads this
    {
      if list == 0 then numRefIdxL0ActiveMinus1 else numRefIdxL1ActiveMinus1
    }

    /** fillReference: both active counts and all 2 x 15 list entries become 0xFF; it
        always succeeds. */
    method FillReference() returns (ok: bool)
      requires Valid()
      modifies this`numRefIdxL0ActiveMinus1, this`numRefIdxL1ActiveMinus1, refPicList
      ensures Valid() && ok
      ensures numRefIdxL0ActiveMinus1 == INVALID_REF && numRefIdxL1ActiveMinus1 == INVALID_REF
      ensures forall i, j :: 0 <= i < 2 && 0 <= j < REF_LIST_ENTRIES ==> refPicList[i, j] == INVALID_REF
    {
      numRefIdxL0ActiveMinus1 := INVALID_REF;
      numRefIdxL1ActiveMinus1 := INVALID_REF;
      for i := 0 to 2
        invariant numRefIdxL0ActiveMinus1 == INVALID_REF && numRefIdxL1ActiveMinus1 == INVALID_REF
        invariant forall i', j :: 0 <= i' < i && 0 <= j < REF_LIST_ENTRIES ==> refPicList[i', j] == INVALID_REF
      {
        for j := 0 to REF_LIST_ENTRIES
          invariant numRefIdxL0ActiveMinus1 == INVALID_REF && numRefIdxL1ActiveMinus1 == INVALID_REF
          invariant forall i', j' :: 0 <= i' < i && 0 <= j' < REF_LIST_ENTRIES ==> refPicList[i', j'] == INVALID_REF
          invariant forall j' :: 0 <= j' < j ==> refPicList[i, j'] == INVALID_REF
        {
          refPicList[i, j] := INVALID_REF;
        }
      }
      return true;
    }

    /** fillPredWedightTableL0 / L1 for `list` 0 / 1: for each i below the list's
        num_ref_idx_active_minus1 (the loop bound of the code, which therefore never
        reaches the last active entry), luma weight and offset are copied where the luma
        flag is set and the chroma weights and clipped offsets written where the chroma
        flag is set; every other entry is left as it was. The bound must fit the arrays. */
    method FillPredWeightTableList(list: nat, w: PredWeightList, denom: nat)
      requires Valid() && list < 2 && denom <= 23
      requires ActiveMinus1(list) <= entries
      requires WeightListReadable(w, ActiveMinus1(list))
      modifies deltaLumaWeight, lumaOffset, deltaChromaWeight, chromaOffset
      ensures Valid()
      ensures forall l, i :: 0 <= l < 2 && 0 <= i < entries ==>
                deltaLumaWeight[l, i] == (if l == list && i < ActiveMinus1(list) && w.lumaWeightFlag[i]
                                          then w.deltaLumaWeight[i] else old(deltaLumaWeight[l, i]))
                && lumaOffset[l, i] == (if l == list && i < ActiveMinus1(list) && w.lumaWeightFlag[i]
                                        then w.lumaOffset[i] else old(lumaOffset[l, i]))
      ensures forall l, i, j :: 0 <= l < 2 && 0 <= i < entries && 0 <= j < 2 ==>
                deltaChromaWeight[l, i, j] == (if l == list && i < ActiveMinus1(list) && w.chromaWeightFlag[i]
                                               then w.deltaChromaWeight[i][j] else old(deltaChromaWeight[l, i, j]))
                && chromaOffset[l, i, j] == (if l == list && i < ActiveMinus1(list) && w.chromaWeightFlag[i]
                                             then ChromaOffset(denom, w.deltaChromaWeight[i][j], w.deltaChromaOffset[i][j])
                                             else old(chromaOffset[l, i, j]))
    {
      var bound := ActiveMinus1(list);
      for i := 0 to bound
        invariant forall l, i' :: 0 <= l < 2 && 0 <= i' < entries ==>
                    deltaLumaWeight[l, i'] == (if l == list && i' < i && w.lumaWeightFlag[i']
                                               then w.deltaLumaWeight[i'] else old(deltaLumaWeight[l, i']))
                    && lumaOffset[l, i'] == (if l == list && i' < i && w.lumaWeightFlag[i']
                                             then w.lumaOffset[i'] else old(lumaOffset[l, i']))
        invariant forall l, i', j :: 0 <= l < 2 && 0 <= i' < entries && 0 <= j < 2 ==>
                    deltaChromaWeight[l, i', j] == (if l == list && i' < i && w.chromaWeightFlag[i']
                                                    then w.deltaChromaWeight[i'][j] else old(deltaChromaWeight[l, i', j]))
                    && chromaOffset[l, i', j] == (if l == list && i' < i && w.chromaWeightFlag[i']
                                                  then ChromaOffset(denom, w.deltaChromaWeight[i'][j], w.deltaChromaOffset[i'][j])
                                                  else old(chromaOffset[l, i', j]))
      {
        if w.lumaWeightFlag[i] {
          deltaLumaWeight[list, i] := w.deltaLumaWeight[i];
          lumaOffset[list, i] := w.lumaOffset[i];
        }
        if w.chromaWeightFlag[i] {
          FillChromaEntry(list, i, w.deltaChromaWeight[i], w.deltaChromaOffset[i], denom);
        }
      }
    }

    /** fillPredWeightTable: for a weighted P or bipred B slice, records the luma
        denominator, and the chroma delta when chroma_format_idc is not 0, then fills
        list 0, and list 1 for a B slice; other slices leave everything as it was. It
        always succeeds. */
    method FillPredWeightTable(h: SliceHeader) returns (ok: bool)
      requires Valid()
      requires WeightTableApplies(h) ==>
                 && ChromaLog2WeightDenom(h.pps.sps, h.predWeightTable) <= 23
                 && ActiveMinus1(0) <= entries && WeightListReadable(h.predWeightTable.l0, ActiveMinus1(0))
      requires WeightTableL1Applies(h) ==>
                 ActiveMinus1(1) <= entries && WeightListReadable(h.predWeightTable.l1, ActiveMinus1(1))
      modifies this`lumaLog2WeightDenom, this`deltaChromaLog2WeightDenom
      modifies deltaLumaWeight, lumaOffset, deltaChromaWeight, chromaOffset
      ensures Valid() && ok
      ensures lumaLog2WeightDenom == (if WeightTableApplies(h) then h.predWeightTable.lumaLog2WeightDenom
                                      else old(lumaLog2WeightDenom))
      ensures deltaChromaLog2WeightDenom == (if WeightTableApplies(h) && h.pps.sps.chromaFormatIdc != 0
                                            then h.predWeightTable.deltaChromaLog2WeightDenom
                                            else old(deltaChromaLog2WeightDenom))
      ensures forall l, i :: 0 <= l < 2 && 0 <= i < entries ==>
                var w := if l == 0 then h.predWeightTable.l0 else h.predWeightTable.l1;
                var fills := if l == 0 then WeightTableApplies(h) else WeightTableL1Applies(h);
                && deltaLumaWeight[l, i] == (if fills && i < ActiveMinus1(l) && w.lumaWeightFlag[i]
                                             then w.deltaLumaWeight[i] else old(deltaLumaWeight[l, i]))
                && lumaOffset[l, i] == (if fills && i < ActiveMinus1(l) && w.lumaWeightFlag[i]
                                        then w.lumaOffset[i] else old(lumaOffset[l, i]))
      ensures forall l, i, j :: 0 <= l < 2 && 0 <= i < entries && 0 <= j < 2 ==>
                var w := if l == 0 then h.predWeightTable.l0 else h.predWeightTable.l1;
                var fills := if l == 0 then WeightTableApplies(h) else WeightTableL1Applies(h);
                && deltaChromaWeight[l, i, j] == (if fills && i < ActiveMinus1(l) && w.chromaWeightFlag[i]
                                                  then w.deltaChromaWeight[i][j] else old(deltaChromaWeight[l, i, j]))
                && chromaOffset[l, i, j] == (if fills && i < ActiveMinus1(l) && w.chromaWeightFlag[i]
                                             then ChromaOffset(ChromaLog2WeightDenom(h.pps.sps, h.predWeightTable),
                                                               w.deltaChromaWeight[i][j], w.deltaChromaOffset[i][j])
                                             else old(chromaOffset[l, i, j]))
    {
      var w := h.predWeightTable;
      if WeightTableApplies(h) {
        var chromaLog2WeightDenom := w.lumaLog2WeightDenom % 256;
        lumaLog2WeightDenom := w.lumaLog2WeightDenom;
        if h.pps.sps.chromaFormatIdc != 0 {
          deltaChromaLog2WeightDenom := w.deltaChromaLog2WeightDenom;
          chromaLog2WeightDenom := (chromaLog2WeightDenom + w.deltaChromaLog2WeightDenom) % 256;
        }
        assert chromaLog2WeightDenom == ChromaLog2WeightDenom(h.pps.sps, w);
        FillPredWeightTableList(0, w.l0, chromaLog2WeightDenom);
        if WeightTableL1Applies(h) {
          FillPredWeightTableList(1, w.l1, chromaLog2WeightDenom);
        }
      }
      return true;
    }

    /** The chroma loop of one entry: both components' weight and clipped offset. */
    method FillChromaEntry(list: nat, i: nat, deltaWeights: seq<int>, deltaOffsets: seq<int>, denom: nat)
      requires Valid() && list < 2 && i < entries && denom <= 23
      requires |deltaWeights| == 2 && |deltaOffsets| == 2
      requires forall j :: 0 <= j < 2 ==> -128 <= deltaWeights[j] <= 127 && -32768 <= deltaOffsets[j] <= 32767
      modifies deltaChromaWeight, chromaOffset
      ensures forall l, i', j :: 0 <= l < 2 && 0 <= i' < entries && 0 <= j < 2 ==>
                deltaChromaWeight[l, i', j] == (if l == list && i' == i then deltaWeights[j] else old(deltaChromaWeight[l, i', j]))
                && chromaOffset[l, i', j] == (if l == list && i' == i
                                              then ChromaOffset(denom, deltaWeights[j], deltaOffsets[j])
                                              else old(chromaOffset[l, i', j]))
    {
      for j := 0 to 2
        invariant forall l, i', j' :: 0 <= l < 2 && 0 <= i' < entries && 0 <= j' < 2 ==>
                    deltaChromaWeight[l, i', j'] == (if l == list && i' == i && j' < j then deltaWeights[j']
                                                     else old(deltaChromaWeight[l, i', j']))
                    && chromaOffset[l, i', j'] == (if l == list && i' == i && j' < j
                                                   then ChromaOffset(denom, deltaWeights[j'], deltaOffsets[j'])
                                                   else old(chromaOffset[l, i', j']))
      {
        var deltaWeight := deltaWeights[j];
        var chromaWeight := Pow2(denom) + deltaWeight;
        var deltaOffset := deltaOffsets[j];
        var offset := deltaOffset - ((128 * chromaWeight) / Pow2(denom) + 128);
        deltaChromaWeight[list, i, j] := deltaWeight;
        chromaOffset[list, i, j] := Clip3(-128, 127, offset);
      }
    }
  }
}
