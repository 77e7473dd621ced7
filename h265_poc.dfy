/** Picture order count derivation of decoder/vaapidecoder_h265.cpp (getPoc), next to
    the derivation of section 8.3.1 of ITU-T H.265 that it departs from.

    The code's first wrap-around test compares pic_order_cnt_lsb with the previous
    picture's order count MSB where section 8.3.1 compares it with the previous LSB;
    `PicOrderCntMsb` keeps the code's comparison. */
module H265Poc {

  function Pow2(n: nat): (p: nat)
    ensures p >= 1
    ensures n >= 1 ==> p % 2 == 0
  {
    if n == 0 then 1 else 2 * Pow2(n - 1)
  }

  lemma {:induction false} Pow2AtLeast(n: nat, k: nat)
    requires k <= n
    ensures Pow2(n) >= Pow2(k)
  {
    if k < n {
      Pow2AtLeast(n - 1, k);
    }
  }

  /** MaxPicOrderCntLsb = 1 << (log2_max_pic_order_cnt_lsb_minus4 + 4), an int32 shift,
      which C defines only for shift counts up to 30. */
  function MaxPicOrderCntLsb(log2MaxPicOrderCntLsbMinus4: nat): (m: nat)
    requires log2MaxPicOrderCntLsbMinus4 + 4 <= 30
    ensures m == Pow2(log2MaxPicOrderCntLsbMinus4 + 4)
    ensures m >= 16 && m % 2 == 0
  {
    Pow2AtLeast(log2MaxPicOrderCntLsbMinus4 + 4, 4);
    Pow2(log2MaxPicOrderCntLsbMinus4 + 4)
  }

  /** PicOrderCntMsb as the code computes it. `irapWithNoRaslOutput` is
      "IRAP NAL type and NoRaslOutputFlag set"; the first wrap test reads
      `prevMsb` where the standard reads `prevLsb`. */
  function PicOrderCntMsb(irapWithNoRaslOutput: bool, pocLsb: int, prevMsb: int, prevLsb: int, maxLsb: int): (msb: int)
    ensures irapWithNoRaslOutput ==> msb == 0
    ensures !irapWithNoRaslOutput ==> msb == prevMsb + maxLsb || msb == prevMsb - maxLsb || msb == prevMsb
  {
    if irapWithNoRaslOutput then 0
    else if pocLsb < prevMsb && prevMsb - pocLsb >= maxLsb / 2 then prevMsb + maxLsb
    else if pocLsb > prevLsb && pocLsb - prevLsb > maxLsb / 2 then prevMsb - maxLsb
    else prevMsb
  }

  /** The picture order count the code stores in the picture: MSB plus LSB. */
  function PicOrderCnt(irapWithNoRaslOutput: bool, pocLsb: int, prevMsb: int, prevLsb: int, maxLsb: int): (poc: int)
    ensures irapWithNoRaslOutput ==> poc == pocLsb
  {
    PicOrderCntMsb(irapWithNoRaslOutput, pocLsb, prevMsb, prevLsb, maxLsb) + pocLsb
  }

  /** Reference: PicOrderCntMsb by equation (8-1) of section 8.3.1 of ITU-T H.265. */
  function StandardPicOrderCntMsb(irapWithNoRaslOutput: bool, pocLsb: int, prevMsb: int, prevLsb: int, maxLsb: int): int
  {
    if irapWithNoRaslOutput then 0
    else if pocLsb < prevLsb && prevLsb - pocLsb >= maxLsb / 2 then prevMsb + maxLsb
    else if pocLsb > prevLsb && pocLsb - prevLsb > maxLsb / 2 then prevMsb - maxLsb
    else prevMsb
  }

  /** The standard's derivation puts the new picture order count within half a
      MaxPicOrderCntLsb of the previous one, (-Max/2, Max/2]. */
  lemma StandardPocIsNearestToPrevious(pocLsb: int, prevMsb: int, prevLsb: int, maxLsb: int)
    requires maxLsb >= 2 && maxLsb % 2 == 0
    requires 0 <= pocLsb < maxLsb && 0 <= prevLsb < maxLsb
    ensures var poc := StandardPicOrderCntMsb(false, pocLsb, prevMsb, prevLsb, maxLsb) + pocLsb;
            -(maxLsb / 2) < poc - (prevMsb + prevLsb) <= maxLsb / 2
  {
  }

  /** The code and the standard agree whenever the first wrap-around test gives the
      same answer on the previous MSB as on the previous LSB; in particular when
      the previous MSB equals the previous LSB. */
  lemma AgreesWithStandardWhenFirstTestAgrees(irap: bool, pocLsb: int, prevMsb: int, prevLsb: int, maxLsb: int)
    requires (pocLsb < prevMsb && prevMsb - pocLsb >= maxLsb / 2)
         == (pocLsb < prevLsb && prevLsb - pocLsb >= maxLsb / 2)
    ensures PicOrderCntMsb(irap, pocLsb, prevMsb, prevLsb, maxLsb)
         == StandardPicOrderCntMsb(irap, pocLsb, prevMsb, prevLsb, maxLsb)
  {
  }

  /** A forward wrap the code misses: MaxPicOrderCntLsb 16, previous MSB 0, previous
      LSB 15 and a non-IRAP picture with LSB 0. Section 8.3.1 gives order count 16;
      the code gives 0, placing the picture before its predecessor (order count 15). */
  lemma ForwardWrapAfterZeroMsb()
    ensures StandardPicOrderCntMsb(false, 0, 0, 15, 16) + 0 == 16
    ensures PicOrderCnt(false, 0, 0, 15, 16) == 0
  {
  }

  /** Both derivations, the code's and equation (8-1), keep the MSB a multiple of
      MaxPicOrderCntLsb when the previous one was, so the order count is congruent
      to its LSB. */
  lemma {:induction false} MsbStaysAligned(irap: bool, pocLsb: int, prevMsb: int, prevLsb: int, maxLsb: int)
    requires maxLsb > 0 && prevMsb % maxLsb == 0
    requires 0 <= pocLsb < maxLsb
    ensures PicOrderCntMsb(irap, pocLsb, prevMsb, prevLsb, maxLsb) % maxLsb == 0
    ensures PicOrderCnt(irap, pocLsb, prevMsb, prevLsb, maxLsb) % maxLsb == pocLsb
    ensures StandardPicOrderCntMsb(irap, pocLsb, prevMsb, prevLsb, maxLsb) % maxLsb == 0
    ensures (StandardPicOrderCntMsb(irap, pocLsb, prevMsb, prevLsb, maxLsb) + pocLsb) % maxLsb == pocLsb
  {
    var k := prevMsb / maxLsb;
    assert prevMsb == k * maxLsb;
    var msb := PicOrderCntMsb(irap, pocLsb, prevMsb, prevLsb, maxLsb);
    assert msb == 0 || msb == (k + 1) * maxLsb || msb == (k - 1) * maxLsb || msb == k * maxLsb;
    var j :| msb == j * maxLsb;
    ModOfMultiplePlus(j, maxLsb, 0);
    ModOfMultiplePlus(j, maxLsb, pocLsb);
    var std := StandardPicOrderCntMsb(irap, pocLsb, prevMsb, prevLsb, maxLsb);
    assert std == 0 || std == (k + 1) * maxLsb || std == (k - 1) * maxLsb || std == k * maxLsb;
    var i :| std == i * maxLsb;
    ModOfMultiplePlus(i, maxLsb, 0);
    ModOfMultiplePlus(i, maxLsb, pocLsb);
  }

  lemma ModOfMultiplePlus(j: int, m: int, r: int)
    requires m > 0 && 0 <= r < m
    ensures (j * m + r) % m == r
  {
    var q := (j * m + r) / m;
    var s := (j * m + r) % m;
    assert j * m + r == q * m + s;
    MulDiff(j, q, m);
    assert (j - q) * m == s - r;
    if j - q >= 1 {
      MulAtLeast(j - q, m);
    } else if q - j >= 1 {
      MulAtLeast(q - j, m);
      MulDiff(q, j, m);
    }
  }

  lemma MulDiff(a: int, b: int, m: int)
    ensures (a - b) * m == a * m - b * m
  {
  }

  lemma {:induction false} MulAtLeast(a: int, m: int)
    requires a >= 1 && m > 0
    ensures a * m >= m
  {
    if a > 1 {
      MulAtLeast(a - 1, m);
      assert a * m == (a - 1) * m + m;
    }
  }
}
