/** The adaptive binary range decoder of src/xz/xz_dec_lzma2.c (rc_normalize, rc_bit, rc_direct)
    as a step function on values: what one bit does to range, code, the input position and one
    probability. The class in RangeDecoder.dfy is proved to compute these functions in place. */
module RangeCoder {
  import opened Basics

  const U32 := 0x1_0000_0000
  const TOP_VALUE := 0x100_0000       // RC_TOP_VALUE, 2^24
  const BIT_MODEL_TOTAL := 2048       // RC_BIT_MODEL_TOTAL
  const PROB_MIN := 31
  const PROB_MAX := 2017
  const RANGE_MIN := 253952           // (TOP_VALUE / BIT_MODEL_TOTAL) * PROB_MIN, above 2^17

  // The adaptation rule never leaves this interval, see BitKeepsInvariant.
  type Prob = p: int | PROB_MIN <= p <= PROB_MAX witness 1024
  type Range = r: int | RANGE_MIN <= r < U32 witness U32 - 1
  type Word = x: int | 0 <= x < U32

  /** Registers of the decoder; pos is the index of the next byte to read. */
  datatype Rc = Rc(range: Range, code: Word, pos: int)

  /** Input bytes; everything outside the buffer reads as zero, as in the padded temp buffer. */
  function Peek(input: seq<Byte>, i: int): Byte {
    if 0 <= i < |input| then input[i] else 0
  }

  function Normalize(input: seq<Byte>, rc: Rc): Rc {
    if rc.range < TOP_VALUE then
      Rc(rc.range * 256, (rc.code * 256 + Peek(input, rc.pos)) % U32, rc.pos + 1)
    else
      rc
  }

  datatype BitResult = BitResult(bit: bool, rc: Rc, prob: Prob)

  /** The split point of the interval. */
  function Bound(range: int, prob: int): int {
    (range / BIT_MODEL_TOTAL) * prob
  }

  lemma BoundSplits(range: Range, prob: Prob)
    requires TOP_VALUE <= range
    ensures RANGE_MIN <= Bound(range, prob) < range
    ensures RANGE_MIN <= range - Bound(range, prob)
    ensures 8193 * Bound(range, prob) >= 124 * range
    ensures 8193 * (range - Bound(range, prob)) >= 124 * range
  {
    var q := range / BIT_MODEL_TOTAL;
    assert q * BIT_MODEL_TOTAL <= range < (q + 1) * BIT_MODEL_TOTAL;
    assert q >= 8192;
    assert q * PROB_MIN <= q * prob <= q * PROB_MAX;
  }

  /** A probability moves by 1/32 of its distance towards the bit seen. */
  function Adapt(prob: Prob, bit: bool): Prob {
    if bit then prob - prob / 32 else prob + (BIT_MODEL_TOTAL - prob) / 32
  }

  /** rc_bit: one adaptively modelled bit. */
  function DecodeBit(input: seq<Byte>, rc: Rc, prob: Prob): BitResult {
    var n := Normalize(input, rc);
    BoundSplits(n.range, prob);
    var bound := Bound(n.range, prob);
    if n.code < bound then
      BitResult(false, n.(range := bound), Adapt(prob, false))
    else
      BitResult(true, n.(range := n.range - bound, code := n.code - bound), Adapt(prob, true))
  }

  // 32-bit wrap-around of one addition or subtraction.
  function Wrap(x: int): Word
    requires -U32 <= x < 2 * U32
  {
    if x < 0 then x + U32 else if x < U32 then x else x - U32
  }

  /** rc_direct, one iteration: a bit with fixed probability one half. The subtraction of the halved
      range is undone when it borrowed, that is when the top bit of the difference is set. */
  function DirectBit(input: seq<Byte>, rc: Rc): (r: (bool, Rc))
    ensures rc.pos <= r.1.pos
  {
    var n := Normalize(input, rc);
    var half := n.range / 2;
    var less := Wrap(n.code - half);
    if less >= U32 / 2 then
      (false, Rc(half, Wrap(less + half), n.pos))
    else
      (true, Rc(half, less, n.pos))
  }

  // ---------- What every input keeps ----------

  lemma NormalizeRestores(input: seq<Byte>, rc: Rc)
    ensures Normalize(input, rc).range >= TOP_VALUE
    ensures rc.pos <= Normalize(input, rc).pos <= rc.pos + 1
    ensures Normalize(input, Normalize(input, rc)) == Normalize(input, rc)
    ensures rc.range >= TOP_VALUE ==> Normalize(input, rc) == rc
  {
  }

  /** Range decoder invariant, on any input and for any code value: one conditional shift restores
      range >= 2^24 without leaving 32 bits, the bound splits the range strictly, the new range is
      at least 2^17 and the adapted probability stays in [31, 2017]. */
  lemma BitKeepsInvariant(input: seq<Byte>, rc: Rc, prob: Prob)
    ensures var n := Normalize(input, rc);
            && TOP_VALUE <= n.range < U32
            && 0 < Bound(n.range, prob) < n.range
    ensures var r := DecodeBit(input, rc, prob);
            && 0x2_0000 <= r.rc.range < Normalize(input, rc).range
            && 31 <= r.prob <= 2017
            && r.rc.code <= Normalize(input, rc).code
  {
    BoundSplits(Normalize(input, rc).range, prob);
  }

  /** A modelled bit keeps code below range. */
  lemma BitKeepsCodeBelowRange(input: seq<Byte>, rc: Rc, prob: Prob)
    requires rc.code < rc.range
    ensures DecodeBit(input, rc, prob).rc.code < DecodeBit(input, rc, prob).rc.range
  {
    var n := Normalize(input, rc);
    if rc.range < TOP_VALUE {
      assert rc.code * 256 + Peek(input, rc.pos) < rc.range * 256 < U32;
    }
    BoundSplits(n.range, prob);
  }

  /** A direct bit does so exactly when it does not meet the last code of an odd range. */
  lemma DirectKeepsCodeBelowRange(input: seq<Byte>, rc: Rc)
    requires rc.code < rc.range
    ensures var n := Normalize(input, rc);
            var after := DirectBit(input, rc).1;
            && after.code <= after.range
            && (after.code < after.range <==> !(n.range % 2 == 1 && n.code == n.range - 1))
  {
    var n := Normalize(input, rc);
    if rc.range < TOP_VALUE {
      assert rc.code * 256 + Peek(input, rc.pos) < rc.range * 256 < U32;
    }
    assert n.code < n.range;
  }

  /** A concrete state that leaves code equal to range. */
  lemma DirectCanReachRange()
    ensures var after := DirectBit([], Rc(0x100_0001, 0x100_0000, 0)).1;
            after.code == after.range
  {
  }

  // ---------- How fast the range can shrink ----------

  /** What m modelled bits, d direct bits and c bytes read leave of range r, at least: a modelled bit
      keeps 124/8193 of it, a direct bit 4096/8193, and every byte scales it by 256. */
  ghost function Left(r: real, m: nat, d: nat, c: nat): real {
    if m > 0 then 124.0 / 8193.0 * Left(r, m - 1, d, c)
    else if d > 0 then 4096.0 / 8193.0 * Left(r, 0, d - 1, c)
    else if c > 0 then 256.0 * Left(r, 0, 0, c - 1)
    else r
  }

  lemma {:induction false} LeftDirect(r: real, m: nat, d: nat, c: nat)
    ensures Left(r, m, d + 1, c) == 4096.0 / 8193.0 * Left(r, m, d, c)
  {
    if m > 0 {
      LeftDirect(r, m - 1, d, c);
    }
  }

  lemma {:induction false} LeftByte(r: real, m: nat, d: nat, c: nat)
    ensures Left(r, m, d, c + 1) == 256.0 * Left(r, m, d, c)
  {
    if m > 0 {
      LeftByte(r, m - 1, d, c);
    } else if d > 0 {
      LeftByte(r, 0, d - 1, c);
    }
  }

  lemma {:induction false} LeftMono(r: real, m: nat, d: nat, c: nat, r': real, m': nat, d': nat, c': nat)
    requires r >= r' > 0.0 && m <= m' && d <= d' && c >= c'
    ensures Left(r, m, d, c) >= Left(r', m', d', c') > 0.0
    decreases m', d', c
  {
    if m < m' {
      LeftMono(r, m, d, c, r', m' - 1, d', c');
    } else if m > 0 {
      LeftMono(r, m - 1, d, c, r', m' - 1, d', c');
    } else if d < d' {
      LeftMono(r, 0, d, c, r', 0, d' - 1, c');
    } else if d > 0 {
      LeftMono(r, 0, d - 1, c, r', 0, d' - 1, c');
    } else if c > c' {
      LeftMono(r, 0, 0, c - 1, r', 0, 0, c');
    } else if c > 0 {
      LeftMono(r, 0, 0, c - 1, r', 0, 0, c' - 1);
    }
  }

  /** rc1 comes from rc0 by m modelled and d direct bits. */
  ghost predicate Spent(rc0: Rc, rc1: Rc, m: nat, d: nat) {
    && rc0.pos <= rc1.pos
    && rc1.range as real >= Left(rc0.range as real, m, d, rc1.pos - rc0.pos)
  }

  /** As Spent, and the last of the m >= 1 modelled bits is the last bit of all: no byte is read
      after it, so the bytes read are bounded by the bits before it. */
  ghost predicate Used(rc0: Rc, rc1: Rc, m: nat, d: nat) {
    && m > 0
    && Spent(rc0, rc1, m, d)
    && U32 as real >= Left(rc0.range as real, m - 1, d, rc1.pos - rc0.pos)
  }

  lemma SpentNothing(rc: Rc)
    ensures Spent(rc, rc, 0, 0)
  {
  }

  lemma NormalizeSpends(input: seq<Byte>, rc0: Rc, rc: Rc, m: nat, d: nat)
    requires Spent(rc0, rc, m, d)
    ensures Spent(rc0, Normalize(input, rc), m, d)
  {
    LeftByte(rc0.range as real, m, d, rc.pos - rc0.pos);
  }

  lemma BitSpends(input: seq<Byte>, rc0: Rc, rc: Rc, prob: Prob, m: nat, d: nat)
    requires Spent(rc0, rc, m, d)
    ensures Used(rc0, DecodeBit(input, rc, prob).rc, m + 1, d)
  {
    var n, after := Normalize(input, rc), DecodeBit(input, rc, prob).rc;
    NormalizeSpends(input, rc0, rc, m, d);
    BoundSplits(n.range, prob);
    assert 8193 * after.range >= 124 * n.range;
  }

  lemma DirectSpends(input: seq<Byte>, rc0: Rc, rc: Rc, m: nat, d: nat)
    requires Spent(rc0, rc, m, d)
    ensures Spent(rc0, DirectBit(input, rc).1, m, d + 1)
  {
    var n, after := Normalize(input, rc), DirectBit(input, rc).1;
    NormalizeSpends(input, rc0, rc, m, d);
    LeftDirect(rc0.range as real, m, d, n.pos - rc0.pos);
    assert 8193 * after.range >= 4096 * n.range;
  }

  // Nine tenths of a bit are lost in at most 20 modelled bits against 15 bytes.
  lemma FourBitsThreeBytes(r: real, m: nat, d: nat, c: nat)
    requires Left(r, m, d, c) > 0.0
    ensures Left(r, m + 4, d, c + 3) >= 0.88 * Left(r, m, d, c)
  {
    LeftByte(r, m, d, c);
    LeftByte(r, m, d, c + 1);
    LeftByte(r, m, d, c + 2);
    var l := Left(r, m, d, c + 3);
    assert Left(r, m + 1, d, c + 3) == 124.0 / 8193.0 * l;
    assert Left(r, m + 2, d, c + 3) == 124.0 / 8193.0 * Left(r, m + 1, d, c + 3);
    assert Left(r, m + 3, d, c + 3) == 124.0 / 8193.0 * Left(r, m + 2, d, c + 3);
    assert Left(r, m + 4, d, c + 3) == 124.0 / 8193.0 * Left(r, m + 3, d, c + 3);
  }

  lemma EightDirectOneByte(r: real, m: nat, d: nat, c: nat)
    requires Left(r, m, d, c) > 0.0
    ensures Left(r, m, d + 8, c + 1) >= 0.99 * Left(r, m, d, c)
  {
    LeftByte(r, m, d, c);
    LeftDirect(r, m, d, c + 1);
    LeftDirect(r, m, d + 1, c + 1);
    LeftDirect(r, m, d + 2, c + 1);
    LeftDirect(r, m, d + 3, c + 1);
    LeftDirect(r, m, d + 4, c + 1);
    LeftDirect(r, m, d + 5, c + 1);
    LeftDirect(r, m, d + 6, c + 1);
    LeftDirect(r, m, d + 7, c + 1);
  }

  /** The arithmetic behind LZMA_IN_REQUIRED: 21 bytes before the last of 22 modelled and 26 direct
      bits would have pushed the range over 2^32. */
  lemma TwentyOneBytesTooMany()
    ensures Left(RANGE_MIN as real, 21, 26, 21) > U32 as real
  {
    var r := RANGE_MIN as real;
    assert Left(r, 0, 0, 1) == 256.0 * r;
    assert Left(r, 0, 0, 2) == 65536.0 * r;
    assert Left(r, 0, 0, 3) == 16777216.0 * r;
    assert Left(r, 0, 1, 3) == 4096.0 / 8193.0 * Left(r, 0, 0, 3);
    assert Left(r, 0, 2, 3) == 4096.0 / 8193.0 * Left(r, 0, 1, 3);
    assert Left(r, 1, 2, 3) == 124.0 / 8193.0 * Left(r, 0, 2, 3);
    EightDirectOneByte(r, 1, 2, 3);
    EightDirectOneByte(r, 1, 10, 4);
    EightDirectOneByte(r, 1, 18, 5);
    FourBitsThreeBytes(r, 1, 26, 6);
    FourBitsThreeBytes(r, 5, 26, 9);
    FourBitsThreeBytes(r, 9, 26, 12);
    FourBitsThreeBytes(r, 13, 26, 15);
    FourBitsThreeBytes(r, 17, 26, 18);
  }

  // A modelled bit costs less than seven direct ones.
  lemma OneBitForSevenDirect(r: real, m: nat, d: nat, c: nat)
    requires r > 0.0
    ensures Left(r, m + 1, d, c) >= Left(r, m, d + 7, c)
  {
    LeftMono(r, m, d, c, r, m, d, c);
    LeftDirect(r, m, d, c);
    LeftDirect(r, m, d + 1, c);
    LeftDirect(r, m, d + 2, c);
    LeftDirect(r, m, d + 3, c);
    LeftDirect(r, m, d + 4, c);
    LeftDirect(r, m, d + 5, c);
    LeftDirect(r, m, d + 6, c);
  }

  /** At most 22 modelled bits, the last bit one of them, and 26 direct bits consume at most 20 bytes,
      and with the normalization that follows at most 21 = LZMA_IN_REQUIRED. The same holds of 23
      modelled bits alone, the other long kind of match. */
  lemma UsedBytes(input: seq<Byte>, rc0: Rc, rc1: Rc, m: nat, d: nat)
    requires (m <= 22 && d <= 26) || (m <= 23 && d == 0)
    requires Used(rc0, rc1, m, d)
    ensures rc1.pos - rc0.pos <= 20
    ensures Normalize(input, rc1).pos - rc0.pos <= 21
  {
    var r, c := rc0.range as real, rc1.pos - rc0.pos;
    TwentyOneBytesTooMany();
    if c >= 21 {
      LeftMono(RANGE_MIN as real, 21, 7, 21, RANGE_MIN as real, 21, 26, 21);
      OneBitForSevenDirect(RANGE_MIN as real, 21, 0, 21);
      if m == 23 {
        LeftMono(r, 22, 0, c, RANGE_MIN as real, 22, 0, 21);
      } else {
        LeftMono(r, m - 1, d, c, RANGE_MIN as real, 21, 26, 21);
      }
      assert false;
    }
  }

  // ---------- Where the bytes come from does not matter ----------

  /** From index lo up to lim the first buffer holds what the second holds delta bytes further. */
  ghost predicate Agree(w1: seq<Byte>, w2: seq<Byte>, delta: int, lo: int, lim: int) {
    forall i :: lo <= i < lim ==> Peek(w1, i) == Peek(w2, i + delta)
  }

  function Shift(rc: Rc, delta: int): Rc {
    rc.(pos := rc.pos + delta)
  }

  lemma NormalizeShift(w1: seq<Byte>, w2: seq<Byte>, delta: int, lo: int, lim: int, rc: Rc)
    requires Agree(w1, w2, delta, lo, lim) && lo <= rc.pos
    ensures Normalize(w1, rc).pos <= lim ==> Normalize(w2, Shift(rc, delta)) == Shift(Normalize(w1, rc), delta)
  {
    if rc.range < TOP_VALUE && rc.pos < lim {
      assert Peek(w1, rc.pos) == Peek(w2, rc.pos + delta);
    }
  }
}
