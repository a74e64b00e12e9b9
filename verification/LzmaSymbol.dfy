/** Decoding one LZMA symbol (lzma_literal, lzma_len, lzma_match, lzma_rep_match and the choice
    between them in lzma_main of src/xz/xz_dec_lzma2.c) as functions of the input, the range decoder,
    the probability table and the history. */
module LzmaSymbol {
  import opened Basics
  import opened RangeCoder

  // Layout of the probabilities of struct lzma_dec, in the order lzma_reset walks over them.
  const IS_MATCH := 0
  const IS_REP := 192
  const IS_REP0 := 204
  const IS_REP1 := 216
  const IS_REP2 := 228
  const IS_REP0_LONG := 240
  const DIST_SLOT := 432
  const DIST_SPECIAL := 688
  const DIST_ALIGN := 802
  const MATCH_LEN := 818
  const REP_LEN := 1332
  const LITERAL := 1846
  const LITERAL_CODER_SIZE := 0x300
  const PROBS_TOTAL := 14134

  type Probs = s: seq<Prob> | |s| == PROBS_TOTAL witness FreshProbs()

  function FreshProbs(): (s: seq<Prob>)
    ensures |s| == PROBS_TOTAL && forall i :: 0 <= i < PROBS_TOTAL ==> s[i] == 1024
  {
    seq(PROBS_TOTAL, _ => 1024)
  }

  datatype Model = Model(rc: Rc, probs: Probs)

  // ---------- Bits, trees, direct bits ----------

  function Bit(input: seq<Byte>, m: Model, i: nat): (r: (bool, Model))
    requires i < PROBS_TOTAL
    ensures m.rc.pos <= r.1.rc.pos
  {
    var r := DecodeBit(input, m.rc, m.probs[i]);
    (r.bit, Model(r.rc, m.probs[i := r.prob]))
  }

  /** rc_bittree: most significant bit first. */
  function BitTree(input: seq<Byte>, m: Model, base: nat, symbol: nat, limit: nat): (r: (nat, Model))
    requires base + limit <= PROBS_TOTAL && 0 < symbol < 2 * limit
    ensures limit <= r.0 < 2 * limit
    ensures m.rc.pos <= r.1.rc.pos
    decreases limit - symbol
  {
    if symbol >= limit then
      (symbol, m)
    else
      var (bit, m1) := Bit(input, m, base + symbol);
      BitTree(input, m1, base, 2 * symbol + if bit then 1 else 0, limit)
  }

  /** rc_bittree_reverse: least significant bit first, added to dest. */
  function ReverseTree(input: seq<Byte>, m: Model, base: nat, symbol: nat, i: nat, limit: nat,
                       dest: nat): (r: (nat, Model))
    requires i <= limit && Pow2(i) <= symbol < 2 * Pow2(i) && base + Pow2(limit) <= PROBS_TOTAL
    ensures dest <= r.0 <= dest + Pow2(limit) - Pow2(i)
    ensures m.rc.pos <= r.1.rc.pos
    decreases limit - i
  {
    if i == limit then
      (dest, m)
    else
      Pow2Mono(i + 1, limit);
      var (bit, m1) := Bit(input, m, base + symbol);
      if bit then
        ReverseTree(input, m1, base, 2 * symbol + 1, i + 1, limit, dest + Pow2(i))
      else
        ReverseTree(input, m1, base, 2 * symbol, i + 1, limit, dest)
  }

  lemma {:induction false} Pow2Mono(a: nat, b: nat)
    requires a <= b
    ensures Pow2(a) <= Pow2(b)
  {
    if a < b {
      Pow2Mono(a, b - 1);
    }
  }

  /** rc_direct: limit bits appended to dest. */
  function Direct(input: seq<Byte>, rc: Rc, dest: nat, limit: nat): (r: (nat, Rc))
    ensures rc.pos <= r.1.pos
    decreases limit
  {
    if limit == 0 then
      (dest, rc)
    else
      var (bit, rc1) := DirectBit(input, rc);
      Direct(input, rc1, 2 * dest + if bit then 1 else 0, limit - 1)
  }

  lemma DoubleBound(dest: nat, next: nat, p: nat)
    requires next <= 2 * dest + 1
    ensures (next + 1) * p <= (dest + 1) * (2 * p)
  {
    assert (next + 1) * p <= (2 * dest + 2) * p;
  }

  lemma {:induction false} DirectBelow(input: seq<Byte>, rc: Rc, dest: nat, limit: nat)
    ensures Direct(input, rc, dest, limit).0 < (dest + 1) * Pow2(limit)
    decreases limit
  {
    if limit > 0 {
      var (bit, rc1) := DirectBit(input, rc);
      var next := 2 * dest + if bit then 1 else 0;
      DirectBelow(input, rc1, next, limit - 1);
      DoubleBound(dest, next, Pow2(limit - 1));
    }
  }

  // ---------- History and state ----------

  /** Byte at the given distance in the history, 0 while the history is empty. */
  function HistoryGet(history: seq<Byte>, dist: nat): Byte {
    if dist < |history| then history[|history| - 1 - dist] else 0
  }

  type State = s: int | 0 <= s < 12

  const LIT_STATES := 7

  function AfterLiteral(state: State): State {
    if state <= 3 then 0 else if state <= 9 then state - 3 else state - 6
  }

  function AfterMatch(state: State): State {
    if state < LIT_STATES then 7 else 10
  }

  function AfterLongRep(state: State): State {
    if state < LIT_STATES then 8 else 11
  }

  function AfterShortRep(state: State): State {
    if state < LIT_STATES then 9 else 11
  }

  /** The registers of struct lzma_dec other than the probabilities. */
  datatype Lzma = Lzma(
    rep0: Word, rep1: Word, rep2: Word, rep3: Word,
    state: State, len: nat,
    lc: nat, literalPosMask: nat, posMask: nat)

  predicate IsMask(x: int) {
    x == 0 || x == 1 || x == 3 || x == 7 || x == 15
  }

  /** What lzma_props establishes: lc + lp <= 4 and pb <= 4. */
  ghost predicate PropsValid(z: Lzma) {
    && z.lc <= 4
    && IsMask(z.posMask)
    && IsMask(z.literalPosMask)
    && (z.literalPosMask + 1) * Pow2(z.lc) <= 16
  }

  /** pos & mask, for a mask of at most four bits. */
  function And(pos: nat, mask: nat): (r: nat)
    requires IsMask(mask)
    ensures r <= mask
  {
    if mask == 15 then pos % 16
    else if mask == 7 then pos % 8
    else if mask == 3 then pos % 4
    else if mask == 1 then pos % 2
    else 0
  }

  /** dict.pos & pos_mask */
  function PosState(z: Lzma, history: seq<Byte>): (p: nat)
    requires PropsValid(z)
    ensures p < 16
  {
    And(|history|, z.posMask)
  }

  /** The top lc bits of the previous byte below the low lp bits of the position. */
  function LiteralIndex(prev: Byte, pos: nat, lc: nat, literalPosMask: nat): int
    requires lc <= 8 && IsMask(literalPosMask)
  {
    prev / Pow2(8 - lc) + And(pos, literalPosMask) * Pow2(lc)
  }

  /** Which literal coder to use; there are 16 of them. */
  function LiteralCoder(z: Lzma, history: seq<Byte>): (c: nat)
    requires PropsValid(z)
    ensures c < 16
  {
    LiteralIndexBound(z, HistoryGet(history, 0), |history|);
    LiteralIndex(HistoryGet(history, 0), |history|, z.lc, z.literalPosMask)
  }

  lemma LiteralIndexBound(z: Lzma, prev: Byte, pos: nat)
    requires PropsValid(z)
    ensures 0 <= LiteralIndex(prev, pos, z.lc, z.literalPosMask) < 16
  {
    var q := And(pos, z.literalPosMask);
    Pow2Values();
    assert 0 <= prev / Pow2(8 - z.lc) < Pow2(z.lc);
    assert q * Pow2(z.lc) + Pow2(z.lc) <= (z.literalPosMask + 1) * Pow2(z.lc);
  }

  lemma Pow2Values()
    ensures Pow2(0) == 1 && Pow2(1) == 2 && Pow2(2) == 4 && Pow2(3) == 8 && Pow2(4) == 16
    ensures Pow2(5) == 32 && Pow2(6) == 64 && Pow2(7) == 128 && Pow2(8) == 256
  {
  }

  // ---------- Literals ----------

  /** match_byte & offset */
  function MatchBit(offset: nat, matchByte: nat): (b: nat)
    ensures b == 0 || b == 0x100
  {
    if offset == 0x100 then (matchByte / 0x100 % 2) * 0x100 else 0
  }

  /** offset & match_bit after a one, offset & ~match_bit after a zero */
  function NextOffset(offset: nat, matchBit: nat, bit: bool): (o: nat)
    requires offset == 0 || offset == 0x100
    ensures o == 0 || o == 0x100
  {
    if bit == (matchBit == 0) then 0 else offset
  }

  /** The literal loop after a match: the coder section follows the bits of the byte at rep0 for as
      long as they are predicted right. */
  function MatchedLiteral(input: seq<Byte>, m: Model, base: nat, symbol: nat, offset: nat,
                          matchByte: nat): (r: (nat, Model))
    requires base + LITERAL_CODER_SIZE <= PROBS_TOTAL && 0 < symbol < 0x200
    requires offset == 0 || offset == 0x100
    ensures 0x100 <= r.0 < 0x200
    ensures m.rc.pos <= r.1.rc.pos
    decreases 0x200 - symbol
  {
    if symbol >= 0x100 then
      (symbol, m)
    else
      var matchBit := MatchBit(offset, matchByte);
      var (bit, m1) := Bit(input, m, base + offset + matchBit + symbol);
      MatchedLiteral(input, m1, base, 2 * symbol + if bit then 1 else 0, NextOffset(offset, matchBit, bit),
                     2 * matchByte)
  }

  /** The eight bits of a literal, with the given coder. */
  function LiteralBits(input: seq<Byte>, m: Model, coder: nat, state: State, matchByte: Byte): (r: (Byte, Model))
    requires coder < 16
    ensures m.rc.pos <= r.1.rc.pos
  {
    var base := LITERAL + LITERAL_CODER_SIZE * coder;
    var (symbol, m1) :=
      if state < LIT_STATES then BitTree(input, m, base, 1, 0x100)
      else MatchedLiteral(input, m, base, 1, 0x100, 2 * matchByte);
    (symbol - 0x100, m1)
  }

  function Literal(input: seq<Byte>, m: Model, z: Lzma, history: seq<Byte>): (r: (Byte, Model))
    requires PropsValid(z)
    ensures m.rc.pos <= r.1.rc.pos
  {
    LiteralBits(input, m, LiteralCoder(z, history), z.state, HistoryGet(history, z.rep0))
  }

  // ---------- Matches ----------

  const MATCH_LEN_MIN := 2
  const MATCH_LEN_MAX := 273

  /** Which of the three trees of a length decoder: where it starts, its size, its shortest length. */
  datatype LengthTree = LengthTree(base: nat, limit: nat, min: nat)

  /** The one or two bits at the start of lzma_len; the low and middle trees depend on the position. */
  function ChooseLengthTree(input: seq<Byte>, m: Model, base: nat, posState: nat): (r: (LengthTree, Model))
    requires base == MATCH_LEN || base == REP_LEN
    requires posState < 16
    ensures r.0.base + r.0.limit <= base + 514
    ensures r.0.limit == 8 || r.0.limit == 256
    ensures MATCH_LEN_MIN <= r.0.min && r.0.min + r.0.limit <= MATCH_LEN_MAX + 1
    ensures m.rc.pos <= r.1.rc.pos
  {
    var (choice, m1) := Bit(input, m, base);
    if !choice then
      (LengthTree(base + 2 + 8 * posState, 8, MATCH_LEN_MIN), m1)
    else
      var (choice2, m2) := Bit(input, m1, base + 1);
      if !choice2 then
        (LengthTree(base + 130 + 8 * posState, 8, MATCH_LEN_MIN + 8), m2)
      else
        (LengthTree(base + 258, 256, MATCH_LEN_MIN + 16), m2)
  }

  /** lzma_len: 8 + 8 + 256 lengths. */
  function Length(input: seq<Byte>, m: Model, base: nat, posState: nat): (r: (nat, Model))
    requires base == MATCH_LEN || base == REP_LEN
    requires posState < 16
    ensures MATCH_LEN_MIN <= r.0 <= MATCH_LEN_MAX
    ensures m.rc.pos <= r.1.rc.pos
  {
    var (t, m1) := ChooseLengthTree(input, m, base, posState);
    var (symbol, m2) := BitTree(input, m1, t.base, 1, t.limit);
    (t.min + symbol - t.limit, m2)
  }

  function DistState(len: nat): nat
    requires MATCH_LEN_MIN <= len
  {
    if len < 6 then len - 2 else 3
  }

  /** Slots 4 to 13: one to five modelled bits below the highest two. */
  function SpecialDistance(input: seq<Byte>, m: Model, slot: nat): (r: (Word, Model))
    requires 4 <= slot < 14
    ensures m.rc.pos <= r.1.rc.pos
  {
    var limit := slot / 2 - 1;
    var dist := (2 + slot % 2) * Pow2(limit);
    SpecialFits(slot);
    ReverseTree(input, m, DIST_SPECIAL + dist - slot - 1, 1, 0, limit, dist)
  }

  /** The four lowest bits of a long distance. */
  function AlignBits(input: seq<Byte>, m: Model, dist: nat): (r: (Word, Model))
    requires dist * 16 + 16 <= U32
    ensures m.rc.pos <= r.1.rc.pos
  {
    Pow2Values();
    ReverseTree(input, m, DIST_ALIGN, 1, 0, 4, dist * 16)
  }

  /** Slots 14 to 63: direct bits, then four modelled bits. */
  function AlignedDistance(input: seq<Byte>, m: Model, slot: nat): (r: (Word, Model))
    requires 14 <= slot < 64
    ensures m.rc.pos <= r.1.rc.pos
  {
    var limit := slot / 2 - 1;
    var (dist, rc1) := Direct(input, m.rc, 2 + slot % 2, limit - 4);
    DirectFits(input, m.rc, 2 + slot % 2, limit);
    AlignBits(input, m.(rc := rc1), dist)
  }

  /** The distance of a match with a new distance, from its slot and the bits below the highest two. */
  function Distance(input: seq<Byte>, m: Model, len: nat): (r: (Word, Model))
    requires MATCH_LEN_MIN <= len
    ensures m.rc.pos <= r.1.rc.pos
  {
    var (symbol, m1) := BitTree(input, m, DIST_SLOT + 64 * DistState(len), 1, 64);
    var slot := symbol - 64;
    if slot < 4 then (slot, m1)
    else if slot < 14 then SpecialDistance(input, m1, slot)
    else AlignedDistance(input, m1, slot)
  }

  // dist_special[rep0 - dist_slot - 1 + symbol] stays inside its 114 entries.
  lemma SpecialFits(slot: nat)
    requires 4 <= slot < 14
    ensures var limit := slot / 2 - 1;
            var dist := (2 + slot % 2) * Pow2(limit);
            && 0 <= dist - slot - 1 + 1
            && dist - slot - 1 + Pow2(limit) <= 114
            && dist + Pow2(limit) <= 128
  {
    Pow2Values();
  }

  lemma DirectFits(input: seq<Byte>, rc: Rc, high: nat, limit: nat)
    requires high <= 3 && 4 <= limit <= 30
    ensures Direct(input, rc, high, limit - 4).0 * 16 + 16 <= U32
  {
    hide Direct;
    DirectBelow(input, rc, high, limit - 4);
    Pow2Mono(limit - 4, 26);
    Pow2Values();
    assert Pow2(14) == 0x4000 && Pow2(20) == 0x10_0000 && Pow2(26) == 0x400_0000;
    assert (high + 1) * Pow2(limit - 4) <= 4 * Pow2(26);
  }

  datatype Symbol = Lit(byte: Byte) | Copy

  /** lzma_match: a match with a new distance. */
  function Match(input: seq<Byte>, m: Model, z: Lzma, posState: nat): (r: (Lzma, Model))
    requires posState < 16
    ensures m.rc.pos <= r.1.rc.pos
    ensures r.0.len > 0
  {
    var (len, m1) := Length(input, m, MATCH_LEN, posState);
    var (dist, m2) := Distance(input, m1, len);
    (z.(state := AfterMatch(z.state), rep0 := dist, rep1 := z.rep0, rep2 := z.rep1, rep3 := z.rep2, len := len), m2)
  }

  /** lzma_rep_match: a match at one of the four latest distances, or a single byte at rep0. */
  function RepMatch(input: seq<Byte>, m: Model, z: Lzma, posState: nat): (r: (Lzma, Model))
    requires posState < 16
    ensures m.rc.pos <= r.1.rc.pos
    ensures r.0.len > 0
  {
    var (notRep0, m1) := Bit(input, m, IS_REP0 + z.state);
    if !notRep0 then
      var (long, m2) := Bit(input, m1, IS_REP0_LONG + 16 * z.state + posState);
      if !long then
        (z.(state := AfterShortRep(z.state), len := 1), m2)
      else
        var (len, m3) := Length(input, m2, REP_LEN, posState);
        (z.(state := AfterLongRep(z.state), len := len), m3)
    else
      var (notRep1, m2) := Bit(input, m1, IS_REP1 + z.state);
      if !notRep1 then
        var (len, m3) := Length(input, m2, REP_LEN, posState);
        (z.(state := AfterLongRep(z.state), rep0 := z.rep1, rep1 := z.rep0, len := len), m3)
      else
        var (notRep2, m3) := Bit(input, m2, IS_REP2 + z.state);
        var (len, m4) := Length(input, m3, REP_LEN, posState);
        if !notRep2 then
          (z.(state := AfterLongRep(z.state), rep0 := z.rep2, rep1 := z.rep0, rep2 := z.rep1, len := len), m4)
        else
          (z.(state := AfterLongRep(z.state), rep0 := z.rep3, rep1 := z.rep0, rep2 := z.rep1, rep3 := z.rep2,
              len := len), m4)
  }

  /** A match of either kind. */
  function AnyMatch(input: seq<Byte>, m: Model, z: Lzma, posState: nat): (r: (Lzma, Model))
    requires posState < 16
    ensures m.rc.pos <= r.1.rc.pos
    ensures 0 < r.0.len <= MATCH_LEN_MAX && r.0.state >= LIT_STATES
    ensures r.0.lc == z.lc && r.0.literalPosMask == z.literalPosMask && r.0.posMask == z.posMask
  {
    var (isRep, m1) := Bit(input, m, IS_REP + z.state);
    if isRep then RepMatch(input, m1, z, posState) else Match(input, m1, z, posState)
  }

  datatype SymbolResult = SymbolResult(symbol: Symbol, z: Lzma, m: Model)

  /** One iteration of the loop of lzma_main, up to the copying of the match. */
  function DecodeSymbol(input: seq<Byte>, m: Model, z: Lzma, history: seq<Byte>): (r: SymbolResult)
    requires PropsValid(z)
    ensures m.rc.pos <= r.m.rc.pos
    ensures r.symbol.Copy? ==> 0 < r.z.len <= MATCH_LEN_MAX && r.z.state >= LIT_STATES
    ensures r.symbol.Lit? ==> r.z.len == z.len && r.z.rep0 == z.rep0 && r.z.state < LIT_STATES
    ensures r.z.lc == z.lc && r.z.literalPosMask == z.literalPosMask && r.z.posMask == z.posMask
  {
    var posState := PosState(z, history);
    var (isMatch, m1) := Bit(input, m, IS_MATCH + 16 * z.state + posState);
    if isMatch then
      var (z1, m2) := AnyMatch(input, m1, z, posState);
      SymbolResult(Copy, z1, m2)
    else
      var (byte, m2) := Literal(input, m1, z, history);
      SymbolResult(Lit(byte), z.(state := AfterLiteral(z.state)), m2)
  }
}
