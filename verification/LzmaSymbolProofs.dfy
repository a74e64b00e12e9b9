/** Two facts about every symbol decoder of LzmaSymbol: how many input bytes it can use, and that it
    reads its input only through the bytes at and after its position. */
module LzmaSymbolProofs {
  import opened Basics
  import opened RangeCoder
  import opened LzmaSymbol

  // ---------- Input budget ----------

  lemma TreeStep(symbol: nat, next: nat, n: nat, limit: nat)
    requires n > 0 && limit <= symbol * Pow2(n) && next >= 2 * symbol
    ensures limit <= next * Pow2(n - 1)
  {
    assert symbol * Pow2(n) == (2 * symbol) * Pow2(n - 1) <= next * Pow2(n - 1);
  }

  lemma MoreBits(rc0: Rc, rc1: Rc, m: nat, d: nat, m': nat)
    requires m <= m' && Used(rc0, rc1, m, d)
    ensures Used(rc0, rc1, m', d)
  {
    var r, c := rc0.range as real, rc1.pos - rc0.pos;
    LeftMono(r, m, d, c, r, m', d, c);
    LeftMono(r, m - 1, d, c, r, m' - 1, d, c);
  }

  lemma OneBitSpends(input: seq<Byte>, rc0: Rc, m: Model, i: nat, k: nat, d: nat)
    requires i < PROBS_TOTAL && Spent(rc0, m.rc, k, d)
    ensures var rc1 := Bit(input, m, i).1.rc;
            Used(rc0, rc1, k + 1, d) && Spent(rc0, rc1, k + 1, d)
  {
    BitSpends(input, rc0, m.rc, m.probs[i], k, d);
  }

  lemma {:induction false} BitTreeSpends(input: seq<Byte>, rc0: Rc, m: Model, base: nat, symbol: nat, limit: nat,
                                         n: nat, k: nat, d: nat)
    requires base + limit <= PROBS_TOTAL && 0 < symbol < limit <= symbol * Pow2(n)
    requires Spent(rc0, m.rc, k, d)
    ensures Used(rc0, BitTree(input, m, base, symbol, limit).1.rc, k + n, d)
    decreases limit - symbol
  {
    hide Bit, Used, Spent;
    assert n > 0;
    var (bit, m1) := Bit(input, m, base + symbol);
    var next := 2 * symbol + if bit then 1 else 0;
    OneBitSpends(input, rc0, m, base + symbol, k, d);
    TreeStep(symbol, next, n, limit);
    if next < limit {
      BitTreeSpends(input, rc0, m1, base, next, limit, n - 1, k + 1, d);
    } else {
      MoreBits(rc0, m1.rc, k + 1, d, k + n);
    }
  }

  lemma {:induction false} ReverseTreeSpends(input: seq<Byte>, rc0: Rc, m: Model, base: nat, symbol: nat, i: nat,
                                             limit: nat, dest: nat, k: nat, d: nat)
    requires i < limit && Pow2(i) <= symbol < 2 * Pow2(i) && base + Pow2(limit) <= PROBS_TOTAL
    requires Spent(rc0, m.rc, k, d)
    ensures Used(rc0, ReverseTree(input, m, base, symbol, i, limit, dest).1.rc, k + limit - i, d)
    decreases limit - i
  {
    hide DecodeBit, Left;
    Pow2Mono(i + 1, limit);
    var (bit, m1) := Bit(input, m, base + symbol);
    BitSpends(input, rc0, m.rc, m.probs[base + symbol], k, d);
    if i + 1 < limit {
      if bit {
        ReverseTreeSpends(input, rc0, m1, base, 2 * symbol + 1, i + 1, limit, dest + Pow2(i), k + 1, d);
      } else {
        ReverseTreeSpends(input, rc0, m1, base, 2 * symbol, i + 1, limit, dest, k + 1, d);
      }
    }
  }

  lemma {:induction false} DirectBitsSpend(input: seq<Byte>, rc0: Rc, rc: Rc, dest: nat, limit: nat, k: nat, d: nat)
    requires Spent(rc0, rc, k, d)
    ensures Spent(rc0, Direct(input, rc, dest, limit).1, k, d + limit)
    decreases limit
  {
    if limit > 0 {
      var (bit, rc1) := DirectBit(input, rc);
      DirectSpends(input, rc0, rc, k, d);
      DirectBitsSpend(input, rc0, rc1, 2 * dest + if bit then 1 else 0, limit - 1, k, d + 1);
    }
  }

  lemma {:induction false} MatchedLiteralSpends(input: seq<Byte>, rc0: Rc, m: Model, base: nat, symbol: nat,
                                                offset: nat, matchByte: nat, n: nat, k: nat)
    requires base + LITERAL_CODER_SIZE <= PROBS_TOTAL && 0 < symbol < 0x100 <= symbol * Pow2(n)
    requires offset == 0 || offset == 0x100
    requires Spent(rc0, m.rc, k, 0)
    ensures Used(rc0, MatchedLiteral(input, m, base, symbol, offset, matchByte).1.rc, k + n, 0)
    decreases 0x200 - symbol
  {
    hide Bit, MatchBit, NextOffset, Used, Spent;
    assert n > 0;
    var matchBit := MatchBit(offset, matchByte);
    var (bit, m1) := Bit(input, m, base + offset + matchBit + symbol);
    var next := 2 * symbol + if bit then 1 else 0;
    var offset' := NextOffset(offset, matchBit, bit);
    OneBitSpends(input, rc0, m, base + offset + matchBit + symbol, k, 0);
    TreeStep(symbol, next, n, 0x100);
    if next < 0x100 {
      MatchedLiteralSpends(input, rc0, m1, base, next, offset', 2 * matchByte, n - 1, k + 1);
    } else {
      MoreBits(rc0, m1.rc, k + 1, 0, k + n);
    }
  }

  lemma LiteralSpends(input: seq<Byte>, rc0: Rc, m: Model, coder: nat, state: State, matchByte: Byte, k: nat)
    requires coder < 16 && Spent(rc0, m.rc, k, 0)
    ensures Used(rc0, LiteralBits(input, m, coder, state, matchByte).1.rc, k + 8, 0)
  {
    hide BitTree, MatchedLiteral, Used, Spent;
    var base := LITERAL + LITERAL_CODER_SIZE * coder;
    if state < LIT_STATES {
      SmallTreeSpends(input, rc0, m, base, 0x100, 8, k);
    } else {
      Pow2Values();
      MatchedLiteralSpends(input, rc0, m, base, 1, 0x100, 2 * matchByte, 8, k);
    }
  }

  lemma LengthSpends(input: seq<Byte>, rc0: Rc, m: Model, base: nat, posState: nat, k: nat)
    requires base == MATCH_LEN || base == REP_LEN
    requires posState < 16 && Spent(rc0, m.rc, k, 0)
    ensures Used(rc0, Length(input, m, base, posState).1.rc, k + 10, 0)
  {
    hide DecodeBit, BitTree, Left;
    var (choice, m1) := Bit(input, m, base);
    BitSpends(input, rc0, m.rc, m.probs[base], k, 0);
    if !choice {
      SmallTreeSpends(input, rc0, m1, base + 2 + 8 * posState, 8, 9, k + 1);
    } else {
      var (choice2, m2) := Bit(input, m1, base + 1);
      BitSpends(input, rc0, m1.rc, m1.probs[base + 1], k + 1, 0);
      if !choice2 {
        SmallTreeSpends(input, rc0, m2, base + 130 + 8 * posState, 8, 8, k + 2);
      } else {
        SmallTreeSpends(input, rc0, m2, base + 258, 256, 8, k + 2);
      }
    }
  }

  lemma SmallTreeSpends(input: seq<Byte>, rc0: Rc, m: Model, base: nat, limit: nat, n: nat, k: nat)
    requires base + limit <= PROBS_TOTAL
    requires (limit == 8 && 8 <= n <= 9) || (limit == 256 && n == 8) || (limit == 64 && n == 6)
    requires Spent(rc0, m.rc, k, 0)
    ensures Used(rc0, BitTree(input, m, base, 1, limit).1.rc, k + n, 0)
  {
    Pow2Values();
    BitTreeSpends(input, rc0, m, base, 1, limit, n, k, 0);
  }

  /** What one symbol may use: 22 modelled and 26 direct bits, or 23 modelled bits. */
  ghost predicate WithinBudget(rc0: Rc, rc1: Rc) {
    || Used(rc0, rc1, 22, 26)
    || Used(rc0, rc1, 23, 0)
  }

  lemma UsedWithinBudget(rc0: Rc, rc1: Rc, m: nat, d: nat)
    requires Used(rc0, rc1, m, d)
    requires (m <= 22 && d <= 26) || (m <= 23 && d == 0)
    ensures WithinBudget(rc0, rc1)
  {
    var r, c := rc0.range as real, rc1.pos - rc0.pos;
    if d <= 26 && m <= 22 {
      LeftMono(r, m, d, c, r, 22, 26, c);
      LeftMono(r, m - 1, d, c, r, 21, 26, c);
    }
  }

  lemma DistanceSpends(input: seq<Byte>, rc0: Rc, m: Model, len: nat)
    requires MATCH_LEN_MIN <= len && Spent(rc0, m.rc, 12, 0)
    ensures WithinBudget(rc0, Distance(input, m, len).1.rc)
  {
    var (symbol, m1) := BitTree(input, m, DIST_SLOT + 64 * DistState(len), 1, 64);
    SmallTreeSpends(input, rc0, m, DIST_SLOT + 64 * DistState(len), 64, 6, 12);
    var slot := symbol - 64;
    if slot < 4 {
      UsedWithinBudget(rc0, m1.rc, 18, 0);
    } else if slot < 14 {
      SpecialSpends(input, rc0, m1, slot);
    } else {
      AlignedSpends(input, rc0, m1, slot);
    }
  }

  lemma SpecialSpends(input: seq<Byte>, rc0: Rc, m: Model, slot: nat)
    requires 4 <= slot < 14 && Spent(rc0, m.rc, 18, 0)
    ensures WithinBudget(rc0, SpecialDistance(input, m, slot).1.rc)
  {
    hide DecodeBit, Left;
    SpecialFits(slot);
    var limit := slot / 2 - 1;
    var dist := (2 + slot % 2) * Pow2(limit);
    ReverseTreeSpends(input, rc0, m, DIST_SPECIAL + dist - slot - 1, 1, 0, limit, dist, 18, 0);
    UsedWithinBudget(rc0, SpecialDistance(input, m, slot).1.rc, 18 + limit, 0);
  }

  lemma AlignedSpends(input: seq<Byte>, rc0: Rc, m: Model, slot: nat)
    requires 14 <= slot < 64 && Spent(rc0, m.rc, 18, 0)
    ensures WithinBudget(rc0, AlignedDistance(input, m, slot).1.rc)
  {
    hide Direct, DecodeBit, ReverseTree;
    Pow2Values();
    var limit := slot / 2 - 1;
    var (dist, rc1) := Direct(input, m.rc, 2 + slot % 2, limit - 4);
    DirectBitsSpend(input, rc0, m.rc, 2 + slot % 2, limit - 4, 18, 0);
    ReverseTreeSpends(input, rc0, m.(rc := rc1), DIST_ALIGN, 1, 0, 4, dist * 16, 18, limit - 4);
    UsedWithinBudget(rc0, AlignedDistance(input, m, slot).1.rc, 22, limit - 4);
  }

  lemma LongLengthSpends(input: seq<Byte>, rc0: Rc, m: Model, posState: nat, k: nat)
    requires posState < 16 && k <= 12 && Spent(rc0, m.rc, k, 0)
    ensures WithinBudget(rc0, Length(input, m, REP_LEN, posState).1.rc)
  {
    LengthSpends(input, rc0, m, REP_LEN, posState, k);
    UsedWithinBudget(rc0, Length(input, m, REP_LEN, posState).1.rc, k + 10, 0);
  }

  lemma RepMatchSpends(input: seq<Byte>, rc0: Rc, m: Model, z: Lzma, posState: nat)
    requires posState < 16 && Spent(rc0, m.rc, 2, 0)
    ensures WithinBudget(rc0, RepMatch(input, m, z, posState).1.rc)
  {
    hide DecodeBit, Length;
    var (notRep0, m1) := Bit(input, m, IS_REP0 + z.state);
    BitSpends(input, rc0, m.rc, m.probs[IS_REP0 + z.state], 2, 0);
    if !notRep0 {
      var i := IS_REP0_LONG + 16 * z.state + posState;
      var (long, m2) := Bit(input, m1, i);
      BitSpends(input, rc0, m1.rc, m1.probs[i], 3, 0);
      if long {
        LongLengthSpends(input, rc0, m2, posState, 4);
      } else {
        UsedWithinBudget(rc0, m2.rc, 4, 0);
      }
    } else {
      var (notRep1, m2) := Bit(input, m1, IS_REP1 + z.state);
      BitSpends(input, rc0, m1.rc, m1.probs[IS_REP1 + z.state], 3, 0);
      if !notRep1 {
        LongLengthSpends(input, rc0, m2, posState, 4);
      } else {
        var (notRep2, m3) := Bit(input, m2, IS_REP2 + z.state);
        BitSpends(input, rc0, m2.rc, m2.probs[IS_REP2 + z.state], 4, 0);
        LongLengthSpends(input, rc0, m3, posState, 5);
      }
    }
  }

  lemma SymbolSpends(input: seq<Byte>, m: Model, z: Lzma, history: seq<Byte>)
    requires PropsValid(z)
    ensures WithinBudget(m.rc, DecodeSymbol(input, m, z, history).m.rc)
  {
    hide DecodeBit, LiteralBits, Length, Distance, RepMatch, LiteralCoder, And, Pow2, Left;
    var rc1 := DecodeSymbol(input, m, z, history).m.rc;
    var posState := PosState(z, history);
    var i := IS_MATCH + 16 * z.state + posState;
    var (isMatch, m1) := Bit(input, m, i);
    SpentNothing(m.rc);
    BitSpends(input, m.rc, m.rc, m.probs[i], 0, 0);
    if isMatch {
      var (isRep, m2) := Bit(input, m1, IS_REP + z.state);
      BitSpends(input, m.rc, m1.rc, m1.probs[IS_REP + z.state], 1, 0);
      if isRep {
        RepMatchSpends(input, m.rc, m2, z, posState);
      } else {
        var (len, m3) := Length(input, m2, MATCH_LEN, posState);
        LengthSpends(input, m.rc, m2, MATCH_LEN, posState, 2);
        DistanceSpends(input, m.rc, m3, len);
      }
    } else {
      LiteralSpends(input, m.rc, m1, LiteralCoder(z, history), z.state, HistoryGet(history, z.rep0), 1);
      UsedWithinBudget(m.rc, rc1, 9, 0);
    }
  }

  /** Input bound: on any input one symbol consumes at most 20 bytes, and at most 21 =
      LZMA_IN_REQUIRED with the normalization after it. */
  lemma SymbolBytes(input: seq<Byte>, m: Model, z: Lzma, history: seq<Byte>)
    requires PropsValid(z)
    ensures var r := DecodeSymbol(input, m, z, history);
            && r.m.rc.pos - m.rc.pos <= 20
            && Normalize(input, r.m.rc).pos - m.rc.pos <= 21
  {
    SymbolSpends(input, m, z, history);
    var rc1 := DecodeSymbol(input, m, z, history).m.rc;
    if Used(m.rc, rc1, 22, 26) {
      UsedBytes(input, m.rc, rc1, 22, 26);
    } else {
      UsedBytes(input, m.rc, rc1, 23, 0);
    }
  }

  // ---------- Only the bytes read matter ----------

  function Moved(m: Model, delta: int): Model {
    m.(rc := Shift(m.rc, delta))
  }

  lemma BitMoves(w1: seq<Byte>, w2: seq<Byte>, delta: int, lo: int, lim: int, m: Model, i: nat)
    requires i < PROBS_TOTAL && Agree(w1, w2, delta, lo, lim) && lo <= m.rc.pos
    ensures Bit(w1, m, i).1.rc.pos <= lim ==>
              Bit(w2, Moved(m, delta), i) == (Bit(w1, m, i).0, Moved(Bit(w1, m, i).1, delta))
  {
    NormalizeShift(w1, w2, delta, lo, lim, m.rc);
  }

  lemma {:induction false} BitTreeMoves(w1: seq<Byte>, w2: seq<Byte>, delta: int, lo: int, lim: int, m: Model,
                                        base: nat, symbol: nat, limit: nat)
    requires base + limit <= PROBS_TOTAL && 0 < symbol < 2 * limit
    requires Agree(w1, w2, delta, lo, lim) && lo <= m.rc.pos
    ensures var r := BitTree(w1, m, base, symbol, limit);
            r.1.rc.pos <= lim ==> BitTree(w2, Moved(m, delta), base, symbol, limit) == (r.0, Moved(r.1, delta))
    decreases limit - symbol
  {
    hide Bit;
    if symbol < limit {
      var (bit, m1) := Bit(w1, m, base + symbol);
      BitMoves(w1, w2, delta, lo, lim, m, base + symbol);
      BitTreeMoves(w1, w2, delta, lo, lim, m1, base, 2 * symbol + if bit then 1 else 0, limit);
    }
  }

  lemma {:induction false} ReverseTreeMoves(w1: seq<Byte>, w2: seq<Byte>, delta: int, lo: int, lim: int, m: Model,
                                            base: nat, symbol: nat, i: nat, limit: nat, dest: nat)
    requires i <= limit && Pow2(i) <= symbol < 2 * Pow2(i) && base + Pow2(limit) <= PROBS_TOTAL
    requires Agree(w1, w2, delta, lo, lim) && lo <= m.rc.pos
    ensures var r := ReverseTree(w1, m, base, symbol, i, limit, dest);
            r.1.rc.pos <= lim ==>
              ReverseTree(w2, Moved(m, delta), base, symbol, i, limit, dest) == (r.0, Moved(r.1, delta))
    decreases limit - i
  {
    hide Bit;
    if i < limit {
      Pow2Mono(i + 1, limit);
      var (bit, m1) := Bit(w1, m, base + symbol);
      BitMoves(w1, w2, delta, lo, lim, m, base + symbol);
      if bit {
        ReverseTreeMoves(w1, w2, delta, lo, lim, m1, base, 2 * symbol + 1, i + 1, limit, dest + Pow2(i));
      } else {
        ReverseTreeMoves(w1, w2, delta, lo, lim, m1, base, 2 * symbol, i + 1, limit, dest);
      }
    }
  }

  lemma DirectBitMoves(w1: seq<Byte>, w2: seq<Byte>, delta: int, lo: int, lim: int, rc: Rc)
    requires Agree(w1, w2, delta, lo, lim) && lo <= rc.pos
    ensures DirectBit(w1, rc).1.pos <= lim ==>
              DirectBit(w2, Shift(rc, delta)) == (DirectBit(w1, rc).0, Shift(DirectBit(w1, rc).1, delta))
  {
    NormalizeShift(w1, w2, delta, lo, lim, rc);
  }

  lemma {:induction false} DirectMoves(w1: seq<Byte>, w2: seq<Byte>, delta: int, lo: int, lim: int, rc: Rc, dest: nat,
                                       limit: nat)
    requires Agree(w1, w2, delta, lo, lim) && lo <= rc.pos
    ensures var r := Direct(w1, rc, dest, limit);
            r.1.pos <= lim ==> Direct(w2, Shift(rc, delta), dest, limit) == (r.0, Shift(r.1, delta))
    decreases limit
  {
    hide DirectBit;
    if limit > 0 {
      var (bit, rc1) := DirectBit(w1, rc);
      var next := 2 * dest + if bit then 1 else 0;
      var r := Direct(w1, rc1, next, limit - 1);
      assert Direct(w1, rc, dest, limit) == r;
      DirectBitMoves(w1, w2, delta, lo, lim, rc);
      DirectMoves(w1, w2, delta, lo, lim, rc1, next, limit - 1);
      if r.1.pos <= lim {
        assert Direct(w2, Shift(rc, delta), dest, limit) == Direct(w2, Shift(rc1, delta), next, limit - 1);
      }
    }
  }

  lemma {:induction false} MatchedLiteralMoves(w1: seq<Byte>, w2: seq<Byte>, delta: int, lo: int, lim: int, m: Model,
                                               base: nat, symbol: nat, offset: nat, matchByte: nat)
    requires base + LITERAL_CODER_SIZE <= PROBS_TOTAL && 0 < symbol < 0x200
    requires offset == 0 || offset == 0x100
    requires Agree(w1, w2, delta, lo, lim) && lo <= m.rc.pos
    ensures var r := MatchedLiteral(w1, m, base, symbol, offset, matchByte);
            r.1.rc.pos <= lim ==>
              MatchedLiteral(w2, Moved(m, delta), base, symbol, offset, matchByte) == (r.0, Moved(r.1, delta))
    decreases 0x200 - symbol
  {
    hide Bit, MatchBit, NextOffset;
    if symbol < 0x100 {
      var matchBit := MatchBit(offset, matchByte);
      var i := base + offset + matchBit + symbol;
      var (bit, m1) := Bit(w1, m, i);
      BitMoves(w1, w2, delta, lo, lim, m, i);
      var next, offset' := 2 * symbol + if bit then 1 else 0, NextOffset(offset, matchBit, bit);
      MatchedLiteralMoves(w1, w2, delta, lo, lim, m1, base, next, offset', 2 * matchByte);
      var r := MatchedLiteral(w1, m1, base, next, offset', 2 * matchByte);
      assert MatchedLiteral(w1, m, base, symbol, offset, matchByte) == r;
      if r.1.rc.pos <= lim {
        assert Bit(w2, Moved(m, delta), i) == (bit, Moved(m1, delta));
      }
    }
  }

  lemma LiteralMoves(w1: seq<Byte>, w2: seq<Byte>, delta: int, lo: int, lim: int, m: Model, coder: nat, state: State,
                     matchByte: Byte)
    requires coder < 16 && Agree(w1, w2, delta, lo, lim) && lo <= m.rc.pos
    ensures var r := LiteralBits(w1, m, coder, state, matchByte);
            r.1.rc.pos <= lim ==> LiteralBits(w2, Moved(m, delta), coder, state, matchByte) == (r.0, Moved(r.1, delta))
  {
    hide DecodeBit, BitTree, MatchedLiteral;
    var base := LITERAL + LITERAL_CODER_SIZE * coder;
    if state < LIT_STATES {
      BitTreeMoves(w1, w2, delta, lo, lim, m, base, 1, 0x100);
    } else {
      MatchedLiteralMoves(w1, w2, delta, lo, lim, m, base, 1, 0x100, 2 * matchByte);
    }
  }

  lemma LengthTreeMoves(w1: seq<Byte>, w2: seq<Byte>, delta: int, lo: int, lim: int, m: Model, base: nat, posState: nat)
    requires base == MATCH_LEN || base == REP_LEN
    requires posState < 16 && Agree(w1, w2, delta, lo, lim) && lo <= m.rc.pos
    ensures var r := ChooseLengthTree(w1, m, base, posState);
            r.1.rc.pos <= lim ==> ChooseLengthTree(w2, Moved(m, delta), base, posState) == (r.0, Moved(r.1, delta))
  {
    hide Bit;
    var (choice, m1) := Bit(w1, m, base);
    BitMoves(w1, w2, delta, lo, lim, m, base);
    if choice {
      BitMoves(w1, w2, delta, lo, lim, m1, base + 1);
    }
  }

  lemma LengthMoves(w1: seq<Byte>, w2: seq<Byte>, delta: int, lo: int, lim: int, m: Model, base: nat, posState: nat)
    requires base == MATCH_LEN || base == REP_LEN
    requires posState < 16 && Agree(w1, w2, delta, lo, lim) && lo <= m.rc.pos
    ensures var r := Length(w1, m, base, posState);
            r.1.rc.pos <= lim ==> Length(w2, Moved(m, delta), base, posState) == (r.0, Moved(r.1, delta))
  {
    hide DecodeBit, ChooseLengthTree, BitTree;
    var (t, m1) := ChooseLengthTree(w1, m, base, posState);
    LengthTreeMoves(w1, w2, delta, lo, lim, m, base, posState);
    BitTreeMoves(w1, w2, delta, lo, lim, m1, t.base, 1, t.limit);
  }

  lemma AlignBitsMove(w1: seq<Byte>, w2: seq<Byte>, delta: int, lo: int, lim: int, m: Model, dist: nat)
    requires dist * 16 + 16 <= U32 && Agree(w1, w2, delta, lo, lim) && lo <= m.rc.pos
    ensures var r := AlignBits(w1, m, dist);
            r.1.rc.pos <= lim ==> AlignBits(w2, Moved(m, delta), dist) == (r.0, Moved(r.1, delta))
  {
    hide DecodeBit;
    Pow2Values();
    ReverseTreeMoves(w1, w2, delta, lo, lim, m, DIST_ALIGN, 1, 0, 4, dist * 16);
  }

  lemma AlignedMoves(w1: seq<Byte>, w2: seq<Byte>, delta: int, lo: int, lim: int, m: Model, slot: nat)
    requires 14 <= slot < 64 && Agree(w1, w2, delta, lo, lim) && lo <= m.rc.pos
    ensures var r := AlignedDistance(w1, m, slot);
            r.1.rc.pos <= lim ==> AlignedDistance(w2, Moved(m, delta), slot) == (r.0, Moved(r.1, delta))
  {
    hide Direct, AlignBits;
    var limit := slot / 2 - 1;
    var (dist, rc1) := Direct(w1, m.rc, 2 + slot % 2, limit - 4);
    DirectFits(w1, m.rc, 2 + slot % 2, limit);
    DirectMoves(w1, w2, delta, lo, lim, m.rc, 2 + slot % 2, limit - 4);
    AlignBitsMove(w1, w2, delta, lo, lim, m.(rc := rc1), dist);
    assert Moved(m, delta).(rc := Shift(rc1, delta)) == Moved(m.(rc := rc1), delta);
  }

  lemma SpecialMoves(w1: seq<Byte>, w2: seq<Byte>, delta: int, lo: int, lim: int, m: Model, slot: nat)
    requires 4 <= slot < 14 && Agree(w1, w2, delta, lo, lim) && lo <= m.rc.pos
    ensures var r := SpecialDistance(w1, m, slot);
            r.1.rc.pos <= lim ==> SpecialDistance(w2, Moved(m, delta), slot) == (r.0, Moved(r.1, delta))
  {
    hide DecodeBit;
    var limit := slot / 2 - 1;
    var dist := (2 + slot % 2) * Pow2(limit);
    SpecialFits(slot);
    ReverseTreeMoves(w1, w2, delta, lo, lim, m, DIST_SPECIAL + dist - slot - 1, 1, 0, limit, dist);
  }

  lemma DistanceMoves(w1: seq<Byte>, w2: seq<Byte>, delta: int, lo: int, lim: int, m: Model, len: nat)
    requires MATCH_LEN_MIN <= len && Agree(w1, w2, delta, lo, lim) && lo <= m.rc.pos
    ensures var r := Distance(w1, m, len);
            r.1.rc.pos <= lim ==> Distance(w2, Moved(m, delta), len) == (r.0, Moved(r.1, delta))
  {
    var base := DIST_SLOT + 64 * DistState(len);
    var (symbol, m1) := BitTree(w1, m, base, 1, 64);
    var slot := symbol - 64;
    BitTreeMoves(w1, w2, delta, lo, lim, m, base, 1, 64);
    if slot < 4 {
    } else if slot < 14 {
      SpecialMoves(w1, w2, delta, lo, lim, m1, slot);
    } else {
      AlignedMoves(w1, w2, delta, lo, lim, m1, slot);
    }
  }

  lemma MatchMoves(w1: seq<Byte>, w2: seq<Byte>, delta: int, lo: int, lim: int, m: Model, z: Lzma, posState: nat)
    requires posState < 16 && Agree(w1, w2, delta, lo, lim) && lo <= m.rc.pos
    ensures var r := Match(w1, m, z, posState);
            r.1.rc.pos <= lim ==> Match(w2, Moved(m, delta), z, posState) == (r.0, Moved(r.1, delta))
  {
    hide Length, Distance;
    var (len, m1) := Length(w1, m, MATCH_LEN, posState);
    LengthMoves(w1, w2, delta, lo, lim, m, MATCH_LEN, posState);
    DistanceMoves(w1, w2, delta, lo, lim, m1, len);
  }

  lemma RepMatchMoves(w1: seq<Byte>, w2: seq<Byte>, delta: int, lo: int, lim: int, m: Model, z: Lzma, posState: nat)
    requires posState < 16 && Agree(w1, w2, delta, lo, lim) && lo <= m.rc.pos
    ensures var r := RepMatch(w1, m, z, posState);
            r.1.rc.pos <= lim ==> RepMatch(w2, Moved(m, delta), z, posState) == (r.0, Moved(r.1, delta))
  {
    hide Bit, Length;
    var (notRep0, m1) := Bit(w1, m, IS_REP0 + z.state);
    BitMoves(w1, w2, delta, lo, lim, m, IS_REP0 + z.state);
    if !notRep0 {
      var i := IS_REP0_LONG + 16 * z.state + posState;
      var (long, m2) := Bit(w1, m1, i);
      BitMoves(w1, w2, delta, lo, lim, m1, i);
      if long {
        LengthMoves(w1, w2, delta, lo, lim, m2, REP_LEN, posState);
      }
    } else {
      var (notRep1, m2) := Bit(w1, m1, IS_REP1 + z.state);
      BitMoves(w1, w2, delta, lo, lim, m1, IS_REP1 + z.state);
      if !notRep1 {
        LengthMoves(w1, w2, delta, lo, lim, m2, REP_LEN, posState);
      } else {
        var (notRep2, m3) := Bit(w1, m2, IS_REP2 + z.state);
        BitMoves(w1, w2, delta, lo, lim, m2, IS_REP2 + z.state);
        LengthMoves(w1, w2, delta, lo, lim, m3, REP_LEN, posState);
      }
    }
  }

  /** A symbol decoded from one buffer is the symbol decoded from any other buffer that agrees on
      the bytes read, wherever those bytes are stored in it. */
  lemma SymbolMoves(w1: seq<Byte>, w2: seq<Byte>, delta: int, lo: int, lim: int, m: Model, z: Lzma, history: seq<Byte>)
    requires PropsValid(z) && Agree(w1, w2, delta, lo, lim) && lo <= m.rc.pos
    ensures var r := DecodeSymbol(w1, m, z, history);
            r.m.rc.pos <= lim ==> DecodeSymbol(w2, Moved(m, delta), z, history) == r.(m := Moved(r.m, delta))
  {
    hide Bit, RepMatch, Match, LiteralBits, LiteralCoder, PosState;
    var posState := PosState(z, history);
    var i := IS_MATCH + 16 * z.state + posState;
    var (isMatch, m1) := Bit(w1, m, i);
    BitMoves(w1, w2, delta, lo, lim, m, i);
    if isMatch {
      var (isRep, m2) := Bit(w1, m1, IS_REP + z.state);
      BitMoves(w1, w2, delta, lo, lim, m1, IS_REP + z.state);
      if isRep {
        RepMatchMoves(w1, w2, delta, lo, lim, m2, z, posState);
      } else {
        MatchMoves(w1, w2, delta, lo, lim, m2, z, posState);
      }
    } else {
      LiteralMoves(w1, w2, delta, lo, lim, m1, LiteralCoder(z, history), z.state, HistoryGet(history, z.rep0));
    }
  }
}
