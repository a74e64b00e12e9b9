/** struct xz_dec_lzma2 of src/xz/xz_dec_lzma2.c in multi-call mode: the LZMA symbol decoders, lzma_main,
    the input carry-over of lzma2_lzma, the control automaton xz_dec_lzma2_run and xz_dec_lzma2_reset. */
module Lzma2Decoder {
  import opened Basics
  import opened RangeCoder
  import S = LzmaSymbol
  import opened LzmaSymbolProofs
  import opened Lzma2Reference
  import opened Lzma2Sync
  import opened XzBuffer
  import D = Dictionary
  import opened RangeDecoder

  type Lzma = S.Lzma
  type Prob = RangeCoder.Prob

  const LZMA_IN_REQUIRED := 21

  lemma Mod2(q: nat, r: nat)
    ensures (16 * q + r) % 2 == r % 2
  {
    Residue2(8 * q + r / 2, r % 2);
  }

  lemma Residue2(k: nat, m: nat)
    requires m < 2
    ensures (2 * k + m) % 2 == m
  {
  }

  lemma Mod4(q: nat, r: nat)
    ensures (16 * q + r) % 4 == r % 4
  {
    Residue4(4 * q + r / 4, r % 4);
  }

  lemma Residue4(k: nat, m: nat)
    requires m < 4
    ensures (4 * k + m) % 4 == m
  {
  }

  lemma Mod8(q: nat, r: nat)
    ensures (16 * q + r) % 8 == r % 8
  {
    Residue8(2 * q + r / 8, r % 8);
  }

  lemma Residue8(k: nat, m: nat)
    requires m < 8
    ensures (8 * k + m) % 8 == m
  {
  }

  // dict.pos & mask is position & mask: the ring size is a multiple of 16.
  lemma MaskedPosition(pos: nat, length: nat, mask: nat)
    requires S.IsMask(mask) && (length - pos) % 16 == 0
    ensures S.And(pos, mask) == S.And(length, mask)
  {
    var r, a, b := pos % 16, pos / 16, length / 16;
    assert pos == 16 * a + r && length == 16 * b + r;
    if mask == 7 {
      Mod8(a, r);
      Mod8(b, r);
    } else if mask == 3 {
      Mod4(a, r);
      Mod4(b, r);
    } else if mask == 1 {
      Mod2(a, r);
      Mod2(b, r);
    }
  }

  class Lzma2Dec {
    const rc: RcDec
    const dict: D.Dict
    const probs: array<Prob>
    const temp: array<Byte>
    const prealloc: bool
    var tempSize: nat

    /** The registers of struct lzma_dec other than the probabilities. */
    var z: Lzma

    var sequence: Sequence
    var nextSequence: Sequence
    var uncompressed: nat
    var compressed: nat
    var needDictReset: bool
    var needProps: bool

    /** Everything decoded since the last xz_dec_lzma2_reset, and the bytes of the stream the range
        decoder and the control automaton have read since then. */
    ghost var out: seq<Byte>
    ghost var taken: nat

    /** xz_dec_lzma2_create */
    constructor (dictMax: nat, prealloc: bool)
      ensures Buffers() && fresh({rc, dict, dict.buf, temp}) && fresh(probs)
      ensures dict.sizeMax == dictMax && dict.allocatedSize == 0 && this.prealloc == prealloc
      ensures prealloc ==> dict.buf.Length == dictMax
    {
      rc := new RcDec();
      dict := new D.Dict(dictMax, prealloc);
      probs := new Prob[S.PROBS_TOTAL](_ => 1024);
      temp := new Byte[3 * LZMA_IN_REQUIRED](_ => 0);
      this.prealloc, tempSize := prealloc, 0;
      z := S.Lzma(0, 0, 0, 0, 0, 0, 0, 0, 0);
      sequence, nextSequence, uncompressed, compressed := Control, Control, 0, 0;
      needDictReset, needProps := true, true;
      out, taken := [], 0;
    }

    /** Sizes of the fixed buffers, and no sharing between buffers. */
    ghost predicate Buffers()
      reads dict
    {
      && probs.Length == S.PROBS_TOTAL
      && temp.Length == 3 * LZMA_IN_REQUIRED
      && temp != dict.buf
      && (probs as object) != temp && (probs as object) != dict.buf
    }

    ghost predicate Storage()
      reads dict, dict.buf
    {
      Buffers() && dict.Valid()
    }

    function M(): S.Model
      requires probs.Length == S.PROBS_TOTAL
      reads rc`range, rc`code, rc`inPos, probs
    {
      rc.Model(probs)
    }

    // ---------- Symbols ----------

    /** The loop of lzma_literal after a match. */
    method MatchedLiteral(base: nat, matchByte: Byte) returns (symbol: nat)
      requires probs.Length == S.PROBS_TOTAL && base + S.LITERAL_CODER_SIZE <= S.PROBS_TOTAL
      requires S.MatchedLiteral(rc.input, M(), base, 1, 0x100, 2 * matchByte).1.rc.pos <= |rc.input|
      modifies rc`range, rc`code, rc`inPos, probs
      ensures (symbol, M()) == S.MatchedLiteral(rc.input, old(M()), base, 1, 0x100, 2 * matchByte)
    {
      hide S.Bit;
      symbol := 1;
      var offset, shifted: nat := 0x100, 2 * matchByte;
      while true
        invariant 0 < symbol < 0x100 && (offset == 0 || offset == 0x100)
        invariant S.MatchedLiteral(rc.input, M(), base, symbol, offset, shifted)
               == S.MatchedLiteral(rc.input, old(M()), base, 1, 0x100, 2 * matchByte)
        decreases 0x100 - symbol
      {
        var matchBit := S.MatchBit(offset, shifted);
        shifted := 2 * shifted;
        var bit := rc.Bit(probs, base + offset + matchBit + symbol);
        if bit {
          symbol := 2 * symbol + 1;
        } else {
          symbol := 2 * symbol;
        }
        offset := S.NextOffset(offset, matchBit, bit);
        if symbol >= 0x100 {
          break;
        }
      }
    }

    /** lzma_literal */
    method Literal()
      requires Storage() && S.PropsValid(z) && dict.HasSpace()
      requires z.state >= S.LIT_STATES ==> z.rep0 < |dict.history| && z.rep0 < dict.size
      requires S.Literal(rc.input, M(), z, dict.history).1.rc.pos <= |rc.input|
      modifies this`z, rc`range, rc`code, rc`inPos, probs, dict`pos, dict`full, dict`history, dict.buf
      ensures Storage()
      ensures dict.pos == old(dict.pos) + 1
      ensures var r := S.Literal(rc.input, old(M()), old(z), old(dict.history));
              && M() == r.1
              && dict.history == old(dict.history) + [r.0]
              && z == old(z).(state := S.AfterLiteral(old(z.state)))
    {
      hide D.Dict.Open, S.BitTree, S.MatchedLiteral, S.IsMask;
      dict.Facts();
      var prev := dict.Get(0);
      MaskedPosition(dict.pos, |dict.history|, z.literalPosMask);
      S.LiteralIndexBound(z, prev, |dict.history|);
      var coder := S.LiteralIndex(prev, dict.pos, z.lc, z.literalPosMask);
      var base := S.LITERAL + S.LITERAL_CODER_SIZE * coder;
      var symbol;
      if z.state < S.LIT_STATES {
        symbol := rc.BitTree(probs, base, 0x100);
      } else {
        var matchByte := dict.Get(z.rep0);
        symbol := MatchedLiteral(base, matchByte);
      }
      dict.Put(symbol - 0x100);
      z := z.(state := S.AfterLiteral(z.state));
    }

    /** lzma_len: the length goes to len, with the decoder whose table starts at base. */
    method Length(base: nat, posState: nat)
      requires probs.Length == S.PROBS_TOTAL
      requires (base == S.MATCH_LEN || base == S.REP_LEN) && posState < 16
      requires S.Length(rc.input, M(), base, posState).1.rc.pos <= |rc.input|
      modifies this`z, rc`range, rc`code, rc`inPos, probs
      ensures (z.len, M()) == S.Length(rc.input, old(M()), base, posState)
      ensures z == old(z).(len := z.len)
    {
      hide S.Bit, S.BitTree;
      var choice := rc.Bit(probs, base);
      if !choice {
        z := z.(len := S.MATCH_LEN_MIN);
        var symbol := rc.BitTree(probs, base + 2 + 8 * posState, 8);
        z := z.(len := z.len + symbol - 8);
      } else {
        var choice2 := rc.Bit(probs, base + 1);
        if !choice2 {
          z := z.(len := S.MATCH_LEN_MIN + 8);
          var symbol := rc.BitTree(probs, base + 130 + 8 * posState, 8);
          z := z.(len := z.len + symbol - 8);
        } else {
          z := z.(len := S.MATCH_LEN_MIN + 16);
          var symbol := rc.BitTree(probs, base + 258, 256);
          z := z.(len := z.len + symbol - 256);
        }
      }
    }

    /** lzma_match: length and distance of a new match go to len and rep0. */
    method Match(posState: nat)
      requires probs.Length == S.PROBS_TOTAL && posState < 16
      requires S.Match(rc.input, M(), z, posState).1.rc.pos <= |rc.input|
      modifies this`z, rc`range, rc`code, rc`inPos, probs
      ensures (z, M()) == S.Match(rc.input, old(M()), old(z), posState)
    {
      hide S.Length, S.Distance;
      z := z.(state := S.AfterMatch(z.state));
      z := z.(rep3 := z.rep2);
      z := z.(rep2 := z.rep1);
      z := z.(rep1 := z.rep0);
      Length(S.MATCH_LEN, posState);
      Distance();
    }

    // The second half of lzma_match.
    method Distance()
      requires probs.Length == S.PROBS_TOTAL && S.MATCH_LEN_MIN <= z.len
      requires S.Distance(rc.input, M(), z.len).1.rc.pos <= |rc.input|
      modifies this`z, rc`range, rc`code, rc`inPos, probs
      ensures (z.rep0, M()) == S.Distance(rc.input, old(M()), old(z.len))
      ensures z == old(z).(rep0 := z.rep0)
    {
      hide S.BitTree, S.SpecialDistance, S.AlignedDistance;
      var symbol := rc.BitTree(probs, S.DIST_SLOT + 64 * S.DistState(z.len), 64);
      var distSlot := symbol - 64;
      if distSlot < 4 {
        z := z.(rep0 := distSlot);
      } else if distSlot < 14 {
        SpecialDistance(distSlot);
      } else {
        AlignedDistance(distSlot);
      }
    }

    method SpecialDistance(slot: nat)
      requires probs.Length == S.PROBS_TOTAL && 4 <= slot < 14
      requires S.SpecialDistance(rc.input, M(), slot).1.rc.pos <= |rc.input|
      modifies this`z, rc`range, rc`code, rc`inPos, probs
      ensures (z.rep0, M()) == S.SpecialDistance(rc.input, old(M()), slot)
      ensures z == old(z).(rep0 := z.rep0)
    {
      hide S.ReverseTree;
      S.SpecialFits(slot);
      var limit := slot / 2 - 1;
      var dist := (2 + slot % 2) * Pow2(limit);
      dist := rc.BitTreeReverse(probs, S.DIST_SPECIAL + dist - slot - 1, dist, limit);
      z := z.(rep0 := dist);
    }

    method AlignedDistance(slot: nat)
      requires probs.Length == S.PROBS_TOTAL && 14 <= slot < 64
      requires S.AlignedDistance(rc.input, M(), slot).1.rc.pos <= |rc.input|
      modifies this`z, rc`range, rc`code, rc`inPos, probs
      ensures (z.rep0, M()) == S.AlignedDistance(rc.input, old(M()), slot)
      ensures z == old(z).(rep0 := z.rep0)
    {
      hide S.Direct, S.ReverseTree;
      var limit := slot / 2 - 1;
      S.DirectFits(rc.input, rc.Rc(), 2 + slot % 2, limit);
      S.Pow2Values();
      var dist := rc.Direct(2 + slot % 2, limit - 4);
      dist := rc.BitTreeReverse(probs, S.DIST_ALIGN, dist * 16, 4);
      z := z.(rep0 := dist);
    }

    /** lzma_rep_match */
    method RepMatch(posState: nat)
      requires probs.Length == S.PROBS_TOTAL && posState < 16
      requires S.RepMatch(rc.input, M(), z, posState).1.rc.pos <= |rc.input|
      modifies this`z, rc`range, rc`code, rc`inPos, probs
      ensures (z, M()) == S.RepMatch(rc.input, old(M()), old(z), posState)
    {
      hide S.Bit, S.Length;
      var notRep0 := rc.Bit(probs, S.IS_REP0 + z.state);
      if !notRep0 {
        var long := rc.Bit(probs, S.IS_REP0_LONG + 16 * z.state + posState);
        if !long {
          z := z.(state := S.AfterShortRep(z.state));
          z := z.(len := 1);
          return;
        }
      } else {
        var tmp;
        var notRep1 := rc.Bit(probs, S.IS_REP1 + z.state);
        if !notRep1 {
          tmp := z.rep1;
        } else {
          var notRep2 := rc.Bit(probs, S.IS_REP2 + z.state);
          if !notRep2 {
            tmp := z.rep2;
          } else {
            tmp := z.rep3;
            z := z.(rep3 := z.rep2);
          }
          z := z.(rep2 := z.rep1);
        }
        z := z.(rep1 := z.rep0);
        z := z.(rep0 := tmp);
      }
      z := z.(state := S.AfterLongRep(z.state));
      Length(S.REP_LEN, posState);
    }

    // ---------- lzma_main ----------

    /** A distance that the dictionary can serve. */
    ghost predicate DistanceValid()
      reads this`z, dict
    {
      z.rep0 < |dict.history| && z.rep0 < dict.size
    }

    /** What lets the symbol decoders run. */
    ghost predicate Configured()
      reads this`z, dict
    {
      && S.PropsValid(z)
      && (z.state >= S.LIT_STATES || z.len > 0 ==> DistanceValid())
    }

    /** The body of the loop of lzma_main. */
    method Symbol(ghost r: S.SymbolResult) returns (ok: bool)
      requires Storage() && Configured() && dict.HasSpace() && z.len == 0
      requires r == S.DecodeSymbol(rc.input, M(), z, dict.history)
      requires r.m.rc.pos <= |rc.input|
      modifies this`z
      modifies rc`range, rc`code, rc`inPos, probs, dict`pos, dict`full, dict`history, dict.buf
      ensures Storage()
      ensures M() == r.m
      ensures match r.symbol
              case Lit(byte) =>
                && ok
                && z == r.z
                && dict.history == old(dict.history) + [byte]
                && dict.pos == old(dict.pos) + 1
              case Copy =>
                && ok == (r.z.rep0 < |old(dict.history)| && r.z.rep0 < dict.size)
                && (ok ==>
                     var n := D.Min(old(dict.limit - dict.pos), r.z.len);
                     && z == r.z.(len := r.z.len - n)
                     && dict.history == D.LzCopy(old(dict.history), r.z.rep0, n)
                     && dict.pos == old(dict.pos) + n)
      ensures ok ==> Configured()
      ensures ok ==> old(dict.pos) < dict.pos && (dict.HasSpace() ==> z.len == 0)
    {
      hide D.Dict.Open, S.Bit, S.LiteralBits, S.LiteralCoder, S.AnyMatch, S.IsMask, D.LzCopy, S.HistoryGet, Pow2;
      dict.Facts();
      MaskedPosition(dict.pos, |dict.history|, z.posMask);
      var posState := S.And(dict.pos, z.posMask);
      var isMatch := rc.Bit(probs, S.IS_MATCH + 16 * z.state + posState);
      if !isMatch {
        Literal();
        ok := true;
      } else {
        ok := MatchSymbol(posState);
      }
    }

    // The match branch of the loop body.
    method MatchSymbol(posState: nat) returns (ok: bool)
      requires Storage() && dict.HasSpace() && posState < 16
      requires S.AnyMatch(rc.input, M(), z, posState).1.rc.pos <= |rc.input|
      modifies this`z
      modifies rc`range, rc`code, rc`inPos, probs, dict`pos, dict`full, dict`history, dict.buf
      ensures Storage()
      ensures var (z1, m1) := S.AnyMatch(rc.input, old(M()), old(z), posState);
              && M() == m1
              && ok == (z1.rep0 < |old(dict.history)| && z1.rep0 < dict.size)
              && (ok ==>
                   var n := D.Min(old(dict.limit - dict.pos), z1.len);
                   && z == z1.(len := z1.len - n)
                   && dict.history == D.LzCopy(old(dict.history), z1.rep0, n)
                   && dict.pos == old(dict.pos) + n)
    {
      hide D.Dict.Open, S.Bit, S.RepMatch, S.Match, D.LzCopy;
      var isRep := rc.Bit(probs, S.IS_REP + z.state);
      if isRep {
        RepMatch(posState);
      } else {
        Match(posState);
      }
      var rest;
      ok, rest := dict.Repeat(z.len, z.rep0);
      z := z.(len := rest);
    }

    // ---------- lzma_main against the reference machine ----------

    /** Decoded but not yet flushed. */
    function Unflushed(): int
      reads dict
    {
      dict.pos - dict.start
    }

    /** The state of the reference machine inside lzma_main: the range decoder normalized and its
        position taken to the stream, which is delta ahead of the buffer. */
    ghost function Inside(end: int, delta: int): Lzma2State
      requires probs.Length == S.PROBS_TOTAL
      reads this`sequence, this`nextSequence, this`uncompressed, this`needDictReset, this`needProps, this`z, this`out
      reads rc, dict, probs
    {
      var m := Moved(NormalizeModel(rc.input, M()), delta);
      Lzma2State(
        sequence, nextSequence,
        D.Max(uncompressed - Unflushed(), 0), D.Max(end - m.rc.pos, 0),
        needDictReset, needProps, rc.initBytesLeft, z, m,
        dict.size, dict.history, out)
    }

    ghost predicate Synced(stream: seq<Byte>, end: int, delta: int, lo: int, lim: int, target: Outcome)
      requires probs.Length == S.PROBS_TOTAL
      reads this`sequence, this`nextSequence, this`uncompressed, this`needDictReset, this`needProps, this`z, this`out
      reads rc, dict, probs
    {
      && InStep(stream, Inside(end, delta), rc.input, M(), delta, lo, lim)
      && Window(stream, end, rc.input, delta, lo, lim)
      && Decode(stream, Inside(end, delta)) == target
    }

    /** The end of the chunk was passed: what is decoded now comes from other bytes, and the
        reference machine has rejected the stream. */
    ghost predicate Lost(lim: int, target: Outcome)
      reads rc
    {
      Normalize(rc.input, rc.Rc()).pos > lim && target.status == Corrupt
    }

    // Symbol, with the new bytes recorded in out.
    method SymbolOut(ghost end: int, ghost delta: int, ghost r: S.SymbolResult) returns (ok: bool)
      requires Storage() && Configured() && dict.HasSpace() && z.len == 0
      requires dict.limit - dict.start <= uncompressed
      requires r == S.DecodeSymbol(rc.input, M(), z, dict.history)
      requires r.m.rc.pos <= |rc.input|
      modifies this`z, this`out
      modifies rc`range, rc`code, rc`inPos, probs, dict`pos, dict`full, dict`history, dict.buf
      ensures Storage()
      ensures M() == r.m
      ensures ok == (r.symbol.Copy? ==> r.z.rep0 < |old(dict.history)| && r.z.rep0 < dict.size)
      ensures ok ==> Configured() && (dict.HasSpace() ==> z.len == 0)
      ensures ok ==> old(dict.pos) < dict.pos <= dict.limit
      ensures ok ==> Grown(old(dict.history), old(out), old(dict.pos), dict.history, out, dict.pos)
      ensures ok && Normalize(rc.input, r.m.rc).pos + delta <= end ==>
                var n := SymbolBytesOut(r, old(dict.limit - dict.pos));
                Inside(end, delta) == NextState(old(Inside(end, delta)), rc.input, delta, end, r, n)
    {
      hide Normalize, S.DecodeSymbol, D.Dict.Open, D.Dict.Valid, D.LzCopy, S.PropsValid, NextState, Grown;
      ghost var h, st, n := dict.history, Inside(end, delta), SymbolBytesOut(r, dict.limit - dict.pos);
      dict.Facts();
      D.LzCopyKeeps(h, r.z.rep0, n);
      ok := Symbol(r);
      if ok {
        GrownOut(h, out, old(dict.pos), dict.history, dict.pos);
        out := out + dict.history[|h|..];
        if Normalize(rc.input, r.m.rc).pos + delta <= end {
          IsNextState(st, Inside(end, delta), rc.input, delta, end, r, n);
        }
      }
    }

    // How many bytes of a symbol fit.
    static function SymbolBytesOut(r: S.SymbolResult, space: int): (n: nat)
      requires space > 0 && (r.symbol.Copy? ==> r.z.len > 0)
      ensures 0 < n <= space
    {
      if r.symbol.Lit? then 1 else D.Min(space, r.z.len)
    }

    /** One iteration, with what it means for the reference machine. */
    method Iterate(ghost stream: seq<Byte>, ghost end: int, ghost delta: int, ghost lo: int, ghost lim: int,
                   ghost target: Outcome)
      returns (ok: bool)
      requires Storage() && Configured() && dict.HasSpace() && z.len == 0 && sequence.LzmaRun?
      requires dict.limit - dict.start <= uncompressed
      requires rc.inPos <= rc.inLimit && rc.inLimit + LZMA_IN_REQUIRED <= |rc.input|
      requires Synced(stream, end, delta, lo, lim, target) || Lost(lim, target)
      requires lim + delta == end <= |stream| || rc.inLimit + LZMA_IN_REQUIRED <= lim
      modifies this`z, this`out
      modifies rc`range, rc`code, rc`inPos, probs, dict`pos, dict`full, dict`history, dict.buf
      ensures Storage()
      ensures old(rc.inPos) <= rc.inPos <= Normalize(rc.input, rc.Rc()).pos <= old(rc.inPos) + LZMA_IN_REQUIRED
      ensures !ok ==> target.status == Corrupt
      ensures ok ==> Configured() && (dict.HasSpace() ==> z.len == 0)
      ensures ok ==> Synced(stream, end, delta, lo, lim, target) || Lost(lim, target)
      ensures ok ==> old(dict.pos) < dict.pos <= dict.limit
      ensures ok ==> Grown(old(dict.history), old(out), old(dict.pos), dict.history, out, dict.pos)
    {
      hide Normalize, S.DecodeSymbol, Decode, D.Dict.Open, Inv, Agree, D.LzCopy, S.PropsValid, NextState, ChunkWindow;
      ghost var m, h, st := M(), dict.history, Inside(end, delta);
      ghost var r := S.DecodeSymbol(rc.input, m, z, h);
      ghost var n := SymbolBytesOut(r, dict.limit - dict.pos);
      SymbolBytes(rc.input, m, z, h);
      NormalizeRestores(rc.input, m.rc);
      SymbolAfterNormalize(rc.input, m, z, h);
      NormalizeRestores(rc.input, r.m.rc);
      if Synced(stream, end, delta, lo, lim, target) {
        WindowBelowEnd(stream, end, rc.input, delta, lo, lim);
        SymbolInStep(stream, st, rc.input, m, delta, lo, lim, r, n);
      }
      ok := SymbolOut(end, delta, r);
    }

    // The pending match at the start of lzma_main.
    method Resume(ghost stream: seq<Byte>, ghost end: int, ghost delta: int, ghost lo: int, ghost lim: int,
                  ghost target: Outcome)
      requires Storage() && Configured() && dict.HasSpace() && z.len > 0
      requires dict.limit - dict.start <= uncompressed
      requires Synced(stream, end, delta, lo, lim, target)
      modifies this`z, this`out, dict`pos, dict`full, dict`history, dict.buf
      ensures Storage() && Configured() && (dict.HasSpace() ==> z.len == 0)
      ensures Synced(stream, end, delta, lo, lim, target)
      ensures old(dict.pos) < dict.pos <= dict.limit
      ensures Grown(old(dict.history), old(out), old(dict.pos), dict.history, out, dict.pos)
    {
      hide Normalize, D.Dict.Open, D.LzCopy, S.IsMask, Pow2, Decode, Window, Inv, Step;
      ghost var h, st := dict.history, Inside(end, delta);
      ghost var n := D.Min(dict.limit - dict.pos, z.len);
      dict.Facts();
      EmitMatchesDecode(stream, st, n);
      D.LzCopyKeeps(h, z.rep0, n);
      var ok, rest;
      ok, rest := dict.Repeat(z.len, z.rep0);
      z := z.(len := rest);
      out := out + dict.history[|h|..];
      assert Inside(end, delta) == EmitMatches(st, n);
    }

    /** lzma_main. As long as it does not read past lim it keeps what the stream decodes to; if it fails
        or has read past lim, the stream is corrupt. */
    method LzmaMain(ghost stream: seq<Byte>, ghost end: int, ghost delta: int, ghost lo: int, ghost lim: int,
                    ghost target: Outcome)
      returns (ok: bool)
      requires probs.Length == S.PROBS_TOTAL && Storage() && Configured() && sequence.LzmaRun?
      requires dict.pos <= dict.limit && dict.limit - dict.start <= uncompressed
      requires rc.range >= TOP_VALUE && rc.inPos <= |rc.input| && rc.inLimit + LZMA_IN_REQUIRED <= |rc.input|
      requires Synced(stream, end, delta, lo, lim, target)
      requires lim + delta == end <= |stream| || rc.inLimit + LZMA_IN_REQUIRED <= lim
      modifies this`z, this`out
      modifies rc`range, rc`code, rc`inPos, probs, dict`pos, dict`full, dict`history, dict.buf
      ensures Storage()
      ensures old(rc.inPos) <= rc.inPos <= |rc.input|
      ensures !ok || rc.inPos > lim ==> target.status == Corrupt
      ensures ok && rc.inPos <= lim ==> Synced(stream, end, delta, lo, lim, target) && Configured()
      ensures ok ==> rc.range >= TOP_VALUE
      ensures ok ==> dict.pos == dict.limit || (z.len == 0 && rc.inPos > rc.inLimit)
      ensures ok ==> Grown(old(dict.history), old(out), old(dict.pos), dict.history, out, dict.pos)
      ensures ok ==> old(dict.pos) <= dict.pos <= dict.limit
      ensures ok && old(dict.HasSpace()) && old(rc.inPos <= rc.inLimit) ==> old(dict.pos) < dict.pos
    {
      hide Normalize, Synced, Lost, Configured, Storage;
      NormalizeRestores(rc.input, rc.Rc());
      GrownNot(dict.history, out, dict.pos);
      if dict.HasSpace() && z.len > 0 {
        Resume(stream, end, delta, lo, lim, target);
      }
      while dict.HasSpace() && !rc.LimitExceeded()
        invariant Storage() && Configured() && (dict.HasSpace() ==> z.len == 0)
        invariant Synced(stream, end, delta, lo, lim, target) || Lost(lim, target)
        invariant old(rc.inPos) <= rc.inPos
        invariant Normalize(rc.input, rc.Rc()).pos <= |rc.input|
        invariant old(dict.pos) <= dict.pos <= dict.limit
        invariant Grown(old(dict.history), old(out), old(dict.pos), dict.history, out, dict.pos)
        invariant old(dict.HasSpace()) && old(rc.inPos <= rc.inLimit) ==>
                    old(dict.pos) < dict.pos || (rc.inPos <= rc.inLimit && dict.HasSpace())
        decreases dict.limit - dict.pos
      {
        ghost var h, o, p := dict.history, out, dict.pos;
        ok := Iterate(stream, end, delta, lo, lim, target);
        if !ok {
          return false;
        }
        GrownMore(old(dict.history), old(out), old(dict.pos), h, o, p, dict.history, out, dict.pos);
      }
      FinalNormalize(stream, end, delta, lo, lim, target);
      ok := true;
    }

    // The extra normalization of lzma_main.
    method FinalNormalize(ghost stream: seq<Byte>, ghost end: int, ghost delta: int, ghost lo: int, ghost lim: int,
                          ghost target: Outcome)
      requires probs.Length == S.PROBS_TOTAL
      requires Normalize(rc.input, rc.Rc()).pos <= |rc.input|
      requires Synced(stream, end, delta, lo, lim, target) || Lost(lim, target)
      modifies rc`range, rc`code, rc`inPos
      ensures old(rc.inPos) <= rc.inPos <= |rc.input|
      ensures rc.range >= TOP_VALUE
      ensures rc.inPos <= lim ==> Synced(stream, end, delta, lo, lim, target)
      ensures rc.inPos > lim ==> target.status == Corrupt
    {
      hide Normalize, Inv, Window, Decode;
      NormalizeRestores(rc.input, rc.Rc());
      ghost var before := Inside(end, delta);
      rc.Normalize();
      assert Inside(end, delta) == before;
    }

    // ---------- lzma2_lzma ----------

    /** The state of the reference machine between pieces of work. */
    ghost function Abs(): Lzma2State
      requires probs.Length == S.PROBS_TOTAL
      reads this`sequence, this`nextSequence, this`uncompressed, this`compressed, this`needDictReset, this`needProps
      reads this`z, this`out, this`taken
      reads rc, dict, probs
    {
      Lzma2State(
        sequence, nextSequence,
        if sequence.LzmaRun? then D.Max(uncompressed - Unflushed(), 0) else uncompressed, compressed,
        needDictReset, needProps, rc.initBytesLeft, z, S.Model(Rc(rc.range, rc.code, taken), probs[..]),
        dict.size, dict.history, out)
    }

    /** The carry-over buffer and the caller's input hold the bytes of the stream from base on. */
    ghost predicate FedFrom(stream: seq<Byte>, b: XzBuf, base: nat)
      reads this`tempSize, temp, b
    {
      && b.inPos <= |b.input| && tempSize <= temp.Length
      && base + tempSize + (|b.input| - b.inPos) <= |stream|
      && (forall i :: 0 <= i < tempSize ==> temp[i] == stream[base + i])
      && (forall i :: b.inPos <= i < |b.input| ==> b.input[i] == stream[i + (base + tempSize - b.inPos)])
    }

    ghost predicate Fed(stream: seq<Byte>, b: XzBuf)
      reads this`tempSize, this`taken, temp, b
    {
      FedFrom(stream, b, taken)
    }

    /** In the middle of an LZMA chunk, between two calls of lzma_main. */
    ghost predicate InChunk(stream: seq<Byte>, b: XzBuf, target: Outcome)
      reads this, rc, dict, dict.buf, probs, temp, b
    {
      && Storage() && Configured() && sequence.LzmaRun?
      && rc.range >= TOP_VALUE
      && tempSize < LZMA_IN_REQUIRED && tempSize <= compressed
      && dict.start <= dict.pos <= dict.limit && dict.limit - dict.start <= uncompressed
      && Fed(stream, b)
      && Decodes(stream, Abs(), target)
    }

    /** Hands input to lzma_main: bytes from inPos up to lim of input are those of the stream from the
        decoder's position on. Afterwards the position is taken over. */
    method RunMain(input: seq<Byte>, inPos: nat, inLimit: nat, lim: nat, ghost stream: seq<Byte>, ghost target: Outcome)
      returns (ok: bool)
      requires Storage() && Configured() && sequence.LzmaRun? && rc.range >= TOP_VALUE
      requires dict.start <= dict.pos <= dict.limit && dict.limit - dict.start <= uncompressed
      requires Decodes(stream, Abs(), target)
      requires inPos <= lim <= |input| && inLimit + LZMA_IN_REQUIRED <= |input|
      requires lim - inPos <= compressed && taken + (lim - inPos) <= |stream|
      requires forall i :: inPos <= i < lim ==> input[i] == stream[i + (taken - inPos)]
      requires lim - inPos == compressed || inLimit + LZMA_IN_REQUIRED <= lim
      modifies this`z, this`out, this`taken, this`compressed
      modifies rc`range, rc`code, rc`inPos, rc`input, rc`inLimit, probs, dict`pos, dict`full, dict`history, dict.buf
      ensures Storage()
      ensures !ok ==> target.status == Corrupt
      ensures ok ==>
                && inPos <= rc.inPos <= lim
                && taken == old(taken) + (rc.inPos - inPos)
                && compressed == old(compressed) - (rc.inPos - inPos)
      ensures ok ==> Configured() && rc.range >= TOP_VALUE && Decodes(stream, Abs(), target)
      ensures ok ==> old(dict.pos) <= dict.pos <= dict.limit
      ensures ok ==> dict.pos == dict.limit || rc.inPos > inLimit
      ensures ok && old(dict.HasSpace()) && inPos <= inLimit ==> old(dict.pos) < dict.pos
      ensures ok ==> Grown(old(dict.history), old(out), old(dict.pos), dict.history, out, dict.pos)
    {
      hide D.Dict.Open, Synced, Decodes, S.PropsValid;
      ghost var end, delta := taken + compressed, taken - inPos;
      rc.input, rc.inPos, rc.inLimit := input, inPos, inLimit;
      EnterMain(stream, lim, target);
      ok := LzmaMain(stream, end, delta, inPos, lim, target);
      if !ok || rc.inPos > lim {
        return false;
      }
      compressed := compressed - (rc.inPos - inPos);
      taken := taken + (rc.inPos - inPos);
      LeaveMain(stream, end, delta, inPos, lim, target);
    }

    lemma EnterMain(stream: seq<Byte>, lim: int, target: Outcome)
      requires probs.Length == S.PROBS_TOTAL && sequence.LzmaRun? && rc.range >= TOP_VALUE
      requires Decodes(stream, Abs(), target)
      requires rc.inPos <= lim <= |rc.input|
      requires lim - rc.inPos <= compressed && taken + (lim - rc.inPos) <= |stream|
      requires forall i :: rc.inPos <= i < lim ==> rc.input[i] == stream[i + (taken - rc.inPos)]
      ensures Synced(stream, taken + compressed, taken - rc.inPos, rc.inPos, lim, target)
    {
      hide Inv, Decode, Normalize;
      NormalizeRestores(rc.input, rc.Rc());
      WindowOfChunk(stream, taken + compressed, rc.input, taken - rc.inPos, rc.inPos, lim);
      assert Inside(taken + compressed, taken - rc.inPos) == Abs();
    }

    lemma LeaveMain(stream: seq<Byte>, end: int, delta: int, lo: int, lim: int, target: Outcome)
      requires probs.Length == S.PROBS_TOTAL && sequence.LzmaRun? && rc.range >= TOP_VALUE
      requires Synced(stream, end, delta, lo, lim, target)
      requires taken == rc.inPos + delta && compressed == end - taken
      ensures Decodes(stream, Abs(), target)
    {
      hide Inv, Decode, Normalize, Window;
      NormalizeRestores(rc.input, rc.Rc());
      assert Inside(end, delta) == Abs();
    }

    /** Bytes of the stream taken from the caller since the last reset. */
    ghost function Consumed(): int
      reads this`taken, this`tempSize
    {
      taken + tempSize
    }

    // Tops up the carry-over buffer with the next tmp bytes of the input.
    method FillTemp(b: XzBuf, ghost stream: seq<Byte>, tmp: nat)
      requires Fed(stream, b) && tmp <= |b.input| - b.inPos && tempSize + tmp <= temp.Length
      modifies temp
      ensures Fed(stream, b)
      ensures forall i :: 0 <= i < tempSize + tmp ==> temp[i] == stream[taken + i]
    {
      MemCpy(temp, tempSize, b.input[b.inPos..b.inPos + tmp]);
    }

    // Fills the carry-over buffer and sets the limit for lzma_main, or finds too little to decode.
    method TopUp(b: XzBuf, ghost stream: seq<Byte>) returns (ready: bool, tmp: nat, inLimit: nat)
      requires Fed(stream, b) && tempSize < LZMA_IN_REQUIRED && tempSize <= compressed
      requires temp.Length == 3 * LZMA_IN_REQUIRED
      modifies temp, this`tempSize, b`inPos
      ensures Fed(stream, b) && tempSize < LZMA_IN_REQUIRED && tempSize <= compressed
      ensures !ready ==> b.inPos == |b.input| && tempSize < compressed
      ensures !ready ==> tempSize - b.inPos == old(tempSize - b.inPos) && b.inPos >= old(b.inPos)
      ensures ready ==>
                && tempSize == old(tempSize) && b.inPos == old(b.inPos)
                && tmp <= |b.input| - b.inPos && tempSize + tmp <= compressed
                && inLimit + LZMA_IN_REQUIRED <= temp.Length && tempSize + tmp <= temp.Length
                && (tempSize + tmp == compressed || inLimit + LZMA_IN_REQUIRED == tempSize + tmp)
                && forall i :: 0 <= i < tempSize + tmp ==> temp[i] == stream[taken + i]
    {
      var inAvail := |b.input| - b.inPos;
      tmp := 2 * LZMA_IN_REQUIRED - tempSize;
      if tmp > compressed - tempSize {
        tmp := compressed - tempSize;
      }
      if tmp > inAvail {
        tmp := inAvail;
      }
      FillTemp(b, stream, tmp);
      if tempSize + tmp == compressed {
        MemZero(temp, tempSize + tmp);
        inLimit := tempSize + tmp;
      } else if tempSize + tmp < LZMA_IN_REQUIRED {
        tempSize := tempSize + tmp;
        b.inPos := b.inPos + tmp;
        return false, tmp, 0;
      } else {
        inLimit := tempSize + tmp - LZMA_IN_REQUIRED;
      }
      ready := true;
    }

    // Drops the used bytes from the carry-over buffer, and those beyond it from the input.
    method DropUsed(b: XzBuf, ghost stream: seq<Byte>, used: nat, ghost tmp: nat) returns (done: bool)
      requires taken >= used && FedFrom(stream, b, taken - used)
      requires used <= tempSize + tmp && tmp <= |b.input| - b.inPos
      modifies temp, this`tempSize, b`inPos
      ensures Fed(stream, b) && tempSize <= old(tempSize)
      ensures used + tempSize - b.inPos == old(tempSize - b.inPos) && b.inPos >= old(b.inPos)
      ensures done <==> used < old(tempSize)
      ensures !done ==> tempSize == 0
      ensures tempSize <= D.Max(old(tempSize) - used, 0)
    {
      if used < tempSize {
        tempSize := tempSize - used;
        MemCpy(temp, 0, temp[used..used + tempSize]);
        return true;
      }
      b.inPos := b.inPos + (used - tempSize);
      tempSize := 0;
      done := false;
    }

    /** The first part of lzma2_lzma: decode from the carry-over buffer, topped up from the input. */
    method FromTemp(b: XzBuf, ghost stream: seq<Byte>, ghost target: Outcome) returns (ok: bool, done: bool)
      requires InChunk(stream, b, target)
      requires tempSize > 0 || compressed == 0
      modifies this`z, this`out, this`taken, this`compressed, this`tempSize, temp
      modifies rc`range, rc`code, rc`inPos, rc`input, rc`inLimit, probs, dict`pos, dict`full, dict`history, dict.buf
      modifies b`inPos
      ensures !ok ==> target.status == Corrupt
      ensures !ok ==> Storage() && b.inPos <= |b.input|
      ensures ok ==> InChunk(stream, b, target)
      ensures ok ==> Consumed() - b.inPos == old(Consumed() - b.inPos) && old(b.inPos) <= b.inPos
      ensures ok ==> Grown(old(dict.history), old(out), old(dict.pos), dict.history, out, dict.pos)
      ensures ok ==> old(dict.pos) <= dict.pos
      ensures ok && old(dict.HasSpace()) ==>
                old(dict.pos) < dict.pos || (done && b.inPos == |b.input| && tempSize < compressed)
      ensures ok && !done ==> tempSize == 0
    {
      hide D.Dict.Valid, Configured, Decodes, Grown;
      var ready, tmp, inLimit := TopUp(b, stream);
      GrownNot(dict.history, out, dict.pos);
      if !ready {
        return true, true;
      }
      ok := RunMain(temp[..], 0, inLimit, tempSize + tmp, stream, target);
      if !ok {
        return false, true;
      }
      done := DropUsed(b, stream, rc.inPos, tmp);
    }

    /** The second part of lzma2_lzma: decode straight from the input while plenty is left. */
    method Direct(b: XzBuf, ghost stream: seq<Byte>, ghost target: Outcome) returns (ok: bool)
      requires InChunk(stream, b, target) && tempSize == 0
      requires |b.input| - b.inPos >= LZMA_IN_REQUIRED
      modifies this`z, this`out, this`taken, this`compressed
      modifies rc`range, rc`code, rc`inPos, rc`input, rc`inLimit, probs, dict`pos, dict`full, dict`history, dict.buf
      modifies b`inPos
      ensures !ok ==> target.status == Corrupt
      ensures !ok ==> Storage() && b.inPos <= |b.input|
      ensures ok ==> InChunk(stream, b, target)
      ensures ok ==> Consumed() - b.inPos == old(Consumed() - b.inPos) && old(b.inPos) <= b.inPos
      ensures ok ==> Grown(old(dict.history), old(out), old(dict.pos), dict.history, out, dict.pos)
      ensures ok ==> old(dict.pos) <= dict.pos
      ensures ok && old(dict.HasSpace()) ==> old(dict.pos) < dict.pos
    {
      hide D.Dict.Valid, Configured, Decodes;
      var inAvail := |b.input| - b.inPos;
      var inLimit :=
        if inAvail >= compressed + LZMA_IN_REQUIRED then b.inPos + compressed else |b.input| - LZMA_IN_REQUIRED;
      ok := RunMain(b.input, b.inPos, inLimit, b.inPos + D.Min(compressed, inAvail), stream, target);
      if ok {
        b.inPos := rc.inPos;
      }
    }

    /** The last part of lzma2_lzma: keep a short rest of the input for the next call. */
    method Keep(b: XzBuf, ghost stream: seq<Byte>, ghost target: Outcome)
      requires InChunk(stream, b, target) && tempSize == 0
      requires |b.input| - b.inPos < LZMA_IN_REQUIRED
      modifies this`tempSize, temp, b`inPos
      ensures InChunk(stream, b, target)
      ensures Consumed() - b.inPos == old(Consumed() - b.inPos) && old(b.inPos) <= b.inPos
      ensures b.inPos > old(b.inPos) || compressed == 0 || b.inPos == |b.input|
      ensures tempSize == D.Min(old(|b.input| - b.inPos), compressed)
    {
      hide D.Dict.Valid, Configured, Decodes;
      var inAvail := |b.input| - b.inPos;
      if inAvail > compressed {
        inAvail := compressed;
      }
      FillTemp(b, stream, inAvail);
      tempSize := inAvail;
      b.inPos := b.inPos + inAvail;
    }

    /** lzma2_lzma. It keeps what the stream decodes to, fails only on a corrupt stream, and writes a
        byte whenever there is space unless it ran out of input. */
    method Lzma2Lzma(b: XzBuf, ghost stream: seq<Byte>, ghost target: Outcome) returns (ok: bool)
      requires InChunk(stream, b, target)
      modifies this`z, this`out, this`taken, this`compressed, this`tempSize, temp
      modifies rc`range, rc`code, rc`inPos, rc`input, rc`inLimit, probs, dict`pos, dict`full, dict`history, dict.buf
      modifies b`inPos
      ensures !ok ==> target.status == Corrupt
      ensures !ok ==> Storage() && b.inPos <= |b.input|
      ensures ok ==> InChunk(stream, b, target)
      ensures ok ==> Consumed() - b.inPos == old(Consumed() - b.inPos) && old(b.inPos) <= b.inPos
      ensures ok ==> Grown(old(dict.history), old(out), old(dict.pos), dict.history, out, dict.pos)
      ensures ok ==> old(dict.pos) <= dict.pos
      ensures ok && old(dict.HasSpace()) ==>
                old(dict.pos) < dict.pos || b.inPos > old(b.inPos) || (b.inPos == |b.input| && tempSize < compressed)
    {
      hide InChunk, Grown;
      GrownNot(dict.history, out, dict.pos);
      if tempSize > 0 || compressed == 0 {
        var done;
        ok, done := FromTemp(b, stream, target);
        if !ok || done {
          return;
        }
      }
      if |b.input| - b.inPos >= LZMA_IN_REQUIRED {
        ghost var h, o, p := dict.history, out, dict.pos;
        ok := Direct(b, stream, target);
        if !ok {
          return;
        }
        GrownMore(old(dict.history), old(out), old(dict.pos), h, o, p, dict.history, out, dict.pos);
      }
      if |b.input| - b.inPos < LZMA_IN_REQUIRED {
        Keep(b, stream, target);
      }
      ok := true;
    }

    // ---------- Resets and properties ----------

    /** lzma_reset */
    method LzmaReset()
      requires probs.Length == S.PROBS_TOTAL
      modifies this`z, rc`range, rc`code, rc`initBytesLeft, probs
      ensures z == old(z).(state := 0, rep0 := 0, rep1 := 0, rep2 := 0, rep3 := 0)
      ensures probs[..] == S.FreshProbs()
      ensures rc.range == U32 - 1 && rc.code == 0 && rc.initBytesLeft == RC_INIT_BYTES
    {
      z := z.(state := 0, rep0 := 0, rep1 := 0, rep2 := 0, rep3 := 0);
      for i := 0 to S.PROBS_TOTAL
        invariant z == old(z).(state := 0, rep0 := 0, rep1 := 0, rep2 := 0, rep3 := 0)
        invariant forall j :: 0 <= j < i ==> probs[j] == 1024
      {
        probs[i] := BIT_MODEL_TOTAL / 2;
      }
      rc.Reset();
    }

    /** lzma_props: lc, lp and pb by repeated subtraction from the properties byte. */
    method LzmaProps(props: Byte) returns (ok: bool)
      requires probs.Length == S.PROBS_TOTAL
      modifies this`z, rc`range, rc`code, rc`initBytesLeft, probs
      ensures ok <==> props <= 224 && props % 9 + props / 9 % 5 <= 4
      ensures ok ==>
                z == old(z).(lc := props % 9,
                             literalPosMask := Pow2(props / 9 % 5) - 1,
                             posMask := Pow2(props / 45) - 1,
                             state := 0, rep0 := 0, rep1 := 0, rep2 := 0, rep3 := 0)
      ensures ok ==> probs[..] == S.FreshProbs()
      ensures ok ==> rc.range == U32 - 1 && rc.code == 0 && rc.initBytesLeft == RC_INIT_BYTES
    {
      hide Pow2, S.FreshProbs;
      if props > (4 * 5 + 4) * 9 + 8 {
        return false;
      }
      var rest: int := props;
      z := z.(posMask := 0);
      while rest >= 9 * 5
        invariant 0 <= rest && rest + 45 * z.posMask == props
        invariant z == old(z).(posMask := z.posMask)
      {
        rest := rest - 9 * 5;
        z := z.(posMask := z.posMask + 1);
      }
      assert z.posMask == props / 45;
      z := z.(posMask := Pow2(z.posMask) - 1, literalPosMask := 0);
      ghost var low := rest;
      while rest >= 9
        invariant 0 <= rest && rest + 9 * z.literalPosMask == low
        invariant z == old(z).(posMask := Pow2(props / 45) - 1, literalPosMask := z.literalPosMask)
      {
        rest := rest - 9;
        z := z.(literalPosMask := z.literalPosMask + 1);
      }
      PropsDigits(props, props / 45, z.literalPosMask, rest);
      z := z.(lc := rest);
      if z.lc + z.literalPosMask > 4 {
        return false;
      }
      z := z.(literalPosMask := Pow2(z.literalPosMask) - 1);
      LzmaReset();
      ok := true;
    }

    static lemma PropsDigits(props: nat, pb: nat, lp: nat, lc: nat)
      requires props == 45 * pb + 9 * lp + lc && lc < 9 && 9 * lp + lc < 45
      ensures pb == props / 45 && lp == props / 9 % 5 && lc == props % 9
    {
      assert props / 9 == 5 * pb + lp;
    }

    /** xz_dec_lzma2_reset: the dictionary size comes from the properties byte of the filter. */
    method Reset(props: Byte) returns (ret: Ret)
      requires Buffers()
      requires dict.allocatedSize == 0 && (prealloc ==> dict.sizeMax <= dict.buf.Length)
      modifies this`sequence, this`needDictReset, this`z, this`tempSize, this`out, this`taken, dict
      ensures Buffers()
      ensures dict.allocatedSize == 0 && dict.sizeMax == old(dict.sizeMax)
      ensures (prealloc ==> dict.sizeMax <= dict.buf.Length)
      ensures ret.XzOptionsError? <==> props > 39
      ensures ret.XzMemlimitError? <==> props <= 39 && DictionarySize(props) > dict.sizeMax
      ensures ret.XzOk? || ret.XzOptionsError? || ret.XzMemlimitError?
      ensures ret.XzOk? ==>
                && Valid()
                && Abs() == Restart(old(Abs()), DictionarySize(props)).(uncompressed := uncompressed)
      ensures dict.buf == old(dict.buf) || fresh(dict.buf)
    {
      hide Inv, D.Dict.Valid, DictionarySize;
      if props > 39 {
        return XzOptionsError;
      }
      DictionarySizeBound(props);
      var size := DictionarySize(props);
      if size > dict.sizeMax {
        return XzMemlimitError;
      }
      RestartInv(Abs(), size, uncompressed);
      dict.SetSize(size, prealloc);
      z := z.(len := 0);
      sequence := Control;
      needDictReset := true;
      tempSize := 0;
      out, taken := [], 0;
      ret := XzOk;
    }

    // ---------- Control layer ----------

    /** Between two calls of xz_dec_lzma2_run, and between two turns of its loop. */
    ghost predicate Valid()
      reads this, rc, dict, dict.buf, probs
    {
      && Buffers() && dict.Sized()
      && (!needDictReset ==> dict.Valid() && dict.start == dict.pos < dict.end)
      && Inv(Abs())
      && (sequence.LzmaRun? ==>
            tempSize < LZMA_IN_REQUIRED && tempSize <= compressed && uncompressed > 0)
      && (!sequence.LzmaRun? ==> tempSize == 0)
    }

    /** SEQ_CONTROL */
    method ControlByte(b: XzBuf) returns (ret: Ret)
      requires Valid() && sequence.Control? && b.inPos < |b.input|
      modifies this`sequence, this`nextSequence, this`uncompressed, this`needDictReset, this`needProps, this`z
      modifies this`taken
      modifies rc`range, rc`code, rc`initBytesLeft, probs
      modifies dict`start, dict`pos, dict`limit, dict`full, dict`history, b`inPos
      ensures b.inPos == old(b.inPos) + 1 && taken == old(taken) + 1
      ensures match ByteStep(old(Abs()), b.input[old(b.inPos)])
              case Next(st1) => ret.XzOk? && Abs() == st1 && Valid()
              case Stop(status, _) => ret == if status.Ended? then XzStreamEnd else XzDataError
    {
      hide Inv, D.Dict.Open, Lzma2Reference.ChunkKind;
      ByteStepInv(Abs(), b.input[b.inPos]);
      var tmp := b.input[b.inPos];
      b.inPos, taken := b.inPos + 1, taken + 1;
      if tmp == 0x00 {
        return XzStreamEnd;
      }
      if tmp >= 0xE0 || tmp == 0x01 {
        needProps := true;
        needDictReset := false;
        dict.Reset();
      } else if needDictReset {
        return XzDataError;
      }
      var ok := ChunkKind(tmp);
      ret := if ok then XzOk else XzDataError;
    }

    // What kind of chunk follows.
    method ChunkKind(tmp: int) returns (ok: bool)
      requires Buffers() && sequence.Control? && 0 <= tmp < 256
      modifies this`sequence, this`nextSequence, this`uncompressed, this`needProps, this`z
      modifies rc`range, rc`code, rc`initBytesLeft, probs
      ensures match Lzma2Reference.ChunkKind(old(Abs()), tmp)
              case Next(st1) => ok && Abs() == st1 && !sequence.LzmaRun?
              case Stop(_, _) => !ok
    {
      hide S.FreshProbs;
      if tmp >= 0x80 {
        uncompressed := (tmp % 0x20) * 0x1_0000;
        sequence := Uncompressed1;
        if tmp >= 0xC0 {
          needProps := false;
          nextSequence := Properties;
        } else if needProps {
          return false;
        } else {
          nextSequence := LzmaPrepare;
          if tmp >= 0xA0 {
            LzmaReset();
          }
        }
      } else {
        if tmp > 0x02 {
          return false;
        }
        sequence := Compressed0;
        nextSequence := CopyRun;
      }
      ok := true;
    }

    /** SEQ_UNCOMPRESSED_1, SEQ_UNCOMPRESSED_2, SEQ_COMPRESSED_0 and SEQ_COMPRESSED_1 */
    method SizeByte(b: XzBuf)
      requires Valid() && InHeader(Abs()) && b.inPos < |b.input|
      modifies this`sequence, this`uncompressed, this`compressed, this`taken, b`inPos
      ensures b.inPos == old(b.inPos) + 1 && taken == old(taken) + 1
      ensures Next(Abs()) == ByteStep(old(Abs()), b.input[old(b.inPos)]) && Valid()
    {
      hide Inv, D.Dict.Valid, SizeStep;
      HeaderSuccessor(Abs());
      ByteStepInv(Abs(), b.input[b.inPos]);
      StoreSize(b.input[b.inPos]);
      b.inPos, taken := b.inPos + 1, taken + 1;
    }

    // One byte of a size field.
    method StoreSize(byte: int)
      requires Buffers() && InHeader(Abs()) && 0 <= byte < 256
      requires !nextSequence.LzmaRun?
      modifies this`sequence, this`uncompressed, this`compressed
      ensures Advance(Abs()) == SizeStep(old(Abs()), byte) && !sequence.LzmaRun?
    {
      if sequence.Uncompressed1? {
        uncompressed := uncompressed + byte * 0x100;
        sequence := Uncompressed2;
      } else if sequence.Uncompressed2? {
        uncompressed := uncompressed + byte + 1;
        sequence := Compressed0;
      } else if sequence.Compressed0? {
        compressed := byte * 0x100;
        sequence := Compressed1;
      } else {
        compressed := compressed + byte + 1;
        sequence := nextSequence;
      }
    }

    /** SEQ_PROPERTIES */
    method PropertiesByte(b: XzBuf) returns (ok: bool)
      requires Valid() && sequence.Properties? && b.inPos < |b.input|
      modifies this`sequence, this`z, this`taken, rc`range, rc`code, rc`initBytesLeft, probs, b`inPos
      ensures b.inPos == old(b.inPos) + 1 && taken == old(taken) + 1
      ensures match ByteStep(old(Abs()), b.input[old(b.inPos)])
              case Next(st1) => ok && Abs() == st1 && Valid()
              case Stop(_, _) => !ok
    {
      hide Inv, S.FreshProbs, Pow2, D.Dict.Valid;
      ByteStepInv(Abs(), b.input[b.inPos]);
      var props := b.input[b.inPos];
      b.inPos, taken := b.inPos + 1, taken + 1;
      ok := LzmaProps(props);
      if ok {
        sequence := LzmaPrepare;
      }
    }

    // ---------- xz_dec_lzma2_run ----------

    /** The decoder between two turns of the loop of xz_dec_lzma2_run. */
    ghost predicate Between(stream: seq<Byte>, b: XzBuf, target: Outcome)
      reads this, rc, dict, dict.buf, probs, temp, b
    {
      && Valid() && b.Valid()
      && b.out != dict.buf && b.out != temp && (probs as object) != b.out
      && Fed(stream, b)
      && Decodes(stream, Abs(), target)
    }

    /** SEQ_LZMA_PREPARE: the first five bytes of an LZMA chunk; go is false where the call returns. */
    method Prepare(b: XzBuf, ghost stream: seq<Byte>, ghost target: Outcome) returns (go: bool, ret: Ret)
      requires Between(stream, b, target) && sequence.LzmaPrepare?
      modifies this`sequence, this`compressed, this`taken, rc`code, rc`initBytesLeft, b`inPos
      ensures !go ==> ret.XzOk? || ret.XzDataError?
      ensures !go && ret.XzDataError? ==> target.status.Corrupt?
      ensures go || ret.XzOk? ==> Between(stream, b, target)
      ensures b.inPos >= old(b.inPos) && Consumed() - b.inPos == old(Consumed() - b.inPos)
      ensures go ==> sequence.LzmaRun?
      ensures !go && ret.XzOk? ==> b.inPos == |b.input| && sequence.LzmaPrepare? && rc.initBytesLeft > 0
    {
      hide Inv, Decodes, D.Dict.Valid, Step;
      NotFresh(Abs());
      if compressed < RC_INIT_BYTES {
        ShortChunk(stream, Abs(), target);
        return false, XzDataError;
      }
      while rc.initBytesLeft > 0
        invariant Between(stream, b, target) && sequence.LzmaPrepare? && compressed == old(compressed)
        invariant b.inPos >= old(b.inPos) && Consumed() - b.inPos == old(Consumed() - b.inPos)
      {
        if b.inPos == |b.input| {
          return false, XzOk;
        }
        InitOne(b, stream, target);
      }
      InitDoneDecodes(stream, Abs(), target);
      compressed := compressed - RC_INIT_BYTES;
      sequence := LzmaRun;
      go, ret := true, XzOk;
    }

    // The body of the loop of rc_read_init.
    method InitOne(b: XzBuf, ghost stream: seq<Byte>, ghost target: Outcome)
      requires Between(stream, b, target) && sequence.LzmaPrepare? && compressed >= RC_INIT_BYTES
      requires rc.initBytesLeft > 0 && b.inPos < |b.input|
      modifies this`taken, rc`code, rc`initBytesLeft, b`inPos
      ensures Between(stream, b, target)
      ensures b.inPos == old(b.inPos) + 1 && taken == old(taken) + 1 && rc.initBytesLeft == old(rc.initBytesLeft) - 1
    {
      hide Inv, Decodes, D.Dict.Valid, Step;
      InitByteDecodes(stream, Abs(), target, b.input[b.inPos]);
      rc.code := (rc.code * 256 + b.input[b.inPos]) % U32;
      b.inPos, taken := b.inPos + 1, taken + 1;
      rc.initBytesLeft := rc.initBytesLeft - 1;
    }

    /** SEQ_COPY */
    method CopyChunk(b: XzBuf, ghost stream: seq<Byte>, ghost target: Outcome) returns (go: bool)
      requires Between(stream, b, target) && sequence.CopyRun?
      modifies this`sequence, this`compressed, this`taken, this`out
      modifies dict`start, dict`pos, dict`full, dict`history, dict.buf, b`inPos, b`outPos, b.out
      ensures Between(stream, b, target) && b.Valid()
      ensures b.inPos >= old(b.inPos) && Consumed() - b.inPos == old(Consumed() - b.inPos)
      ensures Written(old(out), old(b.out[..]), old(b.outPos), out, b.out[..], b.outPos)
      ensures go ==> sequence.Control?
      ensures !go ==> b.inPos == |b.input| || b.outPos == b.outSize
      ensures !go ==> sequence.CopyRun? && compressed > 0
    {
      hide Inv, Decodes, Decode, D.Dict.Valid, Step;
      CopyPieces(b, stream, target);
      if compressed > 0 {
        return false;
      }
      CopyDoneDecodes(stream, Abs(), target);
      sequence := Control;
      go := true;
    }

    // The call of dict_uncompressed.
    method CopyPieces(b: XzBuf, ghost stream: seq<Byte>, ghost target: Outcome)
      requires Between(stream, b, target) && sequence.CopyRun?
      modifies this`compressed, this`taken, this`out
      modifies dict`start, dict`pos, dict`full, dict`history, dict.buf, b`inPos, b`outPos, b.out
      ensures Between(stream, b, target)
      ensures b.inPos >= old(b.inPos) && Consumed() - b.inPos == old(Consumed() - b.inPos)
      ensures Written(old(out), old(b.out[..]), old(b.outPos), out, b.out[..], b.outPos)
      ensures compressed > 0 ==> b.inPos == |b.input| || b.outPos == b.outSize
    {
      hide Inv, Decodes, Decode, D.Dict.Valid, Step, Written;
      NotFresh(Abs());
      ghost var st, base := Abs(), taken;
      CopyInput(b);
      ghost var bytes := b.input[old(b.inPos)..b.inPos];
      assert forall i :: 0 <= i < |bytes| ==> bytes[i] == stream[base + i];
      CopyBytesDecode(stream, st, target, bytes);
    }

    // What dict_uncompressed does to the decoder.
    method CopyInput(b: XzBuf)
      requires Buffers() && dict.Valid() && b.Valid() && sequence.CopyRun? && dict.start == dict.pos < dict.end
      requires b.out != dict.buf && (probs as object) != b.out
      modifies this`compressed, this`taken, this`out
      modifies dict`start, dict`pos, dict`full, dict`history, dict.buf, b`inPos, b`outPos, b.out
      ensures dict.Valid() && b.Valid() && dict.start == dict.pos < dict.end
      ensures var n := b.inPos - old(b.inPos);
              && 0 <= n <= old(compressed) && taken == old(taken) + n
              && Abs() == CopyBytes(old(Abs()), b.input[old(b.inPos)..b.inPos])
      ensures Written(old(out), old(b.out[..]), old(b.outPos), out, b.out[..], b.outPos)
      ensures compressed > 0 ==> b.inPos == |b.input| || b.outPos == b.outSize
    {
      hide D.Dict.Valid, Written;
      var rest := dict.Uncompressed(b, compressed);
      ghost var bytes := b.input[old(b.inPos)..b.inPos];
      out, taken := out + bytes, taken + |bytes|;
      compressed := rest;
      WrittenBytes(old(out), old(b.out[..]), old(b.outPos), bytes, b.out[..]);
    }

    // dict_limit at the start of a turn.
    method Begin(b: XzBuf, ghost stream: seq<Byte>, ghost target: Outcome)
      requires Between(stream, b, target) && sequence.LzmaRun?
      modifies dict`limit
      ensures InChunk(stream, b, target) && b.Valid()
      ensures b.out != dict.buf && b.out != temp && (probs as object) != b.out
      ensures dict.start == dict.pos && dict.limit - dict.start <= b.outSize - b.outPos
      ensures dict.HasSpace() <==> b.outPos < b.outSize
    {
      hide Inv, Decodes, Fed, D.Dict.Open, S.PropsValid;
      RunConfigured(Abs());
      dict.Facts();
      dict.Limit(D.Min(b.outSize - b.outPos, uncompressed));
    }

    lemma ChunkFacts(stream: seq<Byte>, b: XzBuf, target: Outcome)
      requires InChunk(stream, b, target)
      ensures Storage() && sequence.LzmaRun? && Fed(stream, b) && tempSize < LZMA_IN_REQUIRED && tempSize <= compressed
      ensures dict.start <= dict.pos <= dict.limit && dict.limit - dict.start <= uncompressed
    {
    }

    // The call of dict_flush.
    method FlushChunk(b: XzBuf, ghost stream: seq<Byte>, ghost target: Outcome, ghost h0: seq<Byte>,
                      ghost out0: seq<Byte>)
      requires InChunk(stream, b, target) && b.Valid()
      requires dict.pos - dict.start <= b.outSize - b.outPos
      requires b.out != dict.buf && b.out != temp && (probs as object) != b.out
      requires Grown(h0, out0, dict.start, dict.history, out, dict.pos)
      modifies this`uncompressed, dict`start, dict`pos, b`outPos, b.out
      ensures Storage() && b.Valid() && dict.start == dict.pos < dict.end
      ensures Fed(stream, b) && Decodes(stream, Abs(), target)
      ensures uncompressed == old(uncompressed) - old(Unflushed())
      ensures b.outPos == old(b.outPos) + old(Unflushed())
      ensures Written(out0, old(b.out[..]), old(b.outPos), out, b.out[..], b.outPos)
    {
      hide Inv, Decode, Decodes, D.Dict.Open, S.PropsValid, Written;
      ghost var st, bytes := Abs(), dict.history[|h0|..];
      var copied := dict.Flush(b);
      uncompressed := uncompressed - copied;
      assert Abs() == st;
      WrittenBytes(out0, old(b.out[..]), old(b.outPos), bytes, b.out[..]);
    }

    // dict_limit, lzma2_lzma and dict_flush.
    method Turn(b: XzBuf, ghost stream: seq<Byte>, ghost target: Outcome) returns (ok: bool)
      requires Between(stream, b, target) && sequence.LzmaRun?
      modifies this`z, this`out, this`taken, this`compressed, this`tempSize, temp, this`uncompressed
      modifies rc`range, rc`code, rc`inPos, rc`input, rc`inLimit, probs
      modifies dict`start, dict`pos, dict`full, dict`limit, dict`history, dict.buf
      modifies b`inPos, b`outPos, b.out
      ensures !ok ==> target.status.Corrupt?
      ensures ok ==>
                && Storage() && b.Valid() && dict.start == dict.pos < dict.end
                && Fed(stream, b) && Decodes(stream, Abs(), target)
                && tempSize < LZMA_IN_REQUIRED && tempSize <= compressed
                && b.inPos >= old(b.inPos) && Consumed() - b.inPos == old(Consumed() - b.inPos)
                && Written(old(out), old(b.out[..]), old(b.outPos), out, b.out[..], b.outPos)
      ensures ok ==>
                || b.outPos == b.outSize || (b.inPos == |b.input| && tempSize < compressed)
                || b.inPos > old(b.inPos) || uncompressed < old(uncompressed)
    {
      hide Inv, Decodes, InChunk, D.Dict.Valid, Written;
      Begin(b, stream, target);
      ok := Lzma2Lzma(b, stream, target);
      if ok {
        ChunkFacts(stream, b, target);
        FlushChunk(b, stream, target, old(dict.history), old(out));
      }
    }

    /** SEQ_LZMA_RUN: one turn of the loop; go is false where the call returns. */
    method RunChunk(b: XzBuf, ghost stream: seq<Byte>, ghost target: Outcome) returns (go: bool, ret: Ret)
      requires Between(stream, b, target) && sequence.LzmaRun?
      modifies this`z, this`out, this`taken, this`compressed, this`tempSize, temp, this`uncompressed, this`sequence
      modifies rc`range, rc`code, rc`inPos, rc`input, rc`inLimit, rc`initBytesLeft, probs
      modifies dict`start, dict`pos, dict`full, dict`limit, dict`history, dict.buf
      modifies b`inPos, b`outPos, b.out
      ensures if go then ret.XzOk? else ret.XzOk? || ret.XzDataError?
      ensures !go && ret.XzDataError? ==> target.status.Corrupt?
      ensures go || ret.XzOk? ==>
                && Between(stream, b, target) && b.Valid()
                && b.inPos >= old(b.inPos) && Consumed() - b.inPos == old(Consumed() - b.inPos)
                && Written(old(out), old(b.out[..]), old(b.outPos), out, b.out[..], b.outPos)
      ensures go ==> sequence.LzmaRun? || sequence.Control?
      ensures go && sequence.LzmaRun? ==> b.inPos > old(b.inPos) || uncompressed < old(uncompressed)
      ensures !go && ret.XzOk? ==>
                sequence.LzmaRun? && (b.outPos == b.outSize || (b.inPos == |b.input| && tempSize < compressed))
    {
      hide Inv, Decodes, D.Dict.Open, Written, Fed;
      var ok := Turn(b, stream, target);
      if !ok {
        return false, XzDataError;
      }
      if uncompressed == 0 {
        go := EndChunk(b, stream, target);
        ret := if go then XzOk else XzDataError;
      } else if b.outPos == b.outSize || (b.inPos == |b.input| && tempSize < compressed) {
        go, ret := false, XzOk;
      } else {
        go, ret := true, XzOk;
      }
      if go || ret.XzOk? {
        DecodesInv(stream, Abs(), target);
      }
    }

    // The checks at the end of a chunk.
    method EndChunk(b: XzBuf, ghost stream: seq<Byte>, ghost target: Outcome) returns (ok: bool)
      requires Storage() && sequence.LzmaRun? && uncompressed == 0 && Unflushed() == 0
      requires Decodes(stream, Abs(), target)
      modifies this`sequence, rc`range, rc`code, rc`initBytesLeft
      ensures !ok ==> target.status == Corrupt
      ensures ok ==> sequence.Control? && compressed == 0 && Inv(Abs()) && Decodes(stream, Abs(), target)
    {
      hide Inv, Decodes, D.Dict.Valid;
      EndDecodes(stream, Abs(), target);
      if compressed > 0 || z.len > 0 || !rc.IsFinished() {
        return false;
      }
      rc.Reset();
      sequence := Control;
      ok := true;
    }

    /** No byte is waited for that is not needed. */
    ghost predicate Ready()
      reads this`sequence, this`compressed, rc`initBytesLeft
    {
      (sequence.LzmaPrepare? ==> rc.initBytesLeft > 0) && (sequence.CopyRun? ==> compressed > 0)
    }

    /** What a call that returns XZ_OK waits for: input, or room for output that is sure to come. */
    ghost predicate Waits(b: XzBuf)
      reads this`sequence, this`tempSize, this`compressed, b
    {
      || (b.inPos == |b.input| && (sequence.LzmaRun? ==> tempSize < compressed))
      || (b.outPos == b.outSize && (sequence.LzmaRun? || sequence.CopyRun?))
    }

    /** How often the loop can still turn without reading a byte. */
    ghost function Turns(): nat
      reads this`sequence, this`uncompressed
    {
      match sequence
      case LzmaPrepare => uncompressed + 3
      case LzmaRun => uncompressed + 2
      case CopyRun => 1
      case _ => 0
    }

    lemma BetweenFacts(stream: seq<Byte>, b: XzBuf, target: Outcome)
      requires Between(stream, b, target)
      ensures b.Valid() && Consumed() + (|b.input| - b.inPos) <= |stream|
      ensures Inv(Abs()) && Decodes(stream, Abs(), target)
      ensures if sequence.LzmaRun? then dict.start == dict.pos && uncompressed > 0 else tempSize == 0
    {
      hide Inv, Decodes, D.Dict.Valid;
      if sequence.LzmaRun? {
        NotFresh(Abs());
      }
    }

    // The cases of the switch that read one byte.
    method HeaderByte(b: XzBuf, ghost stream: seq<Byte>, ghost target: Outcome) returns (go: bool, ret: Ret)
      requires Between(stream, b, target) && b.inPos < |b.input|
      requires sequence.Control? || InHeader(Abs()) || sequence.Properties?
      modifies this`sequence, this`nextSequence, this`uncompressed, this`compressed, this`needDictReset, this`needProps
      modifies this`z, this`taken
      modifies rc`range, rc`code, rc`initBytesLeft, probs
      modifies dict`start, dict`pos, dict`limit, dict`full, dict`history, b`inPos
      ensures b.inPos == old(b.inPos) + 1 && taken == old(taken) + 1
      ensures go ==> ret.XzOk? && Between(stream, b, target) && Ready() && !sequence.LzmaRun?
      ensures go && old(sequence.Properties?) ==> sequence.LzmaPrepare?
      ensures !go ==> ret.XzStreamEnd? || ret.XzDataError?
      ensures !go && ret.XzStreamEnd? ==> target == Outcome(Ended, out, Consumed())
      ensures !go && ret.XzDataError? ==> target.status.Corrupt?
    {
      hide Inv, Decodes, D.Dict.Valid, ByteStep, Step;
      ghost var st, byte := Abs(), b.input[b.inPos];
      OneByte(stream, st, target, byte);
      ByteStops(st, byte);
      if sequence.Control? {
        ret := ControlByte(b);
        go := ret.XzOk?;
      } else if sequence.Properties? {
        go := PropertiesByte(b);
        ret := if go then XzOk else XzDataError;
      } else {
        SizeByte(b);
        go, ret := true, XzOk;
      }
    }

    /** One turn of the loop of xz_dec_lzma2_run; go is false where the call returns. */
    method OneTurn(b: XzBuf, ghost stream: seq<Byte>, ghost target: Outcome) returns (go: bool, ret: Ret)
      requires Between(stream, b, target) && Ready() && (b.inPos < |b.input| || sequence.LzmaRun?)
      modifies this, rc, probs, temp, dict`start, dict`pos, dict`full, dict`limit, dict`history, dict.buf
      modifies b`inPos, b`outPos, b.out
      ensures go ==> ret.XzOk?
      ensures ret.XzOk? || ret.XzStreamEnd? || ret.XzDataError?
      ensures ret.XzOk? ==> Between(stream, b, target) && Ready()
      ensures ret.XzOk? || ret.XzStreamEnd? ==>
                && b.Valid() && b.inPos >= old(b.inPos) && Consumed() - b.inPos == old(Consumed() - b.inPos)
                && Written(old(out), old(b.out[..]), old(b.outPos), out, b.out[..], b.outPos)
      ensures go ==> b.inPos > old(b.inPos) || Turns() < old(Turns())
      ensures !go && ret.XzOk? ==> Waits(b)
      ensures ret.XzStreamEnd? ==> target == Outcome(Ended, out, Consumed())
      ensures ret.XzDataError? ==> target.status.Corrupt?
    {
      hide Between, Written, Inv;
      BetweenFacts(stream, b, target);
      WrittenNothing(out, b.out[..], b.outPos);
      go, ret := true, XzOk;
      if sequence.CopyRun? {
        go := CopyChunk(b, stream, target);
        return;
      }
      if !sequence.LzmaPrepare? && !sequence.LzmaRun? {
        var fallThrough := sequence.Properties?;
        go, ret := HeaderByte(b, stream, target);
        if !go || !fallThrough {
          return;
        }
      }
      if sequence.LzmaPrepare? {
        go, ret := Prepare(b, stream, target);
        if !go {
          return;
        }
      }
      go, ret := RunChunk(b, stream, target);
    }

    /** xz_dec_lzma2_run. It ends on every input. If it returns XZ_OK, what the stream decodes to is
        unchanged and it waits for output space or input; XZ_STREAM_END says that the reference machine
        ends here having produced exactly out; XZ_DATA_ERROR says that it rejects the stream. */
    method Run(b: XzBuf, ghost stream: seq<Byte>, ghost target: Outcome) returns (ret: Ret)
      requires Between(stream, b, target) && Ready()
      modifies this, rc, probs, temp, dict`start, dict`pos, dict`full, dict`limit, dict`history, dict.buf
      modifies b`inPos, b`outPos, b.out
      ensures ret.XzOk? || ret.XzStreamEnd? || ret.XzDataError?
      ensures ret.XzOk? ==> Between(stream, b, target) && Ready() && Waits(b)
      ensures ret.XzOk? || ret.XzStreamEnd? ==>
                && b.Valid() && b.inPos >= old(b.inPos) && Consumed() - b.inPos == old(Consumed() - b.inPos)
                && Written(old(out), old(b.out[..]), old(b.outPos), out, b.out[..], b.outPos)
      ensures ret.XzStreamEnd? ==> target == Outcome(Ended, out, Consumed())
      ensures ret.XzDataError? ==> target.status.Corrupt?
    {
      hide Between, Written, Inv, Decodes;
      BetweenFacts(stream, b, target);
      WrittenNothing(out, b.out[..], b.outPos);
      while b.inPos < |b.input| || sequence.LzmaRun?
        invariant Between(stream, b, target) && Ready()
        invariant b.Valid() && old(b.inPos) <= b.inPos
        invariant Consumed() - b.inPos == old(Consumed() - b.inPos)
        invariant Written(old(out), old(b.out[..]), old(b.outPos), out, b.out[..], b.outPos)
        decreases |b.input| - b.inPos, Turns()
      {
        ghost var o, text, at := out, b.out[..], b.outPos;
        var go;
        go, ret := OneTurn(b, stream, target);
        if ret.XzDataError? {
          return;
        }
        if go {
          BetweenFacts(stream, b, target);
        }
        WrittenMore(old(out), old(b.out[..]), old(b.outPos), o, text, at, out, b.out[..], b.outPos);
        if !go {
          return;
        }
      }
      ret := XzOk;
    }

    /** The stream ends within the current LZMA chunk. */
    ghost predicate CutOff(stream: seq<Byte>)
      reads this`sequence, this`taken, this`compressed
    {
      sequence.LzmaPrepare? || (sequence.LzmaRun? && |stream| < taken + compressed)
    }

    /** When the whole stream was given, a call that returns XZ_OK means that the stream has no end
        marker where one is due, or that the output buffer is full and there is more to come. Of corrupt
        streams that leave room it waits only for those that end within an LZMA chunk. */
    lemma WaitsInVain(stream: seq<Byte>, b: XzBuf, target: Outcome)
      requires Between(stream, b, target) && Ready() && Waits(b)
      requires Consumed() + (|b.input| - b.inPos) == |stream|
      ensures target.status == Ended ==> b.outPos == b.outSize && |out| < |target.out|
      ensures target.status == Corrupt ==> b.outPos == b.outSize || CutOff(stream)
    {
      hide Inv, Decode, Step, D.Dict.Valid;
      BetweenFacts(stream, b, target);
      if b.outPos == b.outSize && (sequence.LzmaRun? || sequence.CopyRun?) {
        MoreToCome(stream, Abs(), target);
      } else if sequence.LzmaRun? {
        TruncatedChunk(stream, Abs());
      } else {
        NothingLeft(stream, Abs());
      }
    }
  }

  /** The dictionary size for a properties byte: 2 or 3 times a power of two. */
  function DictionarySize(props: Byte): (size: nat)
    requires props <= 39
  {
    (2 + props % 2) * Pow2(props / 2 + 11)
  }

  /** Dictionary sizes are below 2^32 and multiples of 2048: of 4096 exactly when props is not 1. */
  lemma DictionarySizeBound(props: Byte)
    requires props <= 39
    ensures 4096 <= DictionarySize(props) <= 0xC000_0000
    ensures DictionarySize(props) % 2048 == 0 && DictionarySize(props) % 16 == 0
    ensures props != 1 <==> DictionarySize(props) % 4096 == 0
  {
    var k := props / 2;
    ShiftBy11(k);
    if k == 0 {
      assert Pow2(0) == 1;
    } else {
      S.Pow2Mono(k - 1, 18);
      S.Pow2Values();
      assert Pow2(14) == 0x4000 && Pow2(18) == 0x4_0000;
      SizeFacts(2 + props % 2, Pow2(k - 1));
    }
  }

  /** The first two sizes, and twice the size for every two steps: 4096, 6144, 8192, 12288 and so on. */
  lemma DictionarySizes(props: Byte)
    ensures DictionarySize(0) == 4096 && DictionarySize(1) == 6144
    ensures props <= 37 ==> DictionarySize(props + 2) == 2 * DictionarySize(props)
  {
    S.Pow2Values();
    assert Pow2(11) == 2048;
    if props <= 37 {
      SizeTwice(2 + props % 2, props / 2 + 11);
    }
  }

  lemma SizeTwice(m: nat, k: nat)
    ensures m * Pow2(k + 1) == 2 * (m * Pow2(k))
  {
  }

  lemma SizeFacts(m: nat, p: nat)
    requires 2 <= m <= 3 && 1 <= p <= 0x4_0000
    ensures 4096 <= m * (2048 * (2 * p)) <= 4096 * 3 * 0x4_0000
    ensures (m * (2048 * (2 * p))) % 4096 == 0 && (m * (2048 * (2 * p))) % 2048 == 0 && (m * (2048 * (2 * p))) % 16 == 0
  {
    if m == 2 {
      Multiples(2 * p);
    } else {
      Multiples(3 * p);
    }
  }

  lemma Multiples(q: nat)
    ensures (4096 * q) % 4096 == 0 && (4096 * q) % 2048 == 0 && (4096 * q) % 16 == 0
  {
    MultipleOf4096(q);
    MultipleOf2048(2 * q);
    MultipleOf16(256 * q);
    assert 4096 * q == 2048 * (2 * q) == 16 * (256 * q);
  }

  lemma MultipleOf4096(q: nat)
    ensures (4096 * q) % 4096 == 0
  {
  }

  lemma MultipleOf2048(q: nat)
    ensures (2048 * q) % 2048 == 0
  {
  }

  lemma MultipleOf16(q: nat)
    ensures (16 * q) % 16 == 0
  {
  }

  lemma {:induction false} ShiftBy11(n: nat)
    ensures Pow2(n + 11) == 2048 * Pow2(n)
  {
    if n == 0 {
      S.Pow2Values();
      assert Pow2(11) == 2048;
    } else {
      ShiftBy11(n - 1);
    }
  }
}
