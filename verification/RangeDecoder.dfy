/** struct rc_dec of src/xz/xz_dec_lzma2.c and the rc_* functions, updating the registers and one
    array of probabilities in place. Each is proved to compute the function of LzmaSymbol with the
    same name; each may be called only where all the bytes it will read exist. */
module RangeDecoder {
  import opened Basics
  import opened RangeCoder
  import S = LzmaSymbol

  class RcDec {
    var range: Range
    var code: Word
    var initBytesLeft: nat
    var input: seq<Byte>
    var inPos: nat
    var inLimit: int

    function Rc(): Rc
      reads this`range, this`code, this`inPos
    {
      RangeCoder.Rc(range, code, inPos)
    }

    function Model(probs: array<Prob>): S.Model
      requires probs.Length == S.PROBS_TOTAL
      reads this`range, this`code, this`inPos, probs
    {
      S.Model(Rc(), probs[..])
    }

    constructor ()
      ensures initBytesLeft == 0
    {
      range, code, initBytesLeft, input, inPos, inLimit := U32 - 1, 0, 0, [], 0, 0;
    }

    /** rc_reset */
    method Reset()
      modifies this`range, this`code, this`initBytesLeft
      ensures Rc() == RangeCoder.Rc(U32 - 1, 0, inPos) && initBytesLeft == 5
    {
      range, code, initBytesLeft := U32 - 1, 0, 5;
    }

    /** rc_limit_exceeded */
    predicate LimitExceeded()
      reads this
    {
      inPos > inLimit
    }

    /** rc_is_finished */
    predicate IsFinished()
      reads this
    {
      code == 0
    }

    /** rc_normalize */
    method Normalize()
      requires RangeCoder.Normalize(input, Rc()).pos <= |input|
      modifies this`range, this`code, this`inPos
      ensures Rc() == RangeCoder.Normalize(input, old(Rc()))
    {
      if range < TOP_VALUE {
        range := range * 256;
        code := (code * 256 + input[inPos]) % U32;
        inPos := inPos + 1;
      }
    }

    /** rc_bit */
    method Bit(probs: array<Prob>, i: nat) returns (bit: bool)
      requires probs.Length == S.PROBS_TOTAL && i < S.PROBS_TOTAL
      requires S.Bit(input, Model(probs), i).1.rc.pos <= |input|
      modifies this`range, this`code, this`inPos, probs
      ensures (bit, Model(probs)) == S.Bit(input, old(Model(probs)), i)
    {
      hide Bound, Adapt;
      ghost var old_probs, prob := probs[..], probs[i];
      Normalize();
      BoundSplits(range, prob);
      var bound := Bound(range, probs[i]);
      if code < bound {
        range := bound;
        probs[i] := Adapt(probs[i], false);
        bit := false;
      } else {
        range := range - bound;
        code := code - bound;
        probs[i] := Adapt(probs[i], true);
        bit := true;
      }
      assert probs[..] == old_probs[i := probs[i]];
    }

    /** rc_bittree */
    method BitTree(probs: array<Prob>, base: nat, limit: nat) returns (symbol: nat)
      requires probs.Length == S.PROBS_TOTAL && base + limit <= S.PROBS_TOTAL && 1 < limit
      requires S.BitTree(input, Model(probs), base, 1, limit).1.rc.pos <= |input|
      modifies this`range, this`code, this`inPos, probs
      ensures (symbol, Model(probs)) == S.BitTree(input, old(Model(probs)), base, 1, limit)
    {
      hide S.Bit;
      symbol := 1;
      while true
        invariant 0 < symbol < limit
        invariant S.BitTree(input, Model(probs), base, symbol, limit) ==
                  S.BitTree(input, old(Model(probs)), base, 1, limit)
        decreases limit - symbol
      {
        var bit := Bit(probs, base + symbol);
        if bit {
          symbol := 2 * symbol + 1;
        } else {
          symbol := 2 * symbol;
        }
        if symbol >= limit {
          break;
        }
      }
    }

    /** rc_bittree_reverse */
    method BitTreeReverse(probs: array<Prob>, base: nat, dest: nat, limit: nat) returns (result: nat)
      requires probs.Length == S.PROBS_TOTAL && 0 < limit && base + Pow2(limit) <= S.PROBS_TOTAL
      requires S.ReverseTree(input, Model(probs), base, 1, 0, limit, dest).1.rc.pos <= |input|
      modifies this`range, this`code, this`inPos, probs
      ensures (result, Model(probs)) == S.ReverseTree(input, old(Model(probs)), base, 1, 0, limit, dest)
    {
      hide S.Bit;
      var symbol, i, one := 1, 0, 1;
      result := dest;
      while true
        invariant i < limit && one == Pow2(i) && one <= symbol < 2 * one
        invariant S.ReverseTree(input, Model(probs), base, symbol, i, limit, result)
               == S.ReverseTree(input, old(Model(probs)), base, 1, 0, limit, dest)
        decreases limit - i
      {
        S.Pow2Mono(i + 1, limit);
        var bit := Bit(probs, base + symbol);
        if bit {
          symbol := 2 * symbol + 1;
          result := result + one;
        } else {
          symbol := 2 * symbol;
        }
        i, one := i + 1, 2 * one;
        if i >= limit {
          break;
        }
      }
    }

    /** rc_direct */
    method Direct(dest: nat, limit: nat) returns (result: nat)
      requires 0 < limit
      requires S.Direct(input, Rc(), dest, limit).1.pos <= |input|
      modifies this`range, this`code, this`inPos
      ensures (result, Rc()) == S.Direct(input, old(Rc()), dest, limit)
    {
      var left := limit;
      result := dest;
      while true
        invariant 0 < left <= limit
        invariant S.Direct(input, Rc(), result, left) == S.Direct(input, old(Rc()), dest, limit)
        decreases left
      {
        result := DirectOne(result);
        left := left - 1;
        if left == 0 {
          break;
        }
      }
    }

    // The body of the loop of rc_direct.
    method DirectOne(dest: nat) returns (result: nat)
      requires DirectBit(input, Rc()).1.pos <= |input|
      modifies this`range, this`code, this`inPos
      ensures Rc() == DirectBit(input, old(Rc())).1
      ensures result == 2 * dest + if DirectBit(input, old(Rc())).0 then 1 else 0
    {
      Normalize();
      range := range / 2;
      code := Wrap(code - range);
      if code >= U32 / 2 {
        code := Wrap(code + range);
        result := 2 * dest;
      } else {
        result := 2 * dest + 1;
      }
    }
  }
}
