/** The LZMA format from the side of an encoder: literals, matches and repeated matches as choices of a coder.
    Decoding the choices gives back what was encoded. */
module LzmaEncoder {
  import opened Basics
  import opened RangeCoder
  import opened RangeEncoder
  import opened LzmaCoding
  import S = LzmaSymbol

  // ---------- Numbers as bits ----------

  /** The n lowest bits of a number, the highest of them first. */
  function HighFirst(v: nat, n: nat): (bits: seq<bool>)
    ensures |bits| == n
  {
    if n == 0 then [] else [v / Pow2(n - 1) % 2 == 1] + HighFirst(v, n - 1)
  }

  /** The same bits, the lowest first. */
  function LowFirst(v: nat, n: nat): (bits: seq<bool>)
    ensures |bits| == n
  {
    if n == 0 then [] else [v % 2 == 1] + LowFirst(v / 2, n - 1)
  }

  function BitOf(bit: bool): nat {
    if bit then 1 else 0
  }

  /** The node of a tree that bits lead to. */
  function NodeAfter(node: nat, bits: seq<bool>): nat
    decreases |bits|
  {
    if bits == [] then node else NodeAfter(2 * node + BitOf(bits[0]), bits[1..])
  }

  lemma NoBits(node: nat)
    ensures NodeAfter(node, []) == node
  {
  }

  lemma NodeFirst(node: nat, bits: seq<bool>)
    requires bits != []
    ensures NodeAfter(node, bits) == NodeAfter(2 * node + BitOf(bits[0]), bits[1..])
  {
  }

  /** What bits add up to, the lowest first. */
  function LowValue(bits: seq<bool>): nat {
    if bits == [] then 0 else BitOf(bits[0]) + 2 * LowValue(bits[1..])
  }

  lemma DivSmall(v: nat, p: nat)
    requires v < 2 * p
    ensures v / p == BitOf(v >= p) && v - BitOf(v >= p) * p < p
  {
    if v >= p {
      DivUnique(v, p, 1, v - p);
    } else {
      DivUnique(v, p, 0, v);
    }
  }

  lemma ModTwice(v: nat, p: nat)
    requires p > 0
    ensures v % (2 * p) == (v / p % 2) * p + v % p
  {
    DivNat(v, p);
    var q, r := v / p, v % p;
    var a, b := q / 2, q % 2;
    assert p * q == (2 * p) * a + p * b;
    DivNat(v, 2 * p);
    Times(b, 1, p);
    DivUnique(v, 2 * p, a, p * b + r);
  }

  lemma DivIsNat(v: nat, p: nat)
    requires p > 0
    ensures v / p >= 0
  {
    DivNat(v, p);
  }

  lemma Place(node: nat, bit: nat, p: nat)
    ensures (2 * node + bit) * p == node * (2 * p) + bit * p
  {
  }

  lemma {:induction false} HighNode(node: nat, v: nat, n: nat)
    ensures NodeAfter(node, HighFirst(v, n)) == node * Pow2(n) + v % Pow2(n)
    decreases n
  {
    hide NodeAfter;
    if n == 0 {
      NoBits(node);
    } else {
      var p := Pow2(n - 1);
      DivNat(v, p);
      var bit := v / p % 2;
      HighNode(2 * node + bit, v, n - 1);
      assert HighFirst(v, n)[1..] == HighFirst(v, n - 1);
      ModTwice(v, p);
      Place(node, bit, p);
      NodeFirst(node, HighFirst(v, n));
    }
  }

  lemma {:induction false} LowSum(v: nat, n: nat)
    ensures LowValue(LowFirst(v, n)) == v % Pow2(n)
    decreases n
  {
    if n > 0 {
      LowSum(v / 2, n - 1);
      assert LowFirst(v, n)[1..] == LowFirst(v / 2, n - 1);
      ModHalf(v, Pow2(n - 1));
    }
  }

  lemma ModHalf(v: nat, p: nat)
    requires p > 0
    ensures v % (2 * p) == v % 2 + 2 * (v / 2 % p)
  {
    var h := v / 2;
    DivNat(h, p);
    assert v == 2 * h + v % 2;
    assert 2 * (p * (h / p)) == (2 * p) * (h / p);
    DivNat(v, 2 * p);
    DivUnique(v, 2 * p, h / p, 2 * (h % p) + v % 2);
  }

  // ---------- Trees ----------

  /** The bits that lead down a tree. */
  function TreeChoices(kind: Kind, node: nat, bits: seq<bool>): (cs: seq<Choice>)
    ensures |cs| == |bits|
    decreases |bits|
  {
    if bits == [] then []
    else [Modelled(Context(kind, node), bits[0])] + TreeChoices(kind, 2 * node + BitOf(bits[0]), bits[1..])
  }

  lemma FirstChoice(c: Choice, more: seq<Choice>, rest: seq<Choice>)
    ensures ([c] + more) + rest == [c] + (more + rest)
    ensures ([c] + more)[0] == c && ([c] + more)[1..] == more
  {
  }

  lemma PutFirst(k: Coder, c: Choice, more: seq<Choice>)
    ensures PutAll(k, [c] + more) == PutAll(Put(k, c), more)
  {
    hide Put;
    assert ([c] + more)[1..] == more;
  }

  lemma Pow2Half(j: nat)
    ensures Pow2(j + 1) == 2 * Pow2(j)
  {
  }

  /** A tree, from a node at depth j on. */
  lemma {:induction false} TreeSync(input: seq<Byte>, base: int, m: S.Model, k: Coder, kind: Kind, node: nat, j: nat,
                                    bits: seq<bool>, limit: nat, rest: seq<Choice>)
    requires KindKnown(kind) && 0 <= Base(kind) && Base(kind) + limit <= S.PROBS_TOTAL
    requires Pow2(j) <= node < 2 * Pow2(j) && limit == Pow2(j + |bits|)
    requires Sync(input, base, m, k, TreeChoices(kind, node, bits) + rest)
    ensures 0 < node < 2 * limit
    ensures var r := S.BitTree(input, m, Base(kind), node, limit);
            && r.0 == NodeAfter(node, bits)
            && Sync(input, base, r.1, PutAll(k, TreeChoices(kind, node, bits)), rest)
    decreases |bits|
  {
    hide Sync, Base, KindKnown, S.Bit, Put;
    S.Pow2Mono(j, j + |bits|);
    if bits == [] {
      assert [] + rest == rest;
    } else {
      S.Pow2Mono(j + 1, j + |bits|);
      Pow2Half(j);
      var c := Context(kind, node);
      var next, more := 2 * node + BitOf(bits[0]), TreeChoices(kind, 2 * node + BitOf(bits[0]), bits[1..]);
      FirstChoice(Modelled(c, bits[0]), more, rest);
      BitSync(input, base, m, k, c, bits[0], more + rest);
      var m1 := S.Bit(input, m, Index(c)).1;
      TreeSync(input, base, m1, Put(k, Modelled(c, bits[0])), kind, next, j + 1, bits[1..], limit, rest);
      PutFirst(k, Modelled(c, bits[0]), more);
    }
  }

  // One bit of the tree that adds up from below.
  lemma ReverseTurn(input: seq<Byte>, m: S.Model, base: nat, node: nat, i: nat, limit: nat, dest: nat)
    requires i < limit && Pow2(i) <= node < 2 * Pow2(i) && base + Pow2(limit) <= S.PROBS_TOTAL
    ensures Pow2(i + 1) <= Pow2(limit)
    ensures var b := S.Bit(input, m, base + node);
            S.ReverseTree(input, m, base, node, i, limit, dest) ==
            S.ReverseTree(input, b.1, base, 2 * node + BitOf(b.0), i + 1, limit, dest + BitOf(b.0) * Pow2(i))
  {
    hide S.Bit;
    S.Pow2Mono(i + 1, limit);
  }

  lemma ReverseEnd(input: seq<Byte>, m: S.Model, base: nat, node: nat, limit: nat, dest: nat)
    requires Pow2(limit) <= node < 2 * Pow2(limit) && base + Pow2(limit) <= S.PROBS_TOTAL
    ensures S.ReverseTree(input, m, base, node, limit, limit, dest) == (dest, m)
  {
  }

  /** A tree whose lowest bits come first. */
  lemma {:induction false} ReverseSync(input: seq<Byte>, base: int, m: S.Model, k: Coder, kind: Kind, node: nat, i: nat,
                                       bits: seq<bool>, limit: nat, dest: nat, rest: seq<Choice>)
    requires KindKnown(kind) && 0 <= Base(kind) && Base(kind) + Pow2(limit) <= S.PROBS_TOTAL
    requires Pow2(i) <= node < 2 * Pow2(i) && i + |bits| == limit
    requires Sync(input, base, m, k, TreeChoices(kind, node, bits) + rest)
    ensures var r := S.ReverseTree(input, m, Base(kind), node, i, limit, dest);
            && r.0 == dest + LowValue(bits) * Pow2(i)
            && Sync(input, base, r.1, PutAll(k, TreeChoices(kind, node, bits)), rest)
    decreases |bits|
  {
    hide Sync, Base, KindKnown, S.Bit, Put, S.ReverseTree, Index, Known, Pow2;
    if bits == [] {
      assert [] + rest == rest;
      ReverseEnd(input, m, Base(kind), node, limit, dest);
    } else {
      ReverseTurn(input, m, Base(kind), node, i, limit, dest);
      Pow2Half(i);
      var c := Context(kind, node);
      var bit, v := BitOf(bits[0]), LowValue(bits[1..]);
      var next, more := 2 * node + bit, TreeChoices(kind, 2 * node + bit, bits[1..]);
      FirstChoice(Modelled(c, bits[0]), more, rest);
      BitSync(input, base, m, k, c, bits[0], more + rest);
      var m1 := S.Bit(input, m, Index(c)).1;
      ReverseSync(input, base, m1, Put(k, Modelled(c, bits[0])), kind, next, i + 1, bits[1..], limit,
                  dest + bit * Pow2(i), rest);
      PutFirst(k, Modelled(c, bits[0]), more);
      Place(v, bit, Pow2(i));
    }
  }

  function EvenChoices(bits: seq<bool>): (cs: seq<Choice>)
    ensures |cs| == |bits|
  {
    if bits == [] then [] else [Even(bits[0])] + EvenChoices(bits[1..])
  }

  /** Bits without a model. */
  lemma {:induction false} EvenAllSync(input: seq<Byte>, base: int, m: S.Model, k: Coder, bits: seq<bool>, dest: nat,
                                       rest: seq<Choice>)
    requires Sync(input, base, m, k, EvenChoices(bits) + rest)
    ensures var r := S.Direct(input, m.rc, dest, |bits|);
            && r.0 == NodeAfter(dest, bits)
            && Sync(input, base, m.(rc := r.1), PutAll(k, EvenChoices(bits)), rest)
    decreases |bits|
  {
    hide Sync, DirectBit, Put;
    if bits == [] {
      assert [] + rest == rest;
    } else {
      var more := EvenChoices(bits[1..]);
      FirstChoice(Even(bits[0]), more, rest);
      EvenSync(input, base, m, k, bits[0], more + rest);
      var rc1 := DirectBit(input, m.rc).1;
      EvenAllSync(input, base, m.(rc := rc1), Put(k, Even(bits[0])), bits[1..], 2 * dest + BitOf(bits[0]), rest);
      PutFirst(k, Even(bits[0]), more);
    }
  }

  // ---------- Literals ----------

  /** A literal after a match: as long as its bits are those of the byte at the latest distance, a bit is modelled
      together with the bit expected there. */
  function MatchedChoices(coder: nat, node: nat, bits: seq<bool>, match_: seq<bool>, same: bool): (cs: seq<Choice>)
    requires |bits| == |match_|
    ensures |cs| == |bits|
    decreases |bits|
  {
    if bits == [] then []
    else
      var section := if !same then 0 else if match_[0] then 0x200 else 0x100;
      [Modelled(Context(LiteralOf(coder), section + node), bits[0])] +
      MatchedChoices(coder, 2 * node + BitOf(bits[0]), bits[1..], match_[1..], same && bits[0] == match_[0])
  }

  /** The decoder shifts the byte so that the bit it expects has the value 0x100. */
  predicate Expects(matchByte: nat, match_: seq<bool>)
    decreases |match_|
  {
    match_ != [] ==> match_[0] == (matchByte / 0x100 % 2 == 1) && Expects(2 * matchByte, match_[1..])
  }

  lemma {:induction false} ExpectsByte(v: nat, n: nat)
    requires v < 256 && n <= 8
    ensures Expects(v * Pow2(9 - n), HighFirst(v, n))
    decreases n
  {
    hide Pow2;
    if n > 0 {
      ExpectsByte(v, n - 1);
      assert HighFirst(v, n)[1..] == HighFirst(v, n - 1);
      Pow2Half(9 - n);
      Twice(v, Pow2(9 - n));
      ExpectedBit(v, n);
    }
  }

  lemma Twice(v: nat, p: nat)
    ensures v * (2 * p) == 2 * (v * p)
  {
  }

  lemma ExpectedBit(v: nat, n: nat)
    requires v < 256 && 0 < n <= 8
    ensures v * Pow2(9 - n) / 0x100 % 2 == v / Pow2(n - 1) % 2
  {
    S.Pow2Values();
  }

  // One bit of a matched literal in the decoder.
  lemma MatchedTurn(input: seq<Byte>, m: S.Model, base: nat, node: nat, match_: bool, same: bool, matchByte: nat)
    requires base + S.LITERAL_CODER_SIZE <= S.PROBS_TOTAL && 0 < node < 0x100
    requires same ==> match_ == (matchByte / 0x100 % 2 == 1)
    ensures var section := if !same then 0 else if match_ then 0x200 else 0x100;
            var b := S.Bit(input, m, base + section + node);
            S.MatchedLiteral(input, m, base, node, if same then 0x100 else 0, matchByte) ==
            S.MatchedLiteral(input, b.1, base, 2 * node + BitOf(b.0), if same && b.0 == match_ then 0x100 else 0,
                             2 * matchByte)
  {
    hide S.Bit;
  }

  lemma {:induction false} MatchedSync(input: seq<Byte>, base: int, m: S.Model, k: Coder, coder: nat, node: nat, j: nat,
                                       bits: seq<bool>, match_: seq<bool>, same: bool, matchByte: nat,
                                       rest: seq<Choice>)
    requires coder < 16 && |bits| == |match_| && j + |bits| == 8 && Pow2(j) <= node < 2 * Pow2(j)
    requires same ==> Expects(matchByte, match_)
    requires Sync(input, base, m, k, MatchedChoices(coder, node, bits, match_, same) + rest)
    ensures 0 < node < 0x200
    ensures var r := S.MatchedLiteral(input, m, S.LITERAL + S.LITERAL_CODER_SIZE * coder, node,
                                      if same then 0x100 else 0, matchByte);
            && r.0 == NodeAfter(node, bits)
            && Sync(input, base, r.1, PutAll(k, MatchedChoices(coder, node, bits, match_, same)), rest)
    decreases |bits|
  {
    hide Sync, S.Bit, Put, Known, Pow2, S.MatchedLiteral;
    S.Pow2Values();
    S.Pow2Mono(j, 8);
    Pow2Half(j);
    var table := S.LITERAL + S.LITERAL_CODER_SIZE * coder;
    if bits == [] {
      assert [] + rest == rest;
      MatchedEnd(input, m, table, node, if same then 0x100 else 0, matchByte);
    } else {
      S.Pow2Mono(j + 1, 8);
      var section := if !same then 0 else if match_[0] then 0x200 else 0x100;
      var c := Context(LiteralOf(coder), section + node);
      var next, same1 := 2 * node + BitOf(bits[0]), same && bits[0] == match_[0];
      var more := MatchedChoices(coder, next, bits[1..], match_[1..], same1);
      FirstChoice(Modelled(c, bits[0]), more, rest);
      BitSync(input, base, m, k, c, bits[0], more + rest);
      MatchedTurn(input, m, table, node, match_[0], same, matchByte);
      var m1 := S.Bit(input, m, Index(c)).1;
      MatchedSync(input, base, m1, Put(k, Modelled(c, bits[0])), coder, next, j + 1, bits[1..], match_[1..], same1,
                  2 * matchByte, rest);
      PutFirst(k, Modelled(c, bits[0]), more);
    }
  }

  lemma MatchedEnd(input: seq<Byte>, m: S.Model, base: nat, node: nat, offset: nat, matchByte: nat)
    requires base + S.LITERAL_CODER_SIZE <= S.PROBS_TOTAL && 0x100 <= node < 0x200 && (offset == 0 || offset == 0x100)
    ensures S.MatchedLiteral(input, m, base, node, offset, matchByte) == (node, m)
  {
  }
}
