/** What an LZMA chunk says: literals and matches, the four latest distances as a list, and the text that the operations
    stand for. One operation is decoded from its choices. */
module LzmaOperations {
  import opened Basics
  import opened RangeCoder
  import opened RangeEncoder
  import opened LzmaCoding
  import opened LzmaEncoder
  import S = LzmaSymbol

  /** A distance says how many bytes lie between a byte and its copy. Rep is a match at one of the latest distances,
      ShortRep a single byte at the latest. */
  datatype Operation =
    | Literal(byte: Byte)
    | Match(back: nat, len: nat)
    | ShortRep
    | Rep(k: nat, len: nat)

  /** The kind of the operations before, and the four latest distances, the latest first. */
  datatype Registers = Registers(state: nat, reps: seq<nat>)

  /** Literal context bits, literal position bits, position bits. */
  datatype Properties = Properties(lc: nat, lp: nat, pb: nat)

  const FRESH := Registers(0, [0, 0, 0, 0])
  const AFTER_LITERAL := [0, 0, 0, 0, 1, 2, 3, 4, 5, 6, 4, 5]

  predicate RegistersValid(r: Registers) {
    r.state < 12 && |r.reps| == 4 && forall d <- r.reps :: d < 0x1_0000_0000
  }

  predicate PropertiesFit(p: Properties) {
    p.lc + p.lp <= 4 && p.pb <= 4
  }

  function NextState(state: nat, op: Operation): nat
    requires state < 12
  {
    match op
    case Literal(_) => AFTER_LITERAL[state]
    case Match(_, _) => if state < 7 then 7 else 10
    case Rep(_, _) => if state < 7 then 8 else 11
    case ShortRep => if state < 7 then 9 else 11
  }

  /** A distance that is used comes to the front. */
  function NextReps(reps: seq<nat>, op: Operation): seq<nat>
    requires |reps| == 4 && (op.Rep? ==> op.k < 4)
  {
    match op
    case Match(back, _) => [back] + reps[..3]
    case Rep(k, _) => [reps[k]] + reps[..k] + reps[k + 1..]
    case _ => reps
  }

  function After(r: Registers, op: Operation): Registers
    requires RegistersValid(r) && (op.Rep? ==> op.k < 4)
  {
    Registers(NextState(r.state, op), NextReps(r.reps, op))
  }

  // ---------- Lengths ----------

  function LengthChoices(rep: bool, len: nat, pos: nat): seq<Choice>
    requires len >= 2
  {
    var choice, choice2 := Context(LenChoice(rep), 0), Context(LenChoice2(rep), 0);
    if len < 10 then
      [Modelled(choice, false)] + TreeChoices(LenLow(rep, pos), 1, HighFirst(len - 2, 3))
    else if len < 18 then
      [Modelled(choice, true), Modelled(choice2, false)] + TreeChoices(LenMid(rep, pos), 1, HighFirst(len - 10, 3))
    else
      [Modelled(choice, true), Modelled(choice2, true)] + TreeChoices(LenHigh(rep), 1, HighFirst(len - 18, 8))
  }

  /** A whole tree. */
  lemma WholeTree(input: seq<Byte>, base: int, m: S.Model, k: Coder, kind: Kind, v: nat, n: nat, rest: seq<Choice>)
    requires KindKnown(kind) && 0 <= Base(kind) && Base(kind) + Pow2(n) <= S.PROBS_TOTAL && v < Pow2(n) && n > 0
    requires Sync(input, base, m, k, TreeChoices(kind, 1, HighFirst(v, n)) + rest)
    ensures var r := S.BitTree(input, m, Base(kind), 1, Pow2(n));
            && r.0 == Pow2(n) + v
            && Sync(input, base, r.1, PutAll(k, TreeChoices(kind, 1, HighFirst(v, n))), rest)
  {
    hide Sync, Base, KindKnown, S.BitTree, TreeChoices, HighFirst;
    assert Pow2(0) == 1;
    TreeSync(input, base, m, k, kind, 1, 0, HighFirst(v, n), Pow2(n), rest);
    HighNode(1, v, n);
    SmallMod(v, Pow2(n));
  }

  lemma SmallMod(v: nat, p: nat)
    requires v < p
    ensures v % p == v
  {
    DivUnique(v, p, 0, v);
  }

  lemma Both(a: seq<Choice>, b: seq<Choice>, c: seq<Choice>)
    ensures (a + b) + c == a + (b + c)
  {
  }

  // One modelled bit in front of others.
  lemma Front(input: seq<Byte>, base: int, m: S.Model, k: Coder, c: Context, bit: bool, more: seq<Choice>,
              rest: seq<Choice>)
    requires Sync(input, base, m, k, ([Modelled(c, bit)] + more) + rest)
    ensures Known(c)
    ensures var r := S.Bit(input, m, Index(c));
            r.0 == bit && Sync(input, base, r.1, Put(k, Modelled(c, bit)), more + rest)
    ensures PutAll(k, [Modelled(c, bit)] + more) == PutAll(Put(k, Modelled(c, bit)), more)
  {
    hide Sync, Index, Known, S.Bit, Put;
    FirstChoice(Modelled(c, bit), more, rest);
    BitSync(input, base, m, k, c, bit, more + rest);
    PutFirst(k, Modelled(c, bit), more);
  }

  lemma TwoFront(c: Choice, d: Choice, more: seq<Choice>)
    ensures [c, d] + more == [c] + ([d] + more)
  {
  }

  lemma LengthSync(input: seq<Byte>, base: int, m: S.Model, k: Coder, rep: bool, len: nat, pos: nat, rest: seq<Choice>)
    requires 2 <= len <= 273 && pos < 16
    requires Sync(input, base, m, k, LengthChoices(rep, len, pos) + rest)
    ensures var r := S.Length(input, m, LengthBase(rep), pos);
            r.0 == len && Sync(input, base, r.1, PutAll(k, LengthChoices(rep, len, pos)), rest)
  {
    hide Sync, S.Bit, S.BitTree, TreeChoices, HighFirst, Put, PutAll, Pow2;
    S.Pow2Values();
    var choice, choice2 := Context(LenChoice(rep), 0), Context(LenChoice2(rep), 0);
    var k1 := Put(k, Modelled(choice, len >= 10));
    if len < 10 {
      var tree := TreeChoices(LenLow(rep, pos), 1, HighFirst(len - 2, 3));
      Front(input, base, m, k, choice, false, tree, rest);
      var m1 := S.Bit(input, m, Index(choice)).1;
      WholeTree(input, base, m1, k1, LenLow(rep, pos), len - 2, 3, rest);
    } else {
      var second := Modelled(choice2, len >= 18);
      var tree := if len < 18 then TreeChoices(LenMid(rep, pos), 1, HighFirst(len - 10, 3))
                  else TreeChoices(LenHigh(rep), 1, HighFirst(len - 18, 8));
      TwoFront(Modelled(choice, true), second, tree);
      Front(input, base, m, k, choice, true, [second] + tree, rest);
      var m1 := S.Bit(input, m, Index(choice)).1;
      Front(input, base, m1, k1, choice2, len >= 18, tree, rest);
      var m2 := S.Bit(input, m1, Index(choice2)).1;
      if len < 18 {
        WholeTree(input, base, m2, Put(k1, second), LenMid(rep, pos), len - 10, 3, rest);
      } else {
        WholeTree(input, base, m2, Put(k1, second), LenHigh(rep), len - 18, 8, rest);
      }
    }
  }

  // ---------- Distances ----------

  function Log2(v: nat): (n: nat)
    requires v > 0
    ensures Pow2(n) <= v < Pow2(n + 1)
  {
    if v == 1 then 0 else Log2(v / 2) + 1
  }

  /** Distances below 4 have a slot each; others share one with those of the same highest two bits. */
  function Slot(back: nat): nat {
    if back < 4 then back
    else
      var n := Log2(back);
      DivNat(back, Pow2(n - 1));
      2 * n + back / Pow2(n - 1) % 2
  }

  /** Which of the four trees for the slot. */
  function LengthState(len: nat): nat {
    if len < 2 then 0 else if len < 5 then len - 2 else 3
  }

  /** The slot, and the bits below the highest two: modelled for short distances, all but the lowest four of them
      even for long ones. */
  function DistanceChoices(back: nat, len: nat): seq<Choice> {
    var slot := Slot(back);
    TreeChoices(DistSlot(LengthState(len)), 1, HighFirst(slot, 6)) + FooterChoices(back, slot)
  }

  function FooterChoices(back: nat, slot: nat): seq<Choice> {
    if slot < 4 then []
    else if slot < 14 then TreeChoices(DistSpecial(slot), 1, LowFirst(back, FooterBits(slot)))
    else EvenChoices(HighFirst(back / 16, FooterBits(slot) - 4)) + TreeChoices(DistAlign, 1, LowFirst(back, 4))
  }

  /** A distance is made of its slot and the bits below. */
  lemma SlotFacts(back: nat)
    requires 4 <= back < 0x1_0000_0000
    ensures var slot := Slot(back);
            && 4 <= slot < 64
            && back == (2 + slot % 2) * Pow2(FooterBits(slot)) + back % Pow2(FooterBits(slot))
  {
    hide Pow2, Log2;
    var n := Log2(back);
    LogBound(back);
    Pow2Half(n - 1);
    Pow2Half(n);
    SlotQuotient(back, Pow2(n - 1));
    SlotParts(n, back / Pow2(n - 1));
  }

  lemma SlotQuotient(v: nat, p: nat)
    requires p > 0 && 2 * p <= v < 4 * p
    ensures 2 <= v / p < 4 && v == v / p * p + v % p
  {
    DivNat(v, p);
    DivBetween(v, p, 2, 4);
  }

  lemma SlotParts(n: nat, q: nat)
    requires 2 <= n < 32 && 2 <= q < 4
    ensures var slot := 2 * n + q % 2;
            4 <= slot < 64 && FooterBits(slot) == n - 1 && 2 + slot % 2 == q
  {
  }

  lemma LogBound(v: nat)
    requires 4 <= v < 0x1_0000_0000
    ensures 2 <= Log2(v) < 32
  {
    var n := Log2(v);
    Powers32();
    if n < 2 {
      S.Pow2Mono(n + 1, 2);
      assert false;
    }
    if n >= 32 {
      S.Pow2Mono(32, n);
      assert false;
    }
  }

  lemma Powers32()
    ensures Pow2(2) == 4 && Pow2(32) == 0x1_0000_0000
  {
    S.Pow2Values();
    assert Pow2(16) == 65536;
    assert Pow2(24) == 0x100_0000;
  }

  lemma WholeReverse(input: seq<Byte>, base: int, m: S.Model, k: Coder, kind: Kind, v: nat, n: nat, dest: nat,
                     rest: seq<Choice>)
    requires KindKnown(kind) && 0 <= Base(kind) && Base(kind) + Pow2(n) <= S.PROBS_TOTAL
    requires Sync(input, base, m, k, TreeChoices(kind, 1, LowFirst(v, n)) + rest)
    ensures Pow2(0) == 1
    ensures var r := S.ReverseTree(input, m, Base(kind), 1, 0, n, dest);
            && r.0 == dest + v % Pow2(n)
            && Sync(input, base, r.1, PutAll(k, TreeChoices(kind, 1, LowFirst(v, n))), rest)
  {
    hide Sync, Base, KindKnown, S.ReverseTree, TreeChoices, LowFirst;
    assert Pow2(0) == 1;
    ReverseSync(input, base, m, k, kind, 1, 0, LowFirst(v, n), n, dest, rest);
    LowSum(v, n);
  }

  lemma SpecialSync(input: seq<Byte>, base: int, m: S.Model, k: Coder, back: nat, rest: seq<Choice>)
    requires 4 <= back < 0x1_0000_0000 && 4 <= Slot(back) < 14
    requires Sync(input, base, m, k, FooterChoices(back, Slot(back)) + rest)
    ensures var r := S.SpecialDistance(input, m, Slot(back));
            r.0 == back && Sync(input, base, r.1, PutAll(k, FooterChoices(back, Slot(back))), rest)
  {
    hide Sync, S.ReverseTree, TreeChoices, LowFirst, PutAll, Pow2, Slot;
    var slot := Slot(back);
    SlotFacts(back);
    S.SpecialFits(slot);
    var n := FooterBits(slot);
    WholeReverse(input, base, m, k, DistSpecial(slot), back, n, (2 + slot % 2) * Pow2(n), rest);
  }

  // The bits of a long distance put together.
  lemma LongParts(back: nat, high: nat, n: nat)
    requires n >= 4 && back == high * Pow2(n) + back % Pow2(n)
    ensures back == (high * Pow2(n - 4) + back / 16 % Pow2(n - 4)) * 16 + back % 16
  {
    var p := Pow2(n - 4);
    assert Pow2(n) == 16 * p by {
      assert Pow2(n - 1) == 2 * Pow2(n - 2) && Pow2(n - 2) == 2 * Pow2(n - 3) && Pow2(n - 3) == 2 * p;
    }
    assert high * (16 * p) == 16 * (high * p);
    var r := back % Pow2(n);
    DivNat(back, Pow2(n));
    assert back / 16 == high * p + r / 16 && back % 16 == r % 16;
    DivNat(r / 16, p);
    assert r / 16 < p;
    DivUnique(back / 16, p, high, r / 16);
    DivNat(back / 16, p);
    assert p * high == high * p;
  }

  lemma AlignedSync(input: seq<Byte>, base: int, m: S.Model, k: Coder, back: nat, rest: seq<Choice>)
    requires 4 <= back < 0x1_0000_0000 && 14 <= Slot(back) < 64
    requires Sync(input, base, m, k, FooterChoices(back, Slot(back)) + rest)
    ensures var r := S.AlignedDistance(input, m, Slot(back));
            r.0 == back && Sync(input, base, r.1, PutAll(k, FooterChoices(back, Slot(back))), rest)
  {
    hide Sync, S.ReverseTree, S.Direct, TreeChoices, LowFirst, HighFirst, EvenChoices, PutAll, Pow2, Slot;
    var slot := Slot(back);
    SlotFacts(back);
    var n, high := FooterBits(slot), 2 + slot % 2;
    var even, low := EvenChoices(HighFirst(back / 16, n - 4)), TreeChoices(DistAlign, 1, LowFirst(back, 4));
    Both(even, low, rest);
    EvenAllSync(input, base, m, k, HighFirst(back / 16, n - 4), high, low + rest);
    HighNode(high, back / 16, n - 4);
    LongParts(back, high, n);
    var (dist, rc1) := S.Direct(input, m.rc, high, n - 4);
    S.DirectFits(input, m.rc, high, n);
    S.Pow2Values();
    WholeReverse(input, base, m.(rc := rc1), PutAll(k, even), DistAlign, back, 4, dist * 16, rest);
    PutAllJoin(k, even, low);
  }

  lemma DistanceSync(input: seq<Byte>, base: int, m: S.Model, k: Coder, back: nat, len: nat, rest: seq<Choice>)
    requires back < 0x1_0000_0000 && 2 <= len
    requires Sync(input, base, m, k, DistanceChoices(back, len) + rest)
    ensures var r := S.Distance(input, m, len);
            r.0 == back && Sync(input, base, r.1, PutAll(k, DistanceChoices(back, len)), rest)
  {
    hide Sync, S.BitTree, S.SpecialDistance, S.AlignedDistance, TreeChoices, FooterChoices, HighFirst, PutAll, Pow2;
    hide Slot;
    var slot, state := Slot(back), LengthState(len);
    SlotRange(back);
    S.Pow2Values();
    var tree, footer := TreeChoices(DistSlot(state), 1, HighFirst(slot, 6)), FooterChoices(back, slot);
    Both(tree, footer, rest);
    WholeTree(input, base, m, k, DistSlot(state), slot, 6, footer + rest);
    PutAllJoin(k, tree, footer);
    var (symbol, m1) := S.BitTree(input, m, S.DIST_SLOT + 64 * S.DistState(len), 1, 64);
    if slot < 4 {
      NoFooter(back, slot, PutAll(k, tree), rest);
    } else if slot < 14 {
      SpecialSync(input, base, m1, PutAll(k, tree), back, rest);
    } else {
      AlignedSync(input, base, m1, PutAll(k, tree), back, rest);
    }
  }

  lemma SlotRange(back: nat)
    requires back < 0x1_0000_0000
    ensures Slot(back) < 64 && (Slot(back) < 4 <==> back < 4) && (back < 4 ==> Slot(back) == back)
  {
    if back >= 4 {
      SlotFacts(back);
    }
  }

  lemma NoFooter(back: nat, slot: nat, k: Coder, rest: seq<Choice>)
    requires slot < 4
    ensures FooterChoices(back, slot) + rest == rest && PutAll(k, FooterChoices(back, slot)) == k
  {
    assert [] + rest == rest;
  }

  // ---------- Operations ----------

  /** The byte that lies so far back. */
  function ByteBack(history: seq<Byte>, back: nat): Byte {
    if back < |history| then history[|history| - 1 - back] else 0
  }

  /** Which of the literal coders: the lowest lp bits of the position above the highest lc bits of the byte before. */
  function CoderOf(p: Properties, history: seq<Byte>): nat
    requires PropertiesFit(p)
  {
    DivNat(ByteBack(history, 0), Pow2(8 - p.lc));
    |history| % Pow2(p.lp) * Pow2(p.lc) + ByteBack(history, 0) / Pow2(8 - p.lc)
  }

  function LiteralChoices(byte: Byte, r: Registers, p: Properties, history: seq<Byte>): seq<Choice>
    requires RegistersValid(r) && PropertiesFit(p)
  {
    if r.state < 7 then TreeChoices(LiteralOf(CoderOf(p, history)), 1, HighFirst(byte, 8))
    else MatchedChoices(CoderOf(p, history), 1, HighFirst(byte, 8), HighFirst(ByteBack(history, r.reps[0]), 8), true)
  }

  function OneBit(kind: Kind, bit: bool): seq<Choice> {
    [Modelled(Context(kind, 0), bit)]
  }

  /** Which of the four distances: 0, 10, 110 and 111; after a 0 one more bit says that it is not a single byte. */
  function RepChoices(k: nat, state: nat, pos: nat): seq<Choice> {
    if k == 0 then OneBit(IsRep0(state), false) + OneBit(IsRep0Long(state, pos), true)
    else if k == 1 then OneBit(IsRep0(state), true) + OneBit(IsRep1(state), false)
    else if k == 2 then OneBit(IsRep0(state), true) + (OneBit(IsRep1(state), true) + OneBit(IsRep2(state), false))
    else OneBit(IsRep0(state), true) + (OneBit(IsRep1(state), true) + OneBit(IsRep2(state), true))
  }

  function Choices(op: Operation, r: Registers, p: Properties, history: seq<Byte>): seq<Choice>
    requires RegistersValid(r) && PropertiesFit(p)
    requires op.Match? || op.Rep? ==> op.len >= 2
  {
    var pos := |history| % Pow2(p.pb);
    var isMatch := IsMatch(r.state, pos);
    match op
    case Literal(byte) => OneBit(isMatch, false) + LiteralChoices(byte, r, p, history)
    case Match(back, len) =>
      OneBit(isMatch, true) +
      (OneBit(IsRep(r.state), false) + (LengthChoices(false, len, pos) + DistanceChoices(back, len)))
    case ShortRep =>
      OneBit(isMatch, true) +
      (OneBit(IsRep(r.state), true) + (OneBit(IsRep0(r.state), false) + OneBit(IsRep0Long(r.state, pos), false)))
    case Rep(k, len) =>
      OneBit(isMatch, true) +
      (OneBit(IsRep(r.state), true) + (RepChoices(k, r.state, pos) + LengthChoices(true, len, pos)))
  }

  // ---------- The decoder's registers ----------

  /** The registers of the decoder are these, with these properties. */
  predicate Holding(z: S.Lzma, r: Registers, p: Properties) {
    && RegistersValid(r) && PropertiesFit(p)
    && z.state == r.state && r.reps == [z.rep0, z.rep1, z.rep2, z.rep3]
    && z.lc == p.lc && z.literalPosMask == Pow2(p.lp) - 1 && z.posMask == Pow2(p.pb) - 1
  }

  lemma HoldingValid(z: S.Lzma, r: Registers, p: Properties)
    requires Holding(z, r, p)
    ensures S.PropsValid(z)
  {
    S.Pow2Values();
  }

  lemma PositionBits(z: S.Lzma, r: Registers, p: Properties, history: seq<Byte>)
    requires Holding(z, r, p)
    ensures S.PropsValid(z)
    ensures S.PosState(z, history) == |history| % Pow2(p.pb) < 16
    ensures S.LiteralCoder(z, history) == CoderOf(p, history) < 16
  {
    HoldingValid(z, r, p);
    S.Pow2Values();
    MaskIsMod(|history|, p.pb);
    MaskIsMod(|history|, p.lp);
  }

  lemma MaskIsMod(pos: nat, n: nat)
    requires n <= 4
    ensures S.IsMask(Pow2(n) - 1) && S.And(pos, Pow2(n) - 1) == pos % Pow2(n)
  {
    S.Pow2Values();
  }

  lemma StateTable(state: nat, byte: Byte)
    requires state < 12
    ensures NextState(state, Literal(byte)) == S.AfterLiteral(state)
  {
  }

  lemma LiteralSync(input: seq<Byte>, base: int, m: S.Model, k: Coder, z: S.Lzma, r: Registers, p: Properties,
                    history: seq<Byte>, byte: Byte, rest: seq<Choice>)
    requires Holding(z, r, p) && Sync(input, base, m, k, LiteralChoices(byte, r, p, history) + rest)
    ensures S.PropsValid(z)
    ensures var l := S.Literal(input, m, z, history);
            l.0 == byte && Sync(input, base, l.1, PutAll(k, LiteralChoices(byte, r, p, history)), rest)
  {
    hide Sync, S.BitTree, S.MatchedLiteral, TreeChoices, MatchedChoices, HighFirst, PutAll, Pow2, CoderOf;
    hide S.LiteralCoder;
    PositionBits(z, r, p, history);
    S.Pow2Values();
    var coder := CoderOf(p, history);
    if r.state < 7 {
      WholeTree(input, base, m, k, LiteralOf(coder), byte, 8, rest);
    } else {
      var matchByte: nat := ByteBack(history, r.reps[0]);
      ExpectsByte(matchByte, 8);
      MatchedSync(input, base, m, k, coder, 1, 0, HighFirst(byte, 8), HighFirst(matchByte, 8), true, 2 * matchByte,
                  rest);
      HighNode(1, byte, 8);
      SmallMod(byte, 256);
    }
  }

  // ---------- Matches ----------

  predicate OperationFits(op: Operation) {
    match op
    case Match(back, len) => back < 0x1_0000_0000 && 2 <= len <= 273
    case Rep(k, len) => k < 4 && 2 <= len <= 273
    case _ => true
  }

  /** How many bytes an operation stands for. */
  function Length(op: Operation): nat {
    match op
    case Literal(_) => 1
    case ShortRep => 1
    case Match(_, len) => len
    case Rep(_, len) => len
  }

  // One bit with a probability of its own.
  lemma FlagSync(input: seq<Byte>, base: int, m: S.Model, k: Coder, kind: Kind, bit: bool, more: seq<Choice>,
                 rest: seq<Choice>)
    requires KindKnown(kind) && Nodes(kind) == 0 && Base(kind) >= 0
    requires Sync(input, base, m, k, (OneBit(kind, bit) + more) + rest)
    ensures Base(kind) < S.PROBS_TOTAL
    ensures var b := S.Bit(input, m, Base(kind));
            b.0 == bit && Sync(input, base, b.1, PutAll(k, OneBit(kind, bit)), more + rest)
    ensures PutAll(k, OneBit(kind, bit) + more) == PutAll(PutAll(k, OneBit(kind, bit)), more)
  {
    hide Sync, S.Bit, Put, KindKnown, Nodes, Base;
    var c := Context(kind, 0);
    Front(input, base, m, k, c, bit, more, rest);
    PutOne(k, Modelled(c, bit));
    assert Index(c) == Base(kind);
  }

  lemma PutOne(k: Coder, c: Choice)
    ensures PutAll(k, [c]) == Put(k, c)
  {
    hide Put;
    assert [c][1..] == [];
  }

  lemma MatchSync(input: seq<Byte>, base: int, m: S.Model, k: Coder, z: S.Lzma, r: Registers, p: Properties, pos: nat,
                  back: nat, len: nat, rest: seq<Choice>)
    requires Holding(z, r, p) && pos < 16 && OperationFits(Match(back, len))
    requires Sync(input, base, m, k, (LengthChoices(false, len, pos) + DistanceChoices(back, len)) + rest)
    ensures var d := S.Match(input, m, z, pos);
            && Holding(d.0, After(r, Match(back, len)), p) && d.0.len == len
            && Sync(input, base, d.1, PutAll(k, LengthChoices(false, len, pos) + DistanceChoices(back, len)), rest)
  {
    hide Sync, S.Length, S.Distance, LengthChoices, DistanceChoices, PutAll, Pow2;
    var a, b := LengthChoices(false, len, pos), DistanceChoices(back, len);
    Both(a, b, rest);
    LengthSync(input, base, m, k, false, len, pos, b + rest);
    var m1 := S.Length(input, m, S.MATCH_LEN, pos).1;
    DistanceSync(input, base, m1, PutAll(k, a), back, len, rest);
    PutAllJoin(k, a, b);
    NewFront(z, r, back);
  }

  lemma NewFront(z: S.Lzma, r: Registers, back: nat)
    requires |r.reps| == 4 && r.reps == [z.rep0, z.rep1, z.rep2, z.rep3]
    ensures [back] + r.reps[..3] == [back, z.rep0, z.rep1, z.rep2]
  {
  }

  lemma OldFront(z: S.Lzma, r: Registers, k: nat)
    requires |r.reps| == 4 && r.reps == [z.rep0, z.rep1, z.rep2, z.rep3] && k < 4
    ensures [r.reps[k]] + r.reps[..k] + r.reps[k + 1..] ==
            if k == 0 then [z.rep0, z.rep1, z.rep2, z.rep3]
            else if k == 1 then [z.rep1, z.rep0, z.rep2, z.rep3]
            else if k == 2 then [z.rep2, z.rep0, z.rep1, z.rep3]
            else [z.rep3, z.rep0, z.rep1, z.rep2]
  {
  }

  lemma ShortRepSync(input: seq<Byte>, base: int, m: S.Model, k: Coder, z: S.Lzma, r: Registers, p: Properties,
                     pos: nat,
                     rest: seq<Choice>)
    requires Holding(z, r, p) && pos < 16
    requires Sync(input, base, m, k, (OneBit(IsRep0(r.state), false) + OneBit(IsRep0Long(r.state, pos), false)) + rest)
    ensures var d := S.RepMatch(input, m, z, pos);
            && Holding(d.0, After(r, ShortRep), p) && d.0.len == 1
            && Sync(input, base, d.1,
                    PutAll(k, OneBit(IsRep0(r.state), false) + OneBit(IsRep0Long(r.state, pos), false)), rest)
  {
    hide Sync, S.Bit, S.Length, PutAll, Pow2, OneBit;
    var a, b := OneBit(IsRep0(r.state), false), OneBit(IsRep0Long(r.state, pos), false);
    FlagSync(input, base, m, k, IsRep0(r.state), false, b, rest);
    var m1 := S.Bit(input, m, S.IS_REP0 + r.state).1;
    Last(b, rest);
    FlagSync(input, base, m1, PutAll(k, a), IsRep0Long(r.state, pos), false, [], rest);
    Nothing(b, rest);
  }

  lemma Last(b: seq<Choice>, rest: seq<Choice>)
    ensures (b + []) + rest == b + rest
  {
    assert b + [] == b;
  }

  lemma Nothing(b: seq<Choice>, rest: seq<Choice>)
    ensures [] + rest == rest && b + [] == b
  {
  }

  // The selector bits of the four distances, and the length.
  lemma RepSync(input: seq<Byte>, base: int, m: S.Model, k: Coder, z: S.Lzma, r: Registers, p: Properties, pos: nat,
                which: nat, len: nat, rest: seq<Choice>)
    requires Holding(z, r, p) && pos < 16 && OperationFits(Rep(which, len))
    requires Sync(input, base, m, k, (RepChoices(which, r.state, pos) + LengthChoices(true, len, pos)) + rest)
    ensures var d := S.RepMatch(input, m, z, pos);
            && Holding(d.0, After(r, Rep(which, len)), p) && d.0.len == len
            && Sync(input, base, d.1, PutAll(k, RepChoices(which, r.state, pos) + LengthChoices(true, len, pos)), rest)
  {
    hide Sync, S.Bit, S.Length, LengthChoices, PutAll, Pow2, OneBit, Base, KindKnown, Nodes;
    var tail := LengthChoices(true, len, pos);
    OldFront(z, r, which);
    if which == 0 {
      FirstRep(input, base, m, k, r.state, pos, len, rest);
    } else {
      LaterRep(input, base, m, k, r.state, pos, which, len, rest);
    }
  }

  lemma FirstRep(input: seq<Byte>, base: int, m: S.Model, k: Coder, state: nat, pos: nat, len: nat, rest: seq<Choice>)
    requires state < 12 && pos < 16 && 2 <= len <= 273
    requires Sync(input, base, m, k, (RepChoices(0, state, pos) + LengthChoices(true, len, pos)) + rest)
    ensures var b0 := S.Bit(input, m, S.IS_REP0 + state);
            var b1 := S.Bit(input, b0.1, S.IS_REP0_LONG + 16 * state + pos);
            var l := S.Length(input, b1.1, S.REP_LEN, pos);
            && !b0.0 && b1.0 && l.0 == len
            && Sync(input, base, l.1, PutAll(k, RepChoices(0, state, pos) + LengthChoices(true, len, pos)), rest)
  {
    hide Sync, S.Bit, S.Length, LengthChoices, PutAll, Pow2, OneBit;
    var a, b, tail := OneBit(IsRep0(state), false), OneBit(IsRep0Long(state, pos), true), LengthChoices(true, len, pos);
    Both(a, b, tail);
    FlagSync(input, base, m, k, IsRep0(state), false, b + tail, rest);
    var m1 := S.Bit(input, m, S.IS_REP0 + state).1;
    FlagSync(input, base, m1, PutAll(k, a), IsRep0Long(state, pos), true, tail, rest);
    var m2 := S.Bit(input, m1, S.IS_REP0_LONG + 16 * state + pos).1;
    LengthSync(input, base, m2, PutAll(PutAll(k, a), b), true, len, pos, rest);
  }

  lemma LaterRep(input: seq<Byte>, base: int, m: S.Model, k: Coder, state: nat, pos: nat, which: nat, len: nat,
                 rest: seq<Choice>)
    requires state < 12 && pos < 16 && 0 < which < 4 && 2 <= len <= 273
    requires Sync(input, base, m, k, (RepChoices(which, state, pos) + LengthChoices(true, len, pos)) + rest)
    ensures var b0 := S.Bit(input, m, S.IS_REP0 + state);
            var b1 := S.Bit(input, b0.1, S.IS_REP1 + state);
            var b2 := S.Bit(input, b1.1, S.IS_REP2 + state);
            var m3 := if which == 1 then b1.1 else b2.1;
            var l := S.Length(input, m3, S.REP_LEN, pos);
            && b0.0 && (b1.0 <==> which > 1) && (which > 1 ==> (b2.0 <==> which == 3)) && l.0 == len
            && Sync(input, base, l.1, PutAll(k, RepChoices(which, state, pos) + LengthChoices(true, len, pos)), rest)
  {
    hide Sync, S.Bit, S.Length, LengthChoices, PutAll, Pow2, OneBit;
    var tail := LengthChoices(true, len, pos);
    var a, b, c := OneBit(IsRep0(state), true), OneBit(IsRep1(state), which > 1), OneBit(IsRep2(state), which == 3);
    var more := if which == 1 then b else b + c;
    Both(a, more, tail);
    FlagSync(input, base, m, k, IsRep0(state), true, more + tail, rest);
    var m1, k1 := S.Bit(input, m, S.IS_REP0 + state).1, PutAll(k, a);
    if which == 1 {
      FlagSync(input, base, m1, k1, IsRep1(state), false, tail, rest);
      var m2 := S.Bit(input, m1, S.IS_REP1 + state).1;
      LengthSync(input, base, m2, PutAll(k1, b), true, len, pos, rest);
    } else {
      Both(b, c, tail);
      FlagSync(input, base, m1, k1, IsRep1(state), true, c + tail, rest);
      var m2 := S.Bit(input, m1, S.IS_REP1 + state).1;
      FlagSync(input, base, m2, PutAll(k1, b), IsRep2(state), which == 3, tail, rest);
      var m3 := S.Bit(input, m2, S.IS_REP2 + state).1;
      LengthSync(input, base, m3, PutAll(PutAll(k1, b), c), true, len, pos, rest);
    }
  }

  /** An operation is decoded from its choices, with the registers that follow it. */
  lemma SymbolSync(input: seq<Byte>, base: int, m: S.Model, k: Coder, z: S.Lzma, r: Registers, p: Properties,
                   history: seq<Byte>, op: Operation, rest: seq<Choice>)
    requires Holding(z, r, p) && OperationFits(op)
    requires Sync(input, base, m, k, Choices(op, r, p, history) + rest)
    ensures S.PropsValid(z)
    ensures var d := S.DecodeSymbol(input, m, z, history);
            && Holding(d.z, After(r, op), p)
            && d.symbol == (if op.Literal? then S.Lit(op.byte) else S.Copy)
            && d.z.len == (if op.Literal? then z.len else Length(op))
            && Sync(input, base, d.m, PutAll(k, Choices(op, r, p, history)), rest)
  {
    hide Sync, S.Bit, S.Literal, S.Match, S.RepMatch, LengthChoices, DistanceChoices, LiteralChoices, RepChoices;
    hide PutAll;
    hide Pow2, OneBit, CoderOf, S.PosState, Base;
    PositionBits(z, r, p, history);
    var pos := |history| % Pow2(p.pb);
    var first, second := OneBit(IsMatch(r.state, pos), !op.Literal?), OneBit(IsRep(r.state), !op.Match?);
    var k1, m1 := PutAll(k, first), S.Bit(input, m, S.IS_MATCH + 16 * r.state + pos).1;
    MatchFlags(r.state, pos);
    if op.Literal? {
      FlagSync(input, base, m, k, IsMatch(r.state, pos), false, LiteralChoices(op.byte, r, p, history), rest);
      LiteralSync(input, base, m1, k1, z, r, p, history, op.byte, rest);
      StateTable(r.state, op.byte);
    } else {
      var more := if op.Match? then LengthChoices(false, op.len, pos) + DistanceChoices(op.back, op.len)
                  else if op.ShortRep? then OneBit(IsRep0(r.state), false) + OneBit(IsRep0Long(r.state, pos), false)
                  else RepChoices(op.k, r.state, pos) + LengthChoices(true, op.len, pos);
      FlagSync(input, base, m, k, IsMatch(r.state, pos), true, second + more, rest);
      FlagSync(input, base, m1, k1, IsRep(r.state), !op.Match?, more, rest);
      var m2, k2 := S.Bit(input, m1, S.IS_REP + r.state).1, PutAll(k1, second);
      if op.Match? {
        MatchSync(input, base, m2, k2, z, r, p, pos, op.back, op.len, rest);
      } else if op.ShortRep? {
        ShortRepSync(input, base, m2, k2, z, r, p, pos, rest);
      } else {
        RepSync(input, base, m2, k2, z, r, p, pos, op.k, op.len, rest);
      }
    }
  }

  lemma MatchFlags(state: nat, pos: nat)
    requires state < 12 && pos < 16
    ensures Base(IsMatch(state, pos)) == S.IS_MATCH + 16 * state + pos && Base(IsRep(state)) == S.IS_REP + state
  {
  }

  // ---------- Every choice has its place ----------

  lemma OneKnown(c: Context, bit: bool, more: seq<Choice>)
    requires Known(c) && AllKnown(more)
    ensures AllKnown([Modelled(c, bit)] + more)
  {
    hide Known;
  }

  lemma {:induction false} TreeKnown(kind: Kind, node: nat, j: nat, bits: seq<bool>)
    requires KindKnown(kind) && Pow2(j + |bits|) <= Nodes(kind) && Pow2(j) <= node < 2 * Pow2(j)
    ensures AllKnown(TreeChoices(kind, node, bits))
    decreases |bits|
  {
    hide KindKnown, Nodes;
    if bits != [] {
      S.Pow2Mono(j + 1, j + |bits|);
      Pow2Half(j);
      TreeKnown(kind, 2 * node + BitOf(bits[0]), j + 1, bits[1..]);
      OneKnown(Context(kind, node), bits[0], TreeChoices(kind, 2 * node + BitOf(bits[0]), bits[1..]));
    }
  }

  lemma {:induction false} EvenKnown(bits: seq<bool>)
    ensures AllKnown(EvenChoices(bits))
  {
    hide Known;
    if bits != [] {
      EvenKnown(bits[1..]);
    }
  }

  lemma {:induction false} MatchedKnown(coder: nat, node: nat, j: nat, bits: seq<bool>, match_: seq<bool>, same: bool)
    requires coder < 16 && |bits| == |match_| && j + |bits| == 8 && Pow2(j) <= node < 2 * Pow2(j)
    ensures AllKnown(MatchedChoices(coder, node, bits, match_, same))
    decreases |bits|
  {
    if bits != [] {
      S.Pow2Values();
      S.Pow2Mono(j + 1, 8);
      Pow2Half(j);
      var section := if !same then 0 else if match_[0] then 0x200 else 0x100;
      var next, same1 := 2 * node + BitOf(bits[0]), same && bits[0] == match_[0];
      MatchedKnown(coder, next, j + 1, bits[1..], match_[1..], same1);
      OneKnown(Context(LiteralOf(coder), section + node), bits[0],
               MatchedChoices(coder, next, bits[1..], match_[1..], same1));
    }
  }

  lemma LengthKnown(rep: bool, len: nat, pos: nat)
    requires len >= 2 && pos < 16
    ensures AllKnown(LengthChoices(rep, len, pos))
  {
    hide Pow2, TreeChoices, AllKnown, HighFirst;
    S.Pow2Values();
    var choice, choice2 := Context(LenChoice(rep), 0), Context(LenChoice2(rep), 0);
    if len < 10 {
      TreeKnown(LenLow(rep, pos), 1, 0, HighFirst(len - 2, 3));
      OneKnown(choice, false, TreeChoices(LenLow(rep, pos), 1, HighFirst(len - 2, 3)));
    } else {
      var tree := if len < 18 then TreeChoices(LenMid(rep, pos), 1, HighFirst(len - 10, 3))
                  else TreeChoices(LenHigh(rep), 1, HighFirst(len - 18, 8));
      TreeKnown(LenMid(rep, pos), 1, 0, HighFirst(if len < 18 then len - 10 else 0, 3));
      TreeKnown(LenHigh(rep), 1, 0, HighFirst(if len < 18 then 0 else len - 18, 8));
      OneKnown(choice2, len >= 18, tree);
      OneKnown(choice, true, [Modelled(choice2, len >= 18)] + tree);
      TwoFront(Modelled(choice, true), Modelled(choice2, len >= 18), tree);
    }
  }

  lemma DistanceKnown(back: nat, len: nat)
    requires back < 0x1_0000_0000
    ensures AllKnown(DistanceChoices(back, len))
  {
    hide Pow2, TreeChoices, AllKnown, HighFirst, LowFirst, EvenChoices, Slot;
    S.Pow2Values();
    var slot := Slot(back);
    SlotRange(back);
    TreeKnown(DistSlot(LengthState(len)), 1, 0, HighFirst(slot, 6));
    if slot >= 14 {
      var even, low := EvenChoices(HighFirst(back / 16, FooterBits(slot) - 4)), LowFirst(back, 4);
      EvenKnown(HighFirst(back / 16, FooterBits(slot) - 4));
      TreeKnown(DistAlign, 1, 0, low);
      KnownParts(even, TreeChoices(DistAlign, 1, low));
    } else if slot >= 4 {
      TreeKnown(DistSpecial(slot), 1, 0, LowFirst(back, FooterBits(slot)));
    } else {
      NothingKnown();
    }
    KnownParts(TreeChoices(DistSlot(LengthState(len)), 1, HighFirst(slot, 6)), FooterChoices(back, slot));
  }

  lemma NothingKnown()
    ensures AllKnown([])
  {
  }

  lemma CoderSmall(p: Properties, history: seq<Byte>)
    requires PropertiesFit(p)
    ensures CoderOf(p, history) < 16
  {
    S.Pow2Values();
  }

  lemma PositionSmall(p: Properties, history: seq<Byte>)
    requires PropertiesFit(p)
    ensures |history| % Pow2(p.pb) < 16
  {
    S.Pow2Values();
  }

  lemma LiteralKnown(byte: Byte, r: Registers, p: Properties, history: seq<Byte>)
    requires RegistersValid(r) && PropertiesFit(p)
    ensures AllKnown(LiteralChoices(byte, r, p, history))
  {
    hide Pow2, TreeChoices, AllKnown, HighFirst, MatchedChoices;
    S.Pow2Values();
    CoderSmall(p, history);
    TreeKnown(LiteralOf(CoderOf(p, history)), 1, 0, HighFirst(byte, 8));
    MatchedKnown(CoderOf(p, history), 1, 0, HighFirst(byte, 8), HighFirst(ByteBack(history, r.reps[0]), 8), true);
  }

  lemma FlagKnown(kind: Kind, bit: bool)
    requires KindKnown(kind) && Nodes(kind) == 0
    ensures AllKnown(OneBit(kind, bit))
  {
  }

  lemma RepKnown(k: nat, state: nat, pos: nat)
    requires state < 12 && pos < 16
    ensures AllKnown(RepChoices(k, state, pos))
  {
  }

  /** Every bit of an operation has a probability in the table. */
  lemma OperationKnown(op: Operation, r: Registers, p: Properties, history: seq<Byte>)
    requires RegistersValid(r) && PropertiesFit(p) && OperationFits(op)
    ensures AllKnown(Choices(op, r, p, history))
  {
    hide AllKnown, LengthChoices, DistanceChoices, LiteralChoices, RepChoices, OneBit, Pow2;
    var pos := |history| % Pow2(p.pb);
    PositionSmall(p, history);
    FlagKnown(IsMatch(r.state, pos), !op.Literal?);
    FlagKnown(IsRep(r.state), !op.Match?);
    var first, second := OneBit(IsMatch(r.state, pos), !op.Literal?), OneBit(IsRep(r.state), !op.Match?);
    match op {
      case Literal(byte) =>
        LiteralKnown(byte, r, p, history);
        KnownParts(first, LiteralChoices(byte, r, p, history));
      case Match(back, len) =>
        LengthKnown(false, len, pos);
        DistanceKnown(back, len);
        var more := LengthChoices(false, len, pos) + DistanceChoices(back, len);
        KnownParts(LengthChoices(false, len, pos), DistanceChoices(back, len));
        KnownParts(second, more);
        KnownParts(first, second + more);
      case ShortRep =>
        FlagKnown(IsRep0(r.state), false);
        FlagKnown(IsRep0Long(r.state, pos), false);
        var a, b := OneBit(IsRep0(r.state), false), OneBit(IsRep0Long(r.state, pos), false);
        KnownParts(a, b);
        KnownParts(second, a + b);
        KnownParts(first, second + (a + b));
      case Rep(k, len) =>
        RepKnown(k, r.state, pos);
        LengthKnown(true, len, pos);
        var more := RepChoices(k, r.state, pos) + LengthChoices(true, len, pos);
        KnownParts(RepChoices(k, r.state, pos), LengthChoices(true, len, pos));
        KnownParts(second, more);
        KnownParts(first, second + more);
    }
  }
}
