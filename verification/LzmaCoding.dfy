/** The choices that stand for an LZMA symbol, as a coder sees them: what each bit is about, its chance after the
    choices made before, and the interval that all of them narrow. */
module LzmaCoding {
  import opened Basics
  import opened RangeCoder
  import opened RangeEncoder
  import LzmaSymbol

  // ---------- What a bit is about ----------

  datatype Kind =
    | IsMatch(state: nat, pos: nat)
    | IsRep(state: nat)
    | IsRep0(state: nat)
    | IsRep1(state: nat)
    | IsRep2(state: nat)
    | IsRep0Long(state: nat, pos: nat)
    | DistSlot(lenState: nat)
    | DistSpecial(slot: nat)
    | DistAlign
    | LenChoice(rep: bool)
    | LenChoice2(rep: bool)
    | LenLow(rep: bool, pos: nat)
    | LenMid(rep: bool, pos: nat)
    | LenHigh(rep: bool)
    | LiteralOf(coder: nat)

  /** One of the probabilities of a kind; trees have a node for each beginning. */
  datatype Context = Context(kind: Kind, node: nat)

  /** How many bits follow the highest two of a distance in this slot. */
  function FooterBits(slot: nat): nat
    requires slot >= 4
  {
    slot / 2 - 1
  }

  predicate KindKnown(kind: Kind) {
    match kind
    case IsMatch(state, pos) => state < 12 && pos < 16
    case IsRep(state) => state < 12
    case IsRep0(state) => state < 12
    case IsRep1(state) => state < 12
    case IsRep2(state) => state < 12
    case IsRep0Long(state, pos) => state < 12 && pos < 16
    case DistSlot(lenState) => lenState < 4
    case DistSpecial(slot) => 4 <= slot < 14
    case LenLow(_, pos) => pos < 16
    case LenMid(_, pos) => pos < 16
    case LiteralOf(coder) => coder < 16
    case _ => true
  }

  /** The nodes of a kind: 0 alone, or from 1 up to this. */
  function Nodes(kind: Kind): nat
    requires KindKnown(kind)
  {
    match kind
    case DistSlot(_) => 64
    case DistSpecial(slot) => Pow2(FooterBits(slot))
    case DistAlign => 16
    case LenLow(_, _) => 8
    case LenMid(_, _) => 8
    case LenHigh(_) => 256
    case LiteralOf(_) => 0x300
    case _ => 0
  }

  predicate Known(c: Context) {
    KindKnown(c.kind) && if Nodes(c.kind) == 0 then c.node == 0 else 1 <= c.node < Nodes(c.kind)
  }

  function LengthBase(rep: bool): nat {
    if rep then LzmaSymbol.REP_LEN else LzmaSymbol.MATCH_LEN
  }

  /** Where the probabilities of a kind stand in the table of the decoder, as if there were a node 0. */
  function Base(kind: Kind): (i: int)
    requires KindKnown(kind)
    ensures !kind.DistSpecial? ==> i >= 0
  {
    match kind
    case IsMatch(state, pos) => LzmaSymbol.IS_MATCH + 16 * state + pos
    case IsRep(state) => LzmaSymbol.IS_REP + state
    case IsRep0(state) => LzmaSymbol.IS_REP0 + state
    case IsRep1(state) => LzmaSymbol.IS_REP1 + state
    case IsRep2(state) => LzmaSymbol.IS_REP2 + state
    case IsRep0Long(state, pos) => LzmaSymbol.IS_REP0_LONG + 16 * state + pos
    case DistSlot(lenState) => LzmaSymbol.DIST_SLOT + 64 * lenState
    case DistSpecial(slot) => LzmaSymbol.DIST_SPECIAL + (2 + slot % 2) * Pow2(FooterBits(slot)) - slot - 1
    case DistAlign => LzmaSymbol.DIST_ALIGN
    case LenChoice(rep) => LengthBase(rep)
    case LenChoice2(rep) => LengthBase(rep) + 1
    case LenLow(rep, pos) => LengthBase(rep) + 2 + 8 * pos
    case LenMid(rep, pos) => LengthBase(rep) + 130 + 8 * pos
    case LenHigh(rep) => LengthBase(rep) + 258
    case LiteralOf(coder) => LzmaSymbol.LITERAL + LzmaSymbol.LITERAL_CODER_SIZE * coder
  }

  // Where the nodes of a slot begin, and how many bits they are for.
  lemma SpecialPlace(slot: nat)
    requires 4 <= slot < 14
    ensures Base(DistSpecial(slot)) == 688 +
            (if slot == 4 then -1 else if slot == 5 then 0 else if slot == 6 then 1 else if slot == 7 then 4
             else if slot == 8 then 7 else if slot == 9 then 14 else if slot == 10 then 21
             else if slot == 11 then 36 else if slot == 12 then 51 else 82)
    ensures Nodes(DistSpecial(slot)) ==
            if slot < 6 then 2 else if slot < 8 then 4 else if slot < 10 then 8 else if slot < 12 then 16 else 32
  {
    LzmaSymbol.Pow2Values();
  }

  lemma InTable(c: Context)
    requires Known(c)
    ensures 0 <= Base(c.kind) + c.node < LzmaSymbol.PROBS_TOTAL
  {
    hide Pow2;
    if c.kind.DistSpecial? {
      SpecialInTable(c);
    }
  }

  lemma SpecialInTable(c: Context)
    requires Known(c) && c.kind.DistSpecial?
    ensures 0 <= Base(c.kind) + c.node < LzmaSymbol.PROBS_TOTAL
  {
    hide Pow2, Base, Nodes;
    SpecialPlace(c.kind.slot);
  }

  function Index(c: Context): (i: nat)
    requires Known(c)
    ensures i == Base(c.kind) + c.node < LzmaSymbol.PROBS_TOTAL
  {
    InTable(c);
    Base(c.kind) + c.node
  }

  // What stands at an index of the special distances.
  function SpecialOf(i: nat): Context {
    if i < 1 then Context(DistSpecial(4), i + 1)
    else if i < 2 then Context(DistSpecial(5), i)
    else if i < 5 then Context(DistSpecial(6), i - 1)
    else if i < 8 then Context(DistSpecial(7), i - 4)
    else if i < 15 then Context(DistSpecial(8), i - 7)
    else if i < 22 then Context(DistSpecial(9), i - 14)
    else if i < 37 then Context(DistSpecial(10), i - 21)
    else if i < 52 then Context(DistSpecial(11), i - 36)
    else if i < 83 then Context(DistSpecial(12), i - 51)
    else Context(DistSpecial(13), i - 82)
  }

  // What stands at an index of a length coder.
  function LengthOf(rep: bool, i: nat): Context {
    if i == 0 then Context(LenChoice(rep), 0)
    else if i == 1 then Context(LenChoice2(rep), 0)
    else if i < 130 then Context(LenLow(rep, (i - 2) / 8), (i - 2) % 8)
    else if i < 258 then Context(LenMid(rep, (i - 130) / 8), (i - 130) % 8)
    else Context(LenHigh(rep), i - 258)
  }

  // What stands at an index of the table.
  function ContextOf(i: nat): Context {
    if i < 192 then Context(IsMatch(i / 16, i % 16), 0)
    else if i < 204 then Context(IsRep(i - 192), 0)
    else if i < 216 then Context(IsRep0(i - 204), 0)
    else if i < 228 then Context(IsRep1(i - 216), 0)
    else if i < 240 then Context(IsRep2(i - 228), 0)
    else if i < 432 then Context(IsRep0Long((i - 240) / 16, (i - 240) % 16), 0)
    else if i < 688 then Context(DistSlot((i - 432) / 64), (i - 432) % 64)
    else if i < 802 then SpecialOf(i - 688)
    else if i < 818 then Context(DistAlign, i - 802)
    else if i < 1332 then LengthOf(false, i - 818)
    else if i < 1846 then LengthOf(true, i - 1332)
    else Context(LiteralOf((i - 1846) / 0x300), (i - 1846) % 0x300)
  }

  lemma SpecialRead(c: Context)
    requires Known(c) && c.kind.DistSpecial?
    ensures ContextOf(Index(c)) == c
  {
    hide Base, Nodes, Pow2;
    SpecialPlace(c.kind.slot);
  }

  lemma Eights(pos: nat, node: nat)
    requires node < 8
    ensures (8 * pos + node) / 8 == pos && (8 * pos + node) % 8 == node
  {
  }

  predicate OfLength(kind: Kind) {
    kind.LenChoice? || kind.LenChoice2? || kind.LenLow? || kind.LenMid? || kind.LenHigh?
  }

  // Which of the two length coders.
  function RepOf(kind: Kind): bool
    requires OfLength(kind)
  {
    match kind
    case LenChoice(rep) => rep
    case LenChoice2(rep) => rep
    case LenLow(rep, _) => rep
    case LenMid(rep, _) => rep
    case LenHigh(rep) => rep
  }

  lemma LengthOffset(c: Context)
    requires Known(c) && OfLength(c.kind)
    ensures var i := Index(c) - LengthBase(RepOf(c.kind));
            0 <= i < 514 && LengthOf(RepOf(c.kind), i) == c
  {
    hide Pow2, LengthBase;
    match c.kind
    case LenLow(_, pos) => Eights(pos, c.node);
    case LenMid(_, pos) => Eights(pos, c.node);
    case _ =>
  }

  lemma LengthRead(c: Context)
    requires Known(c) && OfLength(c.kind)
    ensures ContextOf(Index(c)) == c
  {
    hide SpecialOf, LengthOf, Pow2, Known, Index;
    LengthOffset(c);
  }

  lemma ContextRead(c: Context)
    requires Known(c)
    ensures ContextOf(Index(c)) == c
  {
    hide SpecialOf, LengthOf, Pow2;
    match c.kind
    case DistSpecial(_) => SpecialRead(c);
    case LenChoice(_) => LengthRead(c);
    case LenChoice2(_) => LengthRead(c);
    case LenLow(_, _) => LengthRead(c);
    case LenMid(_, _) => LengthRead(c);
    case LenHigh(_) => LengthRead(c);
    case _ =>
  }

  /** No two bits share a probability of the table. */
  lemma IndexInjective(c: Context, d: Context)
    requires Known(c) && Known(d) && Index(c) == Index(d)
    ensures c == d
  {
    hide Index, ContextOf;
    ContextRead(c);
    ContextRead(d);
  }

  // ---------- Choices ----------

  /** A bit with a probability of its own, or one that is as likely as not. */
  datatype Choice = Modelled(context: Context, bit: bool) | Even(bit: bool)

  predicate AllKnown(cs: seq<Choice>) {
    forall c <- cs :: c.Modelled? ==> Known(c.context)
  }

  /** The chance of a zero, in 2048, after the choices made before: every zero moves it up by 1/32 of what is left to
      certainty, every one moves it down by 1/32. */
  function Chance(c: Context, past: seq<Choice>): (p: Prob)
    decreases |past|
  {
    if past == [] then 1024
    else
      var last, p := past[|past| - 1], Chance(c, past[..|past| - 1]);
      if last == Modelled(c, false) then p + (2048 - p) / 32
      else if last == Modelled(c, true) then p - p / 32
      else p
  }

  /** A coder: the choices made since the last reset, and the interval of the chunk. */
  datatype Coder = Coder(past: seq<Choice>, at: Interval)

  function Put(k: Coder, c: Choice): Coder {
    Coder(
      k.past + [c],
      if c.Modelled? then PutBit(k.at, Chance(c.context, k.past), c.bit) else PutDirect(k.at, c.bit))
  }

  function PutAll(k: Coder, cs: seq<Choice>): Coder
    decreases |cs|
  {
    if cs == [] then k else PutAll(Put(k, cs[0]), cs[1..])
  }

  lemma {:induction false} PutAllJoin(k: Coder, a: seq<Choice>, b: seq<Choice>)
    ensures PutAll(k, a + b) == PutAll(PutAll(k, a), b)
    decreases |a|
  {
    if a == [] {
      assert a + b == b;
    } else {
      PutAllJoin(Put(k, a[0]), a[1..], b);
      assert (a + b)[1..] == a[1..] + b;
    }
  }

  lemma {:induction false} PutAllPast(k: Coder, cs: seq<Choice>)
    ensures PutAll(k, cs).past == k.past + cs
    decreases |cs|
  {
    if cs == [] {
      assert k.past + cs == k.past;
    } else {
      PutAllPast(Put(k, cs[0]), cs[1..]);
      assert (k.past + [cs[0]]) + cs[1..] == k.past + cs;
    }
  }

  /** The last interval, scaled: its lower end is the code. */
  function Code(k: Coder, todo: seq<Choice>): Interval {
    Scaled(PutAll(k, todo).at)
  }

  lemma CodeStep(k: Coder, c: Choice, todo: seq<Choice>)
    ensures Code(k, [c] + todo) == Code(Put(k, c), todo)
  {
    assert ([c] + todo)[1..] == todo;
  }

  lemma PutKeepsValid(k: Coder, c: Choice)
    requires IntervalValid(k.at)
    ensures IntervalValid(Put(k, c).at)
  {
    hide PutBit, PutDirect, IntervalValid;
    PutValid(k.at, if c.Modelled? then Chance(c.context, k.past) else 1024, c.bit);
  }

  lemma PutHolds(k: Coder, c: Choice, f: Interval)
    requires IntervalValid(k.at) && Holds(Put(k, c).at, f)
    ensures Holds(k.at, f)
  {
    hide PutBit, PutDirect, Holds;
    if c.Modelled? {
      HoldsBit(k.at, Chance(c.context, k.past), c.bit, f);
    } else {
      HoldsDirect(k.at, c.bit, f);
    }
  }

  lemma SelfHolds(e: Interval)
    requires IntervalValid(e)
    ensures Holds(e, e) && Holds(e, Scaled(e)) && Holds(Scaled(e), Scaled(e)) && IntervalValid(Scaled(e))
  {
    assert Pow256(0) == 1;
    HoldsScaled(e, Scaled(e));
  }

  /** The code lies in every interval on the way. */
  lemma {:induction false} CodeHolds(k: Coder, todo: seq<Choice>)
    requires IntervalValid(k.at)
    ensures Holds(k.at, Code(k, todo)) && IntervalValid(Code(k, todo))
    decreases |todo|
  {
    hide Holds, Put, Scaled, IntervalValid;
    if todo == [] {
      SelfHolds(k.at);
    } else {
      PutKeepsValid(k, todo[0]);
      CodeHolds(Put(k, todo[0]), todo[1..]);
      PutHolds(k, todo[0], Code(k, todo));
    }
  }

  // ---------- The decoder in step ----------

  /** The table holds the chances. */
  ghost predicate Models(probs: LzmaSymbol.Probs, past: seq<Choice>) {
    forall c: Context :: Known(c) ==> probs[Index(c)] == Chance(c, past)
  }

  lemma FreshModels()
    ensures Models(LzmaSymbol.FreshProbs(), [])
  {
  }

  /** The decoder is in front of the bits of todo, in the code that begins at base. */
  ghost predicate Sync(input: seq<Byte>, base: int, m: LzmaSymbol.Model, k: Coder, todo: seq<Choice>) {
    Models(m.probs, k.past) && AllKnown(todo) && Tuned(input, base, m.rc, k.at, Code(k, todo))
  }

  lemma ChanceAfter(c: Context, d: Context, bit: bool, past: seq<Choice>)
    ensures Chance(c, past + [Modelled(d, bit)]) ==
            if c == d then Adapt(Chance(c, past), bit) else Chance(c, past)
    ensures Chance(c, past + [Even(bit)]) == Chance(c, past)
  {
    assert (past + [Modelled(d, bit)])[..|past|] == past && (past + [Even(bit)])[..|past|] == past;
  }

  lemma ModelsAfter(probs: LzmaSymbol.Probs, past: seq<Choice>, d: Context, bit: bool)
    requires Known(d) && Models(probs, past)
    ensures Models(probs[Index(d) := Adapt(probs[Index(d)], bit)], past + [Modelled(d, bit)])
  {
    hide Index, Known, Chance, Adapt;
    var after := probs[Index(d) := Adapt(probs[Index(d)], bit)];
    forall c: Context | Known(c)
      ensures after[Index(c)] == Chance(c, past + [Modelled(d, bit)])
    {
      ChanceAfter(c, d, bit, past);
      if Index(c) == Index(d) {
        IndexInjective(c, d);
      }
    }
  }

  lemma ModelsEven(probs: LzmaSymbol.Probs, past: seq<Choice>, bit: bool)
    requires Models(probs, past)
    ensures Models(probs, past + [Even(bit)])
  {
    hide Index, Known, Chance;
    forall c: Context | Known(c)
      ensures probs[Index(c)] == Chance(c, past + [Even(bit)])
    {
      ChanceAfter(c, c, bit, past);
    }
  }

  lemma KnownParts(a: seq<Choice>, b: seq<Choice>)
    ensures AllKnown(a + b) <==> AllKnown(a) && AllKnown(b)
  {
    assert forall c <- a :: c in a + b;
    assert forall c <- b :: c in a + b;
  }

  /** A modelled bit is decoded as it was put. */
  lemma BitSync(input: seq<Byte>, base: int, m: LzmaSymbol.Model, k: Coder, c: Context, bit: bool, rest: seq<Choice>)
    requires Sync(input, base, m, k, [Modelled(c, bit)] + rest)
    ensures Known(c)
    ensures var r := LzmaSymbol.Bit(input, m, Index(c));
            r.0 == bit && Sync(input, base, r.1, Put(k, Modelled(c, bit)), rest)
  {
    hide Index, Known, Chance, DecodeBit, Tuned, PutBit, Code, Adapt;
    var choice := Modelled(c, bit);
    KnownParts([choice], rest);
    assert choice in [choice];
    CodeStep(k, choice, rest);
    TunedValid(input, base, m.rc, k.at, Code(k, [choice] + rest));
    PutKeepsValid(k, choice);
    CodeHolds(Put(k, choice), rest);
    BitTuned(input, base, m.rc, k.at, Code(Put(k, choice), rest), Chance(c, k.past), bit);
    AdaptedBy(input, m.rc, Chance(c, k.past));
    ModelsAfter(m.probs, k.past, c, bit);
  }

  lemma TunedValid(input: seq<Byte>, base: int, rc: Rc, e: Interval, f: Interval)
    requires Tuned(input, base, rc, e, f)
    ensures IntervalValid(e)
  {
  }

  lemma AdaptedBy(input: seq<Byte>, rc: Rc, prob: Prob)
    ensures var r := DecodeBit(input, rc, prob); r.prob == Adapt(prob, r.bit)
  {
  }

  /** A direct bit likewise. */
  lemma EvenSync(input: seq<Byte>, base: int, m: LzmaSymbol.Model, k: Coder, bit: bool, rest: seq<Choice>)
    requires Sync(input, base, m, k, [Even(bit)] + rest)
    ensures var r := DirectBit(input, m.rc);
            r.0 == bit && Sync(input, base, m.(rc := r.1), Put(k, Even(bit)), rest)
  {
    hide Chance, DirectBit, Tuned, PutDirect, Code;
    var choice := Even(bit);
    KnownParts([choice], rest);
    CodeStep(k, choice, rest);
    TunedValid(input, base, m.rc, k.at, Code(k, [choice] + rest));
    PutKeepsValid(k, choice);
    CodeHolds(Put(k, choice), rest);
    DirectTuned(input, base, m.rc, k.at, Code(Put(k, choice), rest), bit);
    ModelsEven(m.probs, k.past, bit);
  }
}
