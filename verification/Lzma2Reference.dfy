/** The LZMA2 stream decoder as a machine that reads a whole stream at once and produces one byte per
    step. It has no dictionary ring, no carry-over buffer, no output limit and no notion of a call:
    it says what a stream means. The decoder of src/xz/xz_dec_lzma2.c is proved to compute it for every
    way of cutting input and output into calls. */
module Lzma2Reference {
  import opened Basics
  import opened RangeCoder
  import opened LzmaSymbol

  const RC_INIT_BYTES := 5

  /** enum lzma2_seq */
  datatype Sequence =
    | Control
    | Uncompressed1
    | Uncompressed2
    | Compressed0
    | Compressed1
    | Properties
    | LzmaPrepare
    | LzmaRun
    | CopyRun

  /** The decoder state; m.rc.pos is the position in the stream, history what was decoded since the
      dictionary reset, out everything decoded. */
  datatype Lzma2State = Lzma2State(
    sequence: Sequence, next: Sequence,
    uncompressed: nat, compressed: nat,
    needDictReset: bool, needProps: bool,
    initBytesLeft: nat,
    z: Lzma, m: Model,
    dictSize: nat, history: seq<Byte>, out: seq<Byte>)
  {
    function Pos(): int { m.rc.pos }
  }

  /** How decoding can stop: at the end marker, on corrupt data, or for want of input. */
  datatype Status = Ended | Corrupt | Starved

  datatype StepResult = Next(st: Lzma2State) | Stop(status: Status, pos: int)

  // ---------- Invariant of the control automaton ----------

  predicate InHeader(st: Lzma2State) {
    st.sequence.Uncompressed1? || st.sequence.Uncompressed2? || st.sequence.Compressed0? || st.sequence.Compressed1?
  }

  /** A properties byte is still to come in this chunk. */
  predicate PropsPending(st: Lzma2State) {
    st.sequence.Properties? || (InHeader(st) && st.next.Properties?)
  }

  /** The chunk being read is an LZMA chunk whose properties are known. */
  predicate LzmaChunk(st: Lzma2State) {
    st.sequence.LzmaPrepare? || st.sequence.LzmaRun? || (InHeader(st) && st.next.LzmaPrepare?)
  }

  predicate RepValid(st: Lzma2State) {
    st.z.rep0 < |st.history| && st.z.rep0 < st.dictSize
  }

  /** The LZMA registers can be used: valid properties, and a valid distance where one is relied on. */
  ghost predicate Configured(st: Lzma2State) {
    && PropsValid(st.z)
    && st.m.rc.range >= TOP_VALUE
    && (st.z.state >= LIT_STATES || st.z.len > 0 ==> RepValid(st))
  }

  /** The uncompressed size is being read or has been read. */
  predicate SizeKnown(st: Lzma2State) {
    !st.sequence.Control? && !st.sequence.CopyRun? && !(InHeader(st) && st.next.CopyRun?)
  }

  /** Sizes stay below 2 MiB uncompressed and 64 KiB compressed while their bytes come in. */
  ghost predicate SizesValid(st: Lzma2State) {
    && (SizeKnown(st) ==> st.uncompressed <= 0x20_0000)
    && (st.sequence.Uncompressed1? ==> st.uncompressed % 0x1_0000 == 0 && st.uncompressed <= 0x1F_0000)
    && (st.sequence.Uncompressed2? ==> st.uncompressed % 0x100 == 0 && st.uncompressed <= 0x1F_FF00)
    && (st.sequence.Compressed1? ==> st.compressed % 0x100 == 0 && st.compressed <= 0xFF00)
    && (!st.sequence.Control? && !InHeader(st) ==> st.compressed <= 0x1_0000)
    && (SizeKnown(st) && !st.sequence.Uncompressed1? && !st.sequence.Uncompressed2? && !st.sequence.LzmaRun? ==>
          st.uncompressed > 0)
  }

  ghost predicate Inv(st: Lzma2State) {
    && 0 < st.dictSize
    && SizesValid(st)
    && (InHeader(st) ==> st.next.Properties? || st.next.LzmaPrepare? || st.next.CopyRun?)
    && (st.sequence.Uncompressed1? || st.sequence.Uncompressed2? ==> !st.next.CopyRun?)
    && (!st.sequence.Control? ==> !st.needDictReset)
    && (PropsPending(st) || LzmaChunk(st) ==> !st.needProps)
    && (!st.needDictReset && !st.needProps && !PropsPending(st) ==> Configured(st))
    && (!st.needDictReset && !st.needProps && !PropsPending(st) &&
        !st.sequence.LzmaPrepare? && !st.sequence.LzmaRun? ==>
          st.initBytesLeft == RC_INIT_BYTES)
    && (!st.sequence.LzmaRun? ==> st.z.len == 0)
  }

  // ---------- Steps ----------

  function ResetRc(m: Model): Model {
    m.(rc := Rc(U32 - 1, 0, m.rc.pos))
  }

  /** lzma_reset: the registers and every probability, and the range decoder. */
  function ResetLzma(st: Lzma2State): Lzma2State {
    st.(
      z := st.z.(state := 0, rep0 := 0, rep1 := 0, rep2 := 0, rep3 := 0),
      m := Model(Rc(U32 - 1, 0, st.Pos()), FreshProbs()),
      initBytesLeft := RC_INIT_BYTES)
  }

  function Advance(st: Lzma2State): Lzma2State {
    st.(m := st.m.(rc := st.m.rc.(pos := st.Pos() + 1)))
  }

  /** The control byte of a chunk. */
  function ControlStep(st: Lzma2State, tmp: Byte): StepResult {
    if tmp == 0x00 then
      Stop(Ended, st.Pos() + 1)
    else
      var reset := tmp >= 0xE0 || tmp == 0x01;
      if !reset && st.needDictReset then
        Stop(Corrupt, st.Pos() + 1)
      else
        var st1 := if reset then st.(needProps := true, needDictReset := false, history := []) else st;
        ChunkKind(Advance(st1), tmp)
  }

  function ChunkKind(st: Lzma2State, tmp: Byte): (r: StepResult)
    ensures r.Stop? ==> r.status.Corrupt?
  {
    if tmp >= 0x80 then
      var st1 := st.(uncompressed := (tmp % 0x20) * 0x1_0000, sequence := Uncompressed1);
      if tmp >= 0xC0 then
        Next(st1.(needProps := false, next := Properties))
      else if st1.needProps then
        Stop(Corrupt, st1.Pos())
      else
        var st2 := st1.(next := LzmaPrepare);
        Next(if tmp >= 0xA0 then ResetLzma(st2) else st2)
    else if tmp > 0x02 then
      Stop(Corrupt, st.Pos())
    else
      Next(st.(sequence := Compressed0, next := CopyRun))
  }

  /** A byte of one of the two size fields. */
  function SizeStep(st: Lzma2State, tmp: Byte): Lzma2State
    requires InHeader(st)
  {
    var st1 := Advance(st);
    match st.sequence
    case Uncompressed1 => st1.(uncompressed := st.uncompressed + tmp * 0x100, sequence := Uncompressed2)
    case Uncompressed2 => st1.(uncompressed := st.uncompressed + tmp + 1, sequence := Compressed0)
    case Compressed0 => st1.(compressed := tmp * 0x100, sequence := Compressed1)
    case Compressed1 => st1.(compressed := st.compressed + tmp + 1, sequence := st.next)
  }

  /** lzma_props: lc, lp and pb from one byte, where they fit the tables. */
  function PropsStep(st: Lzma2State, props: Byte): StepResult {
    var lc, lp, pb := props % 9, props / 9 % 5, props / 45;
    if props > 224 || lc + lp > 4 then
      Stop(Corrupt, st.Pos() + 1)
    else
      var z := st.z.(lc := lc, literalPosMask := Pow2(lp) - 1, posMask := Pow2(pb) - 1);
      Next(ResetLzma(Advance(st).(z := z, sequence := LzmaPrepare)))
  }

  function InitByte(st: Lzma2State, byte: Byte): Lzma2State
    requires st.initBytesLeft > 0
  {
    var rc := st.m.rc;
    st.(
      m := st.m.(rc := Rc(rc.range, (rc.code * 256 + byte) % U32, rc.pos + 1)),
      initBytesLeft := st.initBytesLeft - 1)
  }

  function Emit(st: Lzma2State, byte: Byte): Lzma2State
    requires st.uncompressed > 0
  {
    st.(uncompressed := st.uncompressed - 1, history := st.history + [byte], out := st.out + [byte])
  }

  /** One byte of a pending match. */
  function EmitMatch(st: Lzma2State): Lzma2State
    requires st.uncompressed > 0 && st.z.len > 0
  {
    Emit(st.(z := st.z.(len := st.z.len - 1)), HistoryGet(st.history, st.z.rep0))
  }

  /** The part of the stream that belongs to the current chunk or lies before it. */
  function ChunkWindow(stream: seq<Byte>, end: int): (w: seq<Byte>)
    requires 0 <= end
    ensures |w| == if |stream| < end then |stream| else end
  {
    if |stream| < end then stream else stream[..end]
  }

  function NormalizeModel(input: seq<Byte>, m: Model): Model {
    m.(rc := Normalize(input, m.rc))
  }

  /** What lzma_main and the end-of-chunk checks amount to, one byte at a time. */
  function RunStep(stream: seq<Byte>, st: Lzma2State): StepResult
    requires PropsValid(st.z) && 0 <= st.Pos() <= |stream|
  {
    if st.uncompressed == 0 then
      if st.compressed > 0 || st.z.len > 0 || st.m.rc.code != 0 then
        Stop(Corrupt, st.Pos())
      else
        Next(st.(m := ResetRc(st.m), initBytesLeft := RC_INIT_BYTES, sequence := Control))
    else if st.z.len > 0 then
      Next(EmitMatch(st))
    else
      SymbolStep(stream, st)
  }

  /** One symbol, with the first byte it produces, from the bytes of its chunk alone. */
  function SymbolStep(stream: seq<Byte>, st: Lzma2State): StepResult
    requires PropsValid(st.z) && 0 <= st.Pos() <= |stream| && st.uncompressed > 0
  {
    var end := st.Pos() + st.compressed;
    var window := ChunkWindow(stream, end);
    var r := DecodeSymbol(window, st.m, st.z, st.history);
    var m1 := NormalizeModel(window, r.m);
    if m1.rc.pos > |window| then
      Stop(if |window| == end then Corrupt else Starved, st.Pos())
    else
      var st1 := st.(z := r.z, m := m1, compressed := end - m1.rc.pos);
      match r.symbol
      case Lit(byte) => Next(Emit(st1, byte))
      case Copy =>
        if RepValid(st1) then Next(EmitMatch(st1)) else Stop(Corrupt, st.Pos())
  }

  /** One byte of an uncompressed chunk. */
  function CopyByte(st: Lzma2State, byte: Byte): Lzma2State
    requires st.compressed > 0
  {
    Advance(st).(compressed := st.compressed - 1, history := st.history + [byte], out := st.out + [byte])
  }

  function Step(stream: seq<Byte>, st: Lzma2State): StepResult
    requires Inv(st) && 0 <= st.Pos() <= |stream|
  {
    if st.sequence.LzmaRun? then
      RunStep(stream, st)
    else if st.sequence.LzmaPrepare? && st.compressed < RC_INIT_BYTES then
      Stop(Corrupt, st.Pos())
    else if st.sequence.LzmaPrepare? && st.initBytesLeft == 0 then
      Next(st.(compressed := st.compressed - RC_INIT_BYTES, sequence := LzmaRun))
    else if st.sequence.CopyRun? && st.compressed == 0 then
      Next(st.(sequence := Control))
    else if st.Pos() == |stream| then
      Stop(Starved, st.Pos())
    else
      ByteStep(st, stream[st.Pos()])
  }

  /** The steps that read exactly one byte. */
  function ByteStep(st: Lzma2State, byte: Byte): StepResult
    requires st.sequence.LzmaPrepare? ==> st.initBytesLeft > 0
    requires st.sequence.CopyRun? ==> st.compressed > 0
    requires !st.sequence.LzmaRun?
  {
    if st.sequence.Control? then ControlStep(st, byte)
    else if InHeader(st) then Next(SizeStep(st, byte))
    else if st.sequence.Properties? then PropsStep(st, byte)
    else if st.sequence.LzmaPrepare? then Next(InitByte(st, byte))
    else Next(CopyByte(st, byte))
  }

  // ---------- What every step keeps ----------

  /** Steps still possible without reading a byte. */
  function Rank(st: Lzma2State): nat {
    match st.sequence
    case LzmaPrepare => st.uncompressed + 3
    case LzmaRun => st.uncompressed + 2
    case CopyRun => 1
    case _ => 0
  }

  lemma PropsStepInv(st: Lzma2State, props: Byte)
    requires Inv(st) && st.sequence.Properties?
    ensures PropsStep(st, props).Next? ==> Inv(PropsStep(st, props).st)
  {
    hide Pow2, IsMask, PropsValid;
    if props <= 224 && props % 9 + props / 9 % 5 <= 4 {
      PropsFit(st.z, props);
    }
  }

  lemma PropsFit(z: Lzma, props: Byte)
    requires props <= 224 && props % 9 + props / 9 % 5 <= 4
    ensures PropsValid(z.(lc := props % 9, literalPosMask := Pow2(props / 9 % 5) - 1, posMask := Pow2(props / 45) - 1,
                          state := 0, rep0 := 0, rep1 := 0, rep2 := 0, rep3 := 0))
  {
    Pow2Values();
  }

  lemma ChunkKindInv(st: Lzma2State, byte: Byte)
    requires 0 < st.dictSize && SizesValid(st) && st.sequence.Control? && !st.needDictReset && st.z.len == 0
    requires st.needProps || (Configured(st) && st.initBytesLeft == RC_INIT_BYTES)
    ensures ChunkKind(st, byte).Next? ==> Inv(ChunkKind(st, byte).st)
  {
    hide Pow2;
  }

  lemma ControlStepInv(st: Lzma2State, byte: Byte)
    requires Inv(st) && st.sequence.Control?
    ensures ControlStep(st, byte).Next? ==> Inv(ControlStep(st, byte).st)
  {
    hide Inv, ChunkKind;
    if byte != 0x00 {
      var reset := byte >= 0xE0 || byte == 0x01;
      if reset {
        StartsChunk(st);
        ChunkKindInv(Advance(st.(needProps := true, needDictReset := false, history := [])), byte);
      } else if !st.needDictReset {
        StartsChunk(st);
        ChunkKindInv(Advance(st), byte);
      }
    }
  }

  lemma StartsChunk(st: Lzma2State)
    requires Inv(st) && st.sequence.Control?
    ensures 0 < st.dictSize && SizesValid(st) && st.z.len == 0
    ensures st.needDictReset || st.needProps || (Configured(st) && st.initBytesLeft == RC_INIT_BYTES)
  {
  }

  lemma SizeStepInv(st: Lzma2State, byte: Byte)
    requires Inv(st) && InHeader(st)
    ensures Inv(SizeStep(st, byte))
  {
    hide PropsValid;
  }

  lemma EmitMatchInv(st: Lzma2State)
    requires Inv(st) && st.sequence.LzmaRun? && st.uncompressed > 0 && st.z.len > 0
    ensures Inv(EmitMatch(st))
  {
    hide Pow2;
  }

  lemma SymbolStepInv(stream: seq<Byte>, st: Lzma2State)
    requires Inv(st) && 0 <= st.Pos() <= |stream| && st.sequence.LzmaRun? && st.uncompressed > 0 && st.z.len == 0
    ensures var r := SymbolStep(stream, st);
            r.Next? ==>
              && Inv(r.st)
              && st.Pos() <= r.st.Pos() <= |stream|
              && r.st.uncompressed == st.uncompressed - 1
              && r.st.sequence == st.sequence
  {
    hide DecodeSymbol, Pow2;
    var window := ChunkWindow(stream, st.Pos() + st.compressed);
    var r := DecodeSymbol(window, st.m, st.z, st.history);
    assert PropsValid(r.z);
    assert st.Pos() <= Normalize(window, r.m.rc).pos;
  }

  lemma RunStepInv(stream: seq<Byte>, st: Lzma2State)
    requires Inv(st) && 0 <= st.Pos() <= |stream| && st.sequence.LzmaRun?
    ensures var r := RunStep(stream, st);
            r.Next? ==>
              && Inv(r.st)
              && st.Pos() <= r.st.Pos() <= |stream|
              && (r.st.Pos() == st.Pos() ==> Rank(r.st) < Rank(st))
  {
    hide SymbolStep, PropsValid;
    if st.uncompressed > 0 {
      if st.z.len > 0 {
        EmitMatchInv(st);
      } else {
        SymbolStepInv(stream, st);
      }
    }
  }

  lemma ByteStepInv(st: Lzma2State, byte: Byte)
    requires Inv(st) && !st.sequence.LzmaRun?
    requires st.sequence.LzmaPrepare? ==> st.initBytesLeft > 0
    requires st.sequence.CopyRun? ==> st.compressed > 0
    ensures var r := ByteStep(st, byte);
            r.Next? ==> Inv(r.st) && r.st.Pos() == st.Pos() + 1
  {
    hide PropsValid;
    if st.sequence.Control? {
      ControlStepInv(st, byte);
    } else if InHeader(st) {
      SizeStepInv(st, byte);
    } else if st.sequence.Properties? {
      PropsStepInv(st, byte);
    }
  }

  /** Control automaton: every step keeps the invariant, moves forward in the stream or lowers the
      rank; so in particular no symbol is decoded without a dictionary reset and properties after it,
      and then lc + lp <= 4 and the position mask is at most 15. */
  lemma StepInv(stream: seq<Byte>, st: Lzma2State)
    requires Inv(st) && 0 <= st.Pos() <= |stream|
    ensures var r := Step(stream, st);
            r.Next? ==>
              && Inv(r.st)
              && st.Pos() <= r.st.Pos() <= |stream|
              && (r.st.Pos() == st.Pos() ==> Rank(r.st) < Rank(st))
  {
    hide PropsValid, RunStep, ByteStep;
    if st.sequence.LzmaRun? {
      RunStepInv(stream, st);
    } else if st.sequence.LzmaPrepare? && (st.compressed < RC_INIT_BYTES || st.initBytesLeft == 0) {
    } else if st.sequence.CopyRun? && st.compressed == 0 {
    } else if st.Pos() < |stream| {
      ByteStepInv(st, stream[st.Pos()]);
    }
  }

  // ---------- Whole streams ----------

  datatype Outcome = Outcome(status: Status, out: seq<Byte>, pos: int)

  /** What the stream decodes to from a given state on. */
  ghost function Decode(stream: seq<Byte>, st: Lzma2State): Outcome
    requires Inv(st) && 0 <= st.Pos() <= |stream|
    decreases |stream| - st.Pos(), Rank(st)
  {
    StepInv(stream, st);
    match Step(stream, st)
    case Stop(status, pos) => Outcome(status, st.out, pos)
    case Next(st1) => Decode(stream, st1)
  }

  /** The state after xz_dec_lzma2_reset: everything else is left over from before. */
  function Restart(st: Lzma2State, dictSize: nat): Lzma2State {
    st.(
      sequence := Control, needDictReset := true, z := st.z.(len := 0),
      m := st.m.(rc := st.m.rc.(pos := 0)), dictSize := dictSize, history := [], out := [])
  }

  lemma RestartInv(st: Lzma2State, dictSize: nat, uncompressed: nat)
    requires 0 < dictSize
    ensures Inv(Restart(st, dictSize).(uncompressed := uncompressed))
  {
  }

  lemma HeaderSuccessor(st: Lzma2State)
    requires Inv(st) && InHeader(st)
    ensures st.next.Properties? || st.next.LzmaPrepare? || st.next.CopyRun?
  {
  }
}
