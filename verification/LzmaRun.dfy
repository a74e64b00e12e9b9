/** The text that operations stand for, and their run through the decoder inside a chunk. */
module LzmaRun {
  import opened Basics
  import opened RangeCoder
  import opened RangeEncoder
  import opened LzmaCoding
  import opened LzmaEncoder
  import opened LzmaOperations
  import S = LzmaSymbol
  import opened Lzma2Reference

  // ---------- The text of operations ----------

  /** Bytes that repeat what lies so far back, one by one. */
  function CopyBack(history: seq<Byte>, back: nat, len: nat): (h: seq<Byte>)
    requires back < |history|
    ensures |h| == |history| + len && history <= h
    decreases len
  {
    if len == 0 then history else CopyBack(history + [history[|history| - 1 - back]], back, len - 1)
  }

  /** How far back an operation copies from. */
  function BackOf(op: Operation, r: Registers): nat
    requires RegistersValid(r) && OperationFits(op)
  {
    match op
    case Literal(_) => 0
    case Match(back, _) => back
    case ShortRep => r.reps[0]
    case Rep(k, _) => r.reps[k]
  }

  /** What it copies is there, and in the dictionary. */
  predicate OperationValid(op: Operation, r: Registers, history: seq<Byte>, dictSize: nat) {
    && RegistersValid(r) && OperationFits(op)
    && (!op.Literal? ==> BackOf(op, r) < |history| && BackOf(op, r) < dictSize)
  }

  function Said(op: Operation, r: Registers, history: seq<Byte>): (h: seq<Byte>)
    requires RegistersValid(r) && OperationFits(op) && (!op.Literal? ==> BackOf(op, r) < |history|)
    ensures |h| == |history| + Length(op) && history <= h
  {
    if op.Literal? then history + [op.byte] else CopyBack(history, BackOf(op, r), Length(op))
  }

  predicate AllValid(ops: seq<Operation>, r: Registers, history: seq<Byte>, dictSize: nat)
    decreases |ops|
  {
    ops != [] ==>
      && OperationValid(ops[0], r, history, dictSize)
      && AllValid(ops[1..], After(r, ops[0]), Said(ops[0], r, history), dictSize)
  }

  /** The text with all that the operations add. */
  function AllSaid(ops: seq<Operation>, r: Registers, history: seq<Byte>, dictSize: nat): (h: seq<Byte>)
    requires AllValid(ops, r, history, dictSize)
    ensures |history| <= |h| && history <= h
    decreases |ops|
  {
    if ops == [] then history else AllSaid(ops[1..], After(r, ops[0]), Said(ops[0], r, history), dictSize)
  }

  function AllAfter(ops: seq<Operation>, r: Registers, history: seq<Byte>, dictSize: nat): (r1: Registers)
    requires AllValid(ops, r, history, dictSize) && RegistersValid(r)
    ensures RegistersValid(r1)
    decreases |ops|
  {
    if ops == [] then r
    else
      AfterValid(r, ops[0]);
      AllAfter(ops[1..], After(r, ops[0]), Said(ops[0], r, history), dictSize)
  }

  function AllChoices(ops: seq<Operation>, r: Registers, p: Properties, history: seq<Byte>, dictSize: nat): seq<Choice>
    requires AllValid(ops, r, history, dictSize) && PropertiesFit(p)
    decreases |ops|
  {
    if ops == [] then []
    else
      Choices(ops[0], r, p, history) +
      AllChoices(ops[1..], After(r, ops[0]), p, Said(ops[0], r, history), dictSize)
  }

  lemma AfterValid(r: Registers, op: Operation)
    requires RegistersValid(r) && OperationFits(op)
    ensures RegistersValid(After(r, op))
  {
    var reps := NextReps(r.reps, op);
    forall i | 0 <= i < 4
      ensures i < |reps| && reps[i] < 0x1_0000_0000
    {
      assert forall j :: 0 <= j < 4 ==> r.reps[j] in r.reps;
    }
  }

  // ---------- Coders between operations ----------

  /** The decoder normalizes behind every operation; the code is the same. */
  function ScaledCoder(k: Coder): Coder {
    k.(at := Scaled(k.at))
  }

  lemma ScaledTwice(e: Interval)
    requires IntervalValid(e)
    ensures IntervalValid(Scaled(e)) && Scaled(Scaled(e)) == Scaled(e)
  {
  }

  lemma PutScaled(k: Coder, c: Choice)
    requires IntervalValid(k.at)
    ensures Put(ScaledCoder(k), c) == Put(k, c)
  {
    ScaledTwice(k.at);
  }

  lemma CodeScaled(k: Coder, todo: seq<Choice>)
    requires IntervalValid(k.at)
    ensures Code(ScaledCoder(k), todo) == Code(k, todo)
  {
    hide Put, Scaled;
    ScaledTwice(k.at);
    if todo != [] {
      PutScaled(k, todo[0]);
    }
  }

  lemma NormalizeSync(input: seq<Byte>, base: int, m: S.Model, k: Coder, todo: seq<Choice>)
    requires Sync(input, base, m, k, todo)
    ensures Sync(input, base, NormalizeModel(input, m), ScaledCoder(k), todo)
    ensures Code(ScaledCoder(k), todo) == Code(k, todo)
    ensures m.rc.pos <= NormalizeModel(input, m).rc.pos <= base + |CodeBytes(Code(k, todo))|
  {
    hide Models, Code, Tuned, Scaled, CodeBytes, Normalize;
    TunedValid(input, base, m.rc, k.at, Code(k, todo));
    CodeScaled(k, todo);
    ScaledTwice(k.at);
    CodeHolds(ScaledCoder(k), todo);
    NormalizeTuned(input, base, m.rc, k.at, Code(k, todo));
    TunedInside(input, base, NormalizeModel(input, m).rc, ScaledCoder(k).at, Code(k, todo));
    NormalizeRestores(input, m.rc);
  }

  lemma TunedInside(input: seq<Byte>, base: int, rc: Rc, e: Interval, f: Interval)
    requires Tuned(input, base, rc, e, f)
    ensures base + 5 <= rc.pos <= base + |CodeBytes(f)|
  {
  }

  // ---------- Steps of the decoder ----------

  lemma DecodeNext(stream: seq<Byte>, st: Lzma2State, st1: Lzma2State)
    requires Inv(st) && 0 <= st.Pos() <= |stream| && Step(stream, st) == Next(st1)
    ensures Inv(st1) && st.Pos() <= st1.Pos() <= |stream| && Decode(stream, st) == Decode(stream, st1)
  {
    hide Inv, Step;
    StepInv(stream, st);
  }

  lemma ByteNext(stream: seq<Byte>, st: Lzma2State, st1: Lzma2State)
    requires Inv(st) && 0 <= st.Pos() < |stream| && !st.sequence.LzmaRun?
    requires st.sequence.LzmaPrepare? ==> st.initBytesLeft > 0 && st.compressed >= RC_INIT_BYTES
    requires st.sequence.CopyRun? ==> st.compressed > 0
    requires ByteStep(st, stream[st.Pos()]) == Next(st1)
    ensures Inv(st1) && st1.Pos() == st.Pos() + 1 <= |stream| && Decode(stream, st) == Decode(stream, st1)
  {
    hide Inv, ByteStep;
    ByteStepInv(st, stream[st.Pos()]);
    DecodeNext(stream, st, st1);
  }

  // ---------- Inside a chunk of operations ----------

  /** The decoder is in front of operations whose choices are todo; the chunk ends at end, extra bytes behind its
      code. */
  ghost predicate InRun(stream: seq<Byte>, base: int, end: nat, extra: nat, st: Lzma2State, k: Coder, r: Registers,
                        p: Properties,
                        todo: seq<Choice>) {
    && Inv(st) && st.sequence.LzmaRun? && 0 <= base && 0 <= st.Pos() <= end <= |stream|
    && st.compressed == end - st.Pos() && end == base + |CodeBytes(Code(k, todo))| + extra
    && st.z.len == 0 && Holding(st.z, r, p)
    && Scaled(k.at) == k.at && Sync(ChunkWindow(stream, end), base, st.m, k, todo)
  }

  /** The state after an operation, before what it says is given out. */
  function Read(stream: seq<Byte>, end: nat, st: Lzma2State): Lzma2State
    requires S.PropsValid(st.z)
  {
    var window := ChunkWindow(stream, end);
    var d := S.DecodeSymbol(window, st.m, st.z, st.history);
    var m1 := NormalizeModel(window, d.m);
    st.(z := d.z, m := m1, compressed := if m1.rc.pos <= end then end - m1.rc.pos else 0)
  }

  /** What the operation does to the decoder. */
  lemma OperationRead(stream: seq<Byte>, base: int, end: nat, extra: nat, st: Lzma2State, k: Coder, r: Registers,
                      p: Properties,
                      op: Operation, rest: seq<Choice>)
    requires OperationFits(op) && Holding(st.z, r, p)
    requires InRun(stream, base, end, extra, st, k, r, p, Choices(op, r, p, st.history) + rest)
    ensures S.PropsValid(st.z)
    ensures var st1 := Read(stream, end, st);
            var k1 := ScaledCoder(PutAll(k, Choices(op, r, p, st.history)));
            && st.Pos() <= st1.Pos() <= end && st1.compressed == end - st1.Pos()
            && end == base + |CodeBytes(Code(k1, rest))| + extra
            && Holding(st1.z, After(r, op), p) && st1.z.len == (if op.Literal? then 0 else Length(op))
            && Scaled(k1.at) == k1.at && Sync(ChunkWindow(stream, end), base, st1.m, k1, rest)
            && st1.m.rc.range >= TOP_VALUE
            && S.DecodeSymbol(ChunkWindow(stream, end), st.m, st.z, st.history).symbol
               == (if op.Literal? then S.Lit(op.byte) else S.Copy)
  {
    hide Inv, Sync, Choices, S.DecodeSymbol, Scaled, Normalize, CodeBytes, Code, PutAll, Pow2, S.PropsValid;
    var window := ChunkWindow(stream, end);
    var cs := Choices(op, r, p, st.history);
    SymbolSync(window, base, st.m, k, st.z, r, p, st.history, op, rest);
    var d := S.DecodeSymbol(window, st.m, st.z, st.history);
    NormalizeSync(window, base, d.m, PutAll(k, cs), rest);
    NormalizeRestores(window, d.m.rc);
    CodeJoin(k, cs, rest);
    SyncValid(window, base, d.m, PutAll(k, cs), rest);
    ScaledTwice(PutAll(k, cs).at);
  }

  lemma CodeJoin(k: Coder, a: seq<Choice>, b: seq<Choice>)
    ensures Code(k, a + b) == Code(PutAll(k, a), b)
  {
    PutAllJoin(k, a, b);
  }

  lemma SyncValid(input: seq<Byte>, base: int, m: S.Model, k: Coder, todo: seq<Choice>)
    requires Sync(input, base, m, k, todo)
    ensures IntervalValid(k.at)
  {
  }

  // ---------- Giving out what was read ----------

  /** The state when n bytes of a match were given out. */
  function Given(st: Lzma2State, n: nat): (st1: Lzma2State)
    requires n <= st.z.len && n <= st.uncompressed
    ensures st1.z.len == st.z.len - n && st1.uncompressed == st.uncompressed - n
    decreases n
  {
    if n == 0 then st else Given(EmitMatch(st), n - 1)
  }

  lemma {:induction false} GivenIs(st: Lzma2State, n: nat)
    requires n <= st.z.len && n <= st.uncompressed && st.z.rep0 < |st.history|
    ensures var h := CopyBack(st.history, st.z.rep0, n);
            Given(st, n) == st.(z := st.z.(len := st.z.len - n), uncompressed := st.uncompressed - n, history := h,
                                out := st.out + h[|st.history|..])
    decreases n
  {
    if n == 0 {
      assert st.out + [] == st.out;
    } else {
      var st1 := EmitMatch(st);
      GivenIs(st1, n - 1);
      var h := CopyBack(st.history, st.z.rep0, n);
      MoreOut(st.out, st.history, S.HistoryGet(st.history, st.z.rep0), h);
    }
  }

  lemma MoreOut(out: seq<Byte>, history: seq<Byte>, byte: Byte, h: seq<Byte>)
    requires history + [byte] <= h
    ensures (out + [byte]) + h[|history| + 1..] == out + h[|history|..]
  {
    assert h[|history|..] == [byte] + h[|history| + 1..];
  }

  lemma {:induction false} DecodeGiven(stream: seq<Byte>, st: Lzma2State, n: nat)
    requires Inv(st) && 0 <= st.Pos() <= |stream| && st.sequence.LzmaRun?
    requires n <= st.z.len && n <= st.uncompressed
    ensures Inv(Given(st, n)) && Given(st, n).Pos() == st.Pos() && Decode(stream, st) == Decode(stream, Given(st, n))
    decreases n
  {
    hide Inv, Decode, EmitMatch;
    if n > 0 {
      EmitsNext(stream, st);
      DecodeNext(stream, st, EmitMatch(st));
      EmitKeeps(st);
      DecodeGiven(stream, EmitMatch(st), n - 1);
    }
  }

  lemma EmitsNext(stream: seq<Byte>, st: Lzma2State)
    requires Inv(st) && 0 <= st.Pos() <= |stream| && st.sequence.LzmaRun? && st.z.len > 0 && st.uncompressed > 0
    ensures Step(stream, st) == Next(EmitMatch(st))
  {
    hide SymbolStep, S.PropsValid;
  }

  lemma EmitKeeps(st: Lzma2State)
    requires st.uncompressed > 0 && st.z.len > 0
    ensures var st1 := EmitMatch(st);
            && st1.sequence == st.sequence && st1.z.len == st.z.len - 1 && st1.uncompressed == st.uncompressed - 1
            && st1.Pos() == st.Pos()
  {
  }

  // ---------- One operation, all operations ----------

  lemma FrontIs(r: Registers, op: Operation)
    requires RegistersValid(r) && OperationFits(op) && !op.Literal?
    ensures After(r, op).reps[0] == BackOf(op, r)
  {
  }

  lemma StepReads(stream: seq<Byte>, end: nat, st: Lzma2State)
    requires Inv(st) && 0 <= st.Pos() <= end <= |stream| && st.sequence.LzmaRun? && S.PropsValid(st.z)
    requires st.uncompressed > 0 && st.z.len == 0 && st.compressed == end - st.Pos()
    requires Read(stream, end, st).Pos() <= end
    ensures var st1 := Read(stream, end, st);
            var symbol := S.DecodeSymbol(ChunkWindow(stream, end), st.m, st.z, st.history).symbol;
            && (symbol.Lit? ==> Step(stream, st) == Next(Emit(st1, symbol.byte)))
            && (symbol.Copy? && RepValid(st1) ==> st1.z.len > 0 && Step(stream, st) == Next(EmitMatch(st1)))
  {
    hide Inv, S.DecodeSymbol, Normalize, S.PropsValid;
  }

  lemma RunLiteral(stream: seq<Byte>, base: int, end: nat, extra: nat, st: Lzma2State, k: Coder, r: Registers,
                   p: Properties,
                   op: Operation, rest: seq<Choice>) returns (st2: Lzma2State)
    requires op.Literal? && Holding(st.z, r, p) && st.uncompressed > 0
    requires InRun(stream, base, end, extra, st, k, r, p, Choices(op, r, p, st.history) + rest)
    ensures S.PropsValid(st.z)
    ensures st2 == Emit(Read(stream, end, st), op.byte)
    ensures InRun(stream, base, end, extra, st2, ScaledCoder(PutAll(k, Choices(op, r, p, st.history))), After(r, op), p,
                  rest)
    ensures Decode(stream, st) == Decode(stream, st2)
  {
    hide Inv, Sync, Choices, S.DecodeSymbol, Scaled, Normalize, CodeBytes, Code, PutAll, Pow2, S.PropsValid, Read;
    hide ScaledCoder, Decode, Step;
    OperationRead(stream, base, end, extra, st, k, r, p, op, rest);
    StepReads(stream, end, st);
    ReadKeeps(stream, end, st);
    st2 := Emit(Read(stream, end, st), op.byte);
    DecodeNext(stream, st, st2);
  }

  lemma ReadKeeps(stream: seq<Byte>, end: nat, st: Lzma2State)
    requires S.PropsValid(st.z)
    ensures var st1 := Read(stream, end, st);
            st1 == st.(z := st1.z, m := st1.m, compressed := st1.compressed)
  {
    hide S.DecodeSymbol;
  }

  lemma RunCopy(stream: seq<Byte>, base: int, end: nat, extra: nat, st: Lzma2State, k: Coder, r: Registers,
                p: Properties,
                op: Operation, rest: seq<Choice>) returns (st2: Lzma2State)
    requires !op.Literal? && OperationValid(op, r, st.history, st.dictSize) && Holding(st.z, r, p)
    requires st.uncompressed >= Length(op)
    requires InRun(stream, base, end, extra, st, k, r, p, Choices(op, r, p, st.history) + rest)
    ensures S.PropsValid(st.z) && st2.z.rep0 == BackOf(op, r)
    ensures var st1 := Read(stream, end, st);
            && Length(op) <= st1.z.len && Length(op) <= st1.uncompressed && st2 == Given(st1, Length(op))
    ensures InRun(stream, base, end, extra, st2, ScaledCoder(PutAll(k, Choices(op, r, p, st.history))), After(r, op), p,
                  rest)
    ensures Decode(stream, st) == Decode(stream, st2)
  {
    hide Inv, Sync, Choices, S.DecodeSymbol, Scaled, Normalize, CodeBytes, Code, PutAll, Pow2, S.PropsValid, Read;
    hide ScaledCoder, Decode, Step, Given, EmitMatch, After, CopyBack;
    OperationRead(stream, base, end, extra, st, k, r, p, op, rest);
    StepReads(stream, end, st);
    ReadKeeps(stream, end, st);
    FrontIs(r, op);
    var st1, n := Read(stream, end, st), Length(op);
    var first := EmitMatch(st1);
    DecodeNext(stream, st, first);
    EmitKeeps(st1);
    DecodeGiven(stream, first, n - 1);
    GivenMore(st1, n);
    GivenIs(st1, n);
    st2 := Given(st1, n);
  }

  lemma GivenMore(st: Lzma2State, n: nat)
    requires 0 < n <= st.z.len && n <= st.uncompressed
    ensures Given(st, n) == Given(EmitMatch(st), n - 1)
  {
  }

  /** Everything of a state that a chunk does not change. */
  predicate SameStream(st: Lzma2State, st2: Lzma2State) {
    && st2.dictSize == st.dictSize && st2.needDictReset == st.needDictReset && st2.needProps == st.needProps
    && |st.history| <= |st2.history| && st2.out == st.out + st2.history[|st.history|..]
  }

  lemma RunOperation(stream: seq<Byte>, base: int, end: nat, extra: nat, st: Lzma2State, k: Coder, r: Registers,
                     p: Properties,
                     op: Operation, rest: seq<Choice>) returns (st2: Lzma2State)
    requires OperationValid(op, r, st.history, st.dictSize) && Holding(st.z, r, p) && st.uncompressed >= Length(op)
    requires InRun(stream, base, end, extra, st, k, r, p, Choices(op, r, p, st.history) + rest)
    ensures InRun(stream, base, end, extra, st2, ScaledCoder(PutAll(k, Choices(op, r, p, st.history))), After(r, op), p,
                  rest)
    ensures Decode(stream, st) == Decode(stream, st2)
    ensures st2.history == Said(op, r, st.history) && st2.uncompressed == st.uncompressed - Length(op)
    ensures SameStream(st, st2)
  {
    hide InRun, Choices, S.DecodeSymbol, Normalize, PutAll, S.PropsValid, Read, Inv, Decode, Holding, ScaledCoder;
    if op.Literal? {
      st2 := RunLiteral(stream, base, end, extra, st, k, r, p, op, rest);
      ReadKeeps(stream, end, st);
    } else {
      st2 := RunCopy(stream, base, end, extra, st, k, r, p, op, rest);
      ReadKeeps(stream, end, st);
      var st1 := Read(stream, end, st);
      RepOfGiven(st1, Length(op));
      GivenIs(st1, Length(op));
    }
  }

  lemma {:induction false} RepOfGiven(st: Lzma2State, n: nat)
    requires n <= st.z.len && n <= st.uncompressed
    ensures Given(st, n).z.rep0 == st.z.rep0
    decreases n
  {
    if n > 0 {
      RepOfGiven(EmitMatch(st), n - 1);
    }
  }

  lemma {:induction false} RunAll(stream: seq<Byte>, base: int, end: nat, extra: nat, st: Lzma2State, k: Coder,
                                  r: Registers,
                                  p: Properties, ops: seq<Operation>) returns (st2: Lzma2State, k2: Coder)
    requires Holding(st.z, r, p) && AllValid(ops, r, st.history, st.dictSize)
    requires st.uncompressed == |AllSaid(ops, r, st.history, st.dictSize)| - |st.history|
    requires InRun(stream, base, end, extra, st, k, r, p, AllChoices(ops, r, p, st.history, st.dictSize))
    ensures InRun(stream, base, end, extra, st2, k2, AllAfter(ops, r, st.history, st.dictSize), p, [])
    ensures k2.past == k.past + AllChoices(ops, r, p, st.history, st.dictSize)
    ensures Decode(stream, st) == Decode(stream, st2)
    ensures st2.history == AllSaid(ops, r, st.history, st.dictSize) && st2.uncompressed == 0
    ensures SameStream(st, st2)
    decreases |ops|
  {
    hide Choices, PutAll, Inv, Decode, Sync, CodeBytes, Code, Scaled, Normalize, S.PropsValid, InRun;
    hide Said, After;
    if ops == [] {
      st2, k2 := st, k;
      assert k.past + [] == k.past && st.out + [] == st.out;
    } else {
      var op, h := ops[0], st.history;
      var first := Choices(op, r, p, h);
      var rest := AllChoices(ops[1..], After(r, op), p, Said(op, r, h), st.dictSize);
      var st1 := RunOperation(stream, base, end, extra, st, k, r, p, op, rest);
      var k1 := ScaledCoder(PutAll(k, first));
      PutAllPast(k, first);
      RunHolds(stream, base, end, extra, st1, k1, After(r, op), p, rest);
      st2, k2 := RunAll(stream, base, end, extra, st1, k1, After(r, op), p, ops[1..]);
      OutJoin(st, st1, st2);
      Both(k.past, first, rest);
    }
  }

  lemma RunHolds(stream: seq<Byte>, base: int, end: nat, extra: nat, st: Lzma2State, k: Coder, r: Registers,
                 p: Properties, todo: seq<Choice>)
    requires InRun(stream, base, end, extra, st, k, r, p, todo)
    ensures Inv(st) && 0 <= st.Pos() <= |stream| && Holding(st.z, r, p) && Models(st.m.probs, k.past)
    ensures st.z.len == 0 && RegistersValid(r)
  {
    hide Inv, Models, Tuned, AllKnown, CodeBytes, Code, Scaled;
  }

  lemma OutJoin(st: Lzma2State, st1: Lzma2State, st2: Lzma2State)
    requires SameStream(st, st1) && SameStream(st1, st2) && st1.history <= st2.history
    ensures SameStream(st, st2)
  {
    assert st2.history[|st.history|..] == st1.history[|st.history|..] + st2.history[|st1.history|..];
  }

  /** At the end of the operations only what the chunk has behind its code is left, and the range decoder holds zero. */
  lemma RunEnds(stream: seq<Byte>, base: int, end: nat, extra: nat, st: Lzma2State, k: Coder, r: Registers,
                p: Properties)
    requires InRun(stream, base, end, extra, st, k, r, p, []) && st.uncompressed == 0
    ensures st.Pos() == end - extra
    ensures Step(stream, st) ==
            if extra > 0 then Stop(Corrupt, st.Pos())
            else Next(st.(m := ResetRc(st.m), initBytesLeft := RC_INIT_BYTES, sequence := Control))
  {
    hide Models, Tuned, S.PropsValid, CodeBytes, Scaled;
    NothingToCode(k);
    EndTuned(ChunkWindow(stream, end), base, st.m.rc, k.at);
  }

  /** A chunk that is longer than its code is refused. */
  lemma ExtraRefused(stream: seq<Byte>, base: int, end: nat, extra: nat, st: Lzma2State, k: Coder, r: Registers,
                     p: Properties, ops: seq<Operation>)
    requires Holding(st.z, r, p) && AllValid(ops, r, st.history, st.dictSize) && extra > 0
    requires st.uncompressed == |AllSaid(ops, r, st.history, st.dictSize)| - |st.history|
    requires InRun(stream, base, end, extra, st, k, r, p, AllChoices(ops, r, p, st.history, st.dictSize))
    ensures Inv(st) && 0 <= st.Pos() <= |stream|
    ensures var h := AllSaid(ops, r, st.history, st.dictSize);
            Decode(stream, st) == Outcome(Corrupt, st.out + h[|st.history|..], end - extra)
  {
    hide Inv, Decode, Sync, Holding, CodeBytes, Code, Step;
    var last, k1 := RunAll(stream, base, end, extra, st, k, r, p, ops);
    RunEnds(stream, base, end, extra, last, k1, AllAfter(ops, r, st.history, st.dictSize), p);
    DecodeStops(stream, last, Corrupt, last.Pos());
  }

  lemma DecodeStops(stream: seq<Byte>, st: Lzma2State, status: Status, pos: int)
    requires Inv(st) && 0 <= st.Pos() <= |stream| && Step(stream, st) == Stop(status, pos)
    ensures Decode(stream, st) == Outcome(status, st.out, pos)
  {
    hide Inv, Step;
  }

  /** So is a chunk that ends within a match. */
  lemma CutRefused(stream: seq<Byte>, base: int, end: nat, extra: nat, st: Lzma2State, k: Coder, r: Registers,
                   p: Properties, op: Operation, rest: seq<Choice>)
    requires OperationValid(op, r, st.history, st.dictSize) && Holding(st.z, r, p) && 0 < st.uncompressed < Length(op)
    requires InRun(stream, base, end, extra, st, k, r, p, Choices(op, r, p, st.history) + rest)
    ensures var h := CopyBack(st.history, BackOf(op, r), st.uncompressed);
            && Decode(stream, st).status == Corrupt
            && Decode(stream, st).out == st.out + h[|st.history|..]
  {
    hide Inv, Sync, Choices, S.DecodeSymbol, Scaled, Normalize, CodeBytes, Code, PutAll, Pow2, S.PropsValid, Read;
    hide ScaledCoder, Decode, Step, Given, EmitMatch;
    OperationRead(stream, base, end, extra, st, k, r, p, op, rest);
    StepReads(stream, end, st);
    ReadKeeps(stream, end, st);
    FrontIs(r, op);
    var st1, n := Read(stream, end, st), st.uncompressed;
    var first := EmitMatch(st1);
    DecodeNext(stream, st, first);
    EmitKeeps(st1);
    DecodeGiven(stream, first, n - 1);
    GivenMore(st1, n);
    GivenIs(st1, n);
    var last := Given(st1, n);
    CutStops(stream, last);
    DecodeStops(stream, last, Corrupt, last.Pos());
  }

  lemma CutStops(stream: seq<Byte>, st: Lzma2State)
    requires Inv(st) && 0 <= st.Pos() <= |stream| && st.sequence.LzmaRun? && st.uncompressed == 0 && st.z.len > 0
    ensures Step(stream, st) == Stop(Corrupt, st.Pos())
  {
    hide S.PropsValid;
  }

  lemma NothingToCode(k: Coder)
    ensures Code(k, []) == Scaled(k.at)
  {
  }

  /** A distance that reaches before the text, or out of the dictionary, is refused. */
  lemma TooFar(stream: seq<Byte>, base: int, end: nat, extra: nat, st: Lzma2State, k: Coder, r: Registers,
               p: Properties,
               op: Operation, rest: seq<Choice>)
    requires OperationFits(op) && !op.Literal? && Holding(st.z, r, p) && st.uncompressed > 0
    requires BackOf(op, r) >= |st.history| || BackOf(op, r) >= st.dictSize
    requires InRun(stream, base, end, extra, st, k, r, p, Choices(op, r, p, st.history) + rest)
    ensures Decode(stream, st) == Outcome(Corrupt, st.out, st.Pos())
  {
    hide Inv, Sync, Choices, S.DecodeSymbol, Scaled, Normalize, CodeBytes, Code, PutAll, Pow2, S.PropsValid;
    OperationRead(stream, base, end, extra, st, k, r, p, op, rest);
    FrontIs(r, op);
    assert Step(stream, st) == Stop(Corrupt, st.Pos());
  }
}
