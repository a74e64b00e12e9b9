/** Steps of the reference machine against batches of work of the real decoder: several bytes of a
    match at a time, and symbols decoded from a buffer that holds only part of the stream. */
module Lzma2Sync {
  import opened Basics
  import opened RangeCoder
  import opened LzmaSymbol
  import opened LzmaSymbolProofs
  import opened Lzma2Reference
  import opened Dictionary

  // ---------- Facts about whole streams ----------

  /** Output only grows. */
  lemma {:induction false} DecodeExtends(stream: seq<Byte>, st: Lzma2State)
    requires Inv(st) && 0 <= st.Pos() <= |stream|
    ensures st.out <= Decode(stream, st).out
    ensures 0 <= Decode(stream, st).pos <= |stream| + 1
    decreases |stream| - st.Pos(), Rank(st)
  {
    hide Inv;
    StepInv(stream, st);
    StepExtends(stream, st);
    hide Step;
    match Step(stream, st)
    case Stop(status, pos) =>
    case Next(st1) => DecodeExtends(stream, st1);
  }

  lemma StepExtends(stream: seq<Byte>, st: Lzma2State)
    requires Inv(st) && 0 <= st.Pos() <= |stream|
    ensures var r := Step(stream, st);
            match r
            case Next(st1) => st.out <= st1.out
            case Stop(_, pos) => 0 <= pos <= |stream| + 1
  {
    hide DecodeSymbol, Normalize, PropsValid, FreshProbs;
  }

  /** A chunk whose end is missing from the stream never leads to the end marker. */
  lemma {:induction false} TruncatedChunk(stream: seq<Byte>, st: Lzma2State)
    requires Inv(st) && 0 <= st.Pos() <= |stream|
    requires st.sequence.LzmaRun? && |stream| < st.Pos() + st.compressed
    ensures Decode(stream, st).status != Ended
    decreases |stream| - st.Pos(), Rank(st)
  {
    hide Inv;
    StepInv(stream, st);
    RunStaysInChunk(stream, st);
    hide Step;
    match Step(stream, st)
    case Stop(status, pos) =>
    case Next(st1) => TruncatedChunk(stream, st1);
  }

  lemma RunStaysInChunk(stream: seq<Byte>, st: Lzma2State)
    requires Inv(st) && 0 <= st.Pos() <= |stream| && st.sequence.LzmaRun? && st.compressed > 0
    ensures var r := Step(stream, st);
            match r
            case Next(st1) => st1.sequence.LzmaRun? && st1.Pos() + st1.compressed == st.Pos() + st.compressed
            case Stop(status, _) => status != Ended
  {
    hide DecodeSymbol, Normalize, PropsValid;
  }

  /** The position that the rest of the current LZMA chunk reaches to. */
  function ChunkEnd(st: Lzma2State): int {
    st.Pos() + (if st.sequence.LzmaRun? then st.compressed else 0)
  }

  /** The end marker comes behind the current chunk. */
  lemma {:induction false} EndsBehind(stream: seq<Byte>, st: Lzma2State)
    requires Inv(st) && 0 <= st.Pos() <= |stream|
    ensures Decode(stream, st).status == Ended ==> ChunkEnd(st) <= Decode(stream, st).pos <= |stream|
    decreases |stream| - st.Pos(), Rank(st)
  {
    hide Inv;
    StepInv(stream, st);
    StepEnds(stream, st);
    hide Step;
    match Step(stream, st)
    case Stop(status, pos) =>
    case Next(st1) => EndsBehind(stream, st1);
  }

  lemma StepEnds(stream: seq<Byte>, st: Lzma2State)
    requires Inv(st) && 0 <= st.Pos() <= |stream|
    ensures match Step(stream, st)
            case Next(st1) => ChunkEnd(st) <= ChunkEnd(st1)
            case Stop(status, pos) => status == Ended ==> ChunkEnd(st) <= pos <= |stream|
  {
    hide DecodeSymbol, Normalize, PropsValid, FreshProbs;
  }

  // ---------- Several bytes of a match ----------

  /** n bytes of the pending match. */
  function EmitMatches(st: Lzma2State, n: nat): Lzma2State
    requires n <= st.uncompressed && n <= st.z.len
  {
    var h := LzCopy(st.history, st.z.rep0, n);
    st.(
      uncompressed := st.uncompressed - n,
      z := st.z.(len := st.z.len - n),
      history := h,
      out := st.out + h[|st.history|..])
  }

  lemma EmitMatchesMore(st: Lzma2State, n: nat)
    requires n < st.uncompressed && n < st.z.len
    ensures EmitMatches(EmitMatch(st), n) == EmitMatches(st, n + 1)
  {
    var byte := HistoryGet(st.history, st.z.rep0);
    var next := st.history + [byte];
    var h := LzCopy(next, st.z.rep0, n);
    LzCopyKeeps(next, st.z.rep0, n);
    assert h == LzCopy(st.history, st.z.rep0, n + 1);
    assert h[|st.history|..] == [byte] + h[|next|..] by {
      assert h[..|next|][|st.history|] == byte;
    }
    assert (st.out + [byte]) + h[|next|..] == st.out + h[|st.history|..];
  }

  lemma EmitMatchesInv(st: Lzma2State, n: nat)
    requires Inv(st) && st.sequence.LzmaRun? && n <= st.uncompressed && n <= st.z.len
    ensures Inv(EmitMatches(st, n))
  {
    hide Pow2, LzCopy;
  }

  /** Emitting n bytes of a pending match does not change what the stream decodes to. */
  lemma {:induction false} EmitMatchesDecode(stream: seq<Byte>, st: Lzma2State, n: nat)
    requires Inv(st) && 0 <= st.Pos() <= |stream|
    requires st.sequence.LzmaRun? && n <= st.uncompressed && n <= st.z.len
    ensures Inv(EmitMatches(st, n))
    ensures Decode(stream, EmitMatches(st, n)) == Decode(stream, st)
    decreases n
  {
    hide Inv, EmitMatch, EmitMatches, Step, Rank;
    EmitMatchesInv(st, n);
    if n == 0 {
      EmitMatchesNone(st);
    } else {
      PendingStep(stream, st);
      EmitMatchesMore(st, n - 1);
      EmitMatchesDecode(stream, EmitMatch(st), n - 1);
    }
  }

  lemma EmitMatchesNone(st: Lzma2State)
    ensures EmitMatches(st, 0) == st
  {
    assert st.history[|st.history|..] == [];
  }

  lemma PendingStep(stream: seq<Byte>, st: Lzma2State)
    requires Inv(st) && 0 <= st.Pos() <= |stream|
    requires st.sequence.LzmaRun? && 0 < st.uncompressed && 0 < st.z.len
    ensures Step(stream, st) == Next(EmitMatch(st)) && Inv(EmitMatch(st))
    ensures var e := EmitMatch(st);
            && e.sequence.LzmaRun?
            && e.Pos() == st.Pos()
            && e.uncompressed == st.uncompressed - 1
            && e.z.len == st.z.len - 1
  {
    hide SymbolStep, PropsValid, HistoryGet;
    EmitMatchInv(st);
  }

  // ---------- A symbol from a partial buffer ----------

  lemma SymbolAfterNormalize(input: seq<Byte>, m: Model, z: Lzma, history: seq<Byte>)
    requires PropsValid(z)
    ensures DecodeSymbol(input, NormalizeModel(input, m), z, history) == DecodeSymbol(input, m, z, history)
  {
    hide RepMatch, Match, LiteralBits, LiteralCoder, PosState, PropsValid;
    NormalizeRestores(input, m.rc);
    var i := IS_MATCH + 16 * z.state + PosState(z, history);
    assert Bit(input, NormalizeModel(input, m), i) == Bit(input, m, i);
  }

  /** Where the decoder is: input holds the bytes of the stream's current chunk delta bytes earlier, up
      to index lim; lim is the end of the chunk unless the bytes up to lim are enough for a symbol. */
  ghost predicate Window(stream: seq<Byte>, end: int, input: seq<Byte>, delta: int, lo: int, lim: int) {
    && 0 <= end
    && lim + delta <= |ChunkWindow(stream, end)|
    && Agree(input, ChunkWindow(stream, end), delta, lo, lim)
  }

  /** The state after a symbol decoded from input, as the reference machine would have it. */
  function AfterSymbol(st: Lzma2State, input: seq<Byte>, delta: int, end: int, r: SymbolResult): Lzma2State
    requires Normalize(input, r.m.rc).pos + delta <= end
  {
    var rc := Shift(Normalize(input, r.m.rc), delta);
    st.(z := r.z, m := Model(rc, r.m.probs), compressed := end - rc.pos)
  }

  /** Decoding a symbol from the buffer is the reference step, as long as it stays below lim. */
  lemma SyncedSymbol(stream: seq<Byte>, st: Lzma2State, input: seq<Byte>, m: Model, delta: int, lo: int, lim: int)
    requires PropsValid(st.z) && 0 <= st.Pos() <= |stream| && st.uncompressed > 0
    requires st.m == Moved(NormalizeModel(input, m), delta) && lo <= m.rc.pos
    requires Window(stream, st.Pos() + st.compressed, input, delta, lo, lim)
    ensures var end := st.Pos() + st.compressed;
            var r := DecodeSymbol(input, m, st.z, st.history);
            Normalize(input, r.m.rc).pos <= lim ==>
              var st1 := AfterSymbol(st, input, delta, end, r);
              SymbolStep(stream, st) ==
                match r.symbol
                case Lit(byte) => Next(Emit(st1, byte))
                case Copy => if RepValid(st1) then Next(EmitMatch(st1)) else Stop(Corrupt, st.Pos())
  {
    hide DecodeSymbol, Normalize, Agree, ChunkWindow, PropsValid;
    var end := st.Pos() + st.compressed;
    var window := ChunkWindow(stream, end);
    var n := NormalizeModel(input, m);
    var r := DecodeSymbol(input, m, st.z, st.history);
    NormalizeRestores(input, m.rc);
    NormalizeRestores(input, r.m.rc);
    SymbolAfterNormalize(input, m, st.z, st.history);
    SymbolMoves(input, window, delta, lo, lim, n, st.z, st.history);
    NormalizeShift(input, window, delta, lo, lim, r.m.rc);
  }

  /** And past lim, where that is the end of the chunk, the reference machine fails too. */
  lemma OverrunSymbol(stream: seq<Byte>, st: Lzma2State, input: seq<Byte>, m: Model, delta: int, lo: int, lim: int)
    requires PropsValid(st.z) && 0 <= st.Pos() <= |stream| && st.uncompressed > 0
    requires st.m == Moved(NormalizeModel(input, m), delta) && lo <= m.rc.pos
    requires Window(stream, st.Pos() + st.compressed, input, delta, lo, lim)
    requires lim + delta == st.Pos() + st.compressed <= |stream|
    ensures Normalize(input, DecodeSymbol(input, m, st.z, st.history).m.rc).pos > lim ==>
              SymbolStep(stream, st) == Stop(Corrupt, st.Pos())
  {
    hide DecodeSymbol, Normalize, Agree, ChunkWindow, PropsValid;
    var end := st.Pos() + st.compressed;
    var window := ChunkWindow(stream, end);
    var n := NormalizeModel(input, m);
    NormalizeRestores(input, m.rc);
    SymbolAfterNormalize(input, m, st.z, st.history);
    assert Moved(st.m, -delta) == n;
    BackAgree(input, window, delta, lo, lim);
    var r := DecodeSymbol(window, st.m, st.z, st.history);
    SymbolMoves(window, input, -delta, lo + delta, end, st.m, st.z, st.history);
    NormalizeShift(window, input, -delta, lo + delta, end, r.m.rc);
    NormalizeRestores(window, r.m.rc);
  }

  lemma BackAgree(input: seq<Byte>, window: seq<Byte>, delta: int, lo: int, lim: int)
    requires Agree(input, window, delta, lo, lim)
    ensures Agree(window, input, -delta, lo + delta, lim + delta)
  {
    forall i | lo + delta <= i < lim + delta
      ensures Peek(window, i) == Peek(input, i - delta)
    {
      var j := i - delta;
      assert Peek(input, j) == Peek(window, j + delta);
    }
  }

  // ---------- One iteration of the decoding loop ----------

  /** The decoder, about to decode a symbol of an LZMA chunk from input, is in step with st. */
  ghost predicate InStep(stream: seq<Byte>, st: Lzma2State, input: seq<Byte>, m: Model, delta: int, lo: int, lim: int) {
    && Inv(st) && st.sequence.LzmaRun? && 0 <= st.Pos() <= |stream|
    && st.m == Moved(NormalizeModel(input, m), delta)
    && lo <= m.rc.pos && Normalize(input, m.rc).pos <= lim
    && Window(stream, st.Pos() + st.compressed, input, delta, lo, lim)
  }

  lemma RunPropsValid(st: Lzma2State)
    requires Inv(st) && st.sequence.LzmaRun?
    ensures PropsValid(st.z)
  {
    hide PropsValid;
  }

  lemma RunStepIsStep(stream: seq<Byte>, st: Lzma2State)
    requires Inv(st) && 0 <= st.Pos() <= |stream| && st.sequence.LzmaRun? && st.uncompressed > 0 && st.z.len == 0
    ensures PropsValid(st.z)
    ensures Step(stream, st) == SymbolStep(stream, st)
  {
    hide SymbolStep, PropsValid;
  }

  /** A literal: the state after it decodes to the same. */
  lemma LiteralInStep(stream: seq<Byte>, st: Lzma2State, input: seq<Byte>, m: Model, delta: int, lo: int, lim: int)
    requires InStep(stream, st, input, m, delta, lo, lim)
    requires st.uncompressed > 0 && st.z.len == 0 && PropsValid(st.z)
    ensures var r := DecodeSymbol(input, m, st.z, st.history);
            Normalize(input, r.m.rc).pos <= lim && r.symbol.Lit? ==>
              var next := Emit(AfterSymbol(st, input, delta, st.Pos() + st.compressed, r), r.symbol.byte);
              && Inv(next)
              && 0 <= next.Pos() <= |stream|
              && Decode(stream, next) == Decode(stream, st)
  {
    hide DecodeSymbol, Normalize, Agree, Inv, PropsValid, SymbolStep, Step, AfterSymbol, ChunkWindow;
    WindowBelowEnd(stream, st.Pos() + st.compressed, input, delta, lo, lim);
    SyncedSymbol(stream, st, input, m, delta, lo, lim);
    RunStepIsStep(stream, st);
    StepInv(stream, st);
  }

  lemma WindowBelowEnd(stream: seq<Byte>, end: int, input: seq<Byte>, delta: int, lo: int, lim: int)
    requires Window(stream, end, input, delta, lo, lim)
    ensures lim + delta <= end
  {
  }

  /** A match: the state after its first n bytes decodes to the same; a distance outside the history
      makes the stream corrupt. */
  lemma MatchInStep(stream: seq<Byte>, st: Lzma2State, input: seq<Byte>, m: Model, delta: int, lo: int, lim: int,
                    n: nat)
    requires InStep(stream, st, input, m, delta, lo, lim)
    requires 0 < n <= st.uncompressed && st.z.len == 0 && PropsValid(st.z)
    ensures var r := DecodeSymbol(input, m, st.z, st.history);
            Normalize(input, r.m.rc).pos <= lim && r.symbol.Copy? && n <= r.z.len ==>
              var after := AfterSymbol(st, input, delta, st.Pos() + st.compressed, r);
              && (!RepValid(after) ==> Decode(stream, st).status == Corrupt)
              && (RepValid(after) ==>
                   var next := EmitMatches(after, n);
                   && Inv(next)
                   && 0 <= next.Pos() <= |stream|
                   && Decode(stream, next) == Decode(stream, st))
  {
    hide DecodeSymbol, Normalize, Agree, Inv, PropsValid, SymbolStep, Step, ChunkWindow, EmitMatches, LzCopy;
    hide HistoryGet, Rank;
    WindowBelowEnd(stream, st.Pos() + st.compressed, input, delta, lo, lim);
    SyncedSymbol(stream, st, input, m, delta, lo, lim);
    RunStepIsStep(stream, st);
    StepInv(stream, st);
    var r := DecodeSymbol(input, m, st.z, st.history);
    if Normalize(input, r.m.rc).pos <= lim && r.symbol.Copy? && n <= r.z.len {
      var after := AfterSymbol(st, input, delta, st.Pos() + st.compressed, r);
      if RepValid(after) {
        EmitMatchesMore(after, n - 1);
        EmitMatchesDecode(stream, EmitMatch(after), n - 1);
        EmitMatchesPos(after, n);
      }
    }
  }

  lemma EmitMatchesPos(st: Lzma2State, n: nat)
    requires n <= st.uncompressed && n <= st.z.len
    ensures EmitMatches(st, n).m == st.m
  {
  }

  /** Reading past the end of the chunk: the stream is corrupt. */
  lemma OverrunIsCorrupt(stream: seq<Byte>, st: Lzma2State, input: seq<Byte>, m: Model, delta: int, lo: int, lim: int)
    requires InStep(stream, st, input, m, delta, lo, lim)
    requires st.uncompressed > 0 && st.z.len == 0 && PropsValid(st.z)
    requires lim + delta == st.Pos() + st.compressed <= |stream|
    ensures Normalize(input, DecodeSymbol(input, m, st.z, st.history).m.rc).pos > lim ==>
              Decode(stream, st).status == Corrupt
  {
    hide DecodeSymbol, Normalize, Agree, Inv, PropsValid, SymbolStep, Step, ChunkWindow;
    OverrunSymbol(stream, st, input, m, delta, lo, lim);
    RunStepIsStep(stream, st);
  }

  /** A state from which the stream decodes to target. */
  ghost predicate Decodes(stream: seq<Byte>, st: Lzma2State, target: Outcome) {
    Inv(st) && 0 <= st.Pos() <= |stream| && Decode(stream, st) == target
  }

  /** The state after a symbol of which, if it is a match, n bytes are copied. */
  function NextState(st: Lzma2State, input: seq<Byte>, delta: int, end: int, r: SymbolResult, n: nat): Lzma2State
    requires Normalize(input, r.m.rc).pos + delta <= end
    requires 0 < n <= st.uncompressed && (r.symbol.Copy? ==> n <= r.z.len)
  {
    var after := AfterSymbol(st, input, delta, end, r);
    match r.symbol
    case Lit(byte) => Emit(after, byte)
    case Copy => EmitMatches(after, n)
  }

  // NextState, component by component.
  lemma IsNextState(st: Lzma2State, st1: Lzma2State, input: seq<Byte>, delta: int, end: int, r: SymbolResult, n: nat)
    requires Normalize(input, r.m.rc).pos + delta <= end
    requires 0 < n <= st.uncompressed && (r.symbol.Copy? ==> n <= r.z.len) && (r.symbol.Lit? ==> n == 1)
    requires st1.m == Moved(NormalizeModel(input, r.m), delta)
    requires st1 == st.(z := st1.z, m := st1.m, history := st1.history, out := st1.out,
                        uncompressed := st.uncompressed - n, compressed := end - st1.m.rc.pos)
    requires st1.z == if r.symbol.Lit? then r.z else r.z.(len := r.z.len - n)
    requires st1.history == if r.symbol.Lit? then st.history + [r.symbol.byte] else LzCopy(st.history, r.z.rep0, n)
    requires st1.out == st.out + st1.history[|st.history|..]
    ensures st1 == NextState(st, input, delta, end, r, n)
  {
    hide Normalize, LzCopy;
    if r.symbol.Lit? {
      assert st1.history[|st.history|..] == [r.symbol.byte];
    }
  }

  lemma NextStateFacts(st: Lzma2State, input: seq<Byte>, delta: int, end: int, r: SymbolResult, n: nat)
    requires Normalize(input, r.m.rc).pos + delta <= end && st.sequence.LzmaRun?
    requires 0 < n <= st.uncompressed && (r.symbol.Copy? ==> n <= r.z.len)
    ensures var after, next := AfterSymbol(st, input, delta, end, r), NextState(st, input, delta, end, r, n);
            && next.sequence.LzmaRun?
            && next.m == Moved(NormalizeModel(input, r.m), delta)
            && next.Pos() + next.compressed == end
            && RepValid(after) == (r.z.rep0 < |st.history| && r.z.rep0 < st.dictSize)
            && match r.symbol
               case Lit(byte) => next == Emit(after, byte)
               case Copy => next == EmitMatches(after, n)
  {
    hide Normalize, LzCopy;
  }

  // The new state is in step as soon as it is a valid state that decodes to the same.
  lemma NextInStep(stream: seq<Byte>, st: Lzma2State, input: seq<Byte>, delta: int, lo: int, lim: int, r: SymbolResult,
                   n: nat)
    requires Normalize(input, r.m.rc).pos <= lim && lo <= r.m.rc.pos && st.sequence.LzmaRun?
    requires Window(stream, st.Pos() + st.compressed, input, delta, lo, lim)
    requires 0 < n <= st.uncompressed && (r.symbol.Copy? ==> n <= r.z.len)
    requires lim + delta <= st.Pos() + st.compressed
    requires var next := NextState(st, input, delta, st.Pos() + st.compressed, r, n);
             Inv(next) && 0 <= next.Pos() <= |stream|
    ensures InStep(stream, NextState(st, input, delta, st.Pos() + st.compressed, r, n), input, r.m, delta, lo, lim)
  {
    hide Normalize, Agree, Inv, ChunkWindow, NextState;
    NextStateFacts(st, input, delta, st.Pos() + st.compressed, r, n);
  }

  /** The lemmas above together: after a symbol, of which at most n bytes are copied, the decoder is
      still in step, or the stream is corrupt. */
  lemma SymbolInStep(stream: seq<Byte>, st: Lzma2State, input: seq<Byte>, m: Model, delta: int, lo: int, lim: int,
                     r: SymbolResult, n: nat)
    requires InStep(stream, st, input, m, delta, lo, lim)
    requires 0 < n <= st.uncompressed && st.z.len == 0 && PropsValid(st.z)
    requires r == DecodeSymbol(input, m, st.z, st.history)
    requires r.symbol.Copy? ==> n <= r.z.len
    requires lim + delta == st.Pos() + st.compressed <= |stream| || Normalize(input, r.m.rc).pos <= lim
    ensures var target := Decode(stream, st);
            var end := st.Pos() + st.compressed;
            if Normalize(input, r.m.rc).pos > lim ||
               (r.symbol.Copy? && !(r.z.rep0 < |st.history| && r.z.rep0 < st.dictSize)) then
              target.status == Corrupt
            else
              && Normalize(input, r.m.rc).pos + delta <= end
              && var next := NextState(st, input, delta, end, r, n);
                 InStep(stream, next, input, r.m, delta, lo, lim) && Decode(stream, next) == target
  {
    hide DecodeSymbol, Normalize, Window, Inv, PropsValid, NextState, AfterSymbol, Emit, EmitMatches, RepValid, Decode;
    var end := st.Pos() + st.compressed;
    WindowBelowEnd(stream, end, input, delta, lo, lim);
    if Normalize(input, r.m.rc).pos > lim {
      OverrunIsCorrupt(stream, st, input, m, delta, lo, lim);
    } else {
      NextStateFacts(st, input, delta, end, r, n);
      if r.symbol.Lit? {
        LiteralInStep(stream, st, input, m, delta, lo, lim);
      } else {
        MatchInStep(stream, st, input, m, delta, lo, lim, n);
      }
      if r.symbol.Copy? ==> r.z.rep0 < |st.history| && r.z.rep0 < st.dictSize {
        NextInStep(stream, st, input, delta, lo, lim, r, n);
      }
    }
  }

  /** The bytes of a buffer, where they are the bytes of the stream, form a window. */
  lemma WindowOfChunk(stream: seq<Byte>, end: int, input: seq<Byte>, delta: int, lo: int, lim: int)
    requires 0 <= lo <= lim <= |input| && 0 <= lo + delta && lim + delta <= end && lim + delta <= |stream|
    requires forall i :: lo <= i < lim ==> input[i] == stream[i + delta]
    ensures Window(stream, end, input, delta, lo, lim)
  {
    var w := ChunkWindow(stream, end);
    forall i | lo <= i < lim
      ensures Peek(input, i) == Peek(w, i + delta)
    {
      assert input[i] == stream[i + delta];
    }
  }

  /** Between two moments without a dictionary reset: the new bytes of the history are the new bytes of
      the output, one per ring position. */
  ghost predicate Grown(h0: seq<Byte>, out0: seq<Byte>, pos0: int, h1: seq<Byte>, out1: seq<Byte>, pos1: int) {
    && h0 <= h1
    && out1 == out0 + h1[|h0|..]
    && |h1| - |h0| == pos1 - pos0
  }

  lemma GrownNot(h: seq<Byte>, out: seq<Byte>, pos: int)
    ensures Grown(h, out, pos, h, out, pos)
  {
    assert h[|h|..] == [];
  }

  lemma GrownOut(h0: seq<Byte>, out: seq<Byte>, pos0: int, h1: seq<Byte>, pos1: int)
    requires h0 <= h1 && |h1| - |h0| == pos1 - pos0
    ensures Grown(h0, out, pos0, h1, out + h1[|h0|..], pos1)
  {
  }

  lemma GrownMore(h0: seq<Byte>, out0: seq<Byte>, pos0: int, h1: seq<Byte>, out1: seq<Byte>, pos1: int, h2: seq<Byte>,
                  out2: seq<Byte>, pos2: int)
    requires Grown(h0, out0, pos0, h1, out1, pos1) && Grown(h1, out1, pos1, h2, out2, pos2)
    ensures Grown(h0, out0, pos0, h2, out2, pos2)
  {
    assert h2[|h0|..] == h1[|h0|..] + h2[|h1|..];
  }

  // ---------- Steps that read bytes of the control layer ----------

  lemma OneStep(stream: seq<Byte>, st: Lzma2State, target: Outcome)
    requires Decodes(stream, st, target)
    ensures match Step(stream, st)
            case Next(st1) => Decodes(stream, st1, target)
            case Stop(status, pos) => target == Outcome(status, st.out, pos)
  {
    hide Step, Inv;
    StepInv(stream, st);
  }

  /** Reading the byte at the position of the stream. */
  lemma OneByte(stream: seq<Byte>, st: Lzma2State, target: Outcome, byte: Byte)
    requires Decodes(stream, st, target)
    requires st.Pos() < |stream| && stream[st.Pos()] == byte
    requires !st.sequence.LzmaRun?
    requires st.sequence.LzmaPrepare? ==> st.compressed >= RC_INIT_BYTES && st.initBytesLeft > 0
    requires st.sequence.CopyRun? ==> st.compressed > 0
    ensures match ByteStep(st, byte)
            case Next(st1) => Decodes(stream, st1, target)
            case Stop(status, pos) => target == Outcome(status, st.out, pos)
  {
    hide ByteStep, RunStep, Inv;
    OneStep(stream, st, target);
  }

  /** n bytes of an uncompressed chunk. */
  function CopyBytes(st: Lzma2State, bytes: seq<Byte>): Lzma2State
    requires |bytes| <= st.compressed
  {
    st.(
      m := st.m.(rc := st.m.rc.(pos := st.Pos() + |bytes|)),
      compressed := st.compressed - |bytes|,
      history := st.history + bytes,
      out := st.out + bytes)
  }

  lemma {:induction false} CopyBytesDecode(stream: seq<Byte>, st: Lzma2State, target: Outcome, bytes: seq<Byte>)
    requires Decodes(stream, st, target) && st.sequence.CopyRun?
    requires |bytes| <= st.compressed && st.Pos() + |bytes| <= |stream|
    requires forall i :: 0 <= i < |bytes| ==> bytes[i] == stream[st.Pos() + i]
    ensures Decodes(stream, CopyBytes(st, bytes), target) && Inv(CopyBytes(st, bytes))
    decreases |bytes|
  {
    hide Inv, Decode;
    if bytes == [] {
      assert CopyBytes(st, bytes) == st;
    } else {
      OneByte(stream, st, target, bytes[0]);
      var st1 := CopyByte(st, bytes[0]);
      assert ByteStep(st, bytes[0]) == Next(st1);
      assert [bytes[0]] + bytes[1..] == bytes;
      assert CopyBytes(st1, bytes[1..]) == CopyBytes(st, bytes);
      CopyBytesDecode(stream, st1, target, bytes[1..]);
    }
  }

  // ---------- The caller's output ----------

  /** Between two moments: what was decoded was appended to the output buffer, and the rest of the
      buffer is untouched. */
  ghost predicate Written(out0: seq<Byte>, buf0: seq<Byte>, pos0: int, out1: seq<Byte>, buf1: seq<Byte>, pos1: int) {
    && out0 <= out1
    && |buf0| == |buf1| && 0 <= pos0 && pos1 == pos0 + (|out1| - |out0|) && pos1 <= |buf1|
    && buf1[..pos1] == buf0[..pos0] + out1[|out0|..]
    && buf1[pos1..] == buf0[pos1..]
  }

  lemma WrittenNothing(out: seq<Byte>, buf: seq<Byte>, pos: int)
    requires 0 <= pos <= |buf|
    ensures Written(out, buf, pos, out, buf, pos)
  {
    assert out[|out|..] == [];
  }

  lemma WrittenBytes(out: seq<Byte>, buf0: seq<Byte>, pos: int, bytes: seq<Byte>, buf1: seq<Byte>)
    requires 0 <= pos && pos + |bytes| <= |buf0| == |buf1|
    requires buf1[..pos + |bytes|] == buf0[..pos] + bytes && buf1[pos + |bytes|..] == buf0[pos + |bytes|..]
    ensures Written(out, buf0, pos, out + bytes, buf1, pos + |bytes|)
  {
    assert (out + bytes)[|out|..] == bytes;
  }

  lemma WrittenMore(out0: seq<Byte>, buf0: seq<Byte>, pos0: int, out1: seq<Byte>, buf1: seq<Byte>, pos1: int,
                    out2: seq<Byte>, buf2: seq<Byte>, pos2: int)
    requires Written(out0, buf0, pos0, out1, buf1, pos1) && Written(out1, buf1, pos1, out2, buf2, pos2)
    ensures Written(out0, buf0, pos0, out2, buf2, pos2)
  {
    assert out2[|out0|..] == out1[|out0|..] + out2[|out1|..];
    assert buf2[pos2..] == buf1[pos2..] == buf1[pos1..][pos2 - pos1..] == buf0[pos1..][pos2 - pos1..] == buf0[pos2..];
  }

  // ---------- The other steps of the control layer ----------

  lemma ShortChunk(stream: seq<Byte>, st: Lzma2State, target: Outcome)
    requires Decodes(stream, st, target) && st.sequence.LzmaPrepare? && st.compressed < RC_INIT_BYTES
    ensures target.status == Corrupt
  {
    hide Inv, RunStep, ByteStep;
    OneStep(stream, st, target);
  }

  lemma InitByteDecodes(stream: seq<Byte>, st: Lzma2State, target: Outcome, byte: Byte)
    requires Decodes(stream, st, target) && st.sequence.LzmaPrepare?
    requires st.compressed >= RC_INIT_BYTES && st.initBytesLeft > 0
    requires st.Pos() < |stream| && stream[st.Pos()] == byte
    ensures Decodes(stream, InitByte(st, byte), target) && Inv(InitByte(st, byte))
  {
    hide Inv, Decode, Step;
    OneByte(stream, st, target, byte);
  }

  lemma InitDoneDecodes(stream: seq<Byte>, st: Lzma2State, target: Outcome)
    requires Decodes(stream, st, target) && st.sequence.LzmaPrepare?
    requires st.compressed >= RC_INIT_BYTES && st.initBytesLeft == 0
    ensures var st1 := st.(compressed := st.compressed - RC_INIT_BYTES, sequence := LzmaRun);
            Decodes(stream, st1, target) && Inv(st1)
    ensures st.uncompressed > 0
  {
    hide RunStep, ByteStep, PropsValid;
    OneStep(stream, st, target);
  }

  lemma CopyDoneDecodes(stream: seq<Byte>, st: Lzma2State, target: Outcome)
    requires Decodes(stream, st, target) && st.sequence.CopyRun? && st.compressed == 0
    ensures Decodes(stream, st.(sequence := Control), target) && Inv(st.(sequence := Control))
  {
    hide Inv, RunStep, ByteStep;
    OneStep(stream, st, target);
  }

  /** The checks at the end of an LZMA chunk. */
  lemma EndDecodes(stream: seq<Byte>, st: Lzma2State, target: Outcome)
    requires Decodes(stream, st, target) && st.sequence.LzmaRun? && st.uncompressed == 0
    ensures if st.compressed > 0 || st.z.len > 0 || st.m.rc.code != 0 then
              target.status == Corrupt
            else
              var st1 := st.(m := ResetRc(st.m), initBytesLeft := RC_INIT_BYTES, sequence := Control);
              Decodes(stream, st1, target) && Inv(st1)
  {
    hide Inv, Decode, SymbolStep, ByteStep;
    OneStep(stream, st, target);
  }

  lemma RunConfigured(st: Lzma2State)
    requires Inv(st) && st.sequence.LzmaRun?
    ensures !st.needDictReset && Lzma2Reference.Configured(st)
  {
  }

  lemma DecodesInv(stream: seq<Byte>, st: Lzma2State, target: Outcome)
    requires Decodes(stream, st, target)
    ensures Inv(st) && 0 <= st.Pos() <= |stream|
  {
    hide Inv, Decode;
  }

  /** How a step that reads one byte can stop, and that it leads to an LZMA chunk with all five bytes
      still to read. */
  lemma ByteStops(st: Lzma2State, byte: Byte)
    requires Inv(st) && (st.sequence.Control? || InHeader(st) || st.sequence.Properties?)
    ensures match ByteStep(st, byte)
            case Next(st1) =>
              && !st1.sequence.LzmaRun?
              && (st1.sequence.LzmaPrepare? ==> st1.initBytesLeft == RC_INIT_BYTES)
              && (st1.sequence.CopyRun? ==> st1.compressed > 0)
              && (st.sequence.Properties? ==> st1.sequence.LzmaPrepare?)
            case Stop(status, pos) =>
              status == Corrupt || (status == Ended && st.sequence.Control? && pos == st.Pos() + 1)
  {
    hide PropsValid, FreshProbs, Pow2;
  }

  /** No end marker follows where the stream ends before the state is done with it. */
  lemma NothingLeft(stream: seq<Byte>, st: Lzma2State)
    requires Inv(st) && st.Pos() == |stream| && !st.sequence.LzmaRun?
    requires st.sequence.LzmaPrepare? ==> st.initBytesLeft > 0
    requires st.sequence.CopyRun? ==> st.compressed > 0
    ensures Decode(stream, st).status != Ended && (!st.sequence.LzmaPrepare? ==> Decode(stream, st).status == Starved)
  {
    hide Inv;
  }

  /** In the middle of a chunk there is output still to come. */
  lemma MoreToCome(stream: seq<Byte>, st: Lzma2State, target: Outcome)
    requires Decodes(stream, st, target)
    requires (st.sequence.LzmaRun? && st.uncompressed > 0) || (st.sequence.CopyRun? && st.compressed > 0)
    ensures target.status == Ended ==> |st.out| < |target.out|
  {
    hide Inv, Step;
    StepInv(stream, st);
    StepEmits(stream, st);
    match Step(stream, st)
    case Stop(_, _) =>
    case Next(st1) => DecodeExtends(stream, st1);
  }

  lemma StepEmits(stream: seq<Byte>, st: Lzma2State)
    requires Inv(st) && 0 <= st.Pos() <= |stream|
    requires (st.sequence.LzmaRun? && st.uncompressed > 0) || (st.sequence.CopyRun? && st.compressed > 0)
    ensures match Step(stream, st)
            case Next(st1) => |st1.out| == |st.out| + 1
            case Stop(status, _) => status != Ended
  {
    hide DecodeSymbol, Normalize, PropsValid, FreshProbs;
  }

  lemma NotFresh(st: Lzma2State)
    requires Inv(st) && !st.sequence.Control?
    ensures !st.needDictReset
  {
  }
}
