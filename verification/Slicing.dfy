/** Slicing independence of the LZMA2 decoder: what a stream decodes to, as a function of its bytes and
    the dictionary size alone, and callers that cut input and output in every way. */
module Slicing {
  import opened Basics
  import opened RangeCoder
  import LzmaSymbol
  import opened Lzma2Reference
  import opened Lzma2Sync
  import opened XzBuffer
  import opened Lzma2Decoder

  // ---------- What is left over from before a reset does not matter ----------

  /** A decoder that was never used. */
  function Initial(dictSize: nat): Lzma2State {
    Lzma2State(Control, Control, 0, 0, true, true, 0, LzmaSymbol.Lzma(0, 0, 0, 0, 0, 0, 0, 0, 0),
           LzmaSymbol.Model(Rc(U32 - 1, 0, 0), LzmaSymbol.FreshProbs()), dictSize, [], [])
  }

  /** The parts of a state that can still influence anything; the rest is set to fixed values. */
  ghost function Live(st: Lzma2State): Lzma2State {
    var sizeRead := st.sequence.Control? || st.sequence.Compressed0?;
    var st1 := st.(
      next := if InHeader(st) then st.next else Control,
      uncompressed := if SizeKnown(st) then st.uncompressed else 0,
      compressed := if sizeRead || st.sequence.Uncompressed1? || st.sequence.Uncompressed2? then 0 else st.compressed,
      history := if st.needDictReset then [] else st.history,
      needProps := st.needDictReset || st.needProps);
    if st.needDictReset || st.needProps || PropsPending(st) then
      var blank := Initial(0);
      st1.(z := blank.z.(len := st.z.len), initBytesLeft := 0, m := blank.m.(rc := blank.m.rc.(pos := st.Pos())))
    else
      st1
  }

  lemma LiveProps(a: Lzma2State, b: Lzma2State, props: Byte)
    requires Inv(a) && Inv(b) && Live(a) == Live(b) && a.sequence.Properties?
    ensures match (PropsStep(a, props), PropsStep(b, props))
            case (Next(a1), Next(b1)) => Live(a1) == Live(b1)
            case (Stop(s, p), Stop(t, q)) => s == t && p == q
            case _ => false
  {
    hide Pow2, LzmaSymbol.FreshProbs, LzmaSymbol.PropsValid;
  }

  lemma LiveKind(a: Lzma2State, b: Lzma2State, byte: Byte)
    requires 0 < a.dictSize && !a.needDictReset && a.z.len == 0 && a.sequence.Control?
    requires a.needProps || a.initBytesLeft == RC_INIT_BYTES
    requires Live(a) == Live(b) && !b.needDictReset
    ensures match (ChunkKind(a, byte), ChunkKind(b, byte))
            case (Next(a1), Next(b1)) => Live(a1) == Live(b1)
            case (Stop(s, p), Stop(t, q)) => s == t && p == q
            case _ => false
  {
    hide LzmaSymbol.FreshProbs, LzmaSymbol.PropsValid, Inv;
  }

  lemma LiveControl(a: Lzma2State, b: Lzma2State, byte: Byte)
    requires Inv(a) && Inv(b) && Live(a) == Live(b) && a.sequence.Control?
    ensures match (ControlStep(a, byte), ControlStep(b, byte))
            case (Next(a1), Next(b1)) => Live(a1) == Live(b1)
            case (Stop(s, p), Stop(t, q)) => s == t && p == q
            case _ => false
  {
    hide LzmaSymbol.FreshProbs, LzmaSymbol.PropsValid, ChunkKind;
    StartsChunk(a);
    if byte >= 0xE0 || byte == 0x01 {
      LiveKind(Advance(a.(needProps := true, needDictReset := false, history := [])),
               Advance(b.(needProps := true, needDictReset := false, history := [])), byte);
    } else if !a.needDictReset {
      LiveKind(Advance(a), Advance(b), byte);
    }
  }

  // The bytes of the uncompressed size.
  lemma LiveUncompressed(a: Lzma2State, b: Lzma2State, byte: Byte)
    requires !a.needDictReset && !b.needDictReset && Live(a) == Live(b) && InHeader(a)
    requires a.next.Properties? || a.next.LzmaPrepare? || a.next.CopyRun?
    requires a.sequence.Uncompressed1? || a.sequence.Uncompressed2?
    ensures Live(SizeStep(a, byte)) == Live(SizeStep(b, byte))
  {
    hide LzmaSymbol.FreshProbs, LzmaSymbol.PropsValid;
  }

  // The first byte of the compressed size.
  lemma LiveCompressed(a: Lzma2State, b: Lzma2State, byte: Byte)
    requires !a.needDictReset && !b.needDictReset && Live(a) == Live(b)
    requires a.next.Properties? || a.next.LzmaPrepare? || a.next.CopyRun?
    requires a.sequence.Compressed0?
    ensures Live(SizeStep(a, byte)) == Live(SizeStep(b, byte))
  {
    hide LzmaSymbol.FreshProbs, LzmaSymbol.PropsValid;
  }

  // The last byte.
  lemma LiveSizeLast(a: Lzma2State, b: Lzma2State, byte: Byte)
    requires !a.needDictReset && !b.needDictReset && Live(a) == Live(b)
    requires a.next.Properties? || a.next.LzmaPrepare? || a.next.CopyRun?
    requires a.sequence.Compressed1?
    ensures Live(SizeStep(a, byte)) == Live(SizeStep(b, byte))
  {
    hide LzmaSymbol.FreshProbs, LzmaSymbol.PropsValid;
  }

  lemma LiveSize(a: Lzma2State, b: Lzma2State, byte: Byte)
    requires !a.needDictReset && !b.needDictReset && Live(a) == Live(b) && InHeader(a)
    requires a.next.Properties? || a.next.LzmaPrepare? || a.next.CopyRun?
    ensures Live(SizeStep(a, byte)) == Live(SizeStep(b, byte))
  {
    hide Live, SizeStep, LzmaSymbol.FreshProbs;
    if a.sequence.Compressed1? {
      LiveSizeLast(a, b, byte);
    } else if a.sequence.Compressed0? {
      LiveCompressed(a, b, byte);
    } else {
      LiveUncompressed(a, b, byte);
    }
  }

  lemma LiveByte(a: Lzma2State, b: Lzma2State, byte: Byte)
    requires Inv(a) && Inv(b) && Live(a) == Live(b) && !a.sequence.LzmaRun?
    requires a.sequence.LzmaPrepare? ==> a.initBytesLeft > 0
    requires a.sequence.CopyRun? ==> a.compressed > 0
    ensures match (ByteStep(a, byte), ByteStep(b, byte))
            case (Next(a1), Next(b1)) => Live(a1) == Live(b1)
            case (Stop(s, p), Stop(t, q)) => s == t && p == q
            case _ => false
  {
    hide Pow2, LzmaSymbol.FreshProbs, LzmaSymbol.PropsValid, PropsStep, ControlStep, SizeStep;
    if a.sequence.Properties? {
      LiveProps(a, b, byte);
    } else if a.sequence.Control? {
      LiveControl(a, b, byte);
    } else if InHeader(a) {
      HeaderSuccessor(a);
      LiveSize(a, b, byte);
    }
  }

  lemma LiveRun(stream: seq<Byte>, a: Lzma2State, b: Lzma2State)
    requires LzmaSymbol.PropsValid(a.z) && !a.needDictReset && !a.needProps && !b.needDictReset && !b.needProps
    requires Live(a) == Live(b) && a.sequence.LzmaRun? && 0 <= a.Pos() <= |stream|
    ensures a == b.(next := a.next)
    ensures match (RunStep(stream, a), RunStep(stream, b))
            case (Next(a1), Next(b1)) => Live(a1) == Live(b1)
            case (Stop(s, p), Stop(t, q)) => s == t && p == q
            case _ => false
  {
    hide Pow2, LzmaSymbol.FreshProbs, LzmaSymbol.PropsValid, LzmaSymbol.DecodeSymbol, Normalize, LzmaSymbol.HistoryGet;
    hide ChunkWindow;
  }

  /** States with the same live parts step alike. */
  lemma LiveStep(stream: seq<Byte>, a: Lzma2State, b: Lzma2State)
    requires Inv(a) && Inv(b) && Live(a) == Live(b) && 0 <= a.Pos() <= |stream|
    ensures match (Step(stream, a), Step(stream, b))
            case (Next(a1), Next(b1)) => Live(a1) == Live(b1)
            case (Stop(s, p), Stop(t, q)) => s == t && p == q
            case _ => false
  {
    hide LzmaSymbol.PropsValid, ByteStep, RunStep;
    if a.sequence.LzmaRun? {
      RunPropsValid(a);
      LiveRun(stream, a, b);
    } else if (a.sequence.LzmaPrepare? ==> a.initBytesLeft > 0) && (a.sequence.CopyRun? ==> a.compressed > 0) &&
              a.Pos() < |stream| {
      LiveByte(a, b, stream[a.Pos()]);
    }
  }

  lemma {:induction false} LiveDecode(stream: seq<Byte>, a: Lzma2State, b: Lzma2State)
    requires Inv(a) && Inv(b) && Live(a) == Live(b) && 0 <= a.Pos() <= |stream|
    ensures b.Pos() == a.Pos() && Decode(stream, a) == Decode(stream, b)
    decreases |stream| - a.Pos(), Rank(a)
  {
    hide Inv, Step, Live;
    StepInv(stream, a);
    LivePos(a, b);
    StepInv(stream, b);
    LiveStep(stream, a, b);
    match Step(stream, a)
    case Stop(_, _) =>
    case Next(a1) => LiveDecode(stream, a1, Step(stream, b).st);
  }

  lemma LivePos(a: Lzma2State, b: Lzma2State)
    requires Live(a) == Live(b)
    ensures a.Pos() == b.Pos() && a.out == b.out
  {
  }

  /** What a stream decodes to. */
  ghost function DecodeStream(stream: seq<Byte>, dictSize: nat): Outcome
    requires 0 < dictSize
  {
    RestartInv(Initial(dictSize), dictSize, 0);
    Decode(stream, Initial(dictSize))
  }

  /** After a reset, whatever was decoded before, a stream decodes to the same. */
  lemma ResetForgets(stream: seq<Byte>, st: Lzma2State, dictSize: nat, uncompressed: nat)
    requires 0 < dictSize
    ensures var st1 := Restart(st, dictSize).(uncompressed := uncompressed);
            Inv(st1) && Decode(stream, st1) == DecodeStream(stream, dictSize)
  {
    hide Decode;
    RestartInv(st, dictSize, uncompressed);
    RestartInv(Initial(dictSize), dictSize, 0);
    LiveDecode(stream, Restart(st, dictSize).(uncompressed := uncompressed), Initial(dictSize));
  }

  // ---------- Callers ----------

  /** The decoder between two calls: used bytes of the stream were taken, produced was delivered. */
  ghost predicate Idle(dec: Lzma2Dec, stream: seq<Byte>, target: Outcome, used: int, produced: seq<Byte>)
    reads dec, dec.rc, dec.dict, dec.dict.buf, dec.probs, dec.temp
  {
    && dec.Valid() && dec.Ready()
    && Decodes(stream, dec.Abs(), target)
    && dec.Consumed() == used <= |stream| && dec.tempSize <= dec.temp.Length
    && (forall i :: 0 <= i < dec.tempSize ==> dec.temp[i] == stream[dec.taken + i])
    && dec.out == produced
  }

  /** The decoder between calls and the buffers of a call. */
  lemma Attached(dec: Lzma2Dec, b: XzBuf, stream: seq<Byte>, target: Outcome, used: int, produced: seq<Byte>)
    requires Idle(dec, stream, target, used, produced) && b.Valid()
    requires b.out != dec.dict.buf && b.out != dec.temp && (dec.probs as object) != b.out
    requires used + (|b.input| - b.inPos) <= |stream|
    requires forall i :: b.inPos <= i < |b.input| ==> b.input[i] == stream[i + (used - b.inPos)]
    ensures dec.Between(stream, b, target)
  {
    hide Inv, Decodes, Lzma2Dec.Valid;
  }

  lemma Detached(dec: Lzma2Dec, b: XzBuf, stream: seq<Byte>, target: Outcome)
    requires dec.Between(stream, b, target) && dec.Ready()
    ensures Idle(dec, stream, target, dec.Consumed(), dec.out) && b.Valid()
  {
    hide Inv, Decodes, Lzma2Dec.Valid;
    dec.BetweenFacts(stream, b, target);
  }

  // The buffers of one call.
  method Give(dec: Lzma2Dec, stream: seq<Byte>, used: nat, give: nat, room: nat, ghost target: Outcome,
              ghost produced: seq<Byte>)
    returns (b: XzBuf)
    requires Idle(dec, stream, target, used, produced)
    ensures fresh(b) && fresh(b.out) && dec.Between(stream, b, target)
    ensures var n := if give <= |stream| - used then give else |stream| - used;
            b.input == stream[used..used + n] && b.inPos == 0 && b.outPos == 0 && b.outSize == b.out.Length == room
  {
    hide Inv, Decodes, Lzma2Dec.Valid;
    var n := if give <= |stream| - used then give else |stream| - used;
    var buffer := new Byte[room](_ => 0);
    b := new XzBuf(stream[used..used + n], buffer);
  }

  /** One call: give more bytes of the stream at most, and an output buffer of the given size. */
  method Call(dec: Lzma2Dec, stream: seq<Byte>, used: nat, give: nat, room: nat, ghost target: Outcome,
              ghost produced: seq<Byte>)
    returns (ret: Ret, text: seq<Byte>, taken: nat)
    requires Idle(dec, stream, target, used, produced)
    modifies dec, dec.rc, dec.probs, dec.temp, dec.dict, dec.dict.buf
    ensures dec.dict.buf == old(dec.dict.buf)
    ensures ret.XzOk? || ret.XzStreamEnd? || ret.XzDataError?
    ensures ret.XzDataError? ==> target.status.Corrupt?
    ensures ret.XzOk? ==> Idle(dec, stream, target, used + taken, produced + text)
    ensures ret.XzOk? ==> taken <= give && |text| <= room
    ensures ret.XzStreamEnd? ==> target == Outcome(Ended, produced + text, used + taken) && used + taken <= |stream|
    ensures ret.XzOk? ==> |text| == room || taken == give || used + taken == |stream|
    ensures ret.XzOk? && used + give >= |stream| && target.status == Ended ==>
              |text| == room && |produced| + |text| < |target.out|
    ensures ret.XzOk? && used + give >= |stream| && target.status == Corrupt ==> |text| == room || dec.CutOff(stream)
  {
    hide Inv, Decode, Decodes, Step;
    var b := Give(dec, stream, used, give, room, target, produced);
    ghost var before := b.out[..];
    ret := dec.Run(b, stream, target);
    if ret.XzDataError? {
      return ret, [], 0;
    }
    text, taken := b.out[..b.outPos], b.inPos;
    if ret.XzOk? {
      dec.BetweenFacts(stream, b, target);
      if used + |b.input| == |stream| {
        dec.WaitsInVain(stream, b, target);
      }
    }
  }

  /** xz_dec_lzma2_reset at the beginning of a stream. */
  method Start(dec: Lzma2Dec, props: Byte, ghost stream: seq<Byte>) returns (ret: Ret)
    requires dec.Buffers() && dec.dict.allocatedSize == 0 && (dec.prealloc ==> dec.dict.sizeMax <= dec.dict.buf.Length)
    modifies dec, dec.dict
    ensures ret.XzOk? <==> props <= 39 && DictionarySize(props) <= old(dec.dict.sizeMax)
    ensures ret.XzOk? ==>
              && 0 < DictionarySize(props)
              && Idle(dec, stream, DecodeStream(stream, DictionarySize(props)), 0, [])
    ensures dec.dict.buf == old(dec.dict.buf) || fresh(dec.dict.buf)
    ensures !ret.XzOk? ==> ret.XzOptionsError? || ret.XzMemlimitError?
    ensures ret.XzMemlimitError? <==> props <= 39 && DictionarySize(props) > old(dec.dict.sizeMax)
    ensures dec.Buffers() && dec.dict.allocatedSize == 0 && dec.dict.sizeMax == old(dec.dict.sizeMax)
    ensures dec.prealloc ==> dec.dict.sizeMax <= dec.dict.buf.Length
  {
    hide DictionarySize, Inv, Decode;
    ghost var before := dec.Abs();
    ret := dec.Reset(props);
    if ret.XzOk? {
      DictionarySizeBound(props);
      ResetForgets(stream, before, DictionarySize(props), dec.uncompressed);
    }
  }

  /** How much one call is given. */
  datatype Cut = Cut(give: nat, room: nat)

  lemma IdleBound(dec: Lzma2Dec, stream: seq<Byte>, target: Outcome, used: int, produced: seq<Byte>)
    requires Idle(dec, stream, target, used, produced)
    ensures produced <= target.out && used <= |stream|
  {
    hide Inv, Decode;
    DecodeExtends(stream, dec.Abs());
  }

  /** What was taken is not behind the end of the stream. */
  lemma IdleConsumed(dec: Lzma2Dec, stream: seq<Byte>, target: Outcome, used: int, produced: seq<Byte>)
    requires Idle(dec, stream, target, used, produced)
    ensures target.status == Ended ==> used <= target.pos <= |stream|
  {
    hide Inv, Decode;
    EndsBehind(stream, dec.Abs());
  }

  /** Any calls at all. What they deliver is the beginning of what the stream decodes to; when they end
      the stream it is all of it, at the position where the stream ends. */
  method DecodeInPieces(dec: Lzma2Dec, props: Byte, stream: seq<Byte>, cuts: seq<Cut>)
    returns (ret: Ret, produced: seq<Byte>, used: nat)
    requires dec.Buffers() && dec.dict.allocatedSize == 0 && (dec.prealloc ==> dec.dict.sizeMax <= dec.dict.buf.Length)
    requires props <= 39 && DictionarySize(props) <= dec.dict.sizeMax
    modifies dec, dec.rc, dec.probs, dec.temp, dec.dict, dec.dict.buf
    ensures 0 < DictionarySize(props)
    ensures var whole := DecodeStream(stream, DictionarySize(props));
            && (ret.XzOk? ==> produced <= whole.out && used <= |stream|)
            && (ret.XzStreamEnd? ==> whole == Outcome(Ended, produced, used))
            && (ret.XzDataError? ==> whole.status == Corrupt)
            && (ret.XzOk? || ret.XzStreamEnd? || ret.XzDataError?)
  {
    hide DictionarySize, Idle, DecodeStream;
    ret := Start(dec, props, stream);
    ghost var whole := DecodeStream(stream, DictionarySize(props));
    produced, used := [], 0;
    var k := 0;
    while k < |cuts| && ret.XzOk?
      invariant ret.XzOk? || ret.XzStreamEnd? || ret.XzDataError?
      invariant ret.XzOk? ==> Idle(dec, stream, whole, used, produced)
      invariant ret.XzStreamEnd? ==> whole == Outcome(Ended, produced, used)
      invariant ret.XzDataError? ==> whole.status == Corrupt
      invariant dec.dict.buf == old(dec.dict.buf) || fresh(dec.dict.buf)
    {
      var text, taken;
      ret, text, taken := Call(dec, stream, used, cuts[k].give, cuts[k].room, whole, produced);
      produced, used, k := produced + text, used + taken, k + 1;
    }
    if ret.XzOk? {
      IdleBound(dec, stream, whole, used, produced);
    }
  }

  /** Calls with buffers of at least one byte, over and over, until the stream ends, fails or runs out:
      they always come to an end, and XZ_STREAM_END is returned exactly for the streams that have one. A
      corrupt stream is refused, unless it ends within an LZMA chunk. */
  method DecodeAll(dec: Lzma2Dec, props: Byte, stream: seq<Byte>, cuts: seq<Cut>)
    returns (ret: Ret, produced: seq<Byte>, used: nat)
    requires dec.Buffers() && dec.dict.allocatedSize == 0 && (dec.prealloc ==> dec.dict.sizeMax <= dec.dict.buf.Length)
    requires props <= 39 && DictionarySize(props) <= dec.dict.sizeMax
    requires |cuts| > 0 && forall k :: 0 <= k < |cuts| ==> cuts[k].give > 0 && cuts[k].room > 0
    modifies dec, dec.rc, dec.probs, dec.temp, dec.dict, dec.dict.buf
    ensures 0 < DictionarySize(props)
    ensures var whole := DecodeStream(stream, DictionarySize(props));
            && (ret.XzStreamEnd? <==> whole.status == Ended)
            && (ret.XzStreamEnd? ==> whole == Outcome(Ended, produced, used))
            && (ret.XzDataError? ==> whole.status == Corrupt)
            && (whole.status == Corrupt ==> ret.XzDataError? || dec.CutOff(stream))
            && (ret.XzOk? || ret.XzStreamEnd? || ret.XzDataError?)
  {
    hide DictionarySize, Idle, DecodeStream;
    ret := Start(dec, props, stream);
    ghost var whole := DecodeStream(stream, DictionarySize(props));
    produced, used := [], 0;
    var k := 0;
    while true
      invariant k < |cuts|
      invariant Idle(dec, stream, whole, used, produced)
      invariant produced <= whole.out && used <= |stream|
      invariant dec.dict.buf == old(dec.dict.buf) || fresh(dec.dict.buf)
      decreases |stream| - used + |whole.out| - |produced|
    {
      IdleBound(dec, stream, whole, used, produced);
      var cut := cuts[k];
      var text, taken;
      ret, text, taken := Call(dec, stream, used, cut.give, cut.room, whole, produced);
      produced, used := produced + text, used + taken;
      if !ret.XzOk? || (used == |stream| && |text| < cut.room) {
        return;
      }
      IdleBound(dec, stream, whole, used, produced);
      k := if k + 1 < |cuts| then k + 1 else 0;
    }
  }

  /** One call with all input and room for all output. */
  method DecodeAtOnce(dec: Lzma2Dec, props: Byte, stream: seq<Byte>, room: nat)
    returns (ret: Ret, text: seq<Byte>, used: nat)
    requires dec.Buffers() && dec.dict.allocatedSize == 0 && (dec.prealloc ==> dec.dict.sizeMax <= dec.dict.buf.Length)
    requires props <= 39 && DictionarySize(props) <= dec.dict.sizeMax
    modifies dec, dec.rc, dec.probs, dec.temp, dec.dict, dec.dict.buf
    ensures 0 < DictionarySize(props)
    ensures var whole := DecodeStream(stream, DictionarySize(props));
            && (ret.XzStreamEnd? ==> whole == Outcome(Ended, text, used))
            && (whole.status == Ended && |whole.out| <= room ==> ret.XzStreamEnd?)
            && (ret.XzDataError? ==> whole.status == Corrupt)
  {
    hide DictionarySize, Idle, DecodeStream;
    ret := Start(dec, props, stream);
    ret, text, used := Call(dec, stream, 0, |stream|, room, DecodeStream(stream, DictionarySize(props)), []);
  }
}
