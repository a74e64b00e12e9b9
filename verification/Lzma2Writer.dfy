/** A writer of LZMA2 streams: chunks of plain bytes or of operations, with the resets they ask for. It knows
    nothing of the decoder; decoding what it writes gives back the text. */
module Lzma2Writer {
  import opened Basics
  import opened Places
  import opened RangeCoder
  import opened RangeEncoder
  import opened LzmaCoding
  import opened LzmaOperations
  import opened LzmaRun
  import S = LzmaSymbol
  import opened Lzma2Reference
  import opened Lzma2Decoder
  import Slicing
  import opened XzBuffer

  // ---------- What is written ----------

  /** What a chunk of operations forgets of the chunks before. */
  datatype Reset =
    | Continue
    | NewState
    | NewProperties(p: Properties)
    | NewDictionary(p: Properties)

  datatype Chunk =
    | Plain(newDictionary: bool, text: seq<Byte>)
    | Packed(reset: Reset, ops: seq<Operation>)

  /** Between chunks: whether there was a dictionary reset, the properties unless they have to be said again, the
      registers and choices since the last reset of the state, the text since that of the dictionary, and the whole
      text. */
  datatype Writer = Writer(begun: bool, props: Option<Properties>, registers: Registers, past: seq<Choice>,
                           history: seq<Byte>, text: seq<Byte>)

  const BLANK := Writer(false, None, FRESH, [], [], [])

  predicate WriterValid(w: Writer) {
    w.props.Some? ==> w.begun && PropertiesFit(w.props.value) && RegistersValid(w.registers)
  }

  /** Whether the properties needed are there. */
  predicate MayPack(w: Writer, reset: Reset) {
    match reset
    case Continue => w.props.Some?
    case NewState => w.props.Some?
    case NewProperties(p) => w.begun && PropertiesFit(p)
    case NewDictionary(p) => PropertiesFit(p)
  }

  function Prepared(w: Writer, reset: Reset): (v: Writer)
    requires WriterValid(w) && MayPack(w, reset)
    ensures WriterValid(v) && v.props.Some? && v.text == w.text
  {
    match reset
    case Continue => w
    case NewState => w.(registers := FRESH, past := [])
    case NewProperties(p) => w.(props := Some(p), registers := FRESH, past := [])
    case NewDictionary(p) => Writer(true, Some(p), FRESH, [], [], w.text)
  }

  function NewText(ops: seq<Operation>, v: Writer, dictSize: nat): (n: nat)
    requires AllValid(ops, v.registers, v.history, dictSize)
  {
    |AllSaid(ops, v.registers, v.history, dictSize)| - |v.history|
  }

  /** The choices of a chunk, and the code for them. */
  function ChunkChoices(ops: seq<Operation>, v: Writer, dictSize: nat): seq<Choice>
    requires WriterValid(v) && v.props.Some? && AllValid(ops, v.registers, v.history, dictSize)
  {
    AllChoices(ops, v.registers, v.props.value, v.history, dictSize)
  }

  function ChunkCode(ops: seq<Operation>, v: Writer, dictSize: nat): (f: Interval)
    requires WriterValid(v) && v.props.Some? && AllValid(ops, v.registers, v.history, dictSize)
  {
    Code(Coder(v.past, WHOLE), ChunkChoices(ops, v, dictSize))
  }

  predicate ChunkFits(c: Chunk, w: Writer, dictSize: nat)
    requires WriterValid(w)
  {
    match c
    case Plain(newDictionary, text) => 1 <= |text| <= 0x1_0000 && (newDictionary || w.begun)
    case Packed(reset, ops) =>
      && MayPack(w, reset)
      && var v := Prepared(w, reset);
      && AllValid(ops, v.registers, v.history, dictSize)
      && 1 <= NewText(ops, v, dictSize) <= 0x20_0000
      && |CodeBytes(ChunkCode(ops, v, dictSize))| <= 0x1_0000
  }

  function WriterAfter(c: Chunk, w: Writer, dictSize: nat): (w1: Writer)
    requires WriterValid(w) && ChunkFits(c, w, dictSize)
    ensures WriterValid(w1)
  {
    match c
    case Plain(true, text) => Writer(true, None, w.registers, w.past, text, w.text + text)
    case Plain(false, text) => w.(history := w.history + text, text := w.text + text)
    case Packed(reset, ops) => Wrote(ops, Prepared(w, reset), dictSize)
  }

  function Wrote(ops: seq<Operation>, v: Writer, dictSize: nat): (w1: Writer)
    requires WriterValid(v) && v.props.Some? && AllValid(ops, v.registers, v.history, dictSize)
    ensures WriterValid(w1)
  {
    var history := AllSaid(ops, v.registers, v.history, dictSize);
    v.(registers := AllAfter(ops, v.registers, v.history, dictSize), past := v.past + ChunkChoices(ops, v, dictSize),
       history := history, text := v.text + history[|v.history|..])
  }

  /** The lower two bytes of a size less one. */
  function SizeBytes(n: nat): seq<Byte>
    requires n > 0
  {
    [(n - 1) / 0x100 % 0x100, (n - 1) % 0x100]
  }

  function ResetByte(reset: Reset): nat {
    match reset
    case Continue => 0x80
    case NewState => 0xA0
    case NewProperties(_) => 0xC0
    case NewDictionary(_) => 0xE0
  }

  /** The reset, and the bits of the size above the lower two bytes. */
  function ControlByte(reset: Reset, n: nat): Byte
    requires 1 <= n <= 0x20_0000
  {
    ResetByte(reset) + (n - 1) / 0x1_0000
  }

  function PropertiesByte(p: Properties): Byte
    requires PropertiesFit(p)
  {
    (p.pb * 5 + p.lp) * 9 + p.lc
  }

  function PropertiesBytes(reset: Reset): seq<Byte>
    requires reset.NewProperties? || reset.NewDictionary? ==> PropertiesFit(reset.p)
  {
    if reset.NewProperties? || reset.NewDictionary? then [PropertiesByte(reset.p)] else []
  }

  function ChunkBytes(c: Chunk, w: Writer, dictSize: nat): (s: seq<Byte>)
    requires WriterValid(w) && ChunkFits(c, w, dictSize)
  {
    match c
    case Plain(newDictionary, text) => [if newDictionary then 1 else 2] + SizeBytes(|text|) + text
    case Packed(reset, ops) =>
      var v := Prepared(w, reset);
      var n, code := NewText(ops, v, dictSize), CodeBytes(ChunkCode(ops, v, dictSize));
      [ControlByte(reset, n)] + SizeBytes(n) + SizeBytes(|code|) + PropertiesBytes(reset) + code
  }

  predicate Fit(chunks: seq<Chunk>, w: Writer, dictSize: nat)
    requires WriterValid(w)
    decreases |chunks|
  {
    chunks != [] ==>
      ChunkFits(chunks[0], w, dictSize) && Fit(chunks[1..], WriterAfter(chunks[0], w, dictSize), dictSize)
  }

  /** The chunks and an end marker. */
  function Written(chunks: seq<Chunk>, w: Writer, dictSize: nat): (s: seq<Byte>)
    requires WriterValid(w) && Fit(chunks, w, dictSize)
    decreases |chunks|
  {
    if chunks == [] then [0]
    else ChunkBytes(chunks[0], w, dictSize) + Written(chunks[1..], WriterAfter(chunks[0], w, dictSize), dictSize)
  }

  /** The text of the chunks. */
  function TextOf(chunks: seq<Chunk>, w: Writer, dictSize: nat): (text: seq<Byte>)
    requires WriterValid(w) && Fit(chunks, w, dictSize)
    decreases |chunks|
  {
    if chunks == [] then w.text else TextOf(chunks[1..], WriterAfter(chunks[0], w, dictSize), dictSize)
  }

  // ---------- The decoder between chunks ----------

  ghost predicate AtControl(stream: seq<Byte>, st: Lzma2State, p: nat, w: Writer) {
    && Inv(st) && st.sequence.Control? && st.Pos() == p <= |stream| && WriterValid(w)
    && st.needDictReset == !w.begun && (w.begun ==> st.needProps == w.props.None?)
    && st.history == w.history && st.out == w.text
    && (w.props.Some? ==> Holding(st.z, w.registers, w.props.value) && Models(st.m.probs, w.past)
                          && st.m.rc == Rc(U32 - 1, 0, p))
  }

  // ---------- Sizes ----------

  /** The sequence of a header field, and the bytes read up to it. */
  function AtField(st: Lzma2State, sequence: Sequence, n: nat): Lzma2State {
    st.(sequence := sequence, m := st.m.(rc := st.m.rc.(pos := st.Pos() + n)))
  }

  lemma CompressedRead(stream: seq<Byte>, st: Lzma2State, c: nat)
    requires Inv(st) && 0 <= st.Pos() && st.sequence.Compressed0? && 1 <= c <= 0x1_0000
    requires At(stream, st.Pos(), SizeBytes(c))
    ensures var st1 := AtField(st, st.next, 2).(compressed := c);
            Inv(st1) && st1.Pos() <= |stream| && Decode(stream, st) == Decode(stream, st1)
  {
    hide Inv, Decode;
    var bytes, p := SizeBytes(c), st.Pos();
    assert stream[p + 0] == bytes[0] && stream[p + 1] == bytes[1];
    var a := SizeStep(st, bytes[0]);
    ByteNext(stream, st, a);
    var b := SizeStep(a, bytes[1]);
    ByteNext(stream, a, b);
    TwoBytes(c - 1);
  }

  lemma TwoBytes(v: nat)
    ensures v % 0x1_0000 == v / 0x100 % 0x100 * 0x100 + v % 0x100
    ensures v == v / 0x1_0000 * 0x1_0000 + v / 0x100 % 0x100 * 0x100 + v % 0x100
  {
  }

  lemma UncompressedRead(stream: seq<Byte>, st: Lzma2State, n: nat)
    requires Inv(st) && 0 <= st.Pos() && st.sequence.Uncompressed1? && n > 0
    requires st.uncompressed == (n - 1) / 0x1_0000 * 0x1_0000
    requires At(stream, st.Pos(), SizeBytes(n))
    ensures var st1 := AtField(st, Compressed0, 2).(uncompressed := n);
            Inv(st1) && st1.Pos() <= |stream| && Decode(stream, st) == Decode(stream, st1)
  {
    hide Inv, Decode;
    var bytes, p := SizeBytes(n), st.Pos();
    assert stream[p + 0] == bytes[0] && stream[p + 1] == bytes[1];
    var a := SizeStep(st, bytes[0]);
    ByteNext(stream, st, a);
    var b := SizeStep(a, bytes[1]);
    ByteNext(stream, a, b);
    TwoBytes(n - 1);
  }

  // ---------- Plain chunks ----------

  /** After so many bytes of a plain chunk. */
  function Copied(st: Lzma2State, text: seq<Byte>): Lzma2State
    requires st.compressed >= |text|
  {
    AtField(st, st.sequence, |text|).(
      compressed := st.compressed - |text|, history := st.history + text, out := st.out + text)
  }

  lemma {:induction false} CopyAll(stream: seq<Byte>, st: Lzma2State, text: seq<Byte>)
    requires Inv(st) && 0 <= st.Pos() <= |stream| && st.sequence.CopyRun? && st.compressed == |text|
    requires At(stream, st.Pos(), text)
    ensures Inv(Copied(st, text)) && Copied(st, text).Pos() <= |stream|
    ensures Decode(stream, st) == Decode(stream, Copied(st, text))
    decreases |text|
  {
    hide Inv, Decode;
    if text == [] {
      assert st.history + [] == st.history && st.out + [] == st.out;
    } else {
      var p := st.Pos();
      assert stream[p + 0] == text[0];
      var a := CopyByte(st, text[0]);
      ByteNext(stream, st, a);
      assert text == [text[0]] + text[1..];
      AtParts(stream, p, [text[0]], text[1..]);
      CopyAll(stream, a, text[1..]);
      assert (st.history + [text[0]]) + text[1..] == st.history + text;
      assert (st.out + [text[0]]) + text[1..] == st.out + text;
    }
  }

  lemma PlainRead(stream: seq<Byte>, st: Lzma2State, p: nat, w: Writer, c: Chunk, dictSize: nat)
    returns (st1: Lzma2State)
    requires AtControl(stream, st, p, w) && c.Plain? && ChunkFits(c, w, dictSize) && st.dictSize == dictSize
    requires At(stream, p, ChunkBytes(c, w, dictSize))
    ensures AtControl(stream, st1, p + |ChunkBytes(c, w, dictSize)|, WriterAfter(c, w, dictSize))
    ensures Decode(stream, st) == Decode(stream, st1) && st1.dictSize == dictSize
  {
    hide Inv, Decode, Models, Holding;
    var text, first: Byte := c.text, if c.newDictionary then 1 else 2;
    var sizes := SizeBytes(|text|);
    AtParts(stream, p, [first] + sizes, text);
    AtParts(stream, p, [first], sizes);
    assert stream[p + 0] == [first][0];
    var a := ControlStep(st, first).st;
    ByteNext(stream, st, a);
    CompressedRead(stream, a, |text|);
    var b := AtField(a, a.next, 2).(compressed := |text|);
    CopyAll(stream, b, text);
    var d := Copied(b, text);
    st1 := d.(sequence := Control);
    DecodeNext(stream, d, st1);
    assert [] + text == text;
  }

  // ---------- The head of a packed chunk ----------

  /** The registers and chances of the decoder are those of the writer, and its range decoder is fresh. */
  ghost predicate Carries(st: Lzma2State, v: Writer) {
    && WriterValid(v) && v.props.Some? && Holding(st.z, v.registers, v.props.value) && Models(st.m.probs, v.past)
    && st.m.rc.range == U32 - 1 && st.m.rc.code == 0 && st.initBytesLeft == RC_INIT_BYTES
  }

  /** The text of the decoder is that of the writer. */
  predicate SameText(st: Lzma2State, v: Writer) {
    && st.history == v.history && st.out == v.text && st.needDictReset == !v.begun && st.needProps == v.props.None?
  }

  lemma ControlRead(stream: seq<Byte>, st: Lzma2State, p: nat, w: Writer, reset: Reset, n: nat) returns (a: Lzma2State)
    requires AtControl(stream, st, p, w) && MayPack(w, reset) && 1 <= n <= 0x20_0000
    requires At(stream, p, [ControlByte(reset, n)])
    ensures Inv(a) && a.Pos() == p + 1 <= |stream| && Decode(stream, st) == Decode(stream, a)
    ensures a.sequence.Uncompressed1? && a.uncompressed == (n - 1) / 0x1_0000 * 0x1_0000 && a.dictSize == st.dictSize
    ensures a.z.len == 0 && SameText(a, Prepared(w, reset))
    ensures reset.Continue? || reset.NewState? ==> a.next.LzmaPrepare? && Carries(a, Prepared(w, reset))
    ensures reset.NewProperties? || reset.NewDictionary? ==> a.next.Properties?
  {
    hide Inv, Decode, Models, Holding;
    var byte: nat := ControlByte(reset, n);
    assert byte % 0x20 == (n - 1) / 0x1_0000;
    assert stream[p + 0] == [byte][0];
    a := ControlStep(st, byte).st;
    ByteNext(stream, st, a);
    ControlLen(st);
    if reset.Continue? || reset.NewState? {
      StartsChunk(st);
      FreshHolds(st, w);
    }
  }

  lemma ControlLen(st: Lzma2State)
    requires Inv(st) && st.sequence.Control?
    ensures st.z.len == 0
    ensures !st.needDictReset && !st.needProps ==> st.initBytesLeft == RC_INIT_BYTES
  {
    hide SizesValid, Configured;
  }

  lemma FreshHolds(st: Lzma2State, w: Writer)
    requires w.props.Some? && Holding(st.z, w.registers, w.props.value)
    ensures Holding(ResetLzma(st).z, FRESH, w.props.value) && Models(ResetLzma(st).m.probs, [])
  {
    hide Pow2, Models;
    FreshModels();
  }

  lemma PropertiesRead(stream: seq<Byte>, st: Lzma2State, p: Properties)
    requires Inv(st) && 0 <= st.Pos() && st.sequence.Properties? && PropertiesFit(p)
    requires At(stream, st.Pos(), [PropertiesByte(p)])
    ensures PropsStep(st, PropertiesByte(p)).Next?
    ensures var st1 := PropsStep(st, PropertiesByte(p)).st;
            && Inv(st1) && Decode(stream, st) == Decode(stream, st1)
            && st1.Pos() == st.Pos() + 1 <= |stream| && st1.sequence.LzmaPrepare? && st1.initBytesLeft == RC_INIT_BYTES
            && st1.m.rc.range == U32 - 1 && st1.m.rc.code == 0
            && Holding(st1.z, FRESH, p) && Models(st1.m.probs, [])
            && st1 == st.(z := st1.z, m := st1.m, sequence := LzmaPrepare, initBytesLeft := RC_INIT_BYTES)
            && st1.z.len == st.z.len
  {
    hide Inv, Decode, Models, Pow2;
    var byte: nat := PropertiesByte(p);
    assert stream[st.Pos() + 0] == [PropertiesByte(p)][0];
    PropertiesSplit(p);
    FreshModels();
    ByteNext(stream, st, PropsStep(st, byte).st);
  }

  lemma PropertiesSplit(p: Properties)
    requires PropertiesFit(p)
    ensures var byte := PropertiesByte(p);
            byte % 9 == p.lc && byte / 9 % 5 == p.lp && byte / 45 == p.pb && byte <= 224
  {
  }

  lemma HeadRead(stream: seq<Byte>, st: Lzma2State, p: nat, w: Writer, reset: Reset, n: nat, c: nat, rest: seq<Byte>)
    returns (d: Lzma2State)
    requires AtControl(stream, st, p, w) && MayPack(w, reset) && 1 <= n <= 0x20_0000 && 1 <= c <= 0x1_0000
    requires var head := [ControlByte(reset, n)] + SizeBytes(n) + SizeBytes(c) + PropertiesBytes(reset);
             At(stream, p, head + rest)
    ensures Inv(d) && 0 <= d.Pos() <= |stream| && Decode(stream, st) == Decode(stream, d)
    ensures d.sequence.LzmaPrepare? && d.uncompressed == n && d.compressed == c && d.dictSize == st.dictSize
    ensures d.z.len == 0 && SameText(d, Prepared(w, reset)) && Carries(d, Prepared(w, reset))
    ensures d.Pos() == p + 5 + |PropertiesBytes(reset)| && At(stream, d.Pos(), rest)
  {
    hide Inv, Decode, Models, Holding, AtControl, At, SizeBytes, ControlByte, PropsStep;
    var control := [ControlByte(reset, n)];
    var sizes, more := SizeBytes(n), SizeBytes(c);
    AtParts(stream, p, control + sizes + more + PropertiesBytes(reset), rest);
    AtParts(stream, p, control + sizes + more, PropertiesBytes(reset));
    AtParts(stream, p, control + sizes, more);
    AtParts(stream, p, control, sizes);
    SizeLength(n);
    SizeLength(c);
    var a := ControlRead(stream, st, p, w, reset, n);
    UncompressedRead(stream, a, n);
    var b := AtField(a, Compressed0, 2).(uncompressed := n);
    CompressedRead(stream, b, c);
    d := AtField(b, b.next, 2).(compressed := c);
    if reset.NewProperties? || reset.NewDictionary? {
      PropertiesRead(stream, d, reset.p);
      d := PropsStep(d, PropertiesByte(reset.p)).st;
    }
  }

  lemma SizeLength(n: nat)
    requires n > 0
    ensures |SizeBytes(n)| == 2
  {
  }

  // ---------- The first bytes of the code ----------

  lemma CodeStands(stream: seq<Byte>, base: nat, f: Interval)
    requires At(stream, base, CodeBytes(f))
    ensures CodeAt(ChunkWindow(stream, base + |CodeBytes(f)|), base, f)
  {
    hide CodeBytes;
    var end := base + |CodeBytes(f)|;
    forall i | 0 <= i < f.n + 5
      ensures Peek(ChunkWindow(stream, end), base + i) == CodeBytes(f)[i]
    {
      assert stream[base + i] == CodeBytes(f)[i];
    }
  }

  // All digits of the code are below the first one.
  lemma NothingAbove(f: Interval)
    requires Holds(WHOLE, f)
    ensures Top(f, f.n) < U32 && Top(f, f.n + 4) == 0
  {
    hide Top, Holds;
    HoldsTop(WHOLE, f);
    TopNext(f, f.n + 4);
    TopNext(f, f.n + 3);
    TopNext(f, f.n + 2);
    TopNext(f, f.n + 1);
  }

  lemma CodeDigit(f: Interval, i: nat)
    requires i < 4
    ensures CodeBytes(f)[1 + i] == Top(f, f.n + 3 - i) - 256 * Top(f, f.n + 4 - i) && CodeBytes(f)[0] == 0
  {
    hide BigEndian;
    BigEndianDigit(f.low, f.n + 4, i);
    TopNext(f, f.n + 4 - i);
  }

  /** After so many of the five bytes that fill the code register. */
  function Filled(st: Lzma2State, f: Interval, i: nat): Lzma2State
    requires st.initBytesLeft == RC_INIT_BYTES && 1 <= i <= 5
  {
    st.(m := st.m.(rc := Rc(st.m.rc.range, Top(f, f.n + 5 - i) % U32, st.Pos() + i)), initBytesLeft := 5 - i)
  }

  lemma InitRead(stream: seq<Byte>, st: Lzma2State, f: Interval)
    requires Inv(st) && 0 <= st.Pos() && st.sequence.LzmaPrepare? && st.initBytesLeft == RC_INIT_BYTES
    requires st.m.rc.code == 0 && st.compressed >= RC_INIT_BYTES && Holds(WHOLE, f)
    requires At(stream, st.Pos(), CodeBytes(f))
    ensures Inv(Filled(st, f, 5)) && Decode(stream, st) == Decode(stream, Filled(st, f, 5))
  {
    hide Inv, Decode, CodeBytes, Holds, Top;
    var p := st.Pos();
    NothingAbove(f);
    CodeDigit(f, 0);
    assert stream[p + 0] == CodeBytes(f)[0];
    ByteNext(stream, st, Filled(st, f, 1));
    FillRead(stream, st, f, 1);
    FillRead(stream, st, f, 2);
    FillRead(stream, st, f, 3);
    FillRead(stream, st, f, 4);
  }

  lemma FillRead(stream: seq<Byte>, st: Lzma2State, f: Interval, i: nat)
    requires 1 <= i < 5 && st.initBytesLeft == RC_INIT_BYTES && 0 <= st.Pos() && st.sequence.LzmaPrepare?
    requires Inv(Filled(st, f, i)) && st.compressed >= RC_INIT_BYTES && Holds(WHOLE, f)
    requires At(stream, st.Pos(), CodeBytes(f))
    ensures Inv(Filled(st, f, i + 1)) && Decode(stream, Filled(st, f, i)) == Decode(stream, Filled(st, f, i + 1))
  {
    hide Inv, Decode, CodeBytes, Holds, Top;
    var p := st.Pos();
    CodeDigit(f, i - 1);
    var j := 1 + (i - 1);
    assert stream[p + j] == CodeBytes(f)[j];
    ShiftedIn(Top(f, f.n + 5 - i), CodeBytes(f)[j]);
    ByteNext(stream, Filled(st, f, i), Filled(st, f, i + 1));
  }

  lemma ShiftedIn(v: nat, byte: Byte)
    ensures (v % U32 * 256 + byte) % U32 == (v * 256 + byte) % U32
  {
    var q, r := v / U32, v % U32;
    Turns(256 * q, r * 256 + byte);
  }

  lemma Turns(q: int, x: int)
    ensures (U32 * q + x) % U32 == x % U32
  {
    assert U32 * q + x == U32 * (q + x / U32) + x % U32;
  }

  // ---------- A packed chunk ----------

  /** The decoder in front of the operations of a chunk. */
  function Running(st: Lzma2State, f: Interval): Lzma2State
    requires st.initBytesLeft == RC_INIT_BYTES && st.compressed >= RC_INIT_BYTES
  {
    Filled(st, f, 5).(compressed := st.compressed - RC_INIT_BYTES, sequence := LzmaRun)
  }

  lemma StartTuned(input: seq<Byte>, base: nat, f: Interval)
    requires CodeAt(input, base, f) && Holds(WHOLE, f) && Top(f, f.n) < U32
    ensures Tuned(input, base, Rc(U32 - 1, Top(f, f.n), base + 5), WHOLE, f)
  {
    hide CodeAt, Holds, Top;
  }

  lemma RunStarts(stream: seq<Byte>, st: Lzma2State, v: Writer, ops: seq<Operation>, dictSize: nat)
    requires Inv(st) && 0 <= st.Pos() && st.sequence.LzmaPrepare? && Carries(st, v)
    requires st.z.len == 0 && AllValid(ops, v.registers, v.history, dictSize)
    requires st.compressed == |CodeBytes(ChunkCode(ops, v, dictSize))|
    requires At(stream, st.Pos(), CodeBytes(ChunkCode(ops, v, dictSize)))
    ensures st.compressed >= RC_INIT_BYTES
    ensures var f := ChunkCode(ops, v, dictSize);
            && InRun(stream, st.Pos(), st.Pos() + |CodeBytes(f)|, 0, Running(st, f), Coder(v.past, WHOLE), v.registers,
                     v.props.value, ChunkChoices(ops, v, dictSize))
            && Decode(stream, st) == Decode(stream, Running(st, f))
  {
    hide Inv, Decode, CodeBytes, Holds, Top, Models, Holding, Step, CodeAt, ChunkChoices, AllKnown, Tuned, Code;
    var f, k := ChunkCode(ops, v, dictSize), Coder(v.past, WHOLE);
    CodeHolds(k, ChunkChoices(ops, v, dictSize));
    NothingAbove(f);
    CodeSize(f);
    InitRead(stream, st, f);
    CodeStands(stream, st.Pos(), f);
    StartTuned(ChunkWindow(stream, st.Pos() + |CodeBytes(f)|), st.Pos(), f);
    WritesKnown(ops, v, dictSize);
    StartStep(stream, Filled(st, f, 5));
    DecodeNext(stream, Filled(st, f, 5), Running(st, f));
  }

  lemma WritesKnown(ops: seq<Operation>, v: Writer, dictSize: nat)
    requires WriterValid(v) && v.props.Some? && AllValid(ops, v.registers, v.history, dictSize)
    ensures AllKnown(ChunkChoices(ops, v, dictSize))
  {
    hide AllKnown;
    ChoicesKnown(ops, v.registers, v.props.value, v.history, dictSize);
  }

  lemma CodeSize(f: Interval)
    ensures |CodeBytes(f)| == f.n + 5
  {
  }

  lemma StartStep(stream: seq<Byte>, st: Lzma2State)
    requires Inv(st) && 0 <= st.Pos() <= |stream| && st.sequence.LzmaPrepare? && st.initBytesLeft == 0
    requires st.compressed >= RC_INIT_BYTES
    ensures Step(stream, st) == StepResult.Next(st.(compressed := st.compressed - RC_INIT_BYTES, sequence := LzmaRun))
  {
  }

  /** From the first byte of the code to the end of the chunk. */
  lemma CodeRead(stream: seq<Byte>, st: Lzma2State, v: Writer, ops: seq<Operation>, dictSize: nat)
    returns (st1: Lzma2State)
    requires Inv(st) && 0 <= st.Pos() && st.sequence.LzmaPrepare? && Carries(st, v) && SameText(st, v)
    requires st.z.len == 0 && AllValid(ops, v.registers, v.history, dictSize) && st.dictSize == dictSize
    requires st.compressed == |CodeBytes(ChunkCode(ops, v, dictSize))| && st.uncompressed == NewText(ops, v, dictSize)
    requires At(stream, st.Pos(), CodeBytes(ChunkCode(ops, v, dictSize)))
    ensures AtControl(stream, st1, st.Pos() + |CodeBytes(ChunkCode(ops, v, dictSize))|, Wrote(ops, v, dictSize))
    ensures Decode(stream, st) == Decode(stream, st1) && st1.dictSize == dictSize
  {
    hide Inv, Decode, CodeBytes, Models, Holding, Step, At, ChunkCode, InRun, Top;
    var f, k := ChunkCode(ops, v, dictSize), Coder(v.past, WHOLE);
    RunStarts(stream, st, v, ops, dictSize);
    var run, q := Running(st, f), st.Pos();
    var r1, end := AllAfter(ops, v.registers, v.history, dictSize), q + |CodeBytes(f)|;
    var last, k1 := RunAll(stream, q, end, 0, run, k, v.registers, v.props.value, ops);
    RunEnds(stream, q, end, 0, last, k1, r1, v.props.value);
    RunHolds(stream, q, end, 0, last, k1, r1, v.props.value, []);
    st1 := last.(m := ResetRc(last.m), initBytesLeft := RC_INIT_BYTES, sequence := Control);
    DecodeNext(stream, last, st1);
  }

  lemma PackedRead(stream: seq<Byte>, st: Lzma2State, p: nat, w: Writer, c: Chunk, dictSize: nat)
    returns (st1: Lzma2State)
    requires WriterValid(w) && AtControl(stream, st, p, w) && c.Packed? && ChunkFits(c, w, dictSize)
    requires st.dictSize == dictSize
    requires At(stream, p, ChunkBytes(c, w, dictSize))
    ensures AtControl(stream, st1, p + |ChunkBytes(c, w, dictSize)|, WriterAfter(c, w, dictSize))
    ensures Decode(stream, st) == Decode(stream, st1) && st1.dictSize == dictSize
  {
    hide Inv, Decode, CodeBytes, At, AtControl, Prepared, ControlByte, SizeBytes, PropertiesBytes, ChunkCode, Wrote;
    hide Carries, SameText;
    var reset, ops := c.reset, c.ops;
    var v := Prepared(w, reset);
    var f, n := ChunkCode(ops, v, dictSize), NewText(ops, v, dictSize);
    CodeSize(f);
    SizeLength(n);
    SizeLength(|CodeBytes(f)|);
    var d := HeadRead(stream, st, p, w, reset, n, |CodeBytes(f)|, CodeBytes(f));
    st1 := CodeRead(stream, d, v, ops, dictSize);
  }

  lemma {:induction false} ChoicesKnown(ops: seq<Operation>, r: Registers, p: Properties, history: seq<Byte>,
                                        dictSize: nat)
    requires AllValid(ops, r, history, dictSize) && PropertiesFit(p)
    ensures AllKnown(AllChoices(ops, r, p, history, dictSize))
    decreases |ops|
  {
    hide Choices, AllKnown;
    if ops == [] {
      NoneKnown();
    } else {
      var a := Choices(ops[0], r, p, history);
      var b := AllChoices(ops[1..], After(r, ops[0]), p, Said(ops[0], r, history), dictSize);
      OperationKnown(ops[0], r, p, history);
      ChoicesKnown(ops[1..], After(r, ops[0]), p, Said(ops[0], r, history), dictSize);
      KnownParts(a, b);
    }
  }

  lemma NoneKnown()
    ensures AllKnown([])
  {
  }

  // ---------- Whole streams ----------

  lemma ChunkRead(stream: seq<Byte>, st: Lzma2State, p: nat, w: Writer, c: Chunk, dictSize: nat)
    returns (st1: Lzma2State)
    requires WriterValid(w) && AtControl(stream, st, p, w) && ChunkFits(c, w, dictSize) && st.dictSize == dictSize
    requires At(stream, p, ChunkBytes(c, w, dictSize))
    ensures AtControl(stream, st1, p + |ChunkBytes(c, w, dictSize)|, WriterAfter(c, w, dictSize))
    ensures Decode(stream, st) == Decode(stream, st1) && st1.dictSize == dictSize
  {
    hide Inv, Decode, At, AtControl, ChunkBytes, ChunkFits, WriterAfter;
    if c.Plain? {
      st1 := PlainRead(stream, st, p, w, c, dictSize);
    } else {
      st1 := PackedRead(stream, st, p, w, c, dictSize);
    }
  }

  lemma EndRead(stream: seq<Byte>, st: Lzma2State, p: nat, w: Writer)
    requires AtControl(stream, st, p, w) && At(stream, p, [0])
    ensures Decode(stream, st) == Outcome(Ended, w.text, p + 1)
  {
    hide Inv, Models, Holding;
    assert stream[p + 0] == [0][0];
  }

  lemma {:induction false} ChunksRead(stream: seq<Byte>, st: Lzma2State, p: nat, w: Writer, chunks: seq<Chunk>,
                                      dictSize: nat)
    requires WriterValid(w) && Fit(chunks, w, dictSize) && AtControl(stream, st, p, w) && st.dictSize == dictSize
    requires At(stream, p, Written(chunks, w, dictSize))
    ensures Inv(st) && 0 <= st.Pos() <= |stream|
    ensures Decode(stream, st)
         == Outcome(Ended, TextOf(chunks, w, dictSize), p + |Written(chunks, w, dictSize)|)
    decreases |chunks|
  {
    hide Inv, Decode, At, ChunkBytes, ChunkFits, WriterAfter, Models, Holding;
    if chunks == [] {
      EndRead(stream, st, p, w);
    } else {
      var bytes, w1 := ChunkBytes(chunks[0], w, dictSize), WriterAfter(chunks[0], w, dictSize);
      AtParts(stream, p, bytes, Written(chunks[1..], w1, dictSize));
      var st1 := ChunkRead(stream, st, p, w, chunks[0], dictSize);
      ChunksRead(stream, st1, p + |bytes|, w1, chunks[1..], dictSize);
    }
  }

  /** Whatever follows it, a stream that was written decodes to the text of its chunks. */
  lemma WrittenDecodes(chunks: seq<Chunk>, dictSize: nat, rest: seq<Byte>)
    requires 0 < dictSize && Fit(chunks, BLANK, dictSize)
    ensures var s := Written(chunks, BLANK, dictSize);
            Slicing.DecodeStream(s + rest, dictSize) == Outcome(Ended, TextOf(chunks, BLANK, dictSize), |s|)
  {
    hide Decode, Written, TextOf, Fit;
    var s := Written(chunks, BLANK, dictSize);
    var st := Slicing.Initial(dictSize);
    RestartInv(st, dictSize, 0);
    ChunksRead(s + rest, st, 0, BLANK, chunks, dictSize);
  }

  /** The decoder, called over and over with any buffers, ends a stream that was written with all of its text. */
  method DecodeWritten(dec: Lzma2Dec, props: Byte, stream: seq<Byte>, cuts: seq<Slicing.Cut>, ghost chunks: seq<Chunk>,
                       ghost rest: seq<Byte>)
    returns (ret: Ret, text: seq<Byte>, used: nat)
    requires dec.Buffers() && dec.dict.allocatedSize == 0 && (dec.prealloc ==> dec.dict.sizeMax <= dec.dict.buf.Length)
    requires props <= 39 && DictionarySize(props) <= dec.dict.sizeMax
    requires |cuts| > 0 && forall k :: 0 <= k < |cuts| ==> cuts[k].give > 0 && cuts[k].room > 0
    requires Fit(chunks, BLANK, DictionarySize(props))
    requires stream == Written(chunks, BLANK, DictionarySize(props)) + rest
    modifies dec, dec.rc, dec.probs, dec.temp, dec.dict, dec.dict.buf
    ensures ret.XzStreamEnd? && text == TextOf(chunks, BLANK, DictionarySize(props))
    ensures used == |Written(chunks, BLANK, DictionarySize(props))|
  {
    hide DictionarySize, Slicing.DecodeStream, Fit, Written, TextOf;
    ret, text, used := Slicing.DecodeAll(dec, props, stream, cuts);
    WrittenDecodes(chunks, DictionarySize(props), rest);
  }

  /** The control bytes that are refused after chunks that were written: those without a meaning, all that do not
      reset the dictionary before the first reset, and those that rely on properties that have to be said again. */
  lemma ControlExact(stream: seq<Byte>, st: Lzma2State, p: nat, w: Writer)
    requires AtControl(stream, st, p, w) && p < |stream|
    ensures Step(stream, st) == Stop(Corrupt, p + 1) <==>
            || 0x03 <= stream[p] < 0x80
            || (!w.begun && 0x02 <= stream[p] < 0xE0)
            || (w.props.None? && 0x80 <= stream[p] < 0xC0)
  {
    hide Inv, Models, Holding;
  }

  /** A code has at most a byte for each choice, and six more; so what has few enough choices can be written. */
  lemma {:induction false} CodeLength(k: Coder, todo: seq<Choice>)
    ensures |CodeBytes(Code(k, todo))| <= k.at.n + |todo| + 6
    decreases |todo|
  {
    if todo != [] {
      CodeLength(Put(k, todo[0]), todo[1..]);
    }
  }

  /** So what has few enough choices fits a chunk. */
  lemma FewChoicesFit(reset: Reset, ops: seq<Operation>, w: Writer, dictSize: nat)
    requires WriterValid(w) && MayPack(w, reset)
    requires var v := Prepared(w, reset);
             && AllValid(ops, v.registers, v.history, dictSize) && 1 <= NewText(ops, v, dictSize) <= 0x20_0000
             && |ChunkChoices(ops, v, dictSize)| <= 65530
    ensures ChunkFits(Packed(reset, ops), w, dictSize)
  {
    hide Prepared, NewText, ChunkChoices, CodeBytes, Code;
    var v := Prepared(w, reset);
    CodeLength(Coder(v.past, WHOLE), ChunkChoices(ops, v, dictSize));
  }
}
