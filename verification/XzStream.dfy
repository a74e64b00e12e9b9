/** struct xz_dec of src/xz/xz_dec_stream.c in multi-call mode: dec_main and xz_dec_run over the decoders of the
    other modules, proved to accept exactly the files of XzFormat however they are cut. */
module XzStream {
  import opened Basics
  import L = Lzma2Reference
  import opened XzBuffer
  import opened BcjDecoder
  import opened Lzma2Decoder
  import opened Slicing
  import opened BcjSlicing
  import opened XzFormat
  import opened XzField
  import opened XzPlace
  import opened XzIndexDec
  import opened XzBlock

  /** s->temp: a Stream Header, Block Header or Stream Footer is collected here. */
  class HeaderBuf {
    const buf: array<Byte>
    var pos: nat
    var size: nat

    constructor ()
      ensures fresh(buf) && buf.Length == 1024 && pos == 0 && size == STREAM_HEADER_SIZE
    {
      buf := new Byte[1024](_ => 0);
      pos, size := 0, STREAM_HEADER_SIZE;
    }

    /** The first pos bytes of what stands at an index of the file. */
    ghost predicate Holds(s: seq<Byte>, mark: nat)
      reads this, buf
    {
      pos <= size <= buf.Length && mark + pos <= |s| && forall i :: 0 <= i < pos ==> buf[i] == s[mark + i]
    }

    /** fill_temp */
    method Fill(b: XzBuf, ghost from: nat, ghost s: seq<Byte>, ghost delta: int, ghost mark: nat) returns (done: bool)
      requires Holds(s, mark) && Given(s, b, from, delta) && mark + pos == b.inPos + delta
      modifies this`pos, buf, b`inPos
      ensures Given(s, b, from, delta) && b.inPos >= old(b.inPos)
      ensures done ==> pos == 0 && b.inPos + delta == mark + size <= |s| && buf[..size] == s[mark..mark + size]
      ensures !done ==> b.inPos == |b.input| && Holds(s, mark) && mark + pos == b.inPos + delta && pos < size
      ensures done && old(pos) < size ==> b.inPos > old(b.inPos)
    {
      var copySize := if |b.input| - b.inPos < size - pos then |b.input| - b.inPos else size - pos;
      MemCpy(buf, pos, b.input[b.inPos..b.inPos + copySize]);
      b.inPos := b.inPos + copySize;
      pos := pos + copySize;
      if pos == size {
        assert forall i :: 0 <= i < size ==> buf[i] == s[mark + i];
        pos := 0;
        return true;
      }
      done := false;
    }
  }

  datatype Sequence =
    | SeqStreamHeader
    | SeqBlockStart
    | SeqBlockHeader
    | SeqBlockUncompress
    | SeqBlockPadding
    | SeqBlockCheck
    | SeqIndex
    | SeqIndexPadding
    | SeqIndexCrc
    | SeqStreamFooter

  /** The codes for a file that is not accepted. */
  predicate Failed(ret: Ret) {
    ret.XzFormatError? || ret.XzOptionsError? || ret.XzMemlimitError? || ret.XzDataError?
  }

  /** Why a Stream Header is refused: it is none, it is damaged, or it asks for what is not supported. */
  predicate StreamRefusal(h: seq<Byte>, ret: Ret)
    requires |h| == STREAM_HEADER_SIZE
  {
    && (ret.XzFormatError? <==> h[..6] != [0xFD, 0x37, 0x7A, 0x58, 0x5A, 0x00])
    && (ret.XzDataError? <==> h[..6] == [0xFD, 0x37, 0x7A, 0x58, 0x5A, 0x00] && Crc(h[6..8], 0) != GetLe32(h, 8))
    && (ret.XzFormatError? || ret.XzDataError? || ret.XzOptionsError?)
  }

  /** The LZMA2 filter of a Block Header asks for a larger dictionary. */
  predicate TooLarge(h: seq<Byte>, dictMax: nat) {
    exists i :: 2 <= i < |h| && TooLargeAt(h, i, dictMax)
  }

  predicate TooLargeAt(h: seq<Byte>, i: nat, dictMax: nat) {
    i + 3 <= |h| && h[i] == LZMA2_ID && h[i + 1] == 1 && h[i + 2] <= 39 && DictionarySize(h[i + 2]) > dictMax
  }

  /** What an error says of the file: no magic bytes at its beginning, or a header that is not damaged but asks for
      what is not supported or for a larger dictionary. Anything else is corrupt data. */
  ghost predicate Excused(s: seq<Byte>, dictMax: nat, ret: Ret) {
    && (ret.XzFormatError? ==> STREAM_HEADER_SIZE <= |s| && s[..6] != [0xFD, 0x37, 0x7A, 0x58, 0x5A, 0x00])
    && (ret.XzOptionsError? ==> StreamUndamaged(s) || exists p: nat, n: nat :: BlockUndamaged(s, p, n))
    && (ret.XzMemlimitError? ==> exists p: nat, n: nat :: BlockUndamaged(s, p, n) && TooLarge(s[p..p + n], dictMax))
  }

  predicate StreamUndamaged(s: seq<Byte>) {
    && STREAM_HEADER_SIZE <= |s| && s[..6] == [0xFD, 0x37, 0x7A, 0x58, 0x5A, 0x00]
    && Crc(s[6..8], 0) == GetLe32(s, 8)
  }

  /** The bytes with their CRC32 behind them. */
  predicate BlockUndamaged(s: seq<Byte>, p: nat, n: nat) {
    8 <= n && p + n <= |s| && Crc(s[p..p + n][..n - 4], 0) == GetLe32(s[p..p + n], n - 4)
  }

  lemma NoExcuse(s: seq<Byte>, dictMax: nat, ret: Ret)
    requires ret.XzOk? || ret.XzDataError?
    ensures Excused(s, dictMax, ret)
  {
  }

  lemma StreamExcuse(s: seq<Byte>, dictMax: nat, ret: Ret)
    requires STREAM_HEADER_SIZE <= |s| && (ret.XzOk? || StreamRefusal(s[..STREAM_HEADER_SIZE], ret))
    ensures Excused(s, dictMax, ret)
  {
    hide Crc;
    var h := s[..STREAM_HEADER_SIZE];
    assert h[..6] == s[..6] && h[6..8] == s[6..8];
  }

  lemma BlockExcuse(s: seq<Byte>, p: nat, n: nat, dictMax: nat, ret: Ret)
    requires 8 <= n <= 1024 && p + n <= |s| && BlockRefusal(s[p..p + n], dictMax, ret)
    ensures Excused(s, dictMax, ret)
  {
    hide Crc, TooLarge;
    assert !ret.XzDataError? ==> BlockUndamaged(s, p, n);
  }

  /** Why a Block Header is refused: only if it is not damaged can it ask for what is not supported, or for more
      memory. */
  ghost predicate BlockRefusal(h: seq<Byte>, dictMax: nat, ret: Ret)
    requires 8 <= |h| <= 1024
  {
    && (Crc(h[..|h| - 4], 0) != GetLe32(h, |h| - 4) ==> ret.XzDataError?)
    && (Crc(h[..|h| - 4], 0) == GetLe32(h, |h| - 4) && h[1] / 2 % 32 != 0 ==> ret.XzOptionsError?)
    && (ret.XzMemlimitError? ==> TooLarge(h, dictMax))
    && (ret.XzMemlimitError? <== (exists r :: ReadBlockHeader(h, 0xC000_0000) == Some(r)))
    && (ret.XzDataError? || ret.XzOptionsError? || ret.XzMemlimitError?)
  }

  class XzDec {
    const f: Field
    const ix: IndexDec
    const temp: HeaderBuf
    const blk: BlockDec
    var sequence: Sequence
    var inStart: nat
    var checkType: Byte
    var allowBufError: bool

    /** Everything given to the caller since the last reset; what of it belongs to complete Blocks; the text
        of the last Block; and where the current field begins. */
    ghost var out: seq<Byte>
    ghost var prev: seq<Byte>
    ghost var text: seq<Byte>
    ghost var mark: nat

    /** xz_dec_init */
    constructor (dictMax: nat, prealloc: bool)
      ensures Shape() && DictMax() == dictMax
      ensures fresh(f) && fresh(ix) && fresh(temp) && fresh(temp.buf) && fresh(blk) && fresh(blk.bcj)
      ensures fresh(blk.bcj.buf)
      ensures fresh(blk.lzma2) && fresh({blk.lzma2.rc, blk.lzma2.dict, blk.lzma2.dict.buf, blk.lzma2.temp})
      ensures fresh(blk.lzma2.probs)
    {
      var lzma2 := new Lzma2Dec(dictMax, prealloc);
      var bcj := new XzBcj();
      var field := new Field();
      f := field;
      ix := new IndexDec(field);
      temp := new HeaderBuf();
      blk := new BlockDec(field, lzma2, bcj);
      sequence, inStart, checkType, allowBufError := SeqStreamHeader, 0, 0, false;
      out, prev, text, mark := [], [], [], 0;
    }

    ghost function DictMax(): nat
      reads blk.lzma2.dict
    {
      blk.lzma2.dict.sizeMax
    }

    ghost predicate Shape()
      reads blk.lzma2.dict
    {
      && blk.Shape() && blk.f == f && ix.f == f && temp.buf.Length == 1024
      && temp.buf != blk.lzma2.temp && temp.buf != blk.lzma2.dict.buf && temp.buf != blk.bcj.buf
      && (blk.lzma2.probs as object) != temp.buf
    }

    ghost predicate Apart(out: array<Byte>)
      reads blk.lzma2.dict
    {
      blk.Apart(out) && out != temp.buf
    }

    ghost predicate IndexFresh()
      reads ix
    {
      ix.sequence.Count? && ix.size == 0 && ix.count == 0 && ix.hash == NO_HASH
    }

    ghost function Done(): Blocks
      reads this`out, blk`count, blk`hash
    {
      Blocks(blk.count, blk.hash, out)
    }

    /** Nothing is in progress that pos, crc or the Index fields tell about. */
    ghost predicate Clean()
      reads f, ix
    {
      f.pos == 0 && f.crc == 0 && IndexFresh()
    }

    /** What the fields say, at a position of the file; the Index is hashed up to covered. */
    ghost predicate State(s: seq<Byte>, here: nat, covered: int)
      reads this`sequence, this`checkType, this`out, this`prev, this`text, this`mark, f, ix, ix.f, temp, temp.buf, blk
      reads blk.f
      reads blk.bcj, blk.bcj.buf, blk.lzma2, blk.lzma2.rc, blk.lzma2.dict, blk.lzma2.dict.buf, blk.lzma2.probs
      reads blk.lzma2.temp
    {
      && here <= |s|
      && match sequence
         case SeqStreamHeader =>
           && temp.Holds(s, 0) && temp.size == STREAM_HEADER_SIZE && here == temp.pos < temp.size
           && Clean() && blk.count == 0 && blk.hash == NO_HASH && out == []
         case SeqBlockStart => Clean()
         case SeqBlockHeader => Clean() && InBlockHeader(s, here)
         case SeqBlockUncompress =>
           blk.InBlock(s, here, checkType) && out == prev + blk.Text() && f.pos == 0 && IndexFresh()
         case SeqBlockPadding => f.pos == 0 && f.crc == (if checkType == 1 then Crc(text, 0) else 0) && IndexFresh()
         case SeqBlockCheck => checkType == 1 && InCheck(s, here) && f.crc == Crc(text, 0) && IndexFresh()
         case SeqIndex => ix.Reading(s, here) && ix.Covers(s, covered)
         case SeqIndexPadding => f.pos == 0 && ix.Covers(s, covered) && ix.start <= here
         case SeqIndexCrc => InCheck(s, here) && ix.Covers(s, mark)
         case SeqStreamFooter =>
           temp.Holds(s, mark) && temp.size == STREAM_HEADER_SIZE && here == mark + temp.pos && temp.pos < temp.size
    }

    ghost predicate InBlockHeader(s: seq<Byte>, here: nat)
      reads this`mark, temp, temp.buf
    {
      && temp.Holds(s, mark) && mark < |s| && s[mark] != 0
      && (var first: int := s[mark]; temp.size == (first + 1) * 4)
      && here == mark + temp.pos && temp.pos < temp.size
    }

    ghost predicate InCheck(s: seq<Byte>, here: nat)
      reads this`mark, f
    {
      f.InCheck(s, mark) && here == mark + f.pos / 8
    }

    ghost function Where(here: nat): Place
      reads this`sequence, this`out, this`prev, this`text, this`mark, ix, blk
    {
      match sequence
      case SeqStreamHeader => AtHeader
      case SeqBlockStart => AtBlocks(here, Done())
      case SeqBlockHeader => AtBlocks(mark, Done())
      case SeqBlockUncompress => AtData(blk.start, blk.header, Blocks(blk.count, blk.hash, prev))
      case SeqBlockPadding => AtBlockPadding(blk.compressed, here, text, Done())
      case SeqBlockCheck => AtCheck(mark, text, Done())
      case SeqIndex => ix.Here(Done())
      case SeqIndexPadding => AtIndexPadding(ix.start, here, Done(), ix.hash)
      case SeqIndexCrc => AtIndexCrc(ix.start, mark, out)
      case SeqStreamFooter => AtFooter(ix.size, mark, out)
    }

    /** The decoder is at a position of the file from which the rest leads to target. */
    ghost predicate On(s: seq<Byte>, here: nat, covered: int, target: Outcome)
      reads this`sequence, this`checkType, this`out, this`prev, this`text, this`mark, f, ix, ix.f, temp, temp.buf, blk
      reads blk.f
      reads blk.bcj, blk.bcj.buf, blk.lzma2, blk.lzma2.rc, blk.lzma2.dict, blk.lzma2.dict.buf, blk.lzma2.probs
      reads blk.lzma2.temp
    {
      Shape() && State(s, here, covered) && Leads(s, DictMax(), checkType, Where(here), target)
    }

    /** dec_stream_header */
    method DecStreamHeader() returns (ret: Ret)
      requires temp.buf.Length == 1024
      modifies this`checkType
      ensures ret.XzOk? || Failed(ret)
      ensures ret.XzOk? ==> ReadStreamHeader(temp.buf[..STREAM_HEADER_SIZE]) == Some(checkType)
      ensures !ret.XzOk? ==>
                && ReadStreamHeader(temp.buf[..STREAM_HEADER_SIZE]) == None
                && StreamRefusal(temp.buf[..STREAM_HEADER_SIZE], ret)
    {
      hide Crc;
      ghost var h := temp.buf[..STREAM_HEADER_SIZE];
      assert h[..6] == temp.buf[..6] && h[6..8] == temp.buf[6..8];
      if temp.buf[..6] != HEADER_MAGIC {
        return XzFormatError;
      }
      if Crc(temp.buf[6..8], 0) != GetLe32(temp.buf[..STREAM_HEADER_SIZE], 8) {
        return XzDataError;
      }
      if temp.buf[6] != 0 {
        return XzOptionsError;
      }
      checkType := temp.buf[7];
      if checkType > 1 {
        return XzOptionsError;
      }
      ret := XzOk;
    }

    /** dec_stream_footer */
    method DecStreamFooter() returns (ret: Ret)
      requires temp.buf.Length == 1024
      ensures ret.XzStreamEnd? || ret.XzDataError?
      ensures ret.XzStreamEnd? <==> FooterValid(temp.buf[..STREAM_HEADER_SIZE], ix.size, checkType)
    {
      hide Crc;
      var h := temp.buf[..STREAM_HEADER_SIZE];
      if h[10..] != FOOTER_MAGIC {
        return XzDataError;
      }
      if Crc(h[4..10], 0) != GetLe32(h, 0) {
        return XzDataError;
      }
      if ix.size / 4 != GetLe32(h, 4) {
        return XzDataError;
      }
      if h[8] != 0 || h[9] != checkType {
        return XzDataError;
      }
      ret := XzStreamEnd;
    }

    // Compressed Size or Uncompressed Size of a Block Header.
    method DecSize(h: seq<Byte>, present: bool, p: nat, limit: nat) returns (ok: bool, v: nat, q: nat)
      requires p <= limit <= |h| && f.pos == 0
      modifies f`pos, f`vli
      ensures ok <==> SizeField(h, present, p, limit).Some?
      ensures ok ==> SizeField(h, present, p, limit) == Some((v, q)) && f.pos == 0
    {
      hide Pow128;
      v, q := VLI_UNKNOWN, p;
      if present {
        var ret;
        ret, q := f.DecVli(h[..limit], p, h, 0, limit);
        if !ret.XzStreamEnd? {
          return false, v, q;
        }
        v := f.vli;
      }
      ok := true;
    }

    // The Filter Flags and the Header Padding; the decoders are reset.
    method DecFilters(h: seq<Byte>, bcjActive: bool, p: nat, limit: nat, ghost stream: seq<Byte>)
      returns (ret: Ret, props: Byte)
      requires blk.Shape() && p <= limit <= |h|
      modifies blk.bcj, blk.lzma2, blk.lzma2.dict
      ensures blk.Shape() && blk.lzma2.dict.sizeMax == old(blk.lzma2.dict.sizeMax)
      ensures blk.lzma2.dict.buf == old(blk.lzma2.dict.buf) || fresh(blk.lzma2.dict.buf)
      ensures ret.XzOk? || ret.XzDataError? || ret.XzOptionsError? || ret.XzMemlimitError?
      ensures ret.XzMemlimitError? ==> TooLargeAt(h, if bcjActive then p + 2 else p, blk.lzma2.dict.sizeMax)
      ensures var found := Filters(h, bcjActive, p, limit);
              if ret.XzOk? then found == Some(props) && DictionarySize(props) <= blk.lzma2.dict.sizeMax
              else found == None || (DictionarySize(found.value) > blk.lzma2.dict.sizeMax && ret.XzMemlimitError?)
      ensures ret.XzOk? ==>
                && 0 < DictionarySize(props)
                && Idle(blk.lzma2, stream, DecodeStream(stream, DictionarySize(props)), 0, [])
                && (bcjActive ==> blk.bcj.delivered == [] && blk.bcj.ret.XzOk? && blk.bcj.Holds([]))
    {
      hide DictionarySize, Idle, DecodeStream, Carries;
      props := 0;
      var pos := p;
      if bcjActive {
        if limit - pos < 2 {
          return XzOptionsError, props;
        }
        ret := blk.bcj.Reset(h[pos]);
        if !ret.XzOk? {
          return;
        }
        if h[pos + 1] != 0 {
          return XzOptionsError, props;
        }
        pos := pos + 2;
      }
      if limit - pos < 2 {
        return XzDataError, props;
      }
      if h[pos] != LZMA2_ID || h[pos + 1] != 1 {
        return XzOptionsError, props;
      }
      if limit - (pos + 2) < 1 {
        return XzDataError, props;
      }
      props := h[pos + 2];
      ret := Start(blk.lzma2, props, stream);
      if !ret.XzOk? {
        return;
      }
      ghost var first := pos + 3;
      pos := pos + 3;
      while pos < limit
        invariant first <= pos <= limit
        invariant forall i :: first <= i < pos ==> h[i] == 0
      {
        if h[pos] != 0 {
          return XzOptionsError, props;
        }
        pos := pos + 1;
      }
    }

    /** dec_block_header: h is the Block Header, behind which the data begins at start. */
    method DecBlockHeader(h: seq<Byte>, ghost s: seq<Byte>, ghost start: nat) returns (ret: Ret)
      requires Shape() && 8 <= |h| <= 1024 && f.pos == 0 && start <= |s|
      modifies f`pos, f`vli, blk`header, blk`compressed, blk`uncompressed, blk`start, blk.bcj, blk.lzma2, blk.lzma2.dict
      ensures Shape() && DictMax() == old(DictMax())
      ensures (blk.lzma2.dict.buf == old(blk.lzma2.dict.buf) || fresh(blk.lzma2.dict.buf))
      ensures ret.XzOk? || Failed(ret)
      ensures !ret.XzOk? ==> ReadBlockHeader(h, DictMax()) == None && BlockRefusal(h, DictMax(), ret)
      ensures ret.XzOk? ==>
                && ReadBlockHeader(h, DictMax()) == Some(blk.header) && f.pos == 0 && blk.start == start
                && blk.compressed == 0 && blk.uncompressed == 0 && blk.Text() == [] && blk.Rested(s, start)
    {
      hide DictionarySize, Idle, DecodeStream, Filters, SizeField, Crc, ReadVli, Carries;
      var limit := |h| - 4;
      if Crc(h[..limit], 0) != GetLe32(h, limit) {
        return XzDataError;
      }
      if h[1] / 2 % 32 != 0 {
        return XzOptionsError;
      }
      var ok, compressed, p := DecSize(h, h[1] / 0x40 % 2 == 1, 2, limit);
      if !ok {
        return XzDataError;
      }
      var uncompressed;
      ok, uncompressed, p := DecSize(h, h[1] / 0x80 == 1, p, limit);
      if !ok {
        return XzDataError;
      }
      var props;
      ret, props := DecFilters(h, h[1] % 2 == 1, p, limit, s[start..]);
      if !ret.XzOk? {
        return;
      }
      FiltersBound(h, h[1] % 2 == 1, p, limit);
      blk.header := XzFormat.BlockHeader(|h|, compressed, uncompressed, h[1] % 2 == 1, props);
      blk.compressed, blk.uncompressed, blk.start := 0, 0, start;
      NothingYet(s, start);
    }

    // The decoders at the beginning of the data.
    lemma NothingYet(s: seq<Byte>, start: nat)
      requires blk.Shape() && start <= |s| && blk.start == start && blk.header.props <= 39
      requires 0 < DictionarySize(blk.header.props)
      requires Idle(blk.lzma2, s[start..], DecodeStream(s[start..], DictionarySize(blk.header.props)), 0, [])
      requires blk.header.bcj ==> blk.bcj.delivered == [] && blk.bcj.ret.XzOk? && blk.bcj.Holds([])
      ensures blk.Text() == [] && blk.Rested(s, start)
    {
      hide DictionarySize, DecodeStream, L.Inv, Lzma2Dec.Valid, Carries;
    }

    /** Inside a call, whose input from an index on is the file from there + delta on. */
    ghost predicate Live(s: seq<Byte>, b: XzBuf, from: nat, delta: int, target: Outcome)
      reads this, f, ix, ix.f, temp, temp.buf, blk, blk.f, b
      reads blk.bcj, blk.bcj.buf, blk.lzma2, blk.lzma2.rc, blk.lzma2.dict, blk.lzma2.dict.buf, blk.lzma2.probs
      reads blk.lzma2.temp
    {
      Given(s, b, from, delta) && from <= inStart <= b.inPos && On(s, b.inPos + delta, inStart + delta, target)
    }

    /** Input is needed, and the file has none left behind its end. */
    ghost predicate NeedsInput()
      reads this`sequence, blk`compressed, ix, ix.f
    {
      && !sequence.SeqBlockUncompress?
      && (sequence.SeqBlockPadding? ==> blk.compressed % 4 != 0)
      && (sequence.SeqIndexPadding? ==> ix.size % 4 != 0)
    }

    /** SEQ_STREAM_HEADER */
    method StreamHeaderStage(b: XzBuf, ghost from: nat, ghost s: seq<Byte>, ghost delta: int, ghost target: Outcome)
      returns (go: bool, ret: Ret)
      requires sequence.SeqStreamHeader? && Live(s, b, from, delta, target)
      modifies this`sequence, this`checkType, temp`pos, temp.buf, b`inPos
      ensures Given(s, b, from, delta) && b.inPos >= old(b.inPos)
      ensures ret.XzOk? || (Failed(ret) && target.Invalid?)
      ensures Excused(s, DictMax(), ret)
      ensures go ==> ret.XzOk? && sequence.SeqBlockStart? && b.inPos > old(b.inPos)
      ensures ret.XzOk? ==> Live(s, b, from, delta, target)
      ensures !go && ret.XzOk? ==> b.inPos == |b.input| && sequence.SeqStreamHeader?
    {
      hide Leads, BlockDec.Shape, BlockDec.InBlock, ReadStreamHeader, ReadVli, IndexDec.Reading, IndexDec.Covers, Crc;
      hide StreamRefusal, Excused;
      var done := temp.Fill(b, from, s, delta, 0);
      NoExcuse(s, DictMax(), XzOk);
      if !done {
        return false, XzOk;
      }
      sequence := SeqBlockStart;
      ret := DecStreamHeader();
      assert temp.buf[..STREAM_HEADER_SIZE] == s[..STREAM_HEADER_SIZE];
      StreamExcuse(s, DictMax(), ret);
      HeaderLeads(s, DictMax(), checkType, target, old(checkType));
      go := ret.XzOk?;
    }

    // The Index begins.
    method IndexStart(b: XzBuf, ghost from: nat, ghost s: seq<Byte>, ghost delta: int, ghost target: Outcome)
      requires Given(s, b, from, delta) && b.inPos < |b.input| && Shape() && Clean()
      requires Leads(s, DictMax(), checkType, AtCount(b.inPos + delta, b.inPos + 1 + delta, Done()), target)
      modifies this`sequence, this`inStart, ix`start, ix`mark, b`inPos
      ensures Live(s, b, from, delta, target) && b.inPos == old(b.inPos) + 1 && sequence.SeqIndex?
    {
      hide Leads, BlockDec.Shape, ReadVli, Crc;
      inStart := b.inPos;
      ix.start, ix.mark := b.inPos + delta, b.inPos + 1 + delta;
      b.inPos := b.inPos + 1;
      sequence := SeqIndex;
      CrcNothing();
      assert s[ix.start..ix.start] == [];
    }

    /** SEQ_BLOCK_START: the first byte tells a Block from the Index. */
    method BlockStartStage(b: XzBuf, ghost from: nat, ghost s: seq<Byte>, ghost delta: int, ghost target: Outcome)
      returns (go: bool)
      requires sequence.SeqBlockStart? && Live(s, b, from, delta, target)
      modifies this`sequence, this`inStart, this`mark, temp`pos, temp`size, blk`header, ix`start, ix`mark, b`inPos
      ensures Live(s, b, from, delta, target) && b.inPos >= old(b.inPos)
      ensures go ==> (sequence.SeqIndex? && b.inPos > old(b.inPos)) || sequence.SeqBlockHeader?
      ensures !go ==> b.inPos == |b.input| && sequence.SeqBlockStart?
    {
      hide Leads, BlockDec.Shape, ReadVli, Crc;
      ghost var here := b.inPos + delta;
      if b.inPos == |b.input| {
        return false;
      }
      BlocksLead(s, DictMax(), checkType, here, Done(), target);
      if b.input[b.inPos] == 0 {
        IndexStart(b, from, s, delta, target);
      } else {
        var first: int := b.input[b.inPos];
        blk.header := blk.header.(size := (first + 1) * 4);
        temp.size := blk.header.size;
        temp.pos := 0;
        sequence := SeqBlockHeader;
        mark := here;
      }
      go := true;
    }

    /** SEQ_BLOCK_PADDING */
    method BlockPaddingStage(b: XzBuf, ghost from: nat, ghost s: seq<Byte>, ghost delta: int, ghost target: Outcome)
      returns (go: bool, ret: Ret)
      requires sequence.SeqBlockPadding? && Live(s, b, from, delta, target)
      modifies this`sequence, this`mark, blk`compressed, b`inPos
      ensures Given(s, b, from, delta) && b.inPos >= old(b.inPos)
      ensures ret.XzOk? || (ret.XzDataError? && target.Invalid?)
      ensures go ==> ret.XzOk? && sequence.SeqBlockCheck? && AtCheckStart(s, b, from, delta, target)
      ensures !go && ret.XzOk? ==>
                && Live(s, b, from, delta, target) && b.inPos == |b.input| && sequence.SeqBlockPadding?
                && blk.compressed % 4 != 0
    {
      hide Leads, BlockDec.Shape, Crc, Rest;
      while blk.compressed % 4 != 0
        invariant sequence.SeqBlockPadding? && Live(s, b, from, delta, target) && b.inPos >= old(b.inPos)
        decreases |b.input| - b.inPos
      {
        BlockPaddingTurn(s, DictMax(), checkType, blk.compressed, b.inPos + delta, text, Done(), target);
        if b.inPos == |b.input| {
          return false, XzOk;
        }
        b.inPos := b.inPos + 1;
        if b.input[b.inPos - 1] != 0 {
          return false, XzDataError;
        }
        blk.compressed := blk.compressed + 1;
      }
      BlockPaddingTurn(s, DictMax(), checkType, blk.compressed, b.inPos + delta, text, Done(), target);
      sequence := SeqBlockCheck;
      mark := b.inPos + delta;
      go, ret := true, XzOk;
    }

    /** At the beginning of a Check, which may be absent. */
    ghost predicate AtCheckStart(s: seq<Byte>, b: XzBuf, from: nat, delta: int, target: Outcome)
      reads this, f, ix, blk, b, blk.lzma2.dict
    {
      && Given(s, b, from, delta) && from <= inStart <= b.inPos && Shape() && IndexFresh()
      && f.pos == 0 && f.crc == (if checkType == 1 then Crc(text, 0) else 0)
      && mark == b.inPos + delta && Leads(s, DictMax(), checkType, AtCheck(mark, text, Done()), target)
    }

    /** SEQ_BLOCK_CHECK */
    method BlockCheckStage(b: XzBuf, ghost from: nat, ghost s: seq<Byte>, ghost delta: int, ghost target: Outcome)
      returns (go: bool, ret: Ret)
      requires sequence.SeqBlockCheck? && (Live(s, b, from, delta, target) || AtCheckStart(s, b, from, delta, target))
      modifies this`sequence, f`pos, f`crc, b`inPos
      ensures Given(s, b, from, delta) && b.inPos >= old(b.inPos)
      ensures ret.XzOk? || (ret.XzDataError? && target.Invalid?)
      ensures ret.XzOk? ==> Live(s, b, from, delta, target)
      ensures go ==> ret.XzOk? && sequence.SeqBlockStart?
      ensures !go && ret.XzOk? ==> b.inPos == |b.input| && sequence.SeqBlockCheck?
    {
      hide Leads, BlockDec.Shape, Crc, Rest, Le;
      CheckLeads(s, DictMax(), checkType, mark, text, Done(), target);
      if checkType == 1 {
        var q;
        ret, q := f.CrcValidate(b.input, b.inPos, s, delta, mark);
        b.inPos := q;
        if !ret.XzStreamEnd? {
          return false, ret;
        }
      }
      sequence := SeqBlockStart;
      go, ret := true, XzOk;
    }

    /** SEQ_INDEX */
    method IndexStage(b: XzBuf, ghost from: nat, ghost s: seq<Byte>, ghost delta: int, ghost target: Outcome)
      returns (go: bool, ret: Ret)
      requires sequence.SeqIndex? && Live(s, b, from, delta, target)
      modifies this`sequence, ix, f, b`inPos
      ensures Given(s, b, from, delta) && b.inPos >= old(b.inPos)
      ensures ret.XzOk? || (ret.XzDataError? && target.Invalid?)
      ensures go ==> ret.XzOk? && sequence.SeqIndexPadding? && Live(s, b, from, delta, target)
      ensures !go && ret.XzOk? ==>
                On(s, b.inPos + delta, b.inPos + delta, target) && b.inPos == |b.input| && sequence.SeqIndex?
    {
      hide Leads, BlockDec.Shape, Crc, Rest, ReadVli;
      GivenFrom(s, b, from, delta);
      ret := ix.DecIndex(b, inStart, blk.count, s, delta, DictMax(), checkType, Done(), target);
      if !ret.XzStreamEnd? {
        return false, ret;
      }
      sequence := SeqIndexPadding;
      go, ret := true, XzOk;
    }

    lemma GivenFrom(s: seq<Byte>, b: XzBuf, from: nat, delta: int)
      requires Given(s, b, from, delta) && from <= inStart <= b.inPos
      ensures Given(s, b, inStart, delta)
    {
    }

    /** SEQ_INDEX_PADDING */
    method IndexPaddingStage(b: XzBuf, ghost from: nat, ghost s: seq<Byte>, ghost delta: int, ghost target: Outcome)
      returns (go: bool, ret: Ret)
      requires sequence.SeqIndexPadding? && Live(s, b, from, delta, target)
      modifies this`sequence, this`mark, ix`size, f`crc, b`inPos
      ensures Given(s, b, from, delta) && b.inPos >= old(b.inPos)
      ensures ret.XzOk? || (ret.XzDataError? && target.Invalid?)
      ensures go ==> ret.XzOk? && sequence.SeqIndexCrc? && Live(s, b, from, delta, target)
      ensures !go && ret.XzOk? ==>
                && On(s, b.inPos + delta, b.inPos + delta, target) && b.inPos == |b.input|
                && sequence.SeqIndexPadding? && ix.size % 4 != 0
    {
      hide Leads, BlockDec.Shape, Crc, Rest;
      GivenFrom(s, b, from, delta);
      ret := ix.Padding(b, inStart, blk.hash, s, delta, DictMax(), checkType, Done(), target);
      if !ret.XzStreamEnd? {
        return false, ret;
      }
      sequence := SeqIndexCrc;
      mark := b.inPos + delta;
      go, ret := true, XzOk;
    }

    /** SEQ_INDEX_CRC32 */
    method IndexCrcStage(b: XzBuf, ghost from: nat, ghost s: seq<Byte>, ghost delta: int, ghost target: Outcome)
      returns (go: bool, ret: Ret)
      requires sequence.SeqIndexCrc? && Live(s, b, from, delta, target)
      modifies this`sequence, this`mark, temp`pos, temp`size, f`pos, f`crc, b`inPos
      ensures Given(s, b, from, delta) && b.inPos >= old(b.inPos)
      ensures ret.XzOk? || (ret.XzDataError? && target.Invalid?)
      ensures ret.XzOk? ==> Live(s, b, from, delta, target)
      ensures go ==> ret.XzOk? && sequence.SeqStreamFooter?
      ensures !go && ret.XzOk? ==> b.inPos == |b.input| && sequence.SeqIndexCrc?
    {
      hide Leads, BlockDec.Shape, BlockDec.InBlock, Crc, Rest, Le, IndexDec.Reading;
      IndexCrcLeads(s, DictMax(), checkType, ix.start, mark, out, target);
      var q;
      ret, q := f.CrcValidate(b.input, b.inPos, s, delta, mark);
      b.inPos := q;
      if !ret.XzStreamEnd? {
        return false, ret;
      }
      temp.size := STREAM_HEADER_SIZE;
      temp.pos := 0;
      sequence := SeqStreamFooter;
      mark := mark + 4;
      go, ret := true, XzOk;
    }

    /** SEQ_STREAM_FOOTER */
    method StreamFooterStage(b: XzBuf, ghost from: nat, ghost s: seq<Byte>, ghost delta: int, ghost target: Outcome)
      returns (ret: Ret)
      requires sequence.SeqStreamFooter? && Live(s, b, from, delta, target)
      modifies temp`pos, temp.buf, b`inPos
      ensures Given(s, b, from, delta) && b.inPos >= old(b.inPos)
      ensures ret.XzOk? || ret.XzStreamEnd? || (ret.XzDataError? && target.Invalid?)
      ensures ret.XzOk? ==> Live(s, b, from, delta, target) && b.inPos == |b.input|
      ensures ret.XzStreamEnd? ==> target == Valid(out, b.inPos + delta)
    {
      hide Leads, BlockDec.Shape, Crc, Rest, FooterValid;
      var done := temp.Fill(b, from, s, delta, mark);
      if !done {
        return XzOk;
      }
      FooterLeads(s, DictMax(), checkType, ix.size, mark, out, target);
      assert temp.buf[..STREAM_HEADER_SIZE] == s[mark..mark + STREAM_HEADER_SIZE];
      ret := DecStreamFooter();
    }

    /** SEQ_BLOCK_HEADER */
    method BlockHeaderStage(b: XzBuf, ghost from: nat, ghost s: seq<Byte>, ghost delta: int, ghost target: Outcome)
      returns (go: bool, ret: Ret)
      requires sequence.SeqBlockHeader? && Live(s, b, from, delta, target)
      modifies this`sequence, this`prev, temp`pos, temp.buf, b`inPos
      modifies f`pos, f`vli, blk`header, blk`compressed, blk`uncompressed, blk`start, blk.bcj, blk.lzma2, blk.lzma2.dict
      ensures Given(s, b, from, delta) && b.inPos >= old(b.inPos)
      ensures blk.lzma2.dict.buf == old(blk.lzma2.dict.buf) || fresh(blk.lzma2.dict.buf)
      ensures ret.XzOk? || (Failed(ret) && target.Invalid?)
      ensures Excused(s, DictMax(), ret)
      ensures ret.XzOk? ==> Live(s, b, from, delta, target)
      ensures go ==> ret.XzOk? && sequence.SeqBlockUncompress? && b.inPos > old(b.inPos)
      ensures !go && ret.XzOk? ==> b.inPos == |b.input| && sequence.SeqBlockHeader?
    {
      hide Leads, Rest, BlockDec.Shape, BlockDec.InBlock, ReadBlockHeader, Crc, IndexDec.Reading, IndexDec.Covers;
      var done := temp.Fill(b, from, s, delta, mark);
      if !done {
        return false, XzOk;
      }
      assert temp.buf[..temp.size] == s[mark..mark + temp.size];
      ret := EnterBlock(temp.buf[..temp.size], b, from, s, delta, target);
      go := ret.XzOk?;
    }

    // A complete Block Header.
    method EnterBlock(h: seq<Byte>, b: XzBuf, ghost from: nat, ghost s: seq<Byte>, ghost delta: int,
                      ghost target: Outcome) returns (ret: Ret)
      requires Given(s, b, from, delta) && from <= inStart <= b.inPos && Shape() && Clean()
      requires 8 <= |h| <= 1024 && mark + |h| == b.inPos + delta && h == s[mark..mark + |h|]
      requires (var first: int := s[mark]; first > 0 && |h| == (first + 1) * 4)
      requires Leads(s, DictMax(), checkType, AtBlocks(mark, Done()), target)
      modifies this`sequence, this`prev
      modifies f`pos, f`vli, blk`header, blk`compressed, blk`uncompressed, blk`start, blk.bcj, blk.lzma2, blk.lzma2.dict
      ensures blk.lzma2.dict.buf == old(blk.lzma2.dict.buf) || fresh(blk.lzma2.dict.buf)
      ensures ret.XzOk? || (Failed(ret) && target.Invalid?)
      ensures Excused(s, DictMax(), ret)
      ensures ret.XzOk? ==> Live(s, b, from, delta, target) && sequence.SeqBlockUncompress?
    {
      hide Leads, Rest, BlockDec.Shape, ReadBlockHeader, Crc, BlockDec.Rested, IndexDec.Reading, IndexDec.Covers;
      hide BlockRefusal, Excused;
      BlocksLead(s, DictMax(), checkType, mark, Done(), target);
      NoExcuse(s, DictMax(), XzOk);
      ret := DecBlockHeader(h, s, mark + |h|);
      if !ret.XzOk? {
        BlockExcuse(s, mark, |h|, DictMax(), ret);
        return;
      }
      CrcNothing();
      prev := out;
      sequence := SeqBlockUncompress;
      assert prev + [] == out;
    }

    /** SEQ_BLOCK_UNCOMPRESS */
    method UncompressStage(b: XzBuf, ghost from: nat, ghost s: seq<Byte>, ghost delta: int, ghost target: Outcome)
      returns (go: bool, ret: Ret)
      requires sequence.SeqBlockUncompress? && Live(s, b, from, delta, target) && b.Valid() && Apart(b.out)
      modifies this`sequence, this`inStart, this`out, this`text
      modifies blk`compressed, blk`uncompressed, blk`count, blk`hash, f`crc
      modifies blk.lzma2, blk.lzma2.rc, blk.lzma2.probs, blk.lzma2.temp
      modifies blk.lzma2.dict`start, blk.lzma2.dict`pos, blk.lzma2.dict`full, blk.lzma2.dict`limit
      modifies blk.lzma2.dict`history, blk.lzma2.dict.buf
      modifies blk.bcj, blk.bcj.buf, b, b.out
      ensures b.out == old(b.out) && b.outSize == old(b.outSize) && b.input == old(b.input)
      ensures ret.XzOk? || (ret.XzDataError? && target.Invalid?)
      ensures ret.XzOk? ==>
                && Live(s, b, from, delta, target) && b.Valid() && b.inPos >= old(b.inPos)
                && Appended(old(out), old(b.out[..b.outPos]), out, b.out[..b.outPos])
      ensures go ==> ret.XzOk? && sequence.SeqBlockPadding?
      ensures !go && ret.XzOk? ==>
                && sequence.SeqBlockUncompress? && (b.outPos == b.outSize || b.inPos == |b.input|)
                && (|b.input| + delta == |s| && target.Valid? ==> b.outPos == b.outSize && |out| < |target.out|)
    {
      hide Leads, Rest, Shape, BlockDec.InBlock, Crc, Appended, State, Where;
      OpenBlock(s, b, from, delta, target);
      ret := CallBlock(b, from, s, delta, target);
      if ret.XzDataError? {
        return false, ret;
      }
      if !ret.XzStreamEnd? {
        CloseBlock(s, b, from, delta, target);
        return false, ret;
      }
      sequence := SeqBlockPadding;
      ClosePadding(s, b, from, delta, target);
      go, ret := true, XzOk;
    }

    // The call of dec_block.
    method CallBlock(b: XzBuf, ghost from: nat, ghost s: seq<Byte>, ghost delta: int, ghost target: Outcome)
      returns (ret: Ret)
      requires Shape() && blk.InBlock(s, b.inPos + delta, checkType) && out == prev + blk.Text()
      requires Given(s, b, from, delta) && from <= inStart <= b.inPos && b.Valid() && Apart(b.out)
      requires Leads(s, DictMax(), checkType, AtData(blk.start, blk.header, Blocks(blk.count, blk.hash, prev)), target)
      modifies this`inStart, this`out, this`text
      modifies blk`compressed, blk`uncompressed, blk`count, blk`hash, f`crc
      modifies blk.lzma2, blk.lzma2.rc, blk.lzma2.probs, blk.lzma2.temp
      modifies blk.lzma2.dict`start, blk.lzma2.dict`pos, blk.lzma2.dict`full, blk.lzma2.dict`limit
      modifies blk.lzma2.dict`history, blk.lzma2.dict.buf
      modifies blk.bcj, blk.bcj.buf, b, b.out
      ensures b.out == old(b.out) && b.outSize == old(b.outSize) && b.input == old(b.input)
      ensures ret.XzOk? || ret.XzStreamEnd? || (ret.XzDataError? && target.Invalid?)
      ensures !ret.XzDataError? ==>
                && Shape() && Given(s, b, from, delta) && from <= inStart <= b.inPos && b.Valid()
                && b.inPos >= old(b.inPos)
                && out == prev + blk.Text()
                && Appended(old(out), old(b.out[..b.outPos]), out, b.out[..b.outPos])
      ensures ret.XzOk? ==>
                && blk.InBlock(s, b.inPos + delta, checkType)
                && Leads(s, DictMax(), checkType,
                         AtData(blk.start, blk.header, Blocks(blk.count, blk.hash, prev)), target)
                && (b.outPos == b.outSize || b.inPos == |b.input|)
                && (|b.input| + delta == |s| && target.Valid? ==> b.outPos == b.outSize && |out| < |target.out|)
      ensures ret.XzStreamEnd? ==>
                && f.crc == (if checkType == 1 then Crc(text, 0) else 0)
                && Leads(s, DictMax(), checkType, AtBlockPadding(blk.compressed, b.inPos + delta, text, Done()), target)
    {
      hide Leads, BlockDec.Shape, BlockDec.InBlock, BlockDec.Apart, Crc, WithBlock, Appended, BlockDec.Text;
      ghost var text0, before, blocks := blk.Text(), b.out[..b.outPos], Blocks(blk.count, blk.hash, prev);
      inStart := b.inPos;
      BlockText(s, b.inPos + delta, checkType);
      ret := blk.DecBlock(b, checkType, from, s, delta, DictMax(), blocks, target);
      if ret.XzDataError? {
        return;
      }
      AppendedBehind(prev, text0, before, blk.Text(), b.out[..b.outPos]);
      out := prev + blk.Text();
      text := blk.Text();
      TextAdded(blocks, blk.header, checkType, blk.compressed, text);
    }

    lemma OpenBlock(s: seq<Byte>, b: XzBuf, from: nat, delta: int, target: Outcome)
      requires sequence.SeqBlockUncompress? && Live(s, b, from, delta, target)
      ensures blk.InBlock(s, b.inPos + delta, checkType) && out == prev + blk.Text() && f.pos == 0 && IndexFresh()
      ensures Shape()
      ensures Leads(s, DictMax(), checkType, AtData(blk.start, blk.header, Blocks(blk.count, blk.hash, prev)), target)
    {
      hide Leads, BlockDec.Shape, BlockDec.InBlock;
    }

    lemma CloseBlock(s: seq<Byte>, b: XzBuf, from: nat, delta: int, target: Outcome)
      requires Given(s, b, from, delta) && from <= inStart <= b.inPos
      requires sequence.SeqBlockUncompress? && blk.InBlock(s, b.inPos + delta, checkType) && out == prev + blk.Text()
      requires f.pos == 0 && IndexFresh() && Shape()
      requires Leads(s, DictMax(), checkType, AtData(blk.start, blk.header, Blocks(blk.count, blk.hash, prev)), target)
      ensures Live(s, b, from, delta, target)
    {
      hide Leads, BlockDec.Shape, BlockDec.InBlock;
    }

    lemma ClosePadding(s: seq<Byte>, b: XzBuf, from: nat, delta: int, target: Outcome)
      requires Given(s, b, from, delta) && from <= inStart <= b.inPos
      requires sequence.SeqBlockPadding? && f.crc == (if checkType == 1 then Crc(text, 0) else 0)
      requires f.pos == 0 && IndexFresh() && Shape()
      requires Leads(s, DictMax(), checkType, AtBlockPadding(blk.compressed, b.inPos + delta, text, Done()), target)
      ensures Live(s, b, from, delta, target)
    {
      hide Leads, BlockDec.Shape, BlockDec.InBlock, Crc;
    }

    lemma BlockText(s: seq<Byte>, here: int, check: Byte)
      requires blk.InBlock(s, here, check)
      ensures blk.start <= |s|
    {
      hide FilterIdle, Idle, Crc;
    }

    // ---------- dec_main ----------

    /** A call that returns XZ_OK waits: for input, or, where all input was given and the file is valid, for
        room for output that is sure to come. */
    ghost predicate Waiting(s: seq<Byte>, b: XzBuf, delta: int, target: Outcome)
      reads this`out, b
    {
      && (b.outPos == b.outSize || b.inPos == |b.input|)
      && (|b.input| + delta == |s| && target.Valid? ==> b.outPos == b.outSize && |out| < |target.out|)
    }

    /** Where input is needed, a file that ends is not valid. */
    lemma Short(s: seq<Byte>, b: XzBuf, from: nat, delta: int, target: Outcome)
      requires Given(s, b, from, delta) && On(s, b.inPos + delta, b.inPos + delta, target)
      requires NeedsInput() && b.inPos == |b.input|
      ensures Waiting(s, b, delta, target)
    {
      hide Rest, BlockDec.Shape, BlockDec.InBlock, Crc, ReadVli, Le;
      if |b.input| + delta == |s| {
        TooShort(s, DictMax(), checkType, Where(|s|), target);
        if sequence.SeqIndex? {
          NoVli(s, f.pos / 7, f.Acc());
          BadField(s, DictMax(), checkType, ix.Here(Done()), target);
        }
        if sequence.SeqIndexPadding? {
          PaddingTurn(s, DictMax(), checkType, ix.start, |s|, Done(), ix.hash, target);
        }
      }
    }

    // Only in the Index does it matter how far it is hashed.
    lemma Uncovered(s: seq<Byte>, here: nat, c0: int, c1: int, target: Outcome)
      requires On(s, here, c0, target) && !sequence.SeqIndex? && !sequence.SeqIndexPadding?
      ensures On(s, here, c1, target)
    {
      hide Leads, BlockDec.Shape, BlockDec.InBlock, Crc;
    }

    // A stage that needs input.
    lemma Waits(s: seq<Byte>, b: XzBuf, from: nat, delta: int, target: Outcome)
      requires Live(s, b, from, delta, target) && NeedsInput() && b.inPos == |b.input|
      requires !sequence.SeqIndex? && !sequence.SeqIndexPadding?
      ensures On(s, b.inPos + delta, b.inPos + delta, target) && Waiting(s, b, delta, target)
    {
      hide Leads, BlockDec.Shape, State, Where;
      Uncovered(s, b.inPos + delta, inStart + delta, b.inPos + delta, target);
      Short(s, b, from, delta, target);
    }

    ghost function Rank(): nat
      reads this`sequence
    {
      match sequence
      case SeqBlockUncompress => 3
      case SeqBlockPadding => 3
      case SeqBlockCheck => 2
      case _ => 1
    }

    predicate InBlocks()
      reads this`sequence
    {
      match sequence
      case SeqIndex => false
      case SeqIndexPadding => false
      case SeqIndexCrc => false
      case SeqStreamFooter => false
      case _ => true
    }

    /** One turn of the loop of dec_main up to the Check of a Block. */
    method BlockTurn(b: XzBuf, ghost from: nat, ghost s: seq<Byte>, ghost delta: int, ghost target: Outcome)
      returns (go: bool, ret: Ret)
      requires InBlocks() && Live(s, b, from, delta, target) && b.Valid() && Apart(b.out)
      modifies this`sequence, this`checkType, this`inStart, this`out, this`prev, this`text, this`mark, f, ix, temp
      modifies temp.buf, blk
      modifies blk.lzma2, blk.lzma2.rc, blk.lzma2.probs, blk.lzma2.temp, blk.lzma2.dict, blk.lzma2.dict.buf
      modifies blk.bcj, blk.bcj.buf, b, b.out
      ensures b.out == old(b.out) && b.outSize == old(b.outSize) && b.input == old(b.input)
      ensures blk.lzma2.dict.buf == old(blk.lzma2.dict.buf) || fresh(blk.lzma2.dict.buf)
      ensures ret.XzOk? || (Failed(ret) && target.Invalid?)
      ensures Excused(s, DictMax(), ret)
      ensures ret.XzOk? ==>
                && Given(s, b, from, delta) && b.Valid() && b.inPos >= old(b.inPos)
                && Appended(old(out), old(b.out[..b.outPos]), out, b.out[..b.outPos])
      ensures go ==>
                && ret.XzOk? && Live(s, b, from, delta, target) && (sequence.SeqBlockStart? || sequence.SeqIndex?)
                && (b.inPos > old(b.inPos) || Rank() < old(Rank()))
      ensures !go && ret.XzOk? ==> On(s, b.inPos + delta, b.inPos + delta, target) && Waiting(s, b, delta, target)
    {
      hide Leads, Shape, State, Where, Appended, On;
      SameOutput(b);
      go, ret := HeaderTurn(b, from, s, delta, target);
      if !go || sequence.SeqIndex? {
        return;
      }
      go, ret := DataTurn(b, from, s, delta, target);
    }

    lemma SameOutput(b: XzBuf)
      requires b.outPos <= b.out.Length
      ensures Appended(out, b.out[..b.outPos], out, b.out[..b.outPos])
    {
      assert out[|out|..] == [] && b.out[..b.outPos] + [] == b.out[..b.outPos];
    }

    // Up to the Block Header.
    method HeaderTurn(b: XzBuf, ghost from: nat, ghost s: seq<Byte>, ghost delta: int, ghost target: Outcome)
      returns (go: bool, ret: Ret)
      requires InBlocks() && Live(s, b, from, delta, target) && Apart(b.out)
      modifies this`sequence, this`checkType, this`inStart, this`mark, this`prev, temp`pos, temp`size, temp.buf, b`inPos
      modifies f`pos, f`vli, ix`start, ix`mark, blk`header, blk`compressed, blk`uncompressed, blk`start
      modifies blk.bcj, blk.lzma2, blk.lzma2.dict
      ensures blk.lzma2.dict.buf == old(blk.lzma2.dict.buf) || fresh(blk.lzma2.dict.buf)
      ensures ret.XzOk? || (Failed(ret) && target.Invalid?)
      ensures Excused(s, DictMax(), ret)
      ensures Given(s, b, from, delta) && b.inPos >= old(b.inPos) && Apart(b.out)
      ensures go ==>
                && ret.XzOk? && Live(s, b, from, delta, target) && InBlocks() != sequence.SeqIndex?
                && !sequence.SeqStreamHeader? && !sequence.SeqBlockStart? && !sequence.SeqBlockHeader?
                && (b.inPos > old(b.inPos) || sequence == old(sequence))
      ensures !go && ret.XzOk? ==> On(s, b.inPos + delta, b.inPos + delta, target) && Waiting(s, b, delta, target)
    {
      hide Leads, Shape, State, Where, On;
      go, ret := true, XzOk;
      if sequence.SeqStreamHeader? {
        go, ret := StreamHeaderStage(b, from, s, delta, target);
        if !go {
          if ret.XzOk? {
            Waits(s, b, from, delta, target);
          }
          return;
        }
      }
      if sequence.SeqBlockStart? {
        go := BlockStartStage(b, from, s, delta, target);
        if !go {
          Waits(s, b, from, delta, target);
          return;
        }
        if sequence.SeqIndex? {
          return;
        }
      }
      if sequence.SeqBlockHeader? {
        go, ret := BlockHeaderStage(b, from, s, delta, target);
        if !go && ret.XzOk? {
          Waits(s, b, from, delta, target);
        }
      }
    }

    // The data of a Block, its padding and its Check.
    method DataTurn(b: XzBuf, ghost from: nat, ghost s: seq<Byte>, ghost delta: int, ghost target: Outcome)
      returns (go: bool, ret: Ret)
      requires sequence.SeqBlockUncompress? || sequence.SeqBlockPadding? || sequence.SeqBlockCheck?
      requires Live(s, b, from, delta, target) && b.Valid() && Apart(b.out)
      modifies this`sequence, this`inStart, this`out, this`text, this`mark
      modifies blk`compressed, blk`uncompressed, blk`count, blk`hash, f`crc, f`pos
      modifies blk.lzma2, blk.lzma2.rc, blk.lzma2.probs, blk.lzma2.temp
      modifies blk.lzma2.dict`start, blk.lzma2.dict`pos, blk.lzma2.dict`full, blk.lzma2.dict`limit
      modifies blk.lzma2.dict`history, blk.lzma2.dict.buf
      modifies blk.bcj, blk.bcj.buf, b, b.out
      ensures b.out == old(b.out) && b.outSize == old(b.outSize) && b.input == old(b.input)
      ensures ret.XzOk? || (ret.XzDataError? && target.Invalid?)
      ensures ret.XzOk? ==>
                && Given(s, b, from, delta) && b.Valid() && b.inPos >= old(b.inPos)
                && Appended(old(out), old(b.out[..b.outPos]), out, b.out[..b.outPos])
      ensures go ==> ret.XzOk? && Live(s, b, from, delta, target) && sequence.SeqBlockStart?
      ensures !go && ret.XzOk? ==> On(s, b.inPos + delta, b.inPos + delta, target) && Waiting(s, b, delta, target)
    {
      hide Leads, Shape, State, Where, Appended, On, AtCheckStart;
      SameOutput(b);
      go, ret := true, XzOk;
      if sequence.SeqBlockUncompress? {
        go, ret := UncompressStage(b, from, s, delta, target);
        if !go {
          if ret.XzOk? {
            Uncovered(s, b.inPos + delta, inStart + delta, b.inPos + delta, target);
          }
          return;
        }
      }
      if sequence.SeqBlockPadding? {
        go, ret := BlockPaddingStage(b, from, s, delta, target);
        if !go {
          if ret.XzOk? {
            Waits(s, b, from, delta, target);
          }
          return;
        }
      }
      go, ret := BlockCheckStage(b, from, s, delta, target);
      if !go && ret.XzOk? {
        Waits(s, b, from, delta, target);
      }
    }

    /** The turn of the loop of dec_main through the Index and the Stream Footer. */
    method IndexTurn(b: XzBuf, ghost from: nat, ghost s: seq<Byte>, ghost delta: int, ghost target: Outcome)
      returns (ret: Ret)
      requires !InBlocks() && Live(s, b, from, delta, target)
      modifies this`sequence, this`mark, ix, f, temp`pos, temp`size, temp.buf, b`inPos
      ensures Given(s, b, from, delta) && b.inPos >= old(b.inPos)
      ensures ret.XzOk? || ret.XzStreamEnd? || (ret.XzDataError? && target.Invalid?)
      ensures ret.XzOk? ==> On(s, b.inPos + delta, b.inPos + delta, target) && Waiting(s, b, delta, target)
      ensures ret.XzStreamEnd? ==> target == Valid(out, b.inPos + delta)
    {
      hide Leads, Shape, State, Where, On;
      var go := true;
      if sequence.SeqIndex? {
        go, ret := IndexStage(b, from, s, delta, target);
        if !go {
          if ret.XzOk? {
            Short(s, b, from, delta, target);
          }
          return;
        }
      }
      if sequence.SeqIndexPadding? {
        go, ret := IndexPaddingStage(b, from, s, delta, target);
        if !go {
          if ret.XzOk? {
            Short(s, b, from, delta, target);
          }
          return;
        }
      }
      if sequence.SeqIndexCrc? {
        go, ret := IndexCrcStage(b, from, s, delta, target);
        if !go {
          if ret.XzOk? {
            Waits(s, b, from, delta, target);
          }
          return;
        }
      }
      ret := StreamFooterStage(b, from, s, delta, target);
      if ret.XzOk? {
        Waits(s, b, from, delta, target);
      }
    }

    /** dec_main */
    method DecMain(b: XzBuf, ghost s: seq<Byte>, ghost delta: int, ghost target: Outcome) returns (ret: Ret)
      requires Given(s, b, b.inPos, delta) && On(s, b.inPos + delta, b.inPos + delta, target) && b.Valid()
      requires Apart(b.out)
      modifies this`sequence, this`checkType, this`inStart, this`out, this`prev, this`text, this`mark, f, ix, temp
      modifies temp.buf, blk
      modifies blk.lzma2, blk.lzma2.rc, blk.lzma2.probs, blk.lzma2.temp, blk.lzma2.dict, blk.lzma2.dict.buf
      modifies blk.bcj, blk.bcj.buf, b, b.out
      ensures b.out == old(b.out) && b.outSize == old(b.outSize) && b.input == old(b.input)
      ensures blk.lzma2.dict.buf == old(blk.lzma2.dict.buf) || fresh(blk.lzma2.dict.buf)
      ensures ret.XzOk? || ret.XzStreamEnd? || (Failed(ret) && target.Invalid?)
      ensures Excused(s, DictMax(), ret)
      ensures ret.XzOk? || ret.XzStreamEnd? ==>
                && b.Valid() && b.inPos >= old(b.inPos) && b.inPos + delta <= |s|
                && Appended(old(out), old(b.out[..b.outPos]), out, b.out[..b.outPos])
      ensures ret.XzOk? ==> On(s, b.inPos + delta, b.inPos + delta, target) && Waiting(s, b, delta, target)
      ensures ret.XzStreamEnd? ==> target == Valid(out, b.inPos + delta)
    {
      hide Leads, Shape, State, Where, Appended, On;
      ghost var from := b.inPos;
      SameOutput(b);
      inStart := b.inPos;
      while InBlocks()
        invariant Live(s, b, from, delta, target) && b.Valid() && Apart(b.out) && from <= b.inPos
        invariant b.out == old(b.out) && b.outSize == old(b.outSize) && b.input == old(b.input)
        invariant blk.lzma2.dict.buf == old(blk.lzma2.dict.buf) || fresh(blk.lzma2.dict.buf)
        invariant Appended(old(out), old(b.out[..b.outPos]), out, b.out[..b.outPos])
        decreases |b.input| - b.inPos, Rank()
      {
        ghost var out1, text1 := out, b.out[..b.outPos];
        var go;
        go, ret := BlockTurn(b, from, s, delta, target);
        if ret.XzOk? {
          AppendedMore(old(out), old(b.out[..b.outPos]), out1, text1, out, b.out[..b.outPos]);
        }
        if !go {
          return;
        }
      }
      ret := IndexTurn(b, from, s, delta, target);
    }

    /** xz_dec_reset */
    method Reset(ghost s: seq<Byte>)
      requires Shape()
      modifies this, f`pos, f`crc, ix, temp`pos, temp`size, blk`compressed, blk`uncompressed, blk`count, blk`hash
      ensures On(s, 0, 0, DecodeFile(s, DictMax())) && out == [] && !allowBufError
    {
      hide On, DecodeFile, State, Where, Leads;
      sequence := SeqStreamHeader;
      allowBufError := false;
      f.pos, f.crc := 0, 0;
      blk.Clear();
      ix.Clear();
      temp.pos, temp.size := 0, STREAM_HEADER_SIZE;
      out, prev, text, mark := [], [], [], 0;
      AtStart(s);
    }

    lemma AtStart(s: seq<Byte>)
      requires Shape() && sequence.SeqStreamHeader? && Clean() && blk.count == 0 && blk.hash == NO_HASH && out == []
      requires temp.pos == 0 && temp.size == STREAM_HEADER_SIZE
      ensures On(s, 0, 0, DecodeFile(s, DictMax()))
    {
      hide Leads, BlockDec.Shape, DecodeFile, BlockDec.InBlock, IndexDec.Reading, IndexDec.Covers, Crc;
      WholeFile(s, DictMax(), checkType);
    }

    /** xz_dec_run in multi-call mode: XZ_BUF_ERROR at the second call in a row that makes no progress. */
    method Run(b: XzBuf, ghost s: seq<Byte>, ghost delta: int, ghost target: Outcome) returns (ret: Ret)
      requires Given(s, b, b.inPos, delta) && On(s, b.inPos + delta, b.inPos + delta, target) && b.Valid()
      requires Apart(b.out)
      modifies this, f, ix, temp, temp.buf, blk
      modifies blk.lzma2, blk.lzma2.rc, blk.lzma2.probs, blk.lzma2.temp, blk.lzma2.dict, blk.lzma2.dict.buf
      modifies blk.bcj, blk.bcj.buf, b, b.out
      ensures b.out == old(b.out) && b.outSize == old(b.outSize) && b.input == old(b.input)
      ensures blk.lzma2.dict.buf == old(blk.lzma2.dict.buf) || fresh(blk.lzma2.dict.buf)
      ensures ret.XzOk? || ret.XzStreamEnd? || ret.XzBufError? || (Failed(ret) && target.Invalid?)
      ensures Excused(s, DictMax(), ret)
      ensures ret.XzOk? || ret.XzStreamEnd? || ret.XzBufError? ==>
                && b.Valid() && b.inPos >= old(b.inPos) && b.inPos + delta <= |s|
                && Appended(old(out), old(b.out[..b.outPos]), out, b.out[..b.outPos])
      ensures ret.XzOk? || ret.XzBufError? ==>
                On(s, b.inPos + delta, b.inPos + delta, target) && Waiting(s, b, delta, target)
      ensures ret.XzStreamEnd? ==> target == Valid(out, b.inPos + delta)
      ensures ret.XzBufError? ==> old(allowBufError) && b.inPos == old(b.inPos) && b.outPos == old(b.outPos)
      ensures ret.XzOk? && b.inPos == old(b.inPos) && b.outPos == old(b.outPos) ==> !old(allowBufError)
      ensures allowBufError <==> (ret.XzOk? || ret.XzBufError?) && b.inPos == old(b.inPos) && b.outPos == old(b.outPos)
    {
      hide Leads, Shape, State, Where, Appended, On;
      var inStart, outStart := b.inPos, b.outPos;
      ret := DecMain(b, s, delta, target);
      if ret.XzOk? && inStart == b.inPos && outStart == b.outPos {
        if allowBufError {
          ret := XzBufError;
        }
        allowBufError := true;
      } else {
        allowBufError := false;
      }
    }
  }

  lemma WholeFile(s: seq<Byte>, dictMax: nat, check: Byte)
    ensures Leads(s, dictMax, check, AtHeader, DecodeFile(s, dictMax))
  {
    hide DecodeFile;
  }

  lemma NoVli(s: seq<Byte>, k: nat, acc: nat)
    requires k < VLI_BYTES_MAX
    ensures ReadVli(s, |s|, |s|, k, acc) == None
  {
  }

  // Places that need more bytes than there are.
  lemma TooShort(s: seq<Byte>, dictMax: nat, check: Byte, place: Place, target: Outcome)
    requires Leads(s, dictMax, check, place, target)
    ensures place.AtHeader? && |s| < STREAM_HEADER_SIZE ==> target.Invalid?
    ensures place.AtBlocks? && place.p >= |s| ==> target.Invalid?
    ensures place.AtBlocks? && place.p < |s| && s[place.p] != 0 ==>
              (var first: int := s[place.p]; place.p + (first + 1) * 4 > |s| ==> target.Invalid?)
    ensures place.AtBlockPadding? && place.q >= |s| && place.size % 4 != 0 ==> target.Invalid?
    ensures place.AtCheck? && check == 1 && place.q + 4 > |s| ==> target.Invalid?
    ensures place.AtIndexCrc? && place.q + 4 > |s| ==> target.Invalid?
    ensures place.AtFooter? && place.p + STREAM_HEADER_SIZE > |s| ==> target.Invalid?
  {
    hide ReadBlockHeader, ReadStreamHeader, FromData, FromIndexPadding, FromCount, FromRecord, FromSecond, Crc, Le;
    hide FooterValid;
  }

  lemma AppendedBehind(prev: seq<Byte>, d0: seq<Byte>, out0: seq<Byte>, d1: seq<Byte>, out1: seq<Byte>)
    requires Appended(d0, out0, d1, out1)
    ensures Appended(prev + d0, out0, prev + d1, out1)
  {
    assert (prev + d1)[|prev + d0|..] == d1[|d0|..];
  }

  lemma FiltersBound(h: seq<Byte>, bcj: bool, p: nat, limit: nat)
    requires p <= limit <= |h|
    ensures Filters(h, bcj, p, limit).Some? ==> Filters(h, bcj, p, limit).value <= 39
  {
  }

  lemma BlockPaddingTurn(s: seq<Byte>, dictMax: nat, check: Byte, size: nat, q: nat, text: seq<Byte>, blocks: Blocks,
                         target: Outcome)
    requires Leads(s, dictMax, check, AtBlockPadding(size, q, text, blocks), target)
    ensures q <= |s|
    ensures size % 4 != 0 ==>
              if q < |s| && s[q] == 0 then
                Leads(s, dictMax, check, AtBlockPadding(size + 1, q + 1, text, blocks), target)
              else target.Invalid?
    ensures size % 4 == 0 ==> Leads(s, dictMax, check, AtCheck(q, text, blocks), target)
  {
    hide FromBlocks, FromData, FromCheck, FromFooter, FromIndexCrc, FromIndexPadding, FromCount, FromRecord, FromSecond;
    hide DecodeFile;
  }

  lemma CheckLeads(s: seq<Byte>, dictMax: nat, check: Byte, q: nat, text: seq<Byte>, blocks: Blocks, target: Outcome)
    requires Leads(s, dictMax, check, AtCheck(q, text, blocks), target)
    ensures q <= |s|
    ensures check != 1 ==> Leads(s, dictMax, check, AtBlocks(q, blocks), target)
    ensures check == 1 ==>
              if q + 4 <= |s| && s[q..q + 4] == Le(Crc(text, 0), 4) then
                Leads(s, dictMax, check, AtBlocks(q + 4, blocks), target)
              else target.Invalid?
  {
    hide Le, Crc, FromBlocks, FromData, FromBlockPadding, FromFooter, FromIndexCrc, FromIndexPadding, FromCount;
    hide FromRecord, FromSecond, DecodeFile;
  }

  lemma IndexCrcLeads(s: seq<Byte>, dictMax: nat, check: Byte, p: nat, q: nat, out: seq<Byte>, target: Outcome)
    requires Leads(s, dictMax, check, AtIndexCrc(p, q, out), target)
    ensures p <= q
    ensures if q + 4 <= |s| && s[q..q + 4] == Le(Crc(s[p..q], 0), 4) then
              Leads(s, dictMax, check, AtFooter(q - p, q + 4, out), target)
            else target.Invalid?
  {
    hide Le, Crc, FromBlocks, FromData, FromBlockPadding, FromCheck, FromFooter, FromIndexPadding, FromCount;
    hide FromRecord, FromSecond, DecodeFile;
  }

  lemma FooterLeads(s: seq<Byte>, dictMax: nat, check: Byte, indexSize: nat, p: nat, out: seq<Byte>, target: Outcome)
    requires Leads(s, dictMax, check, AtFooter(indexSize, p, out), target)
    ensures target == var q := p + STREAM_HEADER_SIZE;
                      if q <= |s| && FooterValid(s[p..q], indexSize, check) then Valid(out, q) else Invalid(out)
  {
    hide FooterValid, FromBlocks, FromData, FromBlockPadding, FromCheck, FromIndexCrc, FromIndexPadding, FromCount;
    hide FromRecord, FromSecond, DecodeFile;
  }

  lemma CrcNothing()
    ensures Crc([], 0) == 0
  {
  }

  lemma BlocksLead(s: seq<Byte>, dictMax: nat, check: Byte, p: nat, blocks: Blocks, target: Outcome)
    requires Leads(s, dictMax, check, AtBlocks(p, blocks), target)
    ensures p < |s| && s[p] == 0 ==> Leads(s, dictMax, check, AtCount(p, p + 1, blocks), target)
    ensures p >= |s| ==> target.Invalid?
    ensures p < |s| && s[p] != 0 ==>
              var first: int := s[p];
              var size := (first + 1) * 4;
              if p + size > |s| then target.Invalid?
              else
                match ReadBlockHeader(s[p..p + size], dictMax)
                case None => target.Invalid?
                case Some(h) => Leads(s, dictMax, check, AtData(p + size, h, blocks), target)
  {
    hide ReadBlockHeader, FromData, FromBlockPadding, FromCheck, FromFooter, FromIndexCrc, FromIndexPadding, FromCount;
    hide FromRecord, FromSecond;
  }

  lemma HeaderLeads(s: seq<Byte>, dictMax: nat, check: Byte, target: Outcome, check0: Byte)
    requires Leads(s, dictMax, check0, AtHeader, target) && STREAM_HEADER_SIZE <= |s|
    ensures match ReadStreamHeader(s[..STREAM_HEADER_SIZE])
            case None => target.Invalid?
            case Some(c) => Leads(s, dictMax, c, AtBlocks(STREAM_HEADER_SIZE, Blocks(0, NO_HASH, [])), target)
  {
    hide ReadStreamHeader, FromData, FromBlocks, FromBlockPadding, FromCheck, FromFooter, FromIndexCrc;
    hide FromIndexPadding, FromCount, FromRecord, FromSecond;
  }
}
