/** A writer of .xz files, byte by byte from The .xz File Format: Stream Header, Blocks with LZMA2 data and an
    optional branch filter, Index and Stream Footer. It knows nothing of the parser; decoding what it writes gives
    back the texts. */
module XzWriter {
  import opened Basics
  import opened Places
  import L = Lzma2Reference
  import opened Lzma2Writer
  import opened Lzma2Decoder
  import BcjFilter
  import opened Slicing
  import opened XzBlock
  import opened XzStream
  import opened XzBuffer
  import opened XzSlicing
  import opened XzFormat
  import opened XzIndex
  import opened XzFile
  import opened XzHeaders

  // ---------- What is written ----------

  /** A Block: its text, the fields of its header, and the chunks of its data. */
  datatype Plan = Plan(text: seq<Byte>, header: Fields, chunks: seq<Chunk>)

  /** What the chunks have to say: the text, with its branches made absolute if there is a filter for them. */
  function Encoded(b: Plan): seq<Byte> {
    if b.header.branches then BcjFilter.Filter(b.text, 0, false) else b.text
  }

  function Data(b: Plan): seq<Byte>
    requires b.header.props <= 39 && Fit(b.chunks, BLANK, DictionarySize(b.header.props))
  {
    Written(b.chunks, BLANK, DictionarySize(b.header.props))
  }

  /** The chunks say the text, and sizes in the header are those of data and text. */
  predicate PlanFits(b: Plan) {
    && FieldsFit(b.header) && Fit(b.chunks, BLANK, DictionarySize(b.header.props))
    && TextOf(b.chunks, BLANK, DictionarySize(b.header.props)) == Encoded(b)
    && (b.header.compressed == None || b.header.compressed == Some(|Data(b)|))
    && (b.header.uncompressed == None || b.header.uncompressed == Some(|b.text|))
    && |Data(b)| + 2000 < VLI_LIMIT && |b.text| < VLI_LIMIT
  }

  function CheckBytes(check: Byte, text: seq<Byte>): seq<Byte> {
    if check == 1 then Word32(Crc(text, 0)) else []
  }

  /** Header, data, padding to a multiple of four, and the check of the text. */
  function BlockBytes(b: Plan, check: Byte): seq<Byte>
    requires PlanFits(b)
  {
    HeaderBytes(b.header) + (Data(b) + (Zeros(PadLength(|Data(b)|)) + CheckBytes(check, b.text)))
  }

  predicate AllFit(bs: seq<Plan>) {
    forall b <- bs :: PlanFits(b)
  }

  function AllBlocks(bs: seq<Plan>, check: Byte): seq<Byte>
    requires AllFit(bs)
  {
    if bs == [] then [] else BlockBytes(bs[0], check) + AllBlocks(bs[1..], check)
  }

  function AllTexts(bs: seq<Plan>): seq<Byte> {
    if bs == [] then [] else bs[0].text + AllTexts(bs[1..])
  }

  /** The size of a Block without padding, and the size of its text. */
  function RecordFields(b: Plan, check: Byte): seq<Byte>
    requires PlanFits(b)
  {
    Encode(|HeaderBytes(b.header)| + |Data(b)| + |CheckBytes(check, b.text)|) + Encode(|b.text|)
  }

  function Records(bs: seq<Plan>, check: Byte): seq<Byte>
    requires AllFit(bs)
  {
    if bs == [] then [] else RecordFields(bs[0], check) + Records(bs[1..], check)
  }

  /** The Index up to its CRC32. */
  function Index(bs: seq<Plan>, check: Byte): seq<Byte>
    requires AllFit(bs)
  {
    var fields := [0x00] + Encode(|bs|) + Records(bs, check);
    fields + Zeros(PadLength(|fields|))
  }

  function IndexAndFooter(bs: seq<Plan>, check: Byte): seq<Byte>
    requires AllFit(bs)
  {
    var index := Index(bs, check);
    index + (Word32(Crc(index, 0)) + StreamFooter(|index| + 4, check))
  }

  /** A whole file. */
  function FileBytes(bs: seq<Plan>, check: Byte): seq<Byte>
    requires AllFit(bs)
  {
    StreamHeader(check) + (AllBlocks(bs, check) + IndexAndFooter(bs, check))
  }

  /** The Index fits its field in the Stream Footer. */
  predicate FileFits(bs: seq<Plan>, check: Byte, dictMax: nat) {
    && check <= 1 && AllFit(bs) && |bs| < VLI_LIMIT && |Index(bs, check)| / 4 < 0x1_0000_0000
    && forall b <- bs :: DictionarySize(b.header.props) <= dictMax
  }

  // ---------- Blocks ----------

  /** What the parser knows of a Block that was written. */
  function BlockOf(b: Plan): Block
    requires PlanFits(b)
  {
    Block(HeaderOf(b.header), |Data(b)|, b.text)
  }

  lemma HeaderStandsAt(s: seq<Byte>, p: nat, f: Fields, dictMax: nat)
    requires FieldsFit(f) && DictionarySize(f.props) <= dictMax && At(s, p, HeaderBytes(f))
    ensures HeaderAt(s, dictMax, p, HeaderOf(f))
  {
    hide At, ReadBlockHeader, HeaderBytes, DictionarySize, FieldBytes, FlagsByte, FilterBytes, OptionalSize, Crc;
    hide GetLe32;
    var h := HeaderBytes(f);
    AtSlice(s, p, h);
    HeaderWritten(h, f, dictMax);
    HeaderPlaces(h, f);
    assert s[p] == s[p..p + |h|][0];
  }

  lemma HeaderSize(f: Fields)
    requires LengthFits(f)
    ensures HeaderOf(f).size == |HeaderBytes(f)| <= 1024 && HeaderOf(f).props == f.props
  {
    hide FieldBytes;
  }

  lemma DataStands(s: seq<Byte>, d: nat, b: Plan)
    requires PlanFits(b) && At(s, d, Data(b))
    ensures d <= |s| && HeaderOf(b.header).props <= 39 && DataAt(s, d, BlockOf(b))
  {
    hide Fit, TextOf, Written, DictionarySize, HeaderBytes, DecodeStream, BcjFilter.Filter;
    var data, rest := Data(b), s[d + |Data(b)|..];
    AtSlice(s, d, data);
    assert s[d..] == data + rest;
    DictionarySizeBound(b.header.props);
    WrittenDecodes(b.chunks, DictionarySize(b.header.props), rest);
    BcjFilter.FilterInverse(b.text, 0, false);
    SizesStand(b);
  }

  lemma SizesStand(b: Plan)
    requires PlanFits(b)
    ensures SizesAgree(HeaderOf(b.header), |Data(b)|, |b.text|)
  {
    hide Fit, TextOf, DictionarySize, HeaderBytes, Data, Encoded;
  }

  lemma CheckStands(s: seq<Byte>, q: nat, text: seq<Byte>, check: Byte)
    requires check <= 1 && At(s, q, CheckBytes(check, text))
    ensures q + CheckSize(check) <= |s| && (check == 1 ==> s[q..q + 4] == Le(Crc(text, 0), 4))
  {
    hide At, Crc, Word32, Le;
    AtInside(s, q, CheckBytes(check, text));
    AtSlice(s, q, CheckBytes(check, text));
    WordIsLe(Crc(text, 0));
  }

  lemma TailStands(s: seq<Byte>, q: nat, compressed: nat, text: seq<Byte>, check: Byte)
    requires check <= 1 && At(s, q, Zeros(PadLength(compressed)) + CheckBytes(check, text))
    ensures TailAt(s, check, q, compressed, text)
  {
    hide At, Crc, PadLength, CheckBytes, CheckSize, Le;
    var zeros := Zeros(PadLength(compressed));
    AtParts(s, q, zeros, CheckBytes(check, text));
    AtSlice(s, q, zeros);
    CheckStands(s, q + |zeros|, text, check);
  }

  lemma CheckLength(b: Plan, check: Byte)
    requires check <= 1
    ensures |CheckBytes(check, b.text)| == CheckSize(check)
  {
  }

  lemma BlockStands(s: seq<Byte>, p: nat, b: Plan, check: Byte, dictMax: nat)
    requires PlanFits(b) && DictionarySize(b.header.props) <= dictMax && check <= 1 && At(s, p, BlockBytes(b, check))
    ensures BlockAt(s, dictMax, check, p, BlockOf(b))
    ensures BlockEnd(p, BlockOf(b), check) == p + |BlockBytes(b, check)|
  {
    hide At, HeaderAt, DataAt, TailAt, HeaderBytes, Data, CheckBytes, HeaderOf, PadLength, CheckSize, Fit;
    hide TextOf, Encoded, DictionarySize, Zeros;
    var h, data, zeros, c := HeaderBytes(b.header), Data(b), Zeros(PadLength(|Data(b)|)), CheckBytes(check, b.text);
    assert BlockBytes(b, check) == h + (data + (zeros + c));
    AtParts(s, p, h, data + (zeros + c));
    AtParts(s, p + |h|, data, zeros + c);
    HeaderStandsAt(s, p, b.header, dictMax);
    DataStands(s, p + |h|, b);
    TailStands(s, p + |h| + |data|, |data|, b.text, check);
    HeaderSize(b.header);
    CheckLength(b, check);
  }

  function BlocksOf(bs: seq<Plan>): (blocks: seq<Block>)
    requires AllFit(bs)
    ensures |blocks| == |bs|
  {
    if bs == [] then [] else [BlockOf(bs[0])] + BlocksOf(bs[1..])
  }

  lemma {:induction false} BlocksStand(s: seq<Byte>, p: nat, bs: seq<Plan>, check: Byte, dictMax: nat)
    requires AllFit(bs) && check <= 1 && At(s, p, AllBlocks(bs, check))
    requires forall b <- bs :: DictionarySize(b.header.props) <= dictMax
    ensures BlocksAt(s, dictMax, check, p, BlocksOf(bs))
    ensures BlocksEnd(p, BlocksOf(bs), check) == p + |AllBlocks(bs, check)|
    ensures Texts(BlocksOf(bs)) == AllTexts(bs)
    decreases |bs|
  {
    hide At, BlockBytes, BlockAt, BlockEnd, PlanFits, BlockOf, DictionarySize;
    if bs != [] {
      var b := bs[0];
      AtParts(s, p, BlockBytes(b, check), AllBlocks(bs[1..], check));
      BlockStands(s, p, b, check, dictMax);
      assert forall c <- bs[1..] :: c in bs;
      BlocksStand(s, p + |BlockBytes(b, check)|, bs[1..], check, dictMax);
      assert BlocksOf(bs)[1..] == BlocksOf(bs[1..]);
      TextStands(b);
    }
  }

  lemma TextStands(b: Plan)
    requires PlanFits(b)
    ensures BlockOf(b).text == b.text
  {
    hide PlanFits;
  }

  // ---------- The Index ----------

  lemma RecordStands(b: Plan, check: Byte)
    requires PlanFits(b) && check <= 1
    ensures var r := RecordOf(BlockOf(b), check);
            RecordBytes(r) == RecordFields(b, check) && r.unpadded < VLI_LIMIT && r.uncompressed < VLI_LIMIT
  {
    hide Data, HeaderBytes, Encode, CheckBytes, CheckSize, Fit, TextOf, Encoded, DictionarySize;
    CheckLength(b, check);
    HeaderSize(b.header);
    CheckSmall(check);
  }

  lemma CheckSmall(check: Byte)
    ensures CheckSize(check) <= 4
  {
  }

  lemma {:induction false} RecordsStand(bs: seq<Plan>, check: Byte)
    requires AllFit(bs) && check <= 1
    ensures var rs := RecordsOf(BlocksOf(bs), check);
            RecordsBytes(rs) == Records(bs, check) && Small(rs) && |rs| == |bs|
    decreases |bs|
  {
    hide PlanFits, BlockOf, RecordOf, RecordFields, RecordBytes;
    if bs != [] {
      RecordStands(bs[0], check);
      RecordsStand(bs[1..], check);
      var rs, more := RecordsOf(BlocksOf(bs), check), RecordsOf(BlocksOf(bs[1..]), check);
      assert BlocksOf(bs)[1..] == BlocksOf(bs[1..]);
      assert rs == [RecordOf(BlockOf(bs[0]), check)] + more;
      assert rs[1..] == more;
    }
  }

  lemma IndexIs(bs: seq<Plan>, check: Byte)
    requires AllFit(bs) && check <= 1
    ensures IndexBytes(RecordsOf(BlocksOf(bs), check)) == Index(bs, check)
    ensures |Index(bs, check)| % 4 == 0 && |Index(bs, check)| > 0 && Index(bs, check)[0] == 0
  {
    hide RecordsBytes, Records, RecordsOf, BlocksOf, Encode;
    RecordsStand(bs, check);
  }

  lemma IndexStands(s: seq<Byte>, p: nat, bs: seq<Plan>, check: Byte, dictMax: nat)
    requires FileFits(bs, check, dictMax) && At(s, p, IndexAndFooter(bs, check))
    ensures p < |s| && s[p] == 0
    ensures IndexAt(s, check, p, p + |IndexAndFooter(bs, check)|, Totals(BlocksOf(bs), check),
                    RecordsOf(BlocksOf(bs), check))
  {
    hide At, Index, Records, RecordsBytes, IndexBytes, Crc, Word32, StreamFooter, FooterValid, HashOf, AllFit, BlocksOf;
    hide RecordsOf, Texts, DictionarySize, Le;
    RecordsStand(bs, check);
    IndexIs(bs, check);
    var index := Index(bs, check);
    var crc, footer := Word32(Crc(index, 0)), StreamFooter(|index| + 4, check);
    AtParts(s, p, index, crc + footer);
    AtParts(s, p + |index|, crc, footer);
    AtSlice(s, p, index);
    AtSlice(s, p + |index|, crc);
    AtSlice(s, p + |index| + 4, footer);
    AtInside(s, p + |index| + 4, footer);
    WordIsLe(Crc(index, 0));
    assert s[p] == s[p..p + |index|][0];
    StreamFooterExact(footer, |index|, check);
  }

  // ---------- The file ----------

  lemma FileStands(s: seq<Byte>, bs: seq<Plan>, check: Byte, dictMax: nat)
    requires FileFits(bs, check, dictMax) && At(s, 0, FileBytes(bs, check))
    ensures MadeOf(s, dictMax, check, BlocksOf(bs), RecordsOf(BlocksOf(bs), check), |FileBytes(bs, check)|)
    ensures Texts(BlocksOf(bs)) == AllTexts(bs)
  {
    hide At, AllBlocks, IndexAndFooter, Totals, IndexAt, RecordsOf, BlocksOf, BlocksAt, BlocksEnd, ReadStreamHeader;
    hide AllFit;
    hide DictionarySize, StreamHeader, Texts, AllTexts, Index;
    var h, blocks, tail := StreamHeader(check), AllBlocks(bs, check), IndexAndFooter(bs, check);
    AtParts(s, 0, h, blocks + tail);
    AtParts(s, 12, blocks, tail);
    AtInside(s, 0, h);
    AtSlice(s, 0, h);
    StreamHeaderExact(h, check);
    BlocksStand(s, 12, bs, check, dictMax);
    IndexStands(s, 12 + |blocks|, bs, check, dictMax);
    assert s[..12] == s[0..12];
  }

  /** Whatever follows it, a file that was written is valid, decodes to its texts and ends where it ends: with a
      Backward Size, sizes, checks and padding as the format has them. */
  lemma WrittenFile(bs: seq<Plan>, check: Byte, dictMax: nat, rest: seq<Byte>)
    requires FileFits(bs, check, dictMax)
    ensures var s := FileBytes(bs, check);
            DecodeFile(s + rest, dictMax) == Valid(AllTexts(bs), |s|)
  {
    hide FileBytes, At, MadeOf, DecodeFile, AllFit, Index, RecordsOf, BlocksOf, Texts, AllTexts;
    var s := FileBytes(bs, check) + rest;
    AtFront(FileBytes(bs, check), rest);
    FileStands(s, bs, check, dictMax);
    RecordsAgree(s, dictMax, check, BlocksOf(bs), RecordsOf(BlocksOf(bs), check), |FileBytes(bs, check)|);
    FileExact(s, dictMax, AllTexts(bs), |FileBytes(bs, check)|);
  }

  /** The decoder, called over and over with any buffers, ends a file that was written with all of its texts. */
  method DecodeWrittenFile(dec: XzDec, s: seq<Byte>, cuts: seq<Cut>, ghost bs: seq<Plan>, ghost check: Byte,
                           ghost rest: seq<Byte>)
    returns (ret: Ret, text: seq<Byte>, used: nat)
    requires dec.Shape() && |cuts| > 0 && forall k :: 0 <= k < |cuts| ==> cuts[k].give > 0 && cuts[k].room > 0
    requires FileFits(bs, check, dec.DictMax()) && s == FileBytes(bs, check) + rest
    modifies dec, dec.f, dec.ix, dec.temp, dec.temp.buf, dec.blk
    modifies dec.blk.lzma2, dec.blk.lzma2.rc, dec.blk.lzma2.probs, dec.blk.lzma2.temp
    modifies dec.blk.lzma2.dict, dec.blk.lzma2.dict.buf, dec.blk.bcj, dec.blk.bcj.buf
    ensures ret.XzStreamEnd? && text == AllTexts(bs) && used == |FileBytes(bs, check)|
  {
    hide DecodeFile, FileBytes, AllTexts, IsFile, XzDec.Shape;
    WrittenFile(bs, check, dec.DictMax(), rest);
    ret, text, used := DecodeFileAll(dec, s, cuts);
  }

  /** In a valid file the first four of the last eight bytes say how long the Index is, with its CRC32: in words, less
      one. */
  lemma BackwardSize(s: seq<Byte>, dictMax: nat, out: seq<Byte>, end: nat)
    returns (check: Byte, bs: seq<Block>, rs: seq<Record>)
    requires DecodeFile(s, dictMax) == Valid(out, end)
    ensures MadeOf(s, dictMax, check, bs, rs, end) && out == Texts(bs)
    ensures var p := BlocksEnd(STREAM_HEADER_SIZE, bs, check);
            && 8 <= end <= |s|
            && var b0: int, b1: int, b2: int, b3: int := s[end - 8], s[end - 7], s[end - 6], s[end - 5];
            (b0 + 0x100 * b1 + 0x1_0000 * b2 + 0x100_0000 * b3 + 1) * 4 == end - 12 - p
  {
    hide MadeOf, BlocksEnd, DecodeFile, Agree, Texts;
    FileExact(s, dictMax, out, end);
    check, bs, rs :| MadeOf(s, dictMax, check, bs, rs, end) && Agree(bs, rs, check) && out == Texts(bs);
    SizeInFooter(s, dictMax, check, bs, rs, end);
  }

  lemma SizeInFooter(s: seq<Byte>, dictMax: nat, check: Byte, bs: seq<Block>, rs: seq<Record>, end: nat)
    requires MadeOf(s, dictMax, check, bs, rs, end)
    ensures var p := BlocksEnd(STREAM_HEADER_SIZE, bs, check);
            && 8 <= end <= |s|
            && var b0: int, b1: int, b2: int, b3: int := s[end - 8], s[end - 7], s[end - 6], s[end - 5];
            (b0 + 0x100 * b1 + 0x1_0000 * b2 + 0x100_0000 * b3 + 1) * 4 == end - 12 - p
  {
    hide BlocksAt, ReadStreamHeader, BlocksEnd, Crc, HashOf, Totals, IndexFields, Le;
  }
}
