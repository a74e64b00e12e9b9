/** What a .xz file is, without a parser: a Stream Header, Blocks one after the other, and an Index with its Stream
    Footer whose records agree with these Blocks (sections 2 to 4 of The .xz File Format). */
module XzFile {
  import opened Basics
  import L = Lzma2Reference
  import opened XzFormat
  import opened XzIndex
  import opened XzPlace

  /** A Block: its header, the length of its compressed data, and what it decodes to. */
  datatype Block = Block(header: BlockHeader, compressed: nat, text: seq<Byte>)

  /** The sizes of a Block as the Index has them. */
  function RecordOf(b: Block, check: Byte): Record {
    Record(b.header.size + b.compressed + CheckSize(check), |b.text|)
  }

  function RecordsOf(bs: seq<Block>, check: Byte): (rs: seq<Record>)
    ensures |rs| == |bs| && forall i :: 0 <= i < |bs| ==> rs[i] == RecordOf(bs[i], check)
  {
    if bs == [] then [] else [RecordOf(bs[0], check)] + RecordsOf(bs[1..], check)
  }

  function Texts(bs: seq<Block>): seq<Byte> {
    if bs == [] then [] else bs[0].text + Texts(bs[1..])
  }

  function BlockEnd(p: nat, b: Block, check: Byte): nat {
    p + b.header.size + b.compressed + PadLength(b.compressed) + CheckSize(check)
  }

  function BlocksEnd(p: nat, bs: seq<Block>, check: Byte): nat
    decreases |bs|
  {
    if bs == [] then p else BlocksEnd(BlockEnd(p, bs[0], check), bs[1..], check)
  }

  /** At p stands a Block Header. */
  predicate HeaderAt(s: seq<Byte>, dictMax: nat, p: nat, h: BlockHeader) {
    && p < |s| && s[p] != 0
    && h.size == (s[p] as int + 1) * 4 && p + h.size <= |s|
    && ReadBlockHeader(s[p..p + h.size], dictMax) == Some(h)
  }

  /** At q stands the Block Padding, and the Check of the text. */
  predicate TailAt(s: seq<Byte>, check: Byte, q: nat, compressed: nat, text: seq<Byte>) {
    var k := PadLength(compressed);
    && q + k + CheckSize(check) <= |s|
    && s[q..q + k] == Zeros(k)
    && (check == 1 ==> s[q + k..q + k + 4] == Le(Crc(text, 0), 4))
  }

  /** At d stands the compressed data of a Block. */
  ghost predicate DataAt(s: seq<Byte>, d: nat, b: Block)
    requires d <= |s| && b.header.props <= 39
  {
    var data := BlockData(s, d, b.header);
    && data.status == L.Ended && data.pos == b.compressed && b.text == Filtered(b.header, data.out)
    && d + b.compressed <= |s| && SizesAgree(b.header, b.compressed, |b.text|)
  }

  /** At p stands a Block. */
  ghost predicate BlockAt(s: seq<Byte>, dictMax: nat, check: Byte, p: nat, b: Block) {
    && HeaderAt(s, dictMax, p, b.header) && b.header.props <= 39
    && var d := p + b.header.size;
    && DataAt(s, d, b)
    && TailAt(s, check, d + b.compressed, b.compressed, b.text)
  }

  /** From p on stand Blocks. */
  ghost predicate BlocksAt(s: seq<Byte>, dictMax: nat, check: Byte, p: nat, bs: seq<Block>)
    decreases |bs|
  {
    bs != [] ==>
      BlockAt(s, dictMax, check, p, bs[0]) && BlocksAt(s, dictMax, check, BlockEnd(p, bs[0], check), bs[1..])
  }

  /** What the Index has to agree with. */
  function Totals(bs: seq<Block>, check: Byte): Blocks {
    Blocks(|bs|, HashOf(RecordsOf(bs, check), NO_HASH), Texts(bs))
  }

  /** The file is made of these Blocks and these records, and ends at end. */
  ghost predicate MadeOf(s: seq<Byte>, dictMax: nat, check: Byte, bs: seq<Block>, rs: seq<Record>, end: nat) {
    && |s| >= STREAM_HEADER_SIZE && ReadStreamHeader(s[..STREAM_HEADER_SIZE]) == Some(check)
    && BlocksAt(s, dictMax, check, STREAM_HEADER_SIZE, bs)
    && var p := BlocksEnd(STREAM_HEADER_SIZE, bs, check);
    && p < |s| && s[p] == 0
    && IndexAt(s, check, p, end, Totals(bs, check), rs)
  }

  /** A file that decodes to out and ends at end: there are Blocks that decode to it, as many records, and the sums of
      both sizes over Blocks and records agree modulo 2^64. */
  ghost predicate IsFile(s: seq<Byte>, dictMax: nat, out: seq<Byte>, end: nat) {
    exists check, bs, rs :: MadeOf(s, dictMax, check, bs, rs, end) && Agree(bs, rs, check) && out == Texts(bs)
  }

  /** The records agree with the Blocks. */
  predicate Agree(bs: seq<Block>, rs: seq<Record>, check: Byte) {
    var own := RecordsOf(bs, check);
    && |rs| == |bs| && HashOf(rs, NO_HASH) == HashOf(own, NO_HASH)
    && SumUnpadded(rs) % U64 == SumUnpadded(own) % U64
    && SumUncompressed(rs) % U64 == SumUncompressed(own) % U64
  }

  lemma RecordsAgree(s: seq<Byte>, dictMax: nat, check: Byte, bs: seq<Block>, rs: seq<Record>, end: nat)
    requires MadeOf(s, dictMax, check, bs, rs, end)
    ensures Agree(bs, rs, check)
  {
    hide BlocksAt, ReadStreamHeader, IndexBytes, FooterValid, Crc, Le, Small, HashOf, SumUnpadded, SumUncompressed;
    HashSums(rs, NO_HASH);
    HashSums(RecordsOf(bs, check), NO_HASH);
  }

  // ---------- Blocks ----------

  lemma {:induction false} BlockPaddingExact(s: seq<Byte>, dictMax: nat, check: Byte, size: nat, q: nat,
                                             text: seq<Byte>,
                                             blocks: Blocks)
    requires q <= |s|
    ensures var k := PadLength(size);
            FromBlockPadding(s, dictMax, check, size, q, text, blocks) ==
              if q + k <= |s| && s[q..q + k] == Zeros(k) then FromCheck(s, dictMax, check, q + k, text, blocks)
              else Invalid(blocks.out)
    decreases |s| - q
  {
    hide FromCheck;
    var k := PadLength(size);
    if k > 0 && q < |s| {
      PadNext(size);
      BlockPaddingExact(s, dictMax, check, size + 1, q + 1, text, blocks);
      if q + k <= |s| {
        OneZero(s, q, k);
      }
    } else if k == 0 {
      assert s[q..q] == [];
    }
  }

  lemma OneZero(s: seq<Byte>, q: nat, k: nat)
    requires 0 < k && q + k <= |s|
    ensures s[q..q + k] == Zeros(k) <==> s[q] == 0 && s[q + 1..q + k] == Zeros(k - 1)
  {
    assert s[q..q + k] == [s[q]] + s[q + 1..q + k];
    assert Zeros(k) == [0] + Zeros(k - 1);
    assert s[q..q + k][0] == s[q] && s[q..q + k][1..] == s[q + 1..q + k];
  }

  lemma TailExact(s: seq<Byte>, dictMax: nat, check: Byte, q: nat, compressed: nat, text: seq<Byte>, blocks: Blocks)
    requires q <= |s|
    ensures FromBlockPadding(s, dictMax, check, compressed, q, text, blocks) ==
              if TailAt(s, check, q, compressed, text) then
                FromBlocks(s, dictMax, check, q + PadLength(compressed) + CheckSize(check), blocks)
              else Invalid(blocks.out)
  {
    hide FromBlockPadding, FromBlocks, Crc, Le, Zeros;
    BlockPaddingExact(s, dictMax, check, compressed, q, text, blocks);
  }

  lemma DataRead(s: seq<Byte>, dictMax: nat, check: Byte, d: nat, h: BlockHeader, blocks: Blocks) returns (b: Block)
    requires d <= |s| && h.props <= 39 && FromData(s, dictMax, check, d, h, blocks).Valid?
    ensures b.header == h && DataAt(s, d, b)
  {
    hide BlockData, Filtered, SizesAgree, FromBlockPadding;
    var data := BlockData(s, d, h);
    b := Block(h, data.pos, Filtered(h, data.out));
  }

  lemma DataWritten(s: seq<Byte>, dictMax: nat, check: Byte, d: nat, b: Block, blocks: Blocks)
    requires d <= |s| && b.header.props <= 39 && DataAt(s, d, b)
    ensures FromData(s, dictMax, check, d, b.header, blocks) ==
            FromBlockPadding(s, dictMax, check, b.compressed, d + b.compressed, b.text,
                             WithBlock(blocks, b.header, check, b.compressed, b.text))
  {
    hide BlockData, Filtered, SizesAgree, FromBlockPadding, WithBlock;
  }

  lemma HeaderRead(s: seq<Byte>, dictMax: nat, check: Byte, p: nat, blocks: Blocks) returns (h: BlockHeader)
    requires p < |s| && s[p] != 0 && FromBlocks(s, dictMax, check, p, blocks).Valid?
    ensures HeaderAt(s, dictMax, p, h) && h.props <= 39 && p + h.size <= |s|
  {
    hide ReadBlockHeader, FromData;
    var first: int := s[p];
    h := ReadBlockHeader(s[p..p + (first + 1) * 4], dictMax).value;
    HeaderFacts(s[p..p + (first + 1) * 4], dictMax);
  }

  lemma HeaderFacts(h: seq<Byte>, dictMax: nat)
    requires 8 <= |h| <= 1024
    ensures var r := ReadBlockHeader(h, dictMax); r.Some? ==> r.value.size == |h| && r.value.props <= 39
  {
    hide Crc, ReadVli, Filters;
  }

  /** What is read as a Block at p is one. */
  lemma BlockRead(s: seq<Byte>, dictMax: nat, check: Byte, p: nat, blocks: Blocks) returns (b: Block)
    requires p < |s| && s[p] != 0 && FromBlocks(s, dictMax, check, p, blocks).Valid?
    ensures BlockAt(s, dictMax, check, p, b)
  {
    hide FromBlocks, FromData, FromBlockPadding, TailAt, DataAt, HeaderAt, PadLength, WithBlock;
    var h := HeaderRead(s, dictMax, check, p, blocks);
    ReadsData(s, dictMax, check, p, blocks, h);
    var d := p + h.size;
    b := DataRead(s, dictMax, check, d, h, blocks);
    var next := WithBlock(blocks, h, check, b.compressed, b.text);
    DataWritten(s, dictMax, check, d, b, blocks);
    DataBound(s, d, b);
    TailExact(s, dictMax, check, d + b.compressed, b.compressed, b.text, next);
  }

  lemma DataBound(s: seq<Byte>, d: nat, b: Block)
    requires d <= |s| && b.header.props <= 39 && DataAt(s, d, b)
    ensures d + b.compressed <= |s|
  {
    hide BlockData, Filtered, SizesAgree;
  }

  /** A Block at p is read. */
  lemma BlockWritten(s: seq<Byte>, dictMax: nat, check: Byte, p: nat, blocks: Blocks, b: Block)
    requires BlockAt(s, dictMax, check, p, b)
    ensures FromBlocks(s, dictMax, check, p, blocks) ==
            FromBlocks(s, dictMax, check, BlockEnd(p, b, check),
                       WithBlock(blocks, b.header, check, b.compressed, b.text))
  {
    hide FromBlocks, FromData, FromBlockPadding, TailAt, DataAt, PadLength, ReadBlockHeader, WithBlock;
    var d := p + b.header.size;
    DataBound(s, d, b);
    ReadsData(s, dictMax, check, p, blocks, b.header);
    DataWritten(s, dictMax, check, d, b, blocks);
    TailExact(s, dictMax, check, d + b.compressed, b.compressed, b.text,
              WithBlock(blocks, b.header, check, b.compressed, b.text));
  }

  lemma ReadsData(s: seq<Byte>, dictMax: nat, check: Byte, p: nat, blocks: Blocks, h: BlockHeader)
    requires HeaderAt(s, dictMax, p, h) && h.props <= 39
    ensures FromBlocks(s, dictMax, check, p, blocks) == FromData(s, dictMax, check, p + h.size, h, blocks)
  {
    hide ReadBlockHeader, FromData;
  }

  /** Blocks added to those before. */
  function AddAll(blocks: Blocks, bs: seq<Block>, check: Byte): Blocks
    decreases |bs|
  {
    if bs == [] then blocks
    else AddAll(WithBlock(blocks, bs[0].header, check, bs[0].compressed, bs[0].text), bs[1..], check)
  }

  lemma {:induction false} AddAllIs(blocks: Blocks, bs: seq<Block>, check: Byte)
    ensures AddAll(blocks, bs, check) ==
            Blocks(blocks.count + |bs|, HashOf(RecordsOf(bs, check), blocks.hash), blocks.out + Texts(bs))
    decreases |bs|
  {
    hide AddUnpadded, AddUncompressed;
    if bs == [] {
      assert blocks.out + [] == blocks.out;
    } else {
      var b := bs[0];
      var next := WithBlock(blocks, b.header, check, b.compressed, b.text);
      AddAllIs(next, bs[1..], check);
      assert RecordsOf(bs, check)[1..] == RecordsOf(bs[1..], check);
      assert blocks.out + (b.text + Texts(bs[1..])) == (blocks.out + b.text) + Texts(bs[1..]);
    }
  }

  /** What is accepted from p on are Blocks and then an Index. */
  lemma {:induction false} BlocksRead(s: seq<Byte>, dictMax: nat, check: Byte, p: nat, blocks: Blocks)
    returns (bs: seq<Block>)
    requires FromBlocks(s, dictMax, check, p, blocks).Valid?
    ensures BlocksAt(s, dictMax, check, p, bs)
    ensures var q := BlocksEnd(p, bs, check);
            && q < |s| && s[q] == 0
            && FromBlocks(s, dictMax, check, p, blocks) == FromCount(s, check, q, q + 1, AddAll(blocks, bs, check))
    decreases |s| - p
  {
    hide FromBlocks, FromCount, BlockAt;
    ValidInside(s, dictMax, check, p, blocks);
    if s[p] == 0 {
      IndexRead(s, dictMax, check, p, blocks);
      bs := [];
    } else {
      var b := BlockRead(s, dictMax, check, p, blocks);
      BlockWritten(s, dictMax, check, p, blocks, b);
      LaterEnd(s, dictMax, check, p, b);
      var rest := BlocksRead(s, dictMax, check, BlockEnd(p, b, check),
                             WithBlock(blocks, b.header, check, b.compressed, b.text));
      bs := [b] + rest;
      assert bs[1..] == rest;
    }
  }

  lemma ValidInside(s: seq<Byte>, dictMax: nat, check: Byte, p: nat, blocks: Blocks)
    requires FromBlocks(s, dictMax, check, p, blocks).Valid?
    ensures p < |s|
  {
  }

  lemma LaterEnd(s: seq<Byte>, dictMax: nat, check: Byte, p: nat, b: Block)
    requires BlockAt(s, dictMax, check, p, b)
    ensures p < BlockEnd(p, b, check) <= |s|
  {
    hide ReadBlockHeader, BlockData, Filtered, SizesAgree, Zeros, Crc, Le;
  }

  lemma {:induction false} BlocksWritten(s: seq<Byte>, dictMax: nat, check: Byte, p: nat, blocks: Blocks,
                                         bs: seq<Block>)
    requires BlocksAt(s, dictMax, check, p, bs)
    requires var q := BlocksEnd(p, bs, check); q < |s| && s[q] == 0
    ensures var q := BlocksEnd(p, bs, check);
            FromBlocks(s, dictMax, check, p, blocks) == FromCount(s, check, q, q + 1, AddAll(blocks, bs, check))
    decreases |bs|
  {
    hide FromCount, BlockAt, BlockEnd, WithBlock;
    if bs == [] {
      IndexRead(s, dictMax, check, p, blocks);
    } else {
      hide FromBlocks;
      var b := bs[0];
      BlockWritten(s, dictMax, check, p, blocks, b);
      BlocksWritten(s, dictMax, check, BlockEnd(p, b, check),
                    WithBlock(blocks, b.header, check, b.compressed, b.text), bs[1..]);
    }
  }

  lemma IndexRead(s: seq<Byte>, dictMax: nat, check: Byte, p: nat, blocks: Blocks)
    requires p < |s| && s[p] == 0
    ensures FromBlocks(s, dictMax, check, p, blocks) == FromCount(s, check, p, p + 1, blocks)
  {
    hide FromCount;
  }

  // ---------- The file ----------

  lemma NothingBefore(bs: seq<Block>, check: Byte)
    ensures AddAll(Blocks(0, NO_HASH, []), bs, check) == Totals(bs, check)
  {
    hide HashOf, AddAll;
    AddAllIs(Blocks(0, NO_HASH, []), bs, check);
    assert [] + Texts(bs) == Texts(bs);
  }

  lemma FileStart(s: seq<Byte>, dictMax: nat, check: Byte)
    requires |s| >= STREAM_HEADER_SIZE && ReadStreamHeader(s[..STREAM_HEADER_SIZE]) == Some(check)
    ensures DecodeFile(s, dictMax) == FromBlocks(s, dictMax, check, STREAM_HEADER_SIZE, Blocks(0, NO_HASH, []))
  {
    hide FromBlocks, ReadStreamHeader;
  }

  lemma FileRead(s: seq<Byte>, dictMax: nat, out: seq<Byte>, end: nat)
    requires DecodeFile(s, dictMax) == Valid(out, end)
    ensures IsFile(s, dictMax, out, end)
  {
    hide FromBlocks, ReadStreamHeader, BlocksAt, AddAll, FromCount, IndexAt, Agree, Totals;
    var check := ReadStreamHeader(s[..STREAM_HEADER_SIZE]).value;
    var none := Blocks(0, NO_HASH, []);
    var bs := BlocksRead(s, dictMax, check, STREAM_HEADER_SIZE, none);
    NothingBefore(bs, check);
    var p := BlocksEnd(STREAM_HEADER_SIZE, bs, check);
    TotalsOut(bs, check);
    IndexOutput(s, check, p, Totals(bs, check));
    IndexExact(s, check, p, end, Totals(bs, check));
    var rs :| IndexAt(s, check, p, end, Totals(bs, check), rs);
    assert MadeOf(s, dictMax, check, bs, rs, end);
    RecordsAgree(s, dictMax, check, bs, rs, end);
  }

  lemma TotalsOut(bs: seq<Block>, check: Byte)
    ensures Totals(bs, check).out == Texts(bs)
  {
  }

  // The Index adds nothing to what was decoded.
  lemma IndexOutput(s: seq<Byte>, check: Byte, p: nat, blocks: Blocks)
    ensures var r := FromCount(s, check, p, p + 1, blocks); r.Valid? ==> r.out == blocks.out
  {
    hide FromCount;
    CountOut(s, check, p, p + 1, blocks);
  }

  lemma FileWritten(s: seq<Byte>, dictMax: nat, out: seq<Byte>, end: nat)
    requires IsFile(s, dictMax, out, end)
    ensures DecodeFile(s, dictMax) == Valid(out, end)
  {
    hide FromBlocks, ReadStreamHeader, BlocksAt, AddAll, FromCount, IndexAt, Agree, Totals, DecodeFile;
    var check, bs, rs :| MadeOf(s, dictMax, check, bs, rs, end) && Agree(bs, rs, check) && out == Texts(bs);
    var p := BlocksEnd(STREAM_HEADER_SIZE, bs, check);
    FileStart(s, dictMax, check);
    BlocksWritten(s, dictMax, check, STREAM_HEADER_SIZE, Blocks(0, NO_HASH, []), bs);
    NothingBefore(bs, check);
    TotalsOut(bs, check);
    IndexExact(s, check, p, end, Totals(bs, check));
  }

  /** The reference parser accepts exactly these files. */
  lemma FileExact(s: seq<Byte>, dictMax: nat, out: seq<Byte>, end: nat)
    ensures DecodeFile(s, dictMax) == Valid(out, end) <==> IsFile(s, dictMax, out, end)
  {
    hide DecodeFile, IsFile;
    if DecodeFile(s, dictMax) == Valid(out, end) {
      FileRead(s, dictMax, out, end);
    }
    if IsFile(s, dictMax, out, end) {
      FileWritten(s, dictMax, out, end);
    }
  }
}
