/** Slicing independence of the whole decoder: callers of xz_dec_run that cut a .xz file and its output in every
    way. */
module XzSlicing {
  import opened Basics
  import opened XzBuffer
  import opened BcjFilter
  import opened Slicing
  import opened BcjSlicing
  import opened XzFormat
  import opened XzField
  import opened XzPlace
  import opened XzFile
  import opened XzBlock
  import opened XzStream

  /** What a Block has delivered is the beginning of what it decodes to. */
  lemma TextIsPrefix(blk: BlockDec, s: seq<Byte>, here: int, check: Byte)
    requires blk.InBlock(s, here, check)
    ensures blk.start <= |s| && blk.header.props <= 39
    ensures blk.Text() <= Filtered(blk.header, BlockData(s, blk.start, blk.header).out)
  {
    hide FilterIdle, Idle, Crc, Filter, BlockData;
    var data := BlockData(s, blk.start, blk.header);
    if blk.header.bcj {
      FilterIdleBound(blk.lzma2, blk.bcj, s[blk.start..], data, here - blk.start, blk.bcj.delivered);
    } else {
      IdleBound(blk.lzma2, s[blk.start..], data, here - blk.start, blk.lzma2.out);
    }
  }

  /** What a decoder has delivered is the beginning of what a valid file decodes to. */
  lemma OutIsPrefix(dec: XzDec, s: seq<Byte>, here: nat, target: Outcome)
    requires dec.On(s, here, here, target)
    ensures dec.out <= target.out
    ensures here <= |s|
  {
    hide FromBlocks, FromData, FromBlockPadding, FromCheck, FromCount, FromRecord, FromSecond, FromIndexPadding;
    hide FromIndexCrc, FromFooter;
    hide DecodeFile, BlockDec.InBlock, BlockDec.Shape, Crc, ReadVli, BlockData, Filtered;
    var dictMax, check := dec.DictMax(), dec.checkType;
    match dec.sequence
    case SeqStreamHeader =>
    case SeqBlockStart => BlocksGrow(s, dictMax, check, here, dec.Done());
    case SeqBlockHeader => BlocksGrow(s, dictMax, check, dec.mark, dec.Done());
    case SeqBlockUncompress =>
      TextIsPrefix(dec.blk, s, here, check);
      DataGrows(s, dictMax, check, dec.blk.start, dec.blk.header, Blocks(dec.blk.count, dec.blk.hash, dec.prev));
    case SeqBlockPadding => BlockPaddingGrows(s, dictMax, check, dec.blk.compressed, here, dec.text, dec.Done());
    case SeqBlockCheck => CheckGrows(s, dictMax, check, dec.mark, dec.text, dec.Done());
    case SeqIndex => IndexOut(s, dictMax, check, dec.ix.Here(dec.Done()), target);
    case SeqIndexPadding => PaddingOut(s, check, dec.ix.start, here, dec.Done(), dec.ix.hash);
    case SeqIndexCrc => CrcOut(s, check, dec.ix.start, dec.mark, dec.out);
    case SeqStreamFooter => FooterOut(s, check, dec.ix.size, dec.mark, dec.out);
  }

  lemma IndexOut(s: seq<Byte>, dictMax: nat, check: Byte, place: Place, target: Outcome)
    requires Leads(s, dictMax, check, place, target) && (place.AtCount? || place.AtRecord? || place.AtSecond?)
    ensures target.out == place.blocks.out
  {
    hide ReadVli, FromBlocks, FromData, FromBlockPadding, FromCheck, FromIndexPadding, FromIndexCrc, FromFooter;
    hide DecodeFile;
    match place
    case AtCount(p, q, blocks) => CountOut(s, check, p, q, blocks);
    case AtRecord(p, q, left, blocks, hash) => RecordsOut(s, check, p, q, left, blocks, hash);
    case AtSecond(p, q, left, blocks, hash) =>
      if ReadVli(s, q, |s|, 0, 0).Some? {
        var (v, q1) := ReadVli(s, q, |s|, 0, 0).value;
        RecordsOut(s, check, p, q1, left - 1, blocks, AddUncompressed(hash, v));
      }
    case _ =>
  }

  lemma CrcOut(s: seq<Byte>, check: Byte, p: nat, q: nat, out: seq<Byte>)
    requires p <= q
    ensures var r := FromIndexCrc(s, check, p, q, out); r.out == out
  {
  }

  lemma FooterOut(s: seq<Byte>, check: Byte, indexSize: nat, p: nat, out: seq<Byte>)
    ensures var r := FromFooter(s, check, indexSize, p, out); r.out == out
  {
  }

  /** One call of xz_dec_run: give more bytes of the file at most, and an output buffer of the given size. */
  method FileCall(dec: XzDec, s: seq<Byte>, used: nat, give: nat, room: nat, ghost target: Outcome)
    returns (ret: Ret, piece: seq<Byte>, taken: nat)
    requires dec.On(s, used, used, target) && used <= |s|
    modifies dec, dec.f, dec.ix, dec.temp, dec.temp.buf, dec.blk
    modifies dec.blk.lzma2, dec.blk.lzma2.rc, dec.blk.lzma2.probs, dec.blk.lzma2.temp, dec.blk.lzma2.dict
    modifies dec.blk.lzma2.dict.buf
    modifies dec.blk.bcj, dec.blk.bcj.buf
    ensures dec.blk.lzma2.dict.buf == old(dec.blk.lzma2.dict.buf) || fresh(dec.blk.lzma2.dict.buf)
    ensures ret.XzOk? || ret.XzStreamEnd? || ret.XzBufError? || (Failed(ret) && target.Invalid?)
    ensures Excused(s, dec.DictMax(), ret)
    ensures !Failed(ret) ==> used + taken <= |s| && dec.out == old(dec.out) + piece
    ensures ret.XzStreamEnd? ==> target == Valid(dec.out, used + taken)
    ensures ret.XzOk? || ret.XzBufError? ==> dec.On(s, used + taken, used + taken, target)
    ensures ret.XzOk? || ret.XzBufError? ==> |piece| == room || taken == give || used + taken == |s|
    ensures (ret.XzOk? || ret.XzBufError?) && used + give >= |s| && target.Valid? ==>
              |piece| == room && |dec.out| < |target.out|
    ensures ret.XzBufError? ==> taken == 0 && piece == []
    ensures ret.XzOk? && taken == 0 && piece == [] ==> !old(dec.allowBufError)
    ensures ret.XzOk? ==> (dec.allowBufError <==> taken == 0 && piece == [])
  {
    hide XzDec.On, XzDec.State, XzDec.Where, Leads, XzDec.Shape, Excused;
    var b := Give(dec, s, used, give, room);
    ghost var before := b.out[..b.outPos];
    ret := dec.Run(b, s, used, target);
    if Failed(ret) {
      return ret, [], 0;
    }
    piece, taken := b.out[..b.outPos], b.inPos;
    AppendedPart(old(dec.out), before, dec.out, piece);
  }

  // The buffers of one call.
  method Give(dec: XzDec, s: seq<Byte>, used: nat, give: nat, room: nat) returns (b: XzBuf)
    requires used <= |s|
    ensures fresh(b) && fresh(b.out) && b.Valid() && dec.Apart(b.out)
    ensures Given(s, b, 0, used) && b.inPos == 0 && b.outPos == 0 && b.outSize == room
    ensures |b.input| == if give <= |s| - used then give else |s| - used
  {
    var n := if give <= |s| - used then give else |s| - used;
    var buffer := new Byte[room](_ => 0);
    b := new XzBuf(s[used..used + n], buffer);
  }

  /** xz_dec_reset and then calls with buffers of at least one byte, as the cuts say, until the decoder ends
      or refuses the file or the cuts are used up. It ends only a valid file, with exactly what the file
      decodes to, at exactly its end; it refuses only files that are not valid; and a valid file is ended
      whenever there are enough calls. */
  method DecodeFileInPieces(dec: XzDec, s: seq<Byte>, cuts: seq<Cut>) returns (ret: Ret, produced: seq<Byte>, used: nat)
    requires dec.Shape() && forall k :: 0 <= k < |cuts| ==> cuts[k].give > 0 && cuts[k].room > 0
    modifies dec, dec.f, dec.ix, dec.temp, dec.temp.buf, dec.blk
    modifies dec.blk.lzma2, dec.blk.lzma2.rc, dec.blk.lzma2.probs, dec.blk.lzma2.temp
    modifies dec.blk.lzma2.dict, dec.blk.lzma2.dict.buf, dec.blk.bcj, dec.blk.bcj.buf
    ensures var whole := DecodeFile(s, old(dec.DictMax()));
            && (ret.XzOk? || ret.XzStreamEnd? || ((ret.XzBufError? || Failed(ret)) && whole.Invalid?))
            && (ret.XzStreamEnd? ==> whole == Valid(produced, used))
            && (ret.XzOk? ==> produced <= whole.out && used <= |s|)
            && (ret.XzOk? && whole.Valid? ==> |cuts| <= used + |produced|)
            && (whole.Valid? && |cuts| > |s| + |whole.out| ==> ret.XzStreamEnd?)
    ensures ret.XzStreamEnd? ==> IsFile(s, old(dec.DictMax()), produced, used)
  {
    hide XzDec.On, XzDec.Shape, DecodeFile, IsFile;
    ghost var whole, dictMax := DecodeFile(s, dec.DictMax()), dec.DictMax();
    dec.Reset(s);
    produced, used, ret := [], 0, XzOk;
    for k := 0 to |cuts|
      invariant ret.XzOk? && dec.On(s, used, used, whole) && dec.out == produced && used <= |s|
      invariant whole.Valid? ==> k <= used + |produced|
      invariant dec.blk.lzma2.dict.buf == old(dec.blk.lzma2.dict.buf) || fresh(dec.blk.lzma2.dict.buf)
    {
      var piece, taken;
      ret, piece, taken := FileCall(dec, s, used, cuts[k].give, cuts[k].room, whole);
      produced, used := produced + piece, used + taken;
      if !ret.XzOk? {
        FileExact(s, dictMax, produced, used);
        return;
      }
    }
    OutIsPrefix(dec, s, used, whole);
  }

  /** How far calls can still get, counted so that a call without progress counts too, once. */
  ghost function Left(dec: XzDec, s: seq<Byte>, whole: Outcome, used: nat, produced: seq<Byte>): int
    reads dec
  {
    2 * (|s| - used + |whole.out| - |produced|) + (if dec.allowBufError then 0 else 1)
  }

  /** Calls over and over, with buffers as the cuts say again and again: they always come to an end.
      XZ_STREAM_END is returned exactly for the valid files; all others are refused, with an error or with
      XZ_BUF_ERROR. */
  method DecodeFileAll(dec: XzDec, s: seq<Byte>, cuts: seq<Cut>) returns (ret: Ret, produced: seq<Byte>, used: nat)
    requires dec.Shape() && |cuts| > 0 && forall k :: 0 <= k < |cuts| ==> cuts[k].give > 0 && cuts[k].room > 0
    modifies dec, dec.f, dec.ix, dec.temp, dec.temp.buf, dec.blk
    modifies dec.blk.lzma2, dec.blk.lzma2.rc, dec.blk.lzma2.probs, dec.blk.lzma2.temp
    modifies dec.blk.lzma2.dict, dec.blk.lzma2.dict.buf, dec.blk.bcj, dec.blk.bcj.buf
    ensures var whole := DecodeFile(s, old(dec.DictMax()));
            && (ret.XzStreamEnd? <==> whole.Valid?)
            && (ret.XzStreamEnd? ==> whole == Valid(produced, used))
            && (ret.XzBufError? || Failed(ret) <==> whole.Invalid?)
    ensures ret.XzStreamEnd? <==> exists out, end :: IsFile(s, old(dec.DictMax()), out, end)
    ensures Excused(s, dec.DictMax(), ret)
  {
    hide Excused, XzDec.On, XzDec.Shape, DecodeFile, IsFile;
    ghost var whole, dictMax := DecodeFile(s, dec.DictMax()), dec.DictMax();
    ValidIsFile(s, dictMax);
    dec.Reset(s);
    produced, used := [], 0;
    var k := 0;
    OutIsPrefix(dec, s, used, whole);
    while true
      invariant k < |cuts| && dec.On(s, used, used, whole) && dec.out == produced
      invariant used <= |s| && produced <= whole.out
      invariant dec.blk.lzma2.dict.buf == old(dec.blk.lzma2.dict.buf) || fresh(dec.blk.lzma2.dict.buf)
      decreases Left(dec, s, whole, used, produced)
    {
      var piece, taken;
      ret, piece, taken := FileCall(dec, s, used, cuts[k].give, cuts[k].room, whole);
      produced, used := produced + piece, used + taken;
      if !ret.XzOk? {
        return;
      }
      OutIsPrefix(dec, s, used, whole);
      k := if k + 1 < |cuts| then k + 1 else 0;
    }
  }

  lemma ValidIsFile(s: seq<Byte>, dictMax: nat)
    ensures DecodeFile(s, dictMax).Valid? <==> exists out, end :: IsFile(s, dictMax, out, end)
  {
    hide DecodeFile, IsFile;
    if DecodeFile(s, dictMax).Valid? {
      FileExact(s, dictMax, DecodeFile(s, dictMax).out, DecodeFile(s, dictMax).end);
    }
    if out, end :| IsFile(s, dictMax, out, end) {
      FileExact(s, dictMax, out, end);
    }
  }
}
