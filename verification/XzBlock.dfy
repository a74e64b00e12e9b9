/** dec_block of src/xz/xz_dec_stream.c: the data of a Block through LZMA2 and the branch filter, its sizes, its
    check and the sizes collected for the Index. */
module XzBlock {
  import opened Basics
  import L = Lzma2Reference
  import opened XzBuffer
  import opened BcjFilter
  import opened BcjDecoder
  import opened Lzma2Decoder
  import opened Slicing
  import opened BcjSlicing
  import opened XzFormat
  import opened XzField
  import opened XzPlace
  import opened XzIndex

  class BlockDec {
    const f: Field
    const lzma2: Lzma2Dec
    const bcj: XzBcj
    var header: BlockHeader
    var compressed: nat
    var uncompressed: nat
    var count: nat
    var hash: Hash

    /** Where the data begins. */
    ghost var start: nat

    constructor (f: Field, lzma2: Lzma2Dec, bcj: XzBcj)
      ensures this.f == f && this.lzma2 == lzma2 && this.bcj == bcj
      ensures count == 0 && hash == NO_HASH
    {
      this.f, this.lzma2, this.bcj := f, lzma2, bcj;
      header, compressed, uncompressed, count, hash, start := BlockHeader(0, 0, 0, false, 0), 0, 0, 0, NO_HASH, 0;
    }

    /** The Block fields in xz_dec_reset. */
    method Clear()
      modifies this`compressed, this`uncompressed, this`count, this`hash
      ensures compressed == 0 && uncompressed == 0 && count == 0 && hash == NO_HASH
    {
      compressed, uncompressed, count, hash := 0, 0, 0, NO_HASH;
    }

    /** What of the Block was given to the caller. */
    ghost function Text(): seq<Byte>
      reads this`header, lzma2`out, bcj`delivered
    {
      if header.bcj then bcj.delivered else lzma2.out
    }

    /** The buffers of the decoders, and their readiness for a reset. */
    ghost predicate Shape()
      reads lzma2.dict
    {
      && lzma2.Buffers() && bcj.buf.Length == 16
      && (lzma2.probs as object) != bcj.buf && bcj.buf != lzma2.temp && bcj.buf != lzma2.dict.buf
      && lzma2.dict.allocatedSize == 0 && (lzma2.prealloc ==> lzma2.dict.sizeMax <= lzma2.dict.buf.Length)
    }

    ghost predicate Apart(out: array<Byte>)
      reads lzma2.dict
    {
      && out != bcj.buf && (lzma2.probs as object) != out && out != lzma2.temp && out != lzma2.dict.buf
    }

    /** In the middle of the data, between calls: the decoders have taken what lies between start and here. */
    ghost predicate Rested(s: seq<Byte>, here: int)
      reads this`header, this`start, bcj, bcj.buf, lzma2, lzma2.rc, lzma2.dict, lzma2.dict.buf, lzma2.probs, lzma2.temp
    {
      && start <= |s| && header.props <= 39
      && if header.bcj then
           FilterIdle(lzma2, bcj, s[start..], BlockData(s, start, header), here - start, bcj.delivered)
         else
           Idle(lzma2, s[start..], BlockData(s, start, header), here - start, lzma2.out)
    }

    /** What a Block with these data is, when it is complete. */
    ghost predicate Complete(s: seq<Byte>, here: int)
      reads this`header, this`start, bcj`delivered, lzma2`out
    {
      && start <= |s| && header.props <= 39
      && var data := BlockData(s, start, header);
         data.status == L.Ended && data.pos == here - start && Text() == Filtered(header, data.out)
    }

    /** xz_dec_bcj_run or xz_dec_lzma2_run. */
    method RunData(b: XzBuf, ghost from: nat, ghost s: seq<Byte>, ghost delta: int) returns (ret: Ret)
      requires Shape() && Rested(s, b.inPos + delta) && Given(s, b, from, delta) && b.Valid() && Apart(b.out)
      modifies lzma2, lzma2.rc, lzma2.probs, lzma2.temp
      modifies lzma2.dict`start, lzma2.dict`pos, lzma2.dict`full, lzma2.dict`limit, lzma2.dict`history, lzma2.dict.buf
      modifies bcj, bcj.buf, b, b.out
      ensures Shape() && b.out == old(b.out) && b.outSize == old(b.outSize) && b.input == old(b.input)
      ensures ret.XzOk? || ret.XzStreamEnd? || ret.XzDataError?
      ensures ret.XzDataError? ==> BlockData(s, start, header).status == L.Corrupt
      ensures ret.XzOk? || ret.XzStreamEnd? ==>
                && b.Valid() && b.inPos >= old(b.inPos) && b.inPos + delta <= |s|
                && Appended(old(Text()), old(b.out[..b.outPos]), Text(), b.out[..b.outPos])
      ensures ret.XzOk? ==> Rested(s, b.inPos + delta)
      ensures ret.XzStreamEnd? ==> Complete(s, b.inPos + delta)
      ensures ret.XzOk? ==>
                && (b.outPos == b.outSize || b.inPos == |b.input|)
                && (|b.input| + delta == |s| && BlockData(s, start, header).status == L.Ended ==>
                      b.outPos == b.outSize && |Text()| < |Filtered(header, BlockData(s, start, header).out)|)
    {
      if header.bcj {
        ret := RunFilter(b, from, s, delta);
      } else {
        ret := RunLzma2(b, from, s, delta);
      }
    }

    method RunFilter(b: XzBuf, ghost from: nat, ghost s: seq<Byte>, ghost delta: int) returns (ret: Ret)
      requires Shape() && Rested(s, b.inPos + delta) && Given(s, b, from, delta) && b.Valid() && Apart(b.out)
      requires header.bcj
      modifies lzma2, lzma2.rc, lzma2.probs, lzma2.temp
      modifies lzma2.dict`start, lzma2.dict`pos, lzma2.dict`full, lzma2.dict`limit, lzma2.dict`history, lzma2.dict.buf
      modifies bcj, bcj.buf, b, b.out
      ensures Shape() && b.out == old(b.out) && b.outSize == old(b.outSize) && b.input == old(b.input)
      ensures ret.XzOk? || ret.XzStreamEnd? || ret.XzDataError?
      ensures ret.XzDataError? ==> BlockData(s, start, header).status == L.Corrupt
      ensures ret.XzOk? || ret.XzStreamEnd? ==>
                && b.Valid() && b.inPos >= old(b.inPos) && b.inPos + delta <= |s|
                && Appended(old(Text()), old(b.out[..b.outPos]), Text(), b.out[..b.outPos])
      ensures ret.XzOk? ==> Rested(s, b.inPos + delta)
      ensures ret.XzStreamEnd? ==> Complete(s, b.inPos + delta)
      ensures ret.XzOk? ==>
                && (b.outPos == b.outSize || b.inPos == |b.input|)
                && (|b.input| + delta == |s| && BlockData(s, start, header).status == L.Ended ==>
                      b.outPos == b.outSize && |Text()| < |Filtered(header, BlockData(s, start, header).out)|)
    {
      hide BlockData, Idle, Lzma2Dec.Between, Carries, Appended, Filter, XzBcj.Holds;
      ghost var stream, data := s[start..], BlockData(s, start, header);
      FilterAttached(lzma2, bcj, b, stream, data, b.inPos + delta - start, bcj.delivered);
      ret := bcj.Run(lzma2, b, stream, data);
      if ret.XzOk? {
        FilterDetached(lzma2, bcj, b, stream, data);
      }
    }

    method RunLzma2(b: XzBuf, ghost from: nat, ghost s: seq<Byte>, ghost delta: int) returns (ret: Ret)
      requires Shape() && Rested(s, b.inPos + delta) && Given(s, b, from, delta) && b.Valid() && Apart(b.out)
      requires !header.bcj
      modifies lzma2, lzma2.rc, lzma2.probs, lzma2.temp
      modifies lzma2.dict`start, lzma2.dict`pos, lzma2.dict`full, lzma2.dict`limit, lzma2.dict`history, lzma2.dict.buf
      modifies b`inPos, b`outPos, b.out
      ensures Shape()
      ensures ret.XzOk? || ret.XzStreamEnd? || ret.XzDataError?
      ensures ret.XzDataError? ==> BlockData(s, start, header).status == L.Corrupt
      ensures ret.XzOk? || ret.XzStreamEnd? ==>
                && b.Valid() && b.inPos >= old(b.inPos) && b.inPos + delta <= |s|
                && Appended(old(Text()), old(b.out[..b.outPos]), Text(), b.out[..b.outPos])
      ensures ret.XzOk? ==> Rested(s, b.inPos + delta)
      ensures ret.XzStreamEnd? ==> Complete(s, b.inPos + delta)
      ensures ret.XzOk? ==>
                && (b.outPos == b.outSize || b.inPos == |b.input|)
                && (|b.input| + delta == |s| && BlockData(s, start, header).status == L.Ended ==>
                      b.outPos == b.outSize && |Text()| < |Filtered(header, BlockData(s, start, header).out)|)
    {
      hide BlockData, Idle, Lzma2Dec.Between, Filter;
      ghost var stream, data := s[start..], BlockData(s, start, header);
      ghost var before := b.out[..];
      IdleReady(lzma2, stream, data, b.inPos + delta - start, lzma2.out);
      Attached(lzma2, b, stream, data, b.inPos + delta - start, lzma2.out);
      ret := lzma2.Run(b, stream, data);
      if !ret.XzDataError? {
        WrittenParts(old(lzma2.out), before, old(b.outPos), lzma2.out, b.out[..], b.outPos);
        assert b.out[..b.outPos] == b.out[..old(b.outPos)] + b.out[old(b.outPos)..b.outPos];
      }
      if ret.XzOk? {
        Detached(lzma2, b, stream, data);
        if |b.input| + delta == |s| {
          lzma2.WaitsInVain(stream, b, data);
        }
      }
    }

    /** In the middle of a Block, with the sizes and the check up to here. */
    ghost predicate InBlock(s: seq<Byte>, here: int, check: Byte)
      reads this`header, this`start, this`compressed, this`uncompressed, f`crc
      reads bcj, bcj.buf, lzma2, lzma2.rc, lzma2.dict, lzma2.dict.buf, lzma2.probs, lzma2.temp
    {
      && Rested(s, here)
      && compressed == here - start && uncompressed == |Text()|
      && f.crc == (if check == 1 then Crc(Text(), 0) else 0)
    }

    /** dec_block */
    method DecBlock(b: XzBuf, check: Byte, ghost from: nat, ghost s: seq<Byte>, ghost delta: int, ghost dictMax: nat,
                    ghost blocks: Blocks, ghost target: Outcome)
      returns (ret: Ret)
      requires Shape() && InBlock(s, b.inPos + delta, check) && Given(s, b, from, delta) && b.Valid() && Apart(b.out)
      requires count == blocks.count && hash == blocks.hash
      requires Leads(s, dictMax, check, AtData(start, header, blocks), target)
      modifies this`compressed, this`uncompressed, this`count, this`hash, f`crc
      modifies lzma2, lzma2.rc, lzma2.probs, lzma2.temp
      modifies lzma2.dict`start, lzma2.dict`pos, lzma2.dict`full, lzma2.dict`limit, lzma2.dict`history, lzma2.dict.buf
      modifies bcj, bcj.buf, b, b.out
      ensures Shape() && b.out == old(b.out) && b.outSize == old(b.outSize) && b.input == old(b.input)
      ensures ret.XzOk? || ret.XzStreamEnd? || ret.XzDataError?
      ensures ret.XzDataError? ==> target.Invalid?
      ensures ret.XzOk? || ret.XzStreamEnd? ==>
                && b.Valid() && b.inPos >= old(b.inPos) && b.inPos + delta <= |s|
                && Appended(old(Text()), old(b.out[..b.outPos]), Text(), b.out[..b.outPos])
      ensures ret.XzOk? ==>
                && InBlock(s, b.inPos + delta, check) && count == blocks.count && hash == blocks.hash
                && (b.outPos == b.outSize || b.inPos == |b.input|)
                && (|b.input| + delta == |s| && target.Valid? ==>
                      b.outPos == b.outSize && |blocks.out| + |Text()| < |target.out|)
      ensures ret.XzStreamEnd? ==>
                var next := WithBlock(blocks, header, check, compressed, Text());
                && f.crc == (if check == 1 then Crc(Text(), 0) else 0)
                && count == next.count && hash == next.hash
                && Leads(s, dictMax, check, AtBlockPadding(compressed, b.inPos + delta, Text(), next), target)
    {
      hide BlockData, Rested, Leads, Crc, WithBlock;
      var inStart, outStart := b.inPos, b.outPos;
      ghost var text, before := Text(), b.out[..b.outPos];
      ret := RunData(b, from, s, delta);
      if ret.XzDataError? {
        NotEnded(s, dictMax, check, start, header, blocks, target);
        return;
      }
      AppendedPart(text, before, Text(), b.out[..b.outPos]);
      compressed := compressed + (b.inPos - inStart);
      uncompressed := uncompressed + (b.outPos - outStart);
      if compressed > header.compressed || uncompressed > header.uncompressed {
        TooBig(s, b.inPos + delta, dictMax, check, blocks, target, ret.XzStreamEnd?);
        return XzDataError;
      }
      if check == 1 {
        CrcJoin(text, b.out[outStart..b.outPos], 0);
        f.crc := Crc(b.out[outStart..b.outPos], f.crc);
      }
      if ret.XzStreamEnd? {
        ret := Finish(check, b.inPos + delta, s, dictMax, blocks, target);
      } else if |b.input| + delta == |s| {
        MoreText(s, dictMax, check, start, header, blocks, Text(), target);
      }
    }

    // The sizes and the hash at the end of the data.
    method Finish(check: Byte, ghost here: int, ghost s: seq<Byte>, ghost dictMax: nat, ghost blocks: Blocks,
                  ghost target: Outcome) returns (ret: Ret)
      requires Complete(s, here) && compressed == here - start && uncompressed == |Text()|
      requires compressed <= header.compressed && uncompressed <= header.uncompressed && here <= |s|
      requires count == blocks.count && hash == blocks.hash
      requires Leads(s, dictMax, check, AtData(start, header, blocks), target)
      modifies this`count, this`hash
      ensures ret.XzStreamEnd? || ret.XzDataError?
      ensures ret.XzDataError? ==> target.Invalid?
      ensures ret.XzStreamEnd? ==>
                var next := WithBlock(blocks, header, check, compressed, Text());
                && count == next.count && hash == next.hash
                && Leads(s, dictMax, check, AtBlockPadding(compressed, here, Text(), next), target)
    {
      hide BlockData, Leads, Filtered, Crc, HashBytes;
      DataEnds(s, dictMax, check, start, header, blocks, target);
      if header.compressed != VLI_UNKNOWN && header.compressed != compressed {
        return XzDataError;
      }
      if header.uncompressed != VLI_UNKNOWN && header.uncompressed != uncompressed {
        return XzDataError;
      }
      ghost var before := hash;
      hash := AddUnpadded(hash, header.size + compressed);
      if check == 1 {
        hash := AddUnpadded(hash, 4);
      }
      AddTwice(before, header.size + compressed, CheckSize(check));
      hash := AddUncompressed(hash, uncompressed);
      count := count + 1;
      ret := XzStreamEnd;
    }

    // Sizes beyond those of the Block Header, or beyond 64 bits.
    lemma TooBig(s: seq<Byte>, here: int, dictMax: nat, check: Byte, blocks: Blocks, target: Outcome, end: bool)
      requires if end then Complete(s, here) else Rested(s, here)
      requires compressed == here - start && uncompressed == |Text()|
      requires compressed > header.compressed || uncompressed > header.uncompressed
      requires Leads(s, dictMax, check, AtData(start, header, blocks), target)
      ensures target.Invalid?
    {
      hide BlockData, Leads, Idle, FilterIdle, Filter;
      var data := BlockData(s, start, header);
      DataEnds(s, dictMax, check, start, header, blocks, target);
      if !end {
        if header.bcj {
          FilterIdleConsumed(lzma2, bcj, s[start..], data, here - start, bcj.delivered);
        } else {
          IdleConsumed(lzma2, s[start..], data, here - start, lzma2.out);
          IdleBound(lzma2, s[start..], data, here - start, lzma2.out);
        }
      }
    }
  }

  lemma AddTwice(h: Hash, a: nat, b: nat)
    ensures AddUnpadded(AddUnpadded(h, a), b) == AddUnpadded(h, a + b)
  {
    SumWraps(h.unpadded + a, b);
  }

  /** The data of a Block and the sizes in its header decide. */
  lemma DataEnds(s: seq<Byte>, dictMax: nat, check: Byte, d: nat, h: BlockHeader, blocks: Blocks, target: Outcome)
    requires Leads(s, dictMax, check, AtData(d, h, blocks), target)
    ensures d <= |s| && h.props <= 39
    ensures var data := BlockData(s, d, h);
            var text := Filtered(h, data.out);
            if data.status != L.Ended || !(0 <= data.pos <= |s| - d) || !SizesAgree(h, data.pos, |text|) then
              target.Invalid?
            else
              var next := WithBlock(blocks, h, check, data.pos, text);
              Leads(s, dictMax, check, AtBlockPadding(data.pos, d + data.pos, text, next), target)
  {
    hide BlockData, Filtered, SizesAgree, FromBlocks, FromBlockPadding, FromCheck, DecodeFile, FromFooter, FromIndexCrc;
    hide FromIndexPadding, FromCount, FromRecord, FromSecond;
  }

  lemma NotEnded(s: seq<Byte>, dictMax: nat, check: Byte, d: nat, h: BlockHeader, blocks: Blocks, target: Outcome)
    requires Leads(s, dictMax, check, AtData(d, h, blocks), target)
    ensures d <= |s| && h.props <= 39
    ensures BlockData(s, d, h).status != L.Ended ==> target.Invalid?
  {
    hide BlockData, Leads;
    DataEnds(s, dictMax, check, d, h, blocks, target);
  }

  /** As long as text is missing from the Block, output is missing from the file. */
  lemma MoreText(s: seq<Byte>, dictMax: nat, check: Byte, d: nat, h: BlockHeader, blocks: Blocks, text: seq<Byte>,
                 target: Outcome)
    requires Leads(s, dictMax, check, AtData(d, h, blocks), target)
    ensures d <= |s| && h.props <= 39
    ensures target.Valid? ==> BlockData(s, d, h).status == L.Ended
    ensures |text| < |Filtered(h, BlockData(s, d, h).out)| && target.Valid? ==> |blocks.out| + |text| < |target.out|
  {
    hide BlockData, Filtered, FromBlocks, FromBlockPadding, FromCheck, DecodeFile, FromFooter, FromIndexCrc;
    hide FromIndexPadding, FromCount, FromRecord, FromSecond;
    DataGrows(s, dictMax, check, d, h, blocks);
  }

  lemma AppendedPart(d0: seq<Byte>, out0: seq<Byte>, d1: seq<Byte>, out1: seq<Byte>)
    requires Appended(d0, out0, d1, out1)
    ensures |out1| - |out0| == |d1| - |d0| && d0 <= d1 && d1 == d0 + out1[|out0|..]
  {
  }
}
