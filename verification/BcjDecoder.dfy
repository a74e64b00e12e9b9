/** struct xz_dec_bcj of src/xz/xz_dec_bcj.c with the ARM-Thumb filter, multi-call mode: xz_dec_bcj_run over
    xz_dec_lzma2_run, however the caller cuts the output. */
module BcjDecoder {
  import opened Basics
  import opened RangeCoder
  import opened Lzma2Reference
  import opened Lzma2Sync
  import opened XzBuffer
  import opened BcjFilter
  import opened Lzma2Decoder

  const BCJ_ARMTHUMB := 8

  /** The filtered bytes that no later byte can change any more. */
  function Sure(raw: seq<Byte>): (r: seq<Byte>)
    ensures |r| == Done(raw)
  {
    Filter(raw, 0, true)[..Done(raw)]
  }

  /** Filtering the unfiltered tail together with new bytes, at the position reached. */
  lemma TailResumes(raw: seq<Byte>, more: seq<Byte>)
    ensures var n, w := Done(raw), raw[Done(raw)..] + more;
            var f, d := Filter(w, n % U32, true), Done(w);
            && Done(raw + more) == n + d
            && Filter(raw + more, 0, true) == Sure(raw) + f
            && Sure(raw + more) == Sure(raw) + f[..d]
            && (raw + more)[n + d..] == f[d..]
  {
    hide Filter, Done;
    FilterResumes(raw, more, 0, true);
    PositionWraps(raw[Done(raw)..] + more, Done(raw), true);
    FilterKeepsTail(raw + more, 0, true);
    FilterKeepsTail(raw[Done(raw)..] + more, Done(raw) % U32, true);
  }

  /** What was delivered and what the carry-over buffer holds, for a given output of the LZMA2
      decoder: while there may be more, everything sure is delivered or waits as filtered, and the
      tail follows; at the end the tail counts as filtered. */
  ghost predicate Carries(ret: Ret, pos: int, kept: seq<Byte>, filtered: int, delivered: seq<Byte>, raw: seq<Byte>) {
    && 0 <= filtered <= |kept|
    && (ret.XzOk? || ret.XzStreamEnd?)
    && (ret.XzOk? ==>
          && delivered + kept[..filtered] == Sure(raw)
          && kept[filtered..] == raw[Done(raw)..]
          && pos == Done(raw) % U32)
    && (ret.XzStreamEnd? ==>
          filtered == |kept| && delivered + kept == Filter(raw, 0, true))
  }

  lemma CarriesLess(ret: Ret, pos: int, kept: seq<Byte>, filtered: int, delivered: seq<Byte>, raw: seq<Byte>, n: nat)
    requires Carries(ret, pos, kept, filtered, delivered, raw) && n <= filtered
    ensures Carries(ret, pos, kept[n..], filtered - n, delivered + kept[..n], raw)
  {
    hide Sure, Done, Filter;
    assert kept[..filtered] == kept[..n] + kept[n..][..filtered - n];
    assert kept == kept[..n] + kept[n..];
    assert kept[n..][filtered - n..] == kept[filtered..];
  }

  /** bcj_apply: the new bytes after the tail, filtered from the position reached on, in the output
      buffer or in the carry-over buffer, and with more to come or not. */
  lemma CarriesMore(pos: Word, tail: seq<Byte>, delivered: seq<Byte>, raw: seq<Byte>, more: seq<Byte>)
    requires Carries(XzOk, pos, tail, 0, delivered, raw)
    ensures var f, d := Filter(tail + more, pos, true), Done(tail + more);
            && Carries(XzOk, (pos + d) % U32, f[d..], 0, delivered + f[..d], raw + more)
            && Carries(XzOk, (pos + d) % U32, f, d, delivered, raw + more)
            && Carries(XzStreamEnd, (pos + d) % U32, f, |f|, delivered, raw + more)
            && delivered + f == Filter(raw + more, 0, true)
  {
    hide Filter, Done, Sure;
    assert tail[..0] == [] && tail[0..] == tail && delivered + [] == delivered;
    TailResumes(raw, more);
    var f, d := Filter(tail + more, pos, true), Done(tail + more);
    AddWraps(Done(raw), d);
    CarriesTail((pos + d) % U32, f, d, delivered, raw + more);
    assert f[..|f|] == f;
  }

  lemma AddWraps(n: int, d: int)
    ensures (n % U32 + d) % U32 == (n + d) % U32
  {
    assert n + d == U32 * (n / U32) + (n % U32 + d);
    SameResidue(n % U32 + d, n / U32);
  }

  lemma CarriesTail(pos: int, f: seq<Byte>, d: nat, delivered: seq<Byte>, raw: seq<Byte>)
    requires d <= |f| && pos == Done(raw) % U32
    requires Sure(raw) == delivered + f[..d] && f[d..] == raw[Done(raw)..]
    ensures Carries(XzOk, pos, f, d, delivered, raw)
    ensures Carries(XzOk, pos, f[d..], 0, delivered + f[..d], raw)
  {
    hide Filter, Done, Sure;
    assert f[d..][..0] == [] && f[d..][0..] == f[d..] && (delivered + f[..d]) + [] == delivered + f[..d];
  }

  /** At most three bytes wait unfiltered; what is delivered is never more than what was decoded. */
  lemma TailIsShort(ret: Ret, pos: int, kept: seq<Byte>, filtered: int, delivered: seq<Byte>, raw: seq<Byte>)
    requires Carries(ret, pos, kept, filtered, delivered, raw)
    ensures |kept| - filtered <= 3 && |delivered| + |kept| == |raw|
    ensures ret.XzOk? || ret.XzStreamEnd?
  {
  }

  /** What was delivered between two moments is what was appended to the output buffer. */
  ghost predicate Appended(d0: seq<Byte>, out0: seq<Byte>, d1: seq<Byte>, out1: seq<Byte>) {
    d0 <= d1 && out1 == out0 + d1[|d0|..]
  }

  lemma AppendedBytes(d: seq<Byte>, out: seq<Byte>, bytes: seq<Byte>)
    ensures Appended(d, out, d + bytes, out + bytes)
  {
  }

  lemma AppendedMore(d0: seq<Byte>, out0: seq<Byte>, d1: seq<Byte>, out1: seq<Byte>, d2: seq<Byte>, out2: seq<Byte>)
    requires Appended(d0, out0, d1, out1) && Appended(d1, out1, d2, out2)
    ensures Appended(d0, out0, d2, out2)
  {
    assert d2[|d0|..] == d1[|d0|..] + d2[|d1|..];
  }

  lemma WrittenParts(out0: seq<Byte>, buf0: seq<Byte>, pos0: int, out1: seq<Byte>, buf1: seq<Byte>, pos1: int)
    requires Written(out0, buf0, pos0, out1, buf1, pos1)
    ensures 0 <= pos0 <= pos1 <= |buf1| && pos0 <= |buf0| && |out0| <= |out1| && out0 <= out1
    ensures buf1[..pos0] == buf0[..pos0] && buf1[pos0..pos1] == out1[|out0|..]
  {
    assert buf1[..pos0] == buf1[..pos1][..pos0] && buf1[pos0..pos1] == buf1[..pos1][pos0..];
  }

  lemma SplitText(s: seq<Byte>, a: nat, m: nat, c: nat)
    requires a <= m <= c <= |s|
    ensures s[a..c][..m - a] == s[a..m] && s[a..c][m - a..] == s[m..c]
  {
  }

  class XzBcj {
    var ret: Ret
    var pos: Word
    var filtered: nat
    var size: nat
    const buf: array<Byte>

    /** Everything given to the caller since the last xz_dec_bcj_reset. */
    ghost var delivered: seq<Byte>

    constructor ()
      ensures fresh(buf) && buf.Length == 16
    {
      ret, pos, filtered, size, delivered := XzOk, 0, 0, 0, [];
      buf := new Byte[16](_ => 0);
    }

    /** xz_dec_bcj_reset */
    method Reset(id: nat) returns (r: Ret)
      requires buf.Length == 16
      modifies this
      ensures if id == BCJ_ARMTHUMB then r.XzOk? else r.XzOptionsError?
      ensures r.XzOk? ==> delivered == [] && ret.XzOk? && Holds([])
    {
      if id != BCJ_ARMTHUMB {
        return XzOptionsError;
      }
      ret, pos, filtered, size, delivered := XzOk, 0, 0, 0, [];
      r := XzOk;
    }

    ghost predicate Holds(raw: seq<Byte>)
      reads this, buf
    {
      && buf.Length == 16 && filtered <= size <= 16
      && Carries(ret, pos, buf[..size], filtered, delivered, raw)
    }

    /** bcj_flush */
    method Flush(b: XzBuf, ghost raw: seq<Byte>)
      requires Holds(raw) && b.Valid() && b.out != buf
      modifies this`filtered, this`size, this`delivered, buf, b`outPos, b.out
      ensures Holds(raw) && b.Valid()
      ensures filtered > 0 ==> b.outPos == b.outSize
      ensures Appended(old(delivered), old(b.out[..b.outPos]), delivered, b.out[..b.outPos])
      ensures size - filtered == old(size - filtered)
      ensures b.outPos - old(b.outPos) == old(filtered) - filtered
    {
      hide Carries;
      var copySize := if filtered < b.outSize - b.outPos then filtered else b.outSize - b.outPos;
      ghost var kept := buf[..size];
      CarriesLess(ret, pos, kept, filtered, delivered, raw, copySize);
      assert buf[..copySize] == kept[..copySize];
      b.Write(buf[..copySize]);
      ghost var text := b.out[..b.outPos];
      delivered := delivered + buf[..copySize];
      filtered, size := filtered - copySize, size - copySize;
      MemCpy(buf, 0, buf[copySize..copySize + size]);
      assert buf[..size] == kept[copySize..];
      assert b.out[..b.outPos] == text;
      AppendedBytes(old(delivered), old(b.out[..b.outPos]), kept[..copySize]);
    }

    /** The buffers are distinct. */
    ghost predicate Apart(dec: Lzma2Dec, out: array<Byte>)
      reads dec.dict
    {
      && out != buf && (dec.probs as object) != out && (dec.probs as object) != buf
      && out != dec.temp && out != dec.dict.buf && buf != dec.temp && buf != dec.dict.buf
    }

    /** The LZMA2 decoder waits: for input, or, where all input was given and the stream has an end, for
        room for output that is sure to come. back bytes of the output were taken back. */
    ghost predicate Paused(dec: Lzma2Dec, stream: seq<Byte>, b: XzBuf, target: Outcome, back: int)
      reads dec, b
    {
      && (b.outPos + back == b.outSize || b.inPos == |b.input|)
      && (dec.Consumed() + (|b.input| - b.inPos) == |stream| && target.status == Ended ==>
            b.outPos + back == b.outSize && |dec.out| < |target.out|)
    }

    lemma PausedNow(dec: Lzma2Dec, stream: seq<Byte>, b: XzBuf, target: Outcome)
      requires dec.Between(stream, b, target) && dec.Ready() && dec.Waits(b)
      ensures Paused(dec, stream, b, target, 0)
    {
      hide Inv, Decodes, Lzma2Dec.Valid;
      if dec.Consumed() + (|b.input| - b.inPos) == |stream| {
        dec.WaitsInVain(stream, b, target);
      }
    }

    // The call of xz_dec_lzma2_run, to an output position that the caller chooses.
    method Decode(dec: Lzma2Dec, b: XzBuf, ghost stream: seq<Byte>, ghost target: Outcome)
      requires dec.Between(stream, b, target) && dec.Ready()
      modifies dec, dec.rc, dec.probs, dec.temp
      modifies dec.dict`start, dec.dict`pos, dec.dict`full, dec.dict`limit, dec.dict`history, dec.dict.buf
      modifies b`inPos, b`outPos, b.out, this`ret
      ensures ret.XzOk? || ret.XzStreamEnd? || ret.XzDataError?
      ensures dec.dict.buf == old(dec.dict.buf)
      ensures ret.XzOk? ==> dec.Between(stream, b, target) && dec.Ready() && dec.Waits(b)
      ensures ret.XzOk? || ret.XzStreamEnd? ==>
                && b.Valid() && b.inPos >= old(b.inPos) && dec.Consumed() - b.inPos == old(dec.Consumed() - b.inPos)
                && old(dec.out) <= dec.out && b.outPos >= old(b.outPos)
                && b.out[..old(b.outPos)] == old(b.out[..b.outPos])
                && b.out[old(b.outPos)..b.outPos] == dec.out[|old(dec.out)|..]
      ensures ret.XzStreamEnd? ==> target == Outcome(Ended, dec.out, dec.Consumed())
      ensures ret.XzDataError? ==> target.status.Corrupt?
    {
      hide Inv, Decodes;
      ghost var before := b.out[..];
      ret := dec.Run(b, stream, target);
      if !ret.XzDataError? {
        WrittenParts(old(dec.out), before, old(b.outPos), dec.out, b.out[..], b.outPos);
      }
    }

    // The memcpy of the tail to the output, and the call after it.
    method DecodeAfterTail(dec: Lzma2Dec, b: XzBuf, ghost stream: seq<Byte>, ghost target: Outcome)
      requires dec.Between(stream, b, target) && dec.Ready() && b.Valid() && Apart(dec, b.out)
      requires buf.Length == 16 && size <= 16 && size <= b.outSize - b.outPos
      modifies dec, dec.rc, dec.probs, dec.temp
      modifies dec.dict`start, dec.dict`pos, dec.dict`full, dec.dict`limit, dec.dict`history, dec.dict.buf
      modifies b`inPos, b`outPos, b.out, this`ret
      ensures dec.dict.buf == old(dec.dict.buf)
      ensures ret.XzOk? || ret.XzStreamEnd? || ret.XzDataError?
      ensures ret.XzOk? ==> dec.Between(stream, b, target) && dec.Ready() && dec.Waits(b)
      ensures ret.XzOk? || ret.XzStreamEnd? ==>
                && b.Valid() && b.inPos >= old(b.inPos) && dec.Consumed() - b.inPos == old(dec.Consumed() - b.inPos)
                && old(dec.out) <= dec.out && b.outPos >= old(b.outPos)
                && b.out[..old(b.outPos)] == old(b.out[..b.outPos])
                && b.out[old(b.outPos)..b.outPos] == buf[..size] + dec.out[|old(dec.out)|..]
      ensures ret.XzStreamEnd? ==> target == Outcome(Ended, dec.out, dec.Consumed())
      ensures ret.XzDataError? ==> target.status.Corrupt?
    {
      hide Inv, Decodes, Lzma2Dec.Valid;
      ghost var kept, start, front := buf[..size], b.outPos, b.out[..b.outPos];
      b.Write(buf[..size]);
      assert b.out[start..b.outPos] == kept;
      ghost var middle := b.outPos;
      Decode(dec, b, stream, target);
      if !ret.XzDataError? {
        assert b.out[..start] == b.out[..middle][..start];
        assert b.out[start..b.outPos] == b.out[..middle][start..] + b.out[middle..b.outPos];
      }
    }

    /** The first part of xz_dec_bcj_run: decode and filter in the output buffer, and take the tail back. */
    method Direct(dec: Lzma2Dec, b: XzBuf, ghost stream: seq<Byte>, ghost target: Outcome)
      requires dec.Between(stream, b, target) && dec.Ready() && b.Valid() && Apart(dec, b.out)
      requires Holds(dec.out) && filtered == 0 && ret.XzOk? && size <= b.outSize - b.outPos
      modifies dec, dec.rc, dec.probs, dec.temp
      modifies dec.dict`start, dec.dict`pos, dec.dict`full, dec.dict`limit, dec.dict`history, dec.dict.buf
      modifies b`inPos, b`outPos, b.out
      modifies this`ret, this`pos, this`size, this`delivered, buf
      ensures dec.dict.buf == old(dec.dict.buf)
      ensures ret.XzOk? || ret.XzStreamEnd? || ret.XzDataError?
      ensures ret.XzDataError? ==> target.status.Corrupt?
      ensures ret.XzOk? || ret.XzStreamEnd? ==>
                && b.Valid() && b.inPos >= old(b.inPos) && dec.Consumed() - b.inPos == old(dec.Consumed() - b.inPos)
                && Appended(old(delivered), old(b.out[..b.outPos]), delivered, b.out[..b.outPos])
      ensures ret.XzStreamEnd? ==>
                target == Outcome(Ended, dec.out, dec.Consumed()) && delivered == Filter(dec.out, 0, true)
      ensures ret.XzOk? ==> dec.Between(stream, b, target) && dec.Ready() && Holds(dec.out)
      ensures ret.XzOk? ==> b.outPos + size <= b.outSize && Paused(dec, stream, b, target, size)
    {
      hide Inv, Decodes, Lzma2Dec.Between, Filter, Done, Carries, Appended;
      ghost var raw, tail := dec.out, buf[..size];
      ghost var front := b.out[..b.outPos];
      var outStart := b.outPos;
      DecodeAfterTail(dec, b, stream, target);
      if ret.XzDataError? {
        return;
      }
      ghost var more := dec.out[|raw|..];
      assert raw + more == dec.out;
      CarriesMore(pos, tail, delivered, raw, more);
      if ret.XzOk? {
        PausedNow(dec, stream, b, target);
      }
      ApplyDirect(dec, b, outStart, front, stream, target);
    }

    // bcj_apply in the output buffer.
    method ApplyDirect(dec: Lzma2Dec, b: XzBuf, outStart: nat, ghost front: seq<Byte>, ghost stream: seq<Byte>,
                       ghost target: Outcome)
      requires outStart <= b.outPos && b.Valid() && b.out[..outStart] == front
      requires ret.XzOk? ==> dec.Between(stream, b, target)
      requires Apart(dec, b.out) && 16 == buf.Length
      modifies this`pos, this`size, this`delivered, buf, b`outPos, b.out
      ensures b.Valid() && (ret.XzOk? ==> dec.Between(stream, b, target))
      ensures var w := old(b.out[outStart..b.outPos]);
              var f, d := Filter(w, old(pos), true), Done(w);
              && Appended(old(delivered), front, delivered, b.out[..b.outPos])
              && (if ret.XzStreamEnd? then
                   b.outPos == old(b.outPos) && delivered == old(delivered) + f
                 else
                   && b.outPos + size == old(b.outPos) && size == |f| - d <= 16
                   && delivered == old(delivered) + f[..d]
                   && buf[..size] == f[d..]
                   && pos == (old(pos) + d) % U32)
    {
      hide Filter, Done, Appended, Lzma2Dec.Between;
      var n := ArmThumb(b.out, outStart, b.outPos, pos);
      assert b.out[..outStart] == front;
      ghost var f := b.out[outStart..b.outPos];
      SplitText(b.out[..], outStart, outStart + n, b.outPos);
      TakeBack(dec, b, outStart, n, front, stream, target);
    }

    // After bcj_apply: delivers what is filtered.
    method TakeBack(dec: Lzma2Dec, b: XzBuf, outStart: nat, n: nat, ghost front: seq<Byte>, ghost stream: seq<Byte>,
                    ghost target: Outcome)
      requires outStart + n <= b.outPos && b.Valid() && b.out[..outStart] == front
      requires ret.XzOk? ==> dec.Between(stream, b, target)
      requires Apart(dec, b.out) && b.outPos - outStart - n <= 16 == buf.Length
      modifies this`pos, this`size, this`delivered, buf, b`outPos
      ensures b.Valid() && (ret.XzOk? ==> dec.Between(stream, b, target))
      ensures var end := old(if ret.XzStreamEnd? then b.outPos else outStart + n);
              && b.outPos == end
              && delivered == old(delivered) + old(b.out[outStart..end])
              && Appended(old(delivered), front, delivered, b.out[..end])
              && (!ret.XzStreamEnd? ==>
                   && pos == (old(pos) + n) % U32
                   && size == old(b.outPos) - end
                   && buf[..size] == old(b.out[end..b.outPos]))
    {
      hide Lzma2Dec.Between;
      var start := outStart + n;
      pos := (pos + n) % U32;
      ghost var end := if ret.XzStreamEnd? then b.outPos else start;
      AppendedBytes(delivered, front, b.out[outStart..end]);
      assert b.out[..end] == front + b.out[outStart..end];
      delivered := delivered + b.out[outStart..end];
      if !ret.XzStreamEnd? {
        KeepTail(dec, b, start, stream, target);
      }
    }

    // What is not filtered goes back to the carry-over buffer.
    method KeepTail(dec: Lzma2Dec, b: XzBuf, start: nat, ghost stream: seq<Byte>, ghost target: Outcome)
      requires start <= b.outPos <= start + 16 && b.Valid() && buf.Length == 16
      requires ret.XzOk? ==> dec.Between(stream, b, target)
      requires Apart(dec, b.out)
      modifies this`size, buf, b`outPos
      ensures b.Valid() && (ret.XzOk? ==> dec.Between(stream, b, target))
      ensures b.outPos == start && size == old(b.outPos) - start && buf[..size] == old(b.out[start..b.outPos])
    {
      hide Inv, Decodes, Lzma2Dec.Valid;
      size := b.outPos - start;
      b.outPos := b.outPos - size;
      MemCpy(buf, 0, b.out[b.outPos..b.outPos + size]);
    }

    /** The second part of xz_dec_bcj_run: the output is nearly full, so decode and filter in the
        carry-over buffer and deliver what fits. */
    method ThroughTemp(dec: Lzma2Dec, b: XzBuf, ghost stream: seq<Byte>, ghost target: Outcome)
      requires dec.Between(stream, b, target) && dec.Ready() && b.Valid() && Apart(dec, b.out)
      requires Holds(dec.out) && filtered == 0 && ret.XzOk? && 0 < b.outSize - b.outPos <= size
      modifies dec, dec.rc, dec.probs, dec.temp
      modifies dec.dict`start, dec.dict`pos, dec.dict`full, dec.dict`limit, dec.dict`history, dec.dict.buf
      modifies b, b.out
      modifies this`ret, this`pos, this`size, this`filtered, this`delivered, buf
      ensures dec.dict.buf == old(dec.dict.buf) && b.out == old(b.out) && b.outSize == old(b.outSize)
      ensures b.input == old(b.input)
      ensures ret.XzOk? || ret.XzStreamEnd? || ret.XzDataError?
      ensures ret.XzDataError? ==> target.status.Corrupt?
      ensures ret.XzOk? || ret.XzStreamEnd? ==>
                && b.Valid() && b.inPos >= old(b.inPos) && dec.Consumed() - b.inPos == old(dec.Consumed() - b.inPos)
                && Appended(old(delivered), old(b.out[..b.outPos]), delivered, b.out[..b.outPos])
                && Holds(dec.out)
                && (filtered > 0 ==> b.outPos == b.outSize)
      ensures ret.XzStreamEnd? ==> target == Outcome(Ended, dec.out, dec.Consumed())
      ensures ret.XzOk? ==> dec.Between(stream, b, target) && dec.Ready() && Paused(dec, stream, b, target, 0)
    {
      hide Inv, Decodes, Lzma2Dec.Valid, Filter, Done, Carries, Appended;
      TailIsShort(ret, pos, buf[..size], filtered, delivered, dec.out);
      ghost var front := b.out[..b.outPos];
      DecodeToTemp(dec, b, stream, target);
      if ret.XzDataError? {
        return;
      }
      assert b.out[..b.outPos] == front;
      TailIsShort(ret, pos, buf[..size], filtered, delivered, dec.out);
      Flush(b, dec.out);
    }

    // The call of xz_dec_lzma2_run with the carry-over buffer as output, and bcj_apply after it.
    method DecodeToTemp(dec: Lzma2Dec, b: XzBuf, ghost stream: seq<Byte>, ghost target: Outcome)
      requires dec.Between(stream, b, target) && dec.Ready() && b.Valid() && Apart(dec, b.out)
      requires Holds(dec.out) && filtered == 0 && ret.XzOk?
      modifies dec, dec.rc, dec.probs, dec.temp
      modifies dec.dict`start, dec.dict`pos, dec.dict`full, dec.dict`limit, dec.dict`history, dec.dict.buf
      modifies b
      modifies this`ret, this`pos, this`size, this`filtered, buf
      ensures dec.dict.buf == old(dec.dict.buf) && b.out == old(b.out) && b.outPos == old(b.outPos)
      ensures b.outSize == old(b.outSize)
      ensures b.input == old(b.input)
      ensures ret.XzOk? || ret.XzStreamEnd? || ret.XzDataError?
      ensures ret.XzDataError? ==> target.status.Corrupt?
      ensures ret.XzOk? || ret.XzStreamEnd? ==>
                && b.Valid() && b.inPos >= old(b.inPos) && dec.Consumed() - b.inPos == old(dec.Consumed() - b.inPos)
                && Holds(dec.out)
      ensures ret.XzStreamEnd? ==> target == Outcome(Ended, dec.out, dec.Consumed())
      ensures ret.XzOk? ==> dec.Between(stream, b, target) && dec.Ready()
      ensures ret.XzOk? ==>
                && (size == 16 || b.inPos == |b.input|)
                && (dec.Consumed() + (|b.input| - b.inPos) == |stream| && target.status == Ended ==>
                      size == 16 && |dec.out| < |target.out|)
    {
      hide Inv, Decodes, Lzma2Dec.Valid, Lzma2Dec.Between, Filter, Done, Carries;
      ghost var raw, tail := dec.out, buf[..size];
      DecodeSwapped(dec, b, stream, target);
      if ret.XzDataError? {
        return;
      }
      ghost var more := dec.out[|raw|..];
      assert raw + more == dec.out;
      CarriesMore(pos, tail, delivered, raw, more);
      ApplyTemp(dec, b, stream, target);
    }

    // xz_dec_lzma2_run while b->out and its positions stand for the carry-over buffer.
    method DecodeSwapped(dec: Lzma2Dec, b: XzBuf, ghost stream: seq<Byte>, ghost target: Outcome)
      requires dec.Between(stream, b, target) && dec.Ready() && b.Valid() && Apart(dec, b.out)
      requires buf.Length == 16 && size <= 16
      modifies dec, dec.rc, dec.probs, dec.temp
      modifies dec.dict`start, dec.dict`pos, dec.dict`full, dec.dict`limit, dec.dict`history, dec.dict.buf
      modifies b, this`ret, this`size, buf
      ensures dec.dict.buf == old(dec.dict.buf) && b.out == old(b.out) && b.outPos == old(b.outPos)
      ensures b.outSize == old(b.outSize)
      ensures b.input == old(b.input)
      ensures ret.XzOk? || ret.XzStreamEnd? || ret.XzDataError?
      ensures ret.XzDataError? ==> target.status.Corrupt?
      ensures ret.XzOk? || ret.XzStreamEnd? ==>
                && b.Valid() && b.inPos >= old(b.inPos) && dec.Consumed() - b.inPos == old(dec.Consumed() - b.inPos)
                && old(dec.out) <= dec.out && size <= 16
                && buf[..size] == old(buf[..size]) + dec.out[|old(dec.out)|..]
      ensures ret.XzStreamEnd? ==> target == Outcome(Ended, dec.out, dec.Consumed())
      ensures ret.XzOk? ==> dec.Between(stream, b, target) && dec.Ready()
      ensures ret.XzOk? ==>
                && (size == 16 || b.inPos == |b.input|)
                && (dec.Consumed() + (|b.input| - b.inPos) == |stream| && target.status == Ended ==>
                      size == 16 && |dec.out| < |target.out|)
    {
      hide Lzma2Dec.Between;
      ghost var tail := buf[..size];
      var out, outPos, outSize := b.out, b.outPos, b.outSize;
      Redirect(dec, b, buf, size, 16, stream, target);
      Decode(dec, b, stream, target);
      if ret.XzOk? {
        PausedNow(dec, stream, b, target);
      }
      if !ret.XzDataError? {
        assert buf[..b.outPos] == tail + buf[|tail|..b.outPos];
      }
      size := b.outPos;
      Redirect(dec, b, out, outPos, outSize, stream, target);
    }

    // Another output buffer.
    method Redirect(dec: Lzma2Dec, b: XzBuf, out: array<Byte>, outPos: nat, outSize: nat, ghost stream: seq<Byte>,
                    ghost target: Outcome)
      requires outPos <= outSize <= out.Length
      requires out != dec.dict.buf && out != dec.temp && (dec.probs as object) != out
      modifies b`out, b`outPos, b`outSize
      ensures b.out == out && b.outPos == outPos && b.outSize == outSize
      ensures old(dec.Between(stream, b, target)) ==> dec.Between(stream, b, target)
    {
      hide Inv, Decodes, Lzma2Dec.Valid;
      b.out, b.outPos, b.outSize := out, outPos, outSize;
    }

    // bcj_apply in the carry-over buffer.
    method ApplyTemp(ghost dec: Lzma2Dec, ghost b: XzBuf, ghost stream: seq<Byte>, ghost target: Outcome)
      requires Apart(dec, b.out) && (ret.XzOk? ==> dec.Between(stream, b, target))
      requires buf.Length == 16 && size <= 16 && filtered == 0
      modifies this`pos, this`filtered, buf
      ensures ret.XzOk? ==> dec.Between(stream, b, target)
      ensures var w := old(buf[..size]);
              && buf[..size] == Filter(w, old(pos), true)
              && filtered == (if ret.XzStreamEnd? then size else Done(w))
              && pos == (old(pos) + Done(w)) % U32
    {
      hide Filter, Done, Lzma2Dec.Between;
      assert buf[0..size] == buf[..size];
      var n := ArmThumb(buf, 0, size, pos);
      filtered := n;
      pos := (pos + n) % U32;
      if ret.XzStreamEnd? {
        filtered := size;
      }
    }

    // ---------- xz_dec_bcj_run ----------

    /** Between two calls. If the LZMA2 decoder has ended, filtered bytes are still waiting. */
    ghost predicate Resumable(dec: Lzma2Dec, b: XzBuf, stream: seq<Byte>, target: Outcome)
      reads this, buf, dec, dec.rc, dec.dict, dec.dict.buf, dec.probs, dec.temp, b
    {
      && Holds(dec.out) && b.Valid() && Apart(dec, b.out)
      && (ret.XzOk? ==> dec.Between(stream, b, target) && dec.Ready())
      && (ret.XzStreamEnd? ==> filtered > 0 && target == Outcome(Ended, dec.out, dec.Consumed()))
    }

    /** After a call that returns XZ_OK: it waits for input or room, and if there is no input to wait for
        and the stream has an end, more output is sure to come. */
    ghost predicate Waiting(dec: Lzma2Dec, b: XzBuf, stream: seq<Byte>, target: Outcome)
      reads this, dec, b
    {
      && (b.outPos == b.outSize || b.inPos == |b.input|)
      && (dec.Consumed() + (|b.input| - b.inPos) == |stream| && target.status == Ended ==>
            b.outPos == b.outSize && |delivered| < |target.out|)
    }

    lemma WaitingNow(dec: Lzma2Dec, b: XzBuf, stream: seq<Byte>, target: Outcome)
      requires Resumable(dec, b, stream, target)
      requires (size > 0 && b.outPos == b.outSize) || (ret.XzOk? && Paused(dec, stream, b, target, 0))
      ensures Waiting(dec, b, stream, target)
    {
      hide Inv, Lzma2Reference.Decode, Lzma2Dec.Valid, Carries;
      TailIsShort(ret, pos, buf[..size], filtered, delivered, dec.out);
      if ret.XzOk? {
        DecodeExtends(stream, dec.Abs());
      }
    }

    // The flush at the beginning.
    method FlushFirst(dec: Lzma2Dec, b: XzBuf, ghost stream: seq<Byte>, ghost target: Outcome)
      requires Resumable(dec, b, stream, target)
      modifies this`filtered, this`size, this`delivered, buf, b`outPos, b.out
      ensures Holds(dec.out) && b.Valid() && Apart(dec, b.out) && (ret.XzOk? || ret.XzStreamEnd?)
      ensures ret.XzOk? ==> dec.Between(stream, b, target) && dec.Ready()
      ensures ret.XzStreamEnd? ==> target == Outcome(Ended, dec.out, dec.Consumed())
      ensures filtered > 0 ==> b.outPos == b.outSize
      ensures Appended(old(delivered), old(b.out[..b.outPos]), delivered, b.out[..b.outPos])
    {
      hide Inv, Decodes, Lzma2Dec.Valid, Carries, Appended;
      TailIsShort(ret, pos, buf[..size], filtered, delivered, dec.out);
      Flush(b, dec.out);
    }

    /** xz_dec_bcj_run. What it has delivered at any time is the beginning, and at XZ_STREAM_END the
        whole, of the filter applied once to the whole LZMA2 output. */
    method Run(dec: Lzma2Dec, b: XzBuf, ghost stream: seq<Byte>, ghost target: Outcome) returns (r: Ret)
      requires Resumable(dec, b, stream, target)
      modifies dec, dec.rc, dec.probs, dec.temp
      modifies dec.dict`start, dec.dict`pos, dec.dict`full, dec.dict`limit, dec.dict`history, dec.dict.buf
      modifies b, b.out
      modifies this`ret, this`pos, this`size, this`filtered, this`delivered, buf
      ensures dec.dict.buf == old(dec.dict.buf) && b.out == old(b.out) && b.outSize == old(b.outSize)
      ensures b.input == old(b.input)
      ensures r.XzOk? || r.XzStreamEnd? || r.XzDataError?
      ensures r.XzOk? ==> Resumable(dec, b, stream, target) && Waiting(dec, b, stream, target)
      ensures r.XzOk? || r.XzStreamEnd? ==>
                && b.Valid() && b.inPos >= old(b.inPos) && dec.Consumed() - b.inPos == old(dec.Consumed() - b.inPos)
                && Appended(old(delivered), old(b.out[..b.outPos]), delivered, b.out[..b.outPos])
      ensures r.XzStreamEnd? ==>
                target == Outcome(Ended, dec.out, dec.Consumed()) && delivered == Filter(target.out, 0, true)
      ensures r.XzDataError? ==> target.status.Corrupt?
    {
      hide Inv, Decodes, Lzma2Dec.Between, Carries, Appended, Filter;
      TailIsShort(ret, pos, buf[..size], filtered, delivered, dec.out);
      if filtered > 0 {
        FlushFirst(dec, b, stream, target);
        if filtered > 0 {
          WaitingNow(dec, b, stream, target);
          return XzOk;
        }
        if ret.XzStreamEnd? {
          AllDelivered(dec.out);
          return XzStreamEnd;
        }
      } else {
        AppendedNothing(b);
      }
      r := Refill(dec, b, stream, target, old(delivered), old(b.out[..b.outPos]));
    }

    lemma AllDelivered(raw: seq<Byte>)
      requires Holds(raw) && ret.XzStreamEnd? && filtered == 0
      ensures delivered == Filter(raw, 0, true)
    {
      hide Filter;
    }

    lemma AppendedNothing(b: XzBuf)
      requires b.Valid()
      ensures Appended(delivered, b.out[..b.outPos], delivered, b.out[..b.outPos])
    {
      AppendedBytes(delivered, b.out[..b.outPos], []);
      assert delivered + [] == delivered && b.out[..b.outPos] + [] == b.out[..b.outPos];
    }

    // xz_dec_bcj_run with nothing filtered left in the carry-over buffer.
    method Refill(dec: Lzma2Dec, b: XzBuf, ghost stream: seq<Byte>, ghost target: Outcome, ghost d0: seq<Byte>,
                  ghost out0: seq<Byte>)
      returns (r: Ret)
      requires Holds(dec.out) && b.Valid() && Apart(dec, b.out) && dec.Between(stream, b, target) && dec.Ready()
      requires filtered == 0 && ret.XzOk?
      requires Appended(d0, out0, delivered, b.out[..b.outPos])
      modifies dec, dec.rc, dec.probs, dec.temp
      modifies dec.dict`start, dec.dict`pos, dec.dict`full, dec.dict`limit, dec.dict`history, dec.dict.buf
      modifies b, b.out
      modifies this`ret, this`pos, this`size, this`filtered, this`delivered, buf
      ensures dec.dict.buf == old(dec.dict.buf) && b.out == old(b.out) && b.outSize == old(b.outSize)
      ensures b.input == old(b.input)
      ensures r.XzOk? || r.XzStreamEnd? || r.XzDataError?
      ensures r.XzOk? ==> Resumable(dec, b, stream, target) && Waiting(dec, b, stream, target)
      ensures r.XzOk? || r.XzStreamEnd? ==>
                && b.Valid() && b.inPos >= old(b.inPos) && dec.Consumed() - b.inPos == old(dec.Consumed() - b.inPos)
                && Appended(d0, out0, delivered, b.out[..b.outPos])
      ensures r.XzStreamEnd? ==>
                target == Outcome(Ended, dec.out, dec.Consumed()) && delivered == Filter(target.out, 0, true)
      ensures r.XzDataError? ==> target.status.Corrupt?
    {
      hide Inv, Decodes, Lzma2Dec.Between, Carries, Appended, Filter;
      ghost var d1, out1 := delivered, b.out[..b.outPos];
      if size < b.outSize - b.outPos || size == 0 {
        Direct(dec, b, stream, target);
        if ret.XzDataError? {
          return ret;
        }
        AppendedMore(d0, out0, d1, out1, delivered, b.out[..b.outPos]);
        if ret.XzStreamEnd? {
          return ret;
        }
        if b.outPos + size < b.outSize {
          WaitingNow(dec, b, stream, target);
          return XzOk;
        }
      }
      if b.outPos < b.outSize {
        d1, out1 := delivered, b.out[..b.outPos];
        ThroughTemp(dec, b, stream, target);
        if ret.XzDataError? {
          return ret;
        }
        AppendedMore(d0, out0, d1, out1, delivered, b.out[..b.outPos]);
        if filtered > 0 {
          WaitingNow(dec, b, stream, target);
          return XzOk;
        }
        if ret.XzStreamEnd? {
          AllDelivered(dec.out);
          return ret;
        }
      }
      WaitingNow(dec, b, stream, target);
      r := ret;
    }
  }
}
