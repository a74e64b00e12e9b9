/** Slicing independence of the branch filter: callers of xz_dec_bcj_run that cut input and output in every way. */
module BcjSlicing {
  import opened Basics
  import opened Lzma2Reference
  import opened Lzma2Sync
  import opened XzBuffer
  import opened BcjFilter
  import opened BcjDecoder
  import opened Lzma2Decoder
  import opened Slicing

  /** The two decoders between two calls. */
  ghost predicate FilterIdle(dec: Lzma2Dec, bcj: XzBcj, stream: seq<Byte>, target: Outcome, used: int,
                             produced: seq<Byte>)
    reads bcj, bcj.buf, dec, dec.rc, dec.dict, dec.dict.buf, dec.probs, dec.temp
  {
    && bcj.Holds(dec.out) && bcj.delivered == produced
    && (dec.probs as object) != bcj.buf && bcj.buf != dec.temp && bcj.buf != dec.dict.buf
    && dec.Consumed() == used <= |stream|
    && (bcj.ret.XzOk? ==> Idle(dec, stream, target, used, dec.out))
    && (bcj.ret.XzStreamEnd? ==> bcj.filtered > 0 && target == Outcome(Ended, dec.out, used))
  }

  /** What was delivered is the beginning of the filtered output. */
  lemma FilterIdleBound(dec: Lzma2Dec, bcj: XzBcj, stream: seq<Byte>, target: Outcome, used: int, produced: seq<Byte>)
    requires FilterIdle(dec, bcj, stream, target, used, produced)
    ensures produced <= Filter(target.out, 0, true) && used <= |stream|
  {
    hide Filter, Done, Idle;
    var raw := dec.out;
    if bcj.ret.XzOk? {
      IdleBound(dec, stream, target, used, raw);
      FilterResumes(raw, target.out[|raw|..], 0, true);
      assert raw + target.out[|raw|..] == target.out;
      assert produced + bcj.buf[..bcj.size][..bcj.filtered] == Sure(raw);
    }
  }

  /** The two decoders between calls and the buffers of a call. */
  lemma FilterAttached(dec: Lzma2Dec, bcj: XzBcj, b: XzBuf, stream: seq<Byte>, target: Outcome, used: int,
                       produced: seq<Byte>)
    requires FilterIdle(dec, bcj, stream, target, used, produced) && b.Valid() && bcj.Apart(dec, b.out)
    requires used + (|b.input| - b.inPos) <= |stream|
    requires forall i :: b.inPos <= i < |b.input| ==> b.input[i] == stream[i + (used - b.inPos)]
    ensures bcj.Resumable(dec, b, stream, target)
  {
    hide Idle, Lzma2Dec.Between, Carries;
    if bcj.ret.XzOk? {
      IdleReady(dec, stream, target, used, dec.out);
      Attached(dec, b, stream, target, used, dec.out);
    }
  }

  lemma IdleReady(dec: Lzma2Dec, stream: seq<Byte>, target: Outcome, used: int, produced: seq<Byte>)
    requires Idle(dec, stream, target, used, produced)
    ensures dec.Ready() && dec.Consumed() == used <= |stream| && dec.out == produced
  {
  }

  lemma FilterDetached(dec: Lzma2Dec, bcj: XzBcj, b: XzBuf, stream: seq<Byte>, target: Outcome)
    requires bcj.Resumable(dec, b, stream, target) && dec.Consumed() <= |stream|
    ensures FilterIdle(dec, bcj, stream, target, dec.Consumed(), bcj.delivered)
  {
    hide Idle, Lzma2Dec.Between, Carries;
    if bcj.ret.XzOk? {
      Detached(dec, b, stream, target);
    }
  }

  /** What was taken is not behind the end of the stream. */
  lemma FilterIdleConsumed(dec: Lzma2Dec, bcj: XzBcj, stream: seq<Byte>, target: Outcome, used: int,
                           produced: seq<Byte>)
    requires FilterIdle(dec, bcj, stream, target, used, produced)
    ensures target.status == Ended ==> used <= target.pos <= |stream|
    ensures target.status == Ended ==> |produced| <= |target.out|
  {
    hide Idle;
    TailIsShort(bcj.ret, bcj.pos, bcj.buf[..bcj.size], bcj.filtered, bcj.delivered, dec.out);
    if bcj.ret.XzOk? {
      IdleConsumed(dec, stream, target, used, dec.out);
      IdleBound(dec, stream, target, used, dec.out);
    }
  }

  // The buffers of one call.
  method Give(dec: Lzma2Dec, bcj: XzBcj, stream: seq<Byte>, used: nat, give: nat, room: nat, ghost target: Outcome,
              ghost produced: seq<Byte>)
    returns (b: XzBuf)
    requires FilterIdle(dec, bcj, stream, target, used, produced)
    ensures fresh(b) && fresh(b.out) && bcj.Resumable(dec, b, stream, target)
    ensures var n := if give <= |stream| - used then give else |stream| - used;
            b.input == stream[used..used + n] && b.inPos == 0 && b.outPos == 0 && b.outSize == room
  {
    hide Inv, Decodes, Carries, Lzma2Dec.Valid;
    var n := if give <= |stream| - used then give else |stream| - used;
    var buffer := new Byte[room](_ => 0);
    b := new XzBuf(stream[used..used + n], buffer);
  }

  /** One call of xz_dec_bcj_run, with give more bytes of the stream at most. */
  method FilterCall(dec: Lzma2Dec, bcj: XzBcj, stream: seq<Byte>, used: nat, give: nat, room: nat,
                    ghost target: Outcome, ghost produced: seq<Byte>)
    returns (ret: Ret, text: seq<Byte>, taken: nat)
    requires FilterIdle(dec, bcj, stream, target, used, produced)
    modifies dec, dec.rc, dec.probs, dec.temp, dec.dict, dec.dict.buf, bcj, bcj.buf
    ensures dec.dict.buf == old(dec.dict.buf)
    ensures ret.XzOk? || ret.XzStreamEnd? || ret.XzDataError?
    ensures ret.XzDataError? ==> target.status.Corrupt?
    ensures ret.XzOk? ==> FilterIdle(dec, bcj, stream, target, used + taken, produced + text)
    ensures ret.XzStreamEnd? ==>
              target.status == Ended && target.pos == used + taken && produced + text == Filter(target.out, 0, true)
    ensures ret.XzOk? ==> taken <= give && |text| <= room
    ensures ret.XzOk? ==> |text| == room || taken == give || used + taken == |stream|
    ensures ret.XzOk? && used + give >= |stream| && target.status == Ended ==>
              |text| == room && |produced| + |text| < |target.out|
  {
    hide Inv, Lzma2Reference.Decode, Decodes, Step, Filter, Carries, Lzma2Dec.Valid;
    var b := Give(dec, bcj, stream, used, give, room, target, produced);
    ret := bcj.Run(dec, b, stream, target);
    if ret.XzDataError? {
      return ret, [], 0;
    }
    text, taken := b.out[..b.outPos], b.inPos;
    if ret.XzOk? && bcj.ret.XzOk? {
      dec.BetweenFacts(stream, b, target);
    }
  }

  /** Both resets, then calls with buffers of at least one byte, over and over: they come to an end, and
      XZ_STREAM_END is returned exactly for the streams that have an end, with the filter applied once
      to everything the stream decodes to. */
  method FilterAll(dec: Lzma2Dec, bcj: XzBcj, props: Byte, stream: seq<Byte>, cuts: seq<Cut>)
    returns (ret: Ret, produced: seq<Byte>, used: nat)
    requires dec.Buffers() && dec.dict.allocatedSize == 0 && (dec.prealloc ==> dec.dict.sizeMax <= dec.dict.buf.Length)
    requires props <= 39 && DictionarySize(props) <= dec.dict.sizeMax
    requires bcj.buf.Length == 16 && (dec.probs as object) != bcj.buf && bcj.buf != dec.temp && bcj.buf != dec.dict.buf
    requires |cuts| > 0 && forall k :: 0 <= k < |cuts| ==> cuts[k].give > 0 && cuts[k].room > 0
    modifies dec, dec.rc, dec.probs, dec.temp, dec.dict, dec.dict.buf, bcj, bcj.buf
    ensures 0 < DictionarySize(props)
    ensures var whole := DecodeStream(stream, DictionarySize(props));
            && (ret.XzStreamEnd? <==> whole.status == Ended)
            && (ret.XzStreamEnd? ==> produced == Filter(whole.out, 0, true) && used == whole.pos)
            && (ret.XzDataError? ==> whole.status == Corrupt)
            && (ret.XzOk? ==> produced <= Filter(whole.out, 0, true))
            && (ret.XzOk? || ret.XzStreamEnd? || ret.XzDataError?)
  {
    hide DictionarySize, Idle, DecodeStream, FilterIdle, Filter;
    ret := StartFilter(dec, bcj, props, stream);
    ghost var whole := DecodeStream(stream, DictionarySize(props));
    produced, used := [], 0;
    var k := 0;
    while true
      invariant k < |cuts|
      invariant FilterIdle(dec, bcj, stream, whole, used, produced)
      invariant produced <= Filter(whole.out, 0, true) && used <= |stream|
      invariant dec.dict.buf == old(dec.dict.buf) || fresh(dec.dict.buf)
      decreases |stream| - used + |whole.out| - |produced|
    {
      FilterIdleBound(dec, bcj, stream, whole, used, produced);
      var cut := cuts[k];
      var text, taken;
      ret, text, taken := FilterCall(dec, bcj, stream, used, cut.give, cut.room, whole, produced);
      produced, used := produced + text, used + taken;
      if ret.XzOk? {
        FilterIdleBound(dec, bcj, stream, whole, used, produced);
      }
      if !ret.XzOk? || (used == |stream| && |text| < cut.room) {
        return;
      }
      k := if k + 1 < |cuts| then k + 1 else 0;
    }
  }

  // xz_dec_lzma2_reset and xz_dec_bcj_reset at the beginning of a stream.
  method StartFilter(dec: Lzma2Dec, bcj: XzBcj, props: Byte, stream: seq<Byte>) returns (ret: Ret)
    requires dec.Buffers() && dec.dict.allocatedSize == 0 && (dec.prealloc ==> dec.dict.sizeMax <= dec.dict.buf.Length)
    requires props <= 39 && DictionarySize(props) <= dec.dict.sizeMax
    requires bcj.buf.Length == 16 && (dec.probs as object) != bcj.buf && bcj.buf != dec.temp && bcj.buf != dec.dict.buf
    modifies dec, dec.dict, bcj
    ensures 0 < DictionarySize(props)
    ensures FilterIdle(dec, bcj, stream, DecodeStream(stream, DictionarySize(props)), 0, [])
    ensures dec.dict.buf == old(dec.dict.buf) || fresh(dec.dict.buf)
    ensures ret.XzOk?
  {
    hide DictionarySize, DecodeStream, Decodes, Lzma2Dec.Valid, Filter;
    var r := bcj.Reset(BCJ_ARMTHUMB);
    ret := Start(dec, props, stream);
  }
}
