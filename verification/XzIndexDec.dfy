/** The Index in src/xz/xz_dec_stream.c: index_update, dec_index and the padding after it, over input that may be cut
    anywhere. */
module XzIndexDec {
  import opened Basics
  import opened XzBuffer
  import opened XzFormat
  import opened XzField
  import opened XzPlace

  /** A place in front of an integer of the Index. */
  predicate InIndex(place: Place) {
    place.AtCount? || place.AtSecond? || (place.AtRecord? && place.left > 0)
  }

  /** The place in front of a record, or behind the last one. */
  function RecordPlace(p: nat, q: nat, left: nat, blocks: Blocks, hash: Hash): Place {
    if left == 0 then AtIndexPadding(p, q, blocks, hash) else AtRecord(p, q, left, blocks, hash)
  }

  lemma BadField(s: seq<Byte>, dictMax: nat, check: Byte, place: Place, target: Outcome)
    requires Leads(s, dictMax, check, place, target) && InIndex(place) && ReadVli(s, place.q, |s|, 0, 0) == None
    ensures target.Invalid?
  {
    hide ReadVli, AddUnpadded, AddUncompressed;
  }

  lemma NoRecord(s: seq<Byte>, check: Byte, p: nat, q: nat, blocks: Blocks, hash: Hash)
    requires p <= q
    ensures FromRecord(s, check, p, q, 0, blocks, hash) == FromIndexPadding(s, check, p, q, blocks, hash)
  {
    hide FromIndexPadding;
  }

  // Behind the number of records.
  lemma AfterCount(s: seq<Byte>, dictMax: nat, check: Byte, p: nat, q: nat, blocks: Blocks, v: nat, q1: nat,
                   target: Outcome)
    requires Leads(s, dictMax, check, AtCount(p, q, blocks), target) && ReadVli(s, q, |s|, 0, 0) == Some((v, q1))
    ensures if v != blocks.count then target.Invalid?
            else Leads(s, dictMax, check, RecordPlace(p, q1, v, blocks, NO_HASH), target)
  {
    hide ReadVli, FromData, FromBlocks, FromBlockPadding, FromCheck, DecodeFile, FromRecord, FromSecond, FromFooter;
    hide FromIndexCrc, FromIndexPadding;
    VliBound(s, q);
    NoRecord(s, check, p, q1, blocks, NO_HASH);
  }

  // Behind the first half of a record.
  lemma AfterFirst(s: seq<Byte>, dictMax: nat, check: Byte, p: nat, q: nat, left: nat, blocks: Blocks, hash: Hash,
                   v: nat, q1: nat, target: Outcome)
    requires Leads(s, dictMax, check, AtRecord(p, q, left, blocks, hash), target) && left > 0
    requires ReadVli(s, q, |s|, 0, 0) == Some((v, q1))
    ensures Leads(s, dictMax, check, AtSecond(p, q1, left, blocks, AddUnpadded(hash, v)), target)
  {
    hide ReadVli, FromData, FromBlocks, FromBlockPadding, FromCheck, DecodeFile, FromCount, FromFooter, FromSecond;
    hide FromIndexCrc, FromIndexPadding, AddUnpadded;
    VliBound(s, q);
  }

  // Behind the second half.
  lemma AfterSecond(s: seq<Byte>, dictMax: nat, check: Byte, p: nat, q: nat, left: nat, blocks: Blocks, hash: Hash,
                    v: nat, q1: nat, target: Outcome)
    requires Leads(s, dictMax, check, AtSecond(p, q, left, blocks, hash), target)
    requires ReadVli(s, q, |s|, 0, 0) == Some((v, q1))
    ensures left > 0
    ensures Leads(s, dictMax, check, RecordPlace(p, q1, left - 1, blocks, AddUncompressed(hash, v)), target)
  {
    hide ReadVli, FromData, FromBlocks, FromBlockPadding, FromCheck, DecodeFile, FromCount, FromFooter, FromRecord;
    hide FromIndexCrc, FromIndexPadding, AddUncompressed;
    VliBound(s, q);
    NoRecord(s, check, p, q1, blocks, AddUncompressed(hash, v));
  }

  lemma VliBound(s: seq<Byte>, q: nat)
    ensures var r := ReadVli(s, q, |s|, 0, 0); r.Some? ==> q <= r.value.1
  {
    if ReadVli(s, q, |s|, 0, 0).Some? {
      VliExact(s, q, |s|, ReadVli(s, q, |s|, 0, 0).value.0, ReadVli(s, q, |s|, 0, 0).value.1);
    }
  }

  lemma NextField(s: seq<Byte>, dictMax: nat, check: Byte, place: Place, v: nat, q1: nat, target: Outcome)
    requires Leads(s, dictMax, check, place, target) && InIndex(place)
    requires ReadVli(s, place.q, |s|, 0, 0) == Some((v, q1))
    ensures place.AtCount? ==>
              if v != place.blocks.count then target.Invalid?
              else Leads(s, dictMax, check, RecordPlace(place.p, q1, v, place.blocks, NO_HASH), target)
    ensures place.AtRecord? ==>
              Leads(s, dictMax, check,
                    AtSecond(place.p, q1, place.left, place.blocks, AddUnpadded(place.hash, v)), target)
    ensures place.AtSecond? ==>
              place.left > 0 &&
              Leads(s, dictMax, check,
                    RecordPlace(place.p, q1, place.left - 1, place.blocks, AddUncompressed(place.hash, v)), target)
  {
    hide ReadVli, AddUnpadded, AddUncompressed, Leads, RecordPlace;
    match place
    case AtCount(p, q, blocks) => AfterCount(s, dictMax, check, p, q, blocks, v, q1, target);
    case AtRecord(p, q, left, blocks, hash) =>
      AfterFirst(s, dictMax, check, p, q, left, blocks, hash, v, q1, target);
    case AtSecond(p, q, left, blocks, hash) =>
      AfterSecond(s, dictMax, check, p, q, left, blocks, hash, v, q1, target);
  }

  datatype IndexSeq = Count | Unpadded | Uncompressed

  /** The part of struct xz_dec for verifying the Index. */
  class IndexDec {
    const f: Field
    var sequence: IndexSeq
    var size: nat
    var count: nat
    var hash: Hash

    /** Where the Index and its current field begin. */
    ghost var start: nat
    ghost var mark: nat

    constructor (f: Field)
      ensures this.f == f && sequence == Count && size == 0 && count == 0 && hash == NO_HASH
    {
      this.f, sequence, size, count, hash, start, mark := f, Count, 0, 0, NO_HASH, 0, 0;
    }

    /** The Index fields in xz_dec_reset. */
    method Clear()
      modifies this
      ensures sequence.Count? && size == 0 && count == 0 && hash == NO_HASH
    {
      sequence, size, count, hash := Count, 0, 0, NO_HASH;
    }

    ghost function Here(blocks: Blocks): Place
      reads this
    {
      match sequence
      case Count => AtCount(start, mark, blocks)
      case Unpadded => AtRecord(start, mark, count, blocks, hash)
      case Uncompressed => AtSecond(start, mark, count, blocks, hash)
    }

    /** In the middle of a field, with all up to here read. */
    ghost predicate Reading(s: seq<Byte>, here: int)
      reads this, f
    {
      && start < mark <= here <= |s|
      && f.InVli() && ReadVli(s, mark, |s|, 0, 0) == ReadVli(s, here, |s|, f.pos / 7, f.Acc())
      && (!sequence.Count? ==> count > 0)
      && (sequence.Count? ==> hash == NO_HASH)
    }

    /** size and crc are those of the bytes of the Index up to a position. */
    ghost predicate Covers(s: seq<Byte>, upTo: int)
      reads this`size, this`start, f`crc
    {
      start + size == upTo <= |s| && f.crc == Crc(s[start..upTo], 0)
    }

    /** index_update */
    method Update(b: XzBuf, inStart: nat, ghost s: seq<Byte>, ghost delta: int)
      requires Given(s, b, inStart, delta) && Covers(s, inStart + delta)
      modifies this`size, f`crc
      ensures Covers(s, b.inPos + delta) && size == old(size) + (b.inPos - inStart)
    {
      hide Crc;
      var inUsed := b.inPos - inStart;
      size := size + inUsed;
      ghost var before := s[start..inStart + delta];
      CrcJoin(before, b.input[inStart..b.inPos], 0);
      assert s[start..b.inPos + delta] == before + b.input[inStart..b.inPos];
      f.crc := Crc(b.input[inStart..b.inPos], f.crc);
    }

    /** One field of the Index: dec_vli and the switch after it. */
    method DecField(b: XzBuf, inStart: nat, blockCount: nat, ghost s: seq<Byte>, ghost delta: int, ghost dictMax: nat,
                    ghost check: Byte, ghost blocks: Blocks, ghost target: Outcome)
      returns (ret: Ret)
      requires Given(s, b, inStart, delta) && Reading(s, b.inPos + delta) && blocks.count == blockCount
      requires Leads(s, dictMax, check, Here(blocks), target)
      modifies this`sequence, this`count, this`hash, this`mark, f`pos, f`vli, b`inPos
      ensures old(b.inPos) <= b.inPos && Given(s, b, inStart, delta)
      ensures ret.XzOk? || ret.XzStreamEnd? || ret.XzDataError?
      ensures ret.XzDataError? ==> target.Invalid?
      ensures ret.XzOk? ==>
                b.inPos == |b.input| && Reading(s, b.inPos + delta) && Leads(s, dictMax, check, Here(blocks), target)
      ensures ret.XzStreamEnd? ==>
                && b.inPos > old(b.inPos) && f.pos == 0 && mark == b.inPos + delta && start < mark
                && !sequence.Count?
                && (count > 0 ==> Reading(s, b.inPos + delta) && Leads(s, dictMax, check, Here(blocks), target))
                && (count == 0 ==>
                      sequence.Unpadded? && Leads(s, dictMax, check, AtIndexPadding(start, mark, blocks, hash), target))
    {
      hide ReadVli, Leads, AddUnpadded, AddUncompressed;
      ghost var here := Here(blocks);
      var q;
      ret, q := f.DecVli(b.input, b.inPos, s, delta, |s|);
      b.inPos := q;
      if ret.XzDataError? {
        BadField(s, dictMax, check, here, target);
      }
      if !ret.XzStreamEnd? {
        return;
      }
      mark := q + delta;
      NextField(s, dictMax, check, here, f.vli, mark, target);
      if sequence.Count? {
        count := f.vli;
        if count != blockCount {
          return XzDataError;
        }
        sequence := Unpadded;
      } else if sequence.Unpadded? {
        hash := AddUnpadded(hash, f.vli);
        sequence := Uncompressed;
      } else {
        hash := AddUncompressed(hash, f.vli);
        count := count - 1;
        sequence := Unpadded;
      }
    }

    /** dec_index */
    method DecIndex(b: XzBuf, inStart: nat, blockCount: nat, ghost s: seq<Byte>, ghost delta: int, ghost dictMax: nat,
                    ghost check: Byte, ghost blocks: Blocks, ghost target: Outcome)
      returns (ret: Ret)
      requires Given(s, b, inStart, delta) && Reading(s, b.inPos + delta) && Covers(s, inStart + delta)
      requires blocks.count == blockCount
      requires Leads(s, dictMax, check, Here(blocks), target)
      modifies this`sequence, this`count, this`hash, this`mark, this`size, f, b`inPos
      ensures old(b.inPos) <= b.inPos && Given(s, b, inStart, delta)
      ensures ret.XzOk? || ret.XzStreamEnd? || ret.XzDataError?
      ensures ret.XzDataError? ==> target.Invalid?
      ensures ret.XzOk? ==>
                && b.inPos == |b.input| && Reading(s, b.inPos + delta) && Covers(s, b.inPos + delta)
                && Leads(s, dictMax, check, Here(blocks), target)
      ensures ret.XzStreamEnd? ==>
                && b.inPos > old(b.inPos) && f.pos == 0 && start <= b.inPos + delta && Covers(s, inStart + delta)
                && Leads(s, dictMax, check, AtIndexPadding(start, b.inPos + delta, blocks, hash), target)
    {
      hide Leads, Rest, ReadVli, Crc;
      while true
        invariant old(b.inPos) <= b.inPos && Given(s, b, inStart, delta)
        invariant Reading(s, b.inPos + delta) && Covers(s, inStart + delta)
        invariant Leads(s, dictMax, check, Here(blocks), target)
        decreases |b.input| - b.inPos
      {
        ret := DecField(b, inStart, blockCount, s, delta, dictMax, check, blocks, target);
        if !ret.XzStreamEnd? {
          Update(b, inStart, s, delta);
          return;
        }
        if count == 0 {
          break;
        }
      }
      ret := XzStreamEnd;
    }

    /** SEQ_INDEX_PADDING, up to the comparison of the hashes. */
    method Padding(b: XzBuf, inStart: nat, blockHash: Hash, ghost s: seq<Byte>, ghost delta: int, ghost dictMax: nat,
                   ghost check: Byte, ghost blocks: Blocks, ghost target: Outcome)
      returns (ret: Ret)
      requires Given(s, b, inStart, delta) && Covers(s, inStart + delta) && blocks.hash == blockHash
      requires start <= b.inPos + delta
      requires Leads(s, dictMax, check, AtIndexPadding(start, b.inPos + delta, blocks, hash), target)
      modifies this`size, f`crc, b`inPos
      ensures old(b.inPos) <= b.inPos && Given(s, b, inStart, delta)
      ensures ret.XzOk? || ret.XzStreamEnd? || ret.XzDataError?
      ensures ret.XzDataError? ==> target.Invalid?
      ensures ret.XzOk? || ret.XzStreamEnd? ==> Covers(s, b.inPos + delta)
      ensures ret.XzOk? ==>
                && b.inPos == |b.input| && size % 4 != 0
                && Leads(s, dictMax, check, AtIndexPadding(start, b.inPos + delta, blocks, hash), target)
      ensures ret.XzStreamEnd? ==> Leads(s, dictMax, check, AtIndexCrc(start, b.inPos + delta, blocks.out), target)
    {
      hide Leads, Rest, Crc;
      while (size + (b.inPos - inStart)) % 4 != 0
        invariant old(b.inPos) <= b.inPos && Given(s, b, inStart, delta) && Covers(s, inStart + delta)
        invariant start <= b.inPos + delta
        invariant Leads(s, dictMax, check, AtIndexPadding(start, b.inPos + delta, blocks, hash), target)
        decreases |b.input| - b.inPos
      {
        PaddingTurn(s, dictMax, check, start, b.inPos + delta, blocks, hash, target);
        if b.inPos == |b.input| {
          Update(b, inStart, s, delta);
          return XzOk;
        }
        b.inPos := b.inPos + 1;
        if b.input[b.inPos - 1] != 0 {
          return XzDataError;
        }
      }
      PaddingTurn(s, dictMax, check, start, b.inPos + delta, blocks, hash, target);
      Update(b, inStart, s, delta);
      if blockHash != hash {
        return XzDataError;
      }
      ret := XzStreamEnd;
    }
  }

  // One byte of the padding, or its end.
  lemma PaddingTurn(s: seq<Byte>, dictMax: nat, check: Byte, p: nat, q: nat, blocks: Blocks, hash: Hash,
                    target: Outcome)
    requires p <= q && Leads(s, dictMax, check, AtIndexPadding(p, q, blocks, hash), target)
    ensures (q - p) % 4 != 0 ==>
              if q < |s| && s[q] == 0 then Leads(s, dictMax, check, AtIndexPadding(p, q + 1, blocks, hash), target)
              else target.Invalid?
    ensures (q - p) % 4 == 0 ==>
              if hash == blocks.hash then Leads(s, dictMax, check, AtIndexCrc(p, q, blocks.out), target)
              else target.Invalid?
  {
    hide FromData, FromBlocks, FromBlockPadding, FromCheck, DecodeFile, FromFooter, FromIndexCrc, FromCount, FromRecord;
    hide FromSecond;
  }
}
