/** The history buffer of src/xz/xz_dec_lzma2.c (struct dictionary and dict_*), multi-call mode: a ring
    that always holds the latest bytes of an unbounded history. */
module Dictionary {
  import opened Basics
  import opened LzmaSymbol
  import opened XzBuffer

  /** Ring index of the byte at distance d when the next byte goes to pos. */
  function Slot(pos: int, d: int, end: int): int {
    if d < pos then pos - 1 - d else pos - 1 - d + end
  }

  function Max(a: int, b: int): int {
    if a < b then b else a
  }

  function Min(a: int, b: int): int {
    if a < b then a else b
  }

  /** The last full bytes of the history are in the ring. */
  ghost predicate Ring(buf: seq<Byte>, pos: int, end: int, full: int, history: seq<Byte>) {
    && 0 <= pos <= full <= end <= |buf|
    && (full == pos || full == end)
    && full <= |history|
    && forall d :: 0 <= d < full ==> buf[Slot(pos, d, end)] == history[|history| - 1 - d]
  }

  /** Writing bytes at pos appends them to the history, whatever they overwrite. */
  lemma RingAppend(before: seq<Byte>, after: seq<Byte>, pos: int, end: int, full: int, history: seq<Byte>,
                   bytes: seq<Byte>)
    requires Ring(before, pos, end, full, history)
    requires |after| == |before| && pos + |bytes| <= end
    requires forall i :: 0 <= i < |bytes| ==> after[pos + i] == bytes[i]
    requires forall i :: 0 <= i < end && !(pos <= i < pos + |bytes|) ==> after[i] == before[i]
    ensures Ring(after, pos + |bytes|, end, Max(full, pos + |bytes|), history + bytes)
  {
    var k, h := |bytes|, history + bytes;
    var pos', full' := pos + k, Max(full, pos + k);
    forall d | 0 <= d < full'
      ensures after[Slot(pos', d, end)] == h[|h| - 1 - d]
    {
      if d < k {
        assert after[pos + (k - 1 - d)] == bytes[k - 1 - d];
      } else {
        assert Slot(pos', d, end) == Slot(pos, d - k, end);
        assert before[Slot(pos, d - k, end)] == history[|history| - 1 - (d - k)];
      }
    }
  }

  /** The end of the ring is its beginning. */
  lemma RingWraps(buf: seq<Byte>, end: int, full: int, history: seq<Byte>)
    requires Ring(buf, end, end, full, history) && 0 < end
    ensures Ring(buf, 0, end, full, history)
  {
    assert forall d :: 0 <= d < full ==> Slot(0, d, end) == Slot(end, d, end);
  }

  /** The overlapping LZ77 copy: n bytes, each the one dist back from the end as it then is. */
  function LzCopy(history: seq<Byte>, dist: nat, n: nat): (h: seq<Byte>)
    ensures |h| == |history| + n
    decreases n
  {
    if n == 0 then history else LzCopy(history + [HistoryGet(history, dist)], dist, n - 1)
  }

  lemma {:induction false} LzCopyOneMore(history: seq<Byte>, dist: nat, n: nat)
    ensures LzCopy(history, dist, n + 1)
         == LzCopy(history, dist, n) + [HistoryGet(LzCopy(history, dist, n), dist)]
    decreases n
  {
    if n > 0 {
      LzCopyOneMore(history + [HistoryGet(history, dist)], dist, n - 1);
    }
  }

  /** A copy interrupted after m bytes and resumed later is the whole copy. */
  lemma {:induction false} LzCopyResumes(history: seq<Byte>, dist: nat, m: nat, n: nat)
    ensures LzCopy(LzCopy(history, dist, m), dist, n) == LzCopy(history, dist, m + n)
    decreases m
  {
    if m > 0 {
      LzCopyResumes(history + [HistoryGet(history, dist)], dist, m - 1, n);
    }
  }

  /** The copy repeats the last dist + 1 bytes of the history for as long as it goes on. */
  lemma {:induction false} LzCopyIsPeriodic(history: seq<Byte>, dist: nat, n: nat, i: nat)
    requires dist < |history| <= i < |history| + n
    ensures LzCopy(history, dist, n)[i] == LzCopy(history, dist, n)[i - dist - 1]
    ensures LzCopy(history, dist, n)[..|history|] == history
    decreases n
  {
    var next := history + [HistoryGet(history, dist)];
    LzCopyKeeps(next, dist, n - 1);
    assert LzCopy(next, dist, n - 1)[..|next|][..|history|] == next[..|history|] == history;
    if i > |history| {
      LzCopyIsPeriodic(next, dist, n - 1, i);
    } else {
      var all := LzCopy(next, dist, n - 1);
      assert all[i] == all[..|next|][i] && all[i - dist - 1] == all[..|next|][i - dist - 1];
    }
  }

  lemma {:induction false} LzCopyKeeps(history: seq<Byte>, dist: nat, n: nat)
    ensures LzCopy(history, dist, n)[..|history|] == history
    decreases n
  {
    if n > 0 {
      var next := history + [HistoryGet(history, dist)];
      LzCopyKeeps(next, dist, n - 1);
      assert LzCopy(next, dist, n - 1)[..|next|][..|history|] == next[..|history|];
    }
  }

  class Dict {
    var buf: array<Byte>
    var start: nat
    var pos: nat
    var full: nat
    var limit: nat
    var end: nat
    var size: nat
    var sizeMax: nat
    var allocatedSize: nat

    /** Everything decoded since the last reset of the dictionary. */
    ghost var history: seq<Byte>

    /** The ring has a size; its contents mean nothing before the first reset. */
    predicate Sized()
      reads this
    {
      0 < size == end <= buf.Length && end % 16 == 0
    }

    ghost predicate Valid()
      reads this, buf
    {
      Open() && pos <= full
    }

    /** As Valid, while full still lags behind pos inside a copy. */
    ghost predicate Open()
      reads this, buf
    {
      && Sized()
      && start <= pos <= end && full <= end && limit <= end
      && Max(full, pos) == Min(|history|, end)
      && (|history| - pos) % 16 == 0
      && Ring(buf[..], pos, end, Max(full, pos), history)
    }

    lemma Facts()
      requires Valid()
      ensures size == end && start <= pos <= end && limit <= end
      ensures full == Min(|history|, size)
      ensures (|history| - pos) % 16 == 0 && |history| >= pos
      ensures full == pos || full == end
    {
    }

    /** Decoded but not yet given to the caller. */
    ghost function Pending(): (p: seq<Byte>)
      requires Valid()
      reads this, buf
    {
      history[|history| - (pos - start)..]
    }

    lemma PendingInBuffer()
      requires Valid()
      ensures buf[start..pos] == Pending()
    {
      forall i | start <= i < pos
        ensures buf[i] == history[|history| - pos + i]
      {
        var d := pos - 1 - i;
        assert buf[..][Slot(pos, d, end)] == history[|history| - 1 - d];
      }
    }

    /** With preallocation the buffer has the maximum size from the start. */
    constructor (sizeMax: nat, prealloc: bool)
      ensures fresh(buf) && this.sizeMax == sizeMax && allocatedSize == 0
      ensures prealloc ==> buf.Length == sizeMax
    {
      buf := new Byte[if prealloc then sizeMax else 0](_ => 0);
      start, pos, full, limit, end, size, this.sizeMax, allocatedSize := 0, 0, 0, 0, 0, 0, sizeMax, 0;
      history := [];
    }

    /** The part of xz_dec_lzma2_reset that sets the size. */
    method SetSize(size: nat, prealloc: bool)
      requires 0 < size && size % 16 == 0
      requires prealloc ==> size <= buf.Length
      requires !prealloc ==> allocatedSize == 0
      modifies this
      ensures Sized() && this.size == size && sizeMax == old(sizeMax) && allocatedSize == old(allocatedSize)
      ensures if prealloc then buf == old(buf) else fresh(buf)
      ensures history == []
    {
      this.size, end := size, size;
      if !prealloc && allocatedSize < size {
        buf := new Byte[size](_ => 0);
      }
      history := [];
    }

    /** dict_reset */
    method Reset()
      requires Sized()
      modifies this`start, this`pos, this`limit, this`full, this`history
      ensures Valid() && history == [] && start == pos == 0
    {
      start, pos, limit, full := 0, 0, 0, 0;
      history := [];
    }

    /** dict_limit */
    method Limit(outMax: nat)
      requires Valid()
      modifies this`limit
      ensures Valid()
      ensures limit == pos + Min(end - pos, outMax)
    {
      if end - pos <= outMax {
        limit := end;
      } else {
        limit := pos + outMax;
      }
    }

    predicate HasSpace()
      reads this
    {
      pos < limit
    }

    /** dict_get: the distance is valid, or the dictionary is empty. */
    method Get(dist: nat) returns (byte: Byte)
      requires Valid()
      requires full > 0 ==> dist < full
      ensures byte == HistoryGet(history, dist)
    {
      if full > 0 {
        var offset := pos - dist - 1;
        if dist >= pos {
          offset := offset + end;
        }
        assert buf[..][Slot(pos, dist, end)] == history[|history| - 1 - dist];
        byte := buf[offset];
      } else {
        byte := 0;
      }
    }

    method Put(byte: Byte)
      requires Valid() && HasSpace()
      modifies this`pos, this`full, this`history, buf
      ensures Valid() && history == old(history) + [byte]
      ensures pos == old(pos) + 1
    {
      hide Ring;
      Facts();
      ghost var before := buf[..];
      buf[pos] := byte;
      RingAppend(before, buf[..], pos, end, full, history, [byte]);
      pos := pos + 1;
      if full < pos {
        full := pos;
      }
      history := history + [byte];
    }

    /** dict_repeat: false on a distance outside the history; otherwise as much of the match as fits
        below the limit, and the length left over. */
    method Repeat(len: nat, dist: nat) returns (ok: bool, rest: nat)
      requires Valid() && HasSpace() && len > 0
      modifies this`pos, this`full, this`history, buf
      ensures Valid()
      ensures ok <==> dist < |old(history)| && dist < size
      ensures !ok ==> rest == len && history == old(history) && pos == old(pos)
      ensures ok ==>
                var n := Min(old(limit - pos), len);
                && rest == len - n
                && pos == old(pos) + n
                && history == LzCopy(old(history), dist, n)
    {
      hide Ring, HistoryGet;
      if dist >= full || dist >= size {
        return false, len;
      }
      var left := Min(limit - pos, len);
      ok, rest := true, len - left;
      var back := pos - dist - 1;
      if dist >= pos {
        back := back + end;
      }
      ghost var n := left;
      while true
        invariant 0 < left <= n && pos == old(pos) + n - left
        invariant full == old(full)
        invariant Open()
        invariant history == LzCopy(old(history), dist, n - left)
        invariant back == Slot(pos, dist, end)
        decreases left
      {
        LzCopyOneMore(old(history), dist, n - left);
        back := CopyOne(back, dist);
        left := left - 1;
        if left == 0 {
          break;
        }
      }
      if full < pos {
        full := pos;
      }
    }

    // The body of the loop of dict_repeat.
    method CopyOne(back: nat, ghost dist: nat) returns (next: nat)
      requires Open() && pos < limit
      requires dist < Max(full, pos) && back == Slot(pos, dist, end)
      modifies this`pos, this`history, buf
      ensures Open() && pos == old(pos) + 1
      ensures history == old(history) + [HistoryGet(old(history), dist)]
      ensures next == Slot(pos, dist, end)
    {
      ghost var before := buf[..];
      ghost var byte := HistoryGet(history, dist);
      assert before[Slot(pos, dist, end)] == history[|history| - 1 - dist];
      buf[pos] := buf[back];
      RingAppend(before, buf[..], pos, end, Max(full, pos), history, [byte]);
      history := history + [byte];
      pos, next := pos + 1, back + 1;
      if next == end {
        next := 0;
      }
    }

    // The end of a flush: back to the beginning of the ring if its end was reached.
    method Wrap()
      requires Valid()
      modifies this`start, this`pos
      ensures Valid() && start == pos < end
    {
      hide Ring;
      if pos == end {
        RingWraps(buf[..], end, full, history);
        pos := 0;
      }
      start := pos;
    }

    /** dict_flush: what is pending goes to the output; at the end of the ring the position wraps. */
    method Flush(b: XzBuf) returns (copied: nat)
      requires Valid() && b.Valid()
      requires pos - start <= b.outSize - b.outPos
      requires b.out != buf
      modifies this`start, this`pos, b`outPos, b.out
      ensures Valid() && b.Valid()
      ensures start == pos && pos < end
      ensures copied == |old(Pending())| && b.outPos == old(b.outPos) + copied
      ensures b.out[..b.outPos] == old(b.out[..b.outPos]) + old(Pending())
      ensures b.out[b.outPos..] == old(b.out[..])[b.outPos..]
    {
      copied := pos - start;
      PendingInBuffer();
      hide Ring, Open;
      b.Write(buf[start..start + copied]);
      Wrap();
    }

    /** dict_uncompressed: bytes of an uncompressed chunk go to the ring and to the output at once. */
    method Uncompressed(b: XzBuf, left: nat) returns (rest: nat)
      requires Valid() && b.Valid() && start == pos < end
      requires b.out != buf
      modifies this`start, this`pos, this`full, this`history, buf, b`inPos, b`outPos, b.out
      ensures Valid() && b.Valid() && start == pos < end
      ensures rest <= left
      ensures var n := left - rest;
              && b.inPos == old(b.inPos) + n
              && b.outPos == old(b.outPos) + n
              && history == old(history) + b.input[old(b.inPos)..b.inPos]
              && b.out[..b.outPos] == old(b.out[..b.outPos]) + b.input[old(b.inPos)..b.inPos]
              && b.out[b.outPos..] == old(b.out[..])[b.outPos..]
      ensures rest > 0 ==> b.inPos == |b.input| || b.outPos == b.outSize
    {
      hide Open;
      rest := left;
      while rest > 0 && b.inPos < |b.input| && b.outPos < b.outSize
        invariant Valid() && b.Valid() && start == pos < end
        invariant rest <= left
        invariant b.inPos == old(b.inPos) + (left - rest) && b.outPos == old(b.outPos) + (left - rest)
        invariant history == old(history) + b.input[old(b.inPos)..b.inPos]
        invariant b.out[..b.outPos] == old(b.out[..b.outPos]) + b.input[old(b.inPos)..b.inPos]
        invariant b.out[b.outPos..] == old(b.out[..])[b.outPos..]
        decreases rest
      {
        var copySize := Min(|b.input| - b.inPos, b.outSize - b.outPos);
        if copySize > end - pos {
          copySize := end - pos;
        }
        if copySize > rest {
          copySize := rest;
        }
        SplitSlice(b.input, old(b.inPos), b.inPos, b.inPos + copySize);
        CopyPiece(b, copySize);
        rest := rest - copySize;
      }
    }

    // memcpy into the ring at pos.
    method Append(bytes: seq<Byte>)
      requires Valid() && pos + |bytes| <= end
      modifies this`pos, this`full, this`history, buf
      ensures Valid() && pos == old(pos) + |bytes| && history == old(history) + bytes
    {
      hide Ring;
      Facts();
      ghost var before := buf[..];
      MemCpy(buf, pos, bytes);
      RingAppend(before, buf[..], pos, end, full, history, bytes);
      history := history + bytes;
      pos := pos + |bytes|;
      if full < pos {
        full := pos;
      }
    }

    // The body of the loop of dict_uncompressed, for a size that fits everywhere.
    method CopyPiece(b: XzBuf, copySize: nat)
      requires Valid() && b.Valid() && start == pos < end
      requires 0 < copySize <= |b.input| - b.inPos && copySize <= b.outSize - b.outPos
      requires copySize <= end - pos
      requires b.out != buf
      modifies this`start, this`pos, this`full, this`history, buf, b`inPos, b`outPos, b.out
      ensures Valid() && b.Valid() && start == pos < end
      ensures b.inPos == old(b.inPos) + copySize && b.outPos == old(b.outPos) + copySize
      ensures history == old(history) + b.input[old(b.inPos)..b.inPos]
      ensures b.out[..b.outPos] == old(b.out[..b.outPos]) + b.input[old(b.inPos)..b.inPos]
      ensures b.out[b.outPos..] == old(b.out[..])[b.outPos..]
    {
      hide Ring, Open;
      var bytes := b.input[b.inPos..b.inPos + copySize];
      Append(bytes);
      Wrap();
      b.Write(bytes);
      b.inPos := b.inPos + copySize;
    }
  }

  lemma SplitSlice(s: seq<Byte>, a: nat, b: nat, c: nat)
    requires a <= b <= c <= |s|
    ensures s[a..c] == s[a..b] + s[b..c]
  {
  }
}
