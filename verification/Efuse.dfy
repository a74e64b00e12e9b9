/** One-way fuses as src/driver/chip/hal_efuse.c reads and programs them. A buffer of bytes is the
    sequence of its bits, lowest bit of the first byte first. */
module Efuse {

  /** Bits of whole bytes for n bits. */
  function ByteBits(n: nat): (m: nat)
    ensures n <= m < n + 8 && m % 8 == 0
  {
    (n + 7) / 8 * 8
  }

  predicate Zero(bits: seq<bool>) {
    forall i :: 0 <= i < |bits| ==> !bits[i]
  }

  /** A buffer with the value one. */
  predicate One(bits: seq<bool>) {
    |bits| > 0 && bits[0] && Zero(bits[1..])
  }

  /** Programming: a fuse goes from 0 to 1 at most where a 1 is to be written, and need not. */
  predicate Programs(before: seq<bool>, after: seq<bool>, start: nat, bits: seq<bool>) {
    && |after| == |before|
    && forall i :: 0 <= i < |before| ==>
         after[i] == before[i] || (!before[i] && start <= i < start + |bits| && bits[i - start])
  }

  /** What a read of n bits puts into whole bytes. The driver does not clear the bits of the last byte
      behind the n bits; they show the fuses behind, as far as the words it reads go. */
  function Seen(fuse: seq<bool>, masked: bool, start: nat, n: nat): (bits: seq<bool>)
    requires start + n <= |fuse|
    ensures |bits| == ByteBits(n)
    ensures bits[..n] == fuse[start..start + n]
    ensures masked ==> Zero(bits[n..])
  {
    seq(ByteBits(n), i requires 0 <= i < ByteBits(n) =>
          start + i < |fuse| && fuse[start + i] &&
          (i < n || (!masked && start + i < 32 * ((start + n) / 32 + 1))))
  }

  // ---------- Words ----------

  type Word32 = w: seq<bool> | |w| == 32 witness seq(32, _ => false)

  /** The 32 fuses of a word, lowest first; fuses behind the chip read as 0. */
  function Word(fuse: seq<bool>, i: nat): Word32 {
    seq(32, b requires 0 <= b < 32 => 32 * i + b < |fuse| && fuse[32 * i + b])
  }

  function ShiftRight(w: Word32, k: nat): Word32 {
    seq(32, b requires 0 <= b < 32 => b + k < 32 && w[b + k])
  }

  function ShiftLeft(w: Word32, k: nat): Word32 {
    seq(32, b requires 0 <= b < 32 => b >= k && w[b - k])
  }

  function Or(v: Word32, w: Word32): Word32 {
    seq(32, b requires 0 <= b < 32 => v[b] || w[b])
  }

  /** Words as they lie in memory, the first n bits of them. */
  function Bits(words: seq<Word32>, n: nat): (bits: seq<bool>)
    requires n <= 32 * |words|
    ensures |bits| == n
  {
    seq(n, k requires 0 <= k < n => words[k / 32][k % 32])
  }

  /** The words from the one with the first bit to the one with the bit behind the last; all but the last are
      filled up from the next word. */
  function Shifted(fuse: seq<bool>, i: nat, shift: nat, last: bool): Word32
    requires shift < 32
  {
    if last then ShiftRight(Word(fuse, i), shift)
    else Or(ShiftRight(Word(fuse, i), shift), ShiftLeft(Word(fuse, i + 1), 32 - shift))
  }

  lemma WordBit(fuse: seq<bool>, i: nat, b: nat)
    requires b < 32
    ensures Word(fuse, i)[b] == (32 * i + b < |fuse| && fuse[32 * i + b])
  {
  }

  lemma ShiftedBit(fuse: seq<bool>, i: nat, shift: nat, last: bool, b: nat)
    requires shift < 32 && b < 32
    ensures var at := 32 * i + shift + b;
            Shifted(fuse, i, shift, last)[b] == ((last ==> shift + b < 32) && at < |fuse| && fuse[at])
  {
    hide Word;
    if b + shift < 32 {
      WordBit(fuse, i, b + shift);
    } else {
      WordBit(fuse, i + 1, b + shift - 32);
    }
  }

  // Where bit k behind the start lies.
  lemma BitPlace(start: nat, n: nat, k: nat)
    requires k < ByteBits(n)
    ensures var first, shift, last, i, b := start / 32, start % 32, (start + n) / 32 - start / 32, k / 32, k % 32;
            && start + k == 32 * (first + i) + shift + b && i <= last
            && ((i == last ==> shift + b < 32) <==> start + k < 32 * ((start + n) / 32 + 1))
  {
  }

  lemma WordsFor(start: nat, n: nat)
    ensures ByteBits(n) <= 32 * ((start + n) / 32 - start / 32 + 1)
  {
  }

  function WordCount(start: nat, n: nat): (m: nat)
    ensures m > 0
  {
    (start + n) / 32 - start / 32 + 1
  }

  /** The shifted words show the fuses from the start on, as far as the words go. */
  lemma Assembled(fuse: seq<bool>, start: nat, n: nat, words: seq<Word32>)
    requires start + n <= |fuse| && |words| == WordCount(start, n)
    requires forall i :: 0 <= i < |words| ==> words[i] == Shifted(fuse, start / 32 + i, start % 32, i == |words| - 1)
    ensures ByteBits(n) <= 32 * |words|
    ensures Bits(words, ByteBits(n)) == Seen(fuse, false, start, n)
  {
    hide Shifted, ByteBits, Seen;
    WordsFor(start, n);
    forall k | 0 <= k < ByteBits(n)
      ensures Bits(words, ByteBits(n))[k] == Seen(fuse, false, start, n)[k]
    {
      BitPlace(start, n, k);
      ShiftedBit(fuse, start / 32 + k / 32, start % 32, k / 32 == |words| - 1, k % 32);
      OfSeen(fuse, start, n, k);
    }
  }

  lemma OfSeen(fuse: seq<bool>, start: nat, n: nat, k: nat)
    requires start + n <= |fuse| && k < ByteBits(n)
    ensures Seen(fuse, false, start, n)[k] ==
            (start + k < |fuse| && fuse[start + k] && start + k < 32 * ((start + n) / 32 + 1))
  {
  }

  class Chip {
    /** True if a read clears the bits behind those asked for. */
    const masked: bool

    var fuse: seq<bool>

    constructor (fuse: seq<bool>, masked: bool)
      ensures this.fuse == fuse && this.masked == masked
    {
      this.fuse, this.masked := fuse, masked;
    }

    predicate InRange(start: nat, n: nat)
      reads this
    {
      start < |fuse| && 0 < n && start + n <= |fuse|
    }

    /** The reads of HAL_EFUSE_Read: words, shifted so that the first bit asked for is the lowest one, and
        copied by bytes. A shift to the left by 32 gives 0. */
    method ReadWords(start: nat, n: nat) returns (bits: seq<bool>)
      requires InRange(start, n)
      ensures bits == Seen(fuse, false, start, n)
    {
      hide Or, ShiftRight, ShiftLeft, Word, Seen;
      var startWord, wordShift := start / 32, start % 32;
      var wordCnt := WordCount(start, n);
      var sidData := new Word32[wordCnt];
      for i := 0 to wordCnt
        invariant forall k :: 0 <= k < i ==> sidData[k] == Word(fuse, startWord + k)
      {
        sidData[i] := Word(fuse, startWord + i);
      }
      var i := 0;
      while i < wordCnt - 1
        invariant 0 <= i < wordCnt
        invariant forall k :: 0 <= k < i ==> sidData[k] == Shifted(fuse, startWord + k, wordShift, false)
        invariant forall k :: i <= k < wordCnt ==> sidData[k] == Word(fuse, startWord + k)
      {
        sidData[i] := Or(ShiftRight(sidData[i], wordShift), ShiftLeft(sidData[i + 1], 32 - wordShift));
        i := i + 1;
      }
      sidData[i] := ShiftRight(sidData[i], wordShift);
      Assembled(fuse, start, n, sidData[..]);
      bits := Bits(sidData[..], ByteBits(n));
    }

    /** HAL_EFUSE_Read: it may find the chip busy. */
    method Read(start: nat, n: nat) returns (ok: bool, bits: seq<bool>)
      ensures ok ==> InRange(start, n) && bits == Seen(fuse, masked, start, n)
    {
      ok, bits := false, [];
      var busy: bool := *;
      if InRange(start, n) && !busy {
        bits := ReadWords(start, n);
        if masked {
          bits := bits[..n] + seq(|bits| - n, _ => false);
        }
        ok := true;
      }
    }

    /** HAL_EFUSE_Write: it may find the chip busy, and any fuse may fail to be programmed. */
    method Write(start: nat, n: nat, bits: seq<bool>) returns (ok: bool)
      requires n <= |bits|
      modifies this
      ensures Programs(old(fuse), fuse, start, bits[..n])
      ensures ok ==> InRange(start, n)
    {
      ok := false;
      var busy: bool := *;
      if InRange(start, n) && !busy {
        ok := true;
        var i := 0;
        while i < n
          invariant 0 <= i <= n && Programs(old(fuse), fuse, start, bits[..n])
        {
          var programmed: bool := *;
          if bits[i] && programmed {
            fuse := fuse[start + i := true];
          }
          i := i + 1;
        }
      }
    }
  }
}
