/** What is read from regions and from the boot hash, said of single fuses by their numbers. */
module EfuseLaw {
  import opened Basics
  import opened Efuse
  import opened EfuseRegion
  import opened EfuseBoot

  /** A read of n fuses from start on shows one that is set: one of those asked for, or one behind them in the last
      byte and in the last word read, if reads are not exact. */
  ghost predicate Shows(fuse: seq<bool>, masked: bool, start: nat, n: nat) {
    exists i: nat ::
      && start <= i < |fuse| && fuse[i] && i < start + (n + 7) / 8 * 8
      && (i < start + n || (!masked && i / 32 <= (start + n) / 32))
  }

  lemma SameWord(i: nat, m: nat)
    ensures i < 32 * (m / 32 + 1) <==> i / 32 <= m / 32
  {
  }

  lemma SeenBit(fuse: seq<bool>, masked: bool, start: nat, n: nat, k: nat)
    requires start + n <= |fuse| && k < ByteBits(n)
    ensures Seen(fuse, masked, start, n)[k] ==
            (start + k < |fuse| && fuse[start + k] &&
             (start + k < start + n || (!masked && (start + k) / 32 <= (start + n) / 32)))
  {
    SameWord(start + k, start + n);
  }

  /** A field reads as something other than zero exactly if the read shows a fuse that is set. */
  lemma SetExact(fuse: seq<bool>, masked: bool, start: nat, n: nat)
    requires start + n <= |fuse|
    ensures Set(fuse, masked, start, n) <==> Shows(fuse, masked, start, n)
  {
    hide Seen;
    if Set(fuse, masked, start, n) {
      var k :| 0 <= k < ByteBits(n) && Seen(fuse, masked, start, n)[k];
      SeenBit(fuse, masked, start, n, k);
      assert fuse[start + k];
    }
    if Shows(fuse, masked, start, n) {
      var i: nat :|
        && start <= i < |fuse| && fuse[i] && i < start + (n + 7) / 8 * 8
        && (i < start + n || (!masked && i / 32 <= (start + n) / 32));
      SeenBit(fuse, masked, start, n, i - start);
    }
  }

  // ---------- Regions ----------

  predicate Flagged(fuse: seq<bool>, r: Region, k: nat)
    requires r.flagStart + 2 * k + 1 < |fuse|
  {
    fuse[r.flagStart + 2 * k] || fuse[r.flagStart + 2 * k + 1]
  }

  /** Slot k is the first that has one of its two flags. */
  predicate FirstFlagged(fuse: seq<bool>, r: Region, k: nat) {
    && 2 * k + 1 < r.flagBits && r.flagStart + r.flagBits <= |fuse|
    && Flagged(fuse, r, k) && forall j :: 0 <= j < k ==> !Flagged(fuse, r, j)
  }

  /** The data of slot k: so many fuses, slot after slot. */
  predicate DataOf(fuse: seq<bool>, r: Region, k: nat, data: seq<bool>) {
    && |data| == r.dataBits
    && forall i :: 0 <= i < r.dataBits ==>
         r.dataStart + k * r.dataBits + i < |fuse| && data[i] == fuse[r.dataStart + k * r.dataBits + i]
  }

  lemma SlotExact(fuse: seq<bool>, r: Region, k: nat, data: seq<bool>)
    requires Fits(r, |fuse|) && k < Slots(r)
    ensures data == Slot(fuse, r, k) <==> DataOf(fuse, r, k, data)
  {
    SlotOnChip(r, |fuse|, k);
    var slot, start := Slot(fuse, r, k), r.dataStart + k * r.dataBits;
    assert forall i :: 0 <= i < r.dataBits ==> slot[i] == fuse[start + i];
  }

  lemma FlaggedIsPair(fuse: seq<bool>, r: Region, k: nat)
    requires Fits(r, |fuse|) && k < Slots(r)
    ensures r.flagStart + 2 * k + 1 < |fuse| && Flagged(fuse, r, k) == Pair(fuse, r, k)
  {
    SlotOnChip(r, |fuse|, k);
  }

  lemma LowestIsFirst(fuse: seq<bool>, r: Region, k: nat)
    requires Fits(r, |fuse|)
    ensures FirstFlagged(fuse, r, k) <==> k < Slots(r) && Lowest(fuse, r, 0) == k
  {
    hide Pair, Lowest, Flagged;
    FlagsOnChip(r, |fuse|);
    forall j | 0 <= j < Slots(r)
      ensures r.flagStart + 2 * j + 1 < |fuse| && Flagged(fuse, r, j) == Pair(fuse, r, j)
    {
      FlaggedIsPair(fuse, r, j);
    }
    var low := Lowest(fuse, r, 0);
    if k < Slots(r) && low < k {
      assert Flagged(fuse, r, low);
    }
  }

  /** Once a flag is set, a read of the region returns the data of the first flagged slot, whether reads are exact
      or not. */
  lemma ReturnsFirst(fuse: seq<bool>, masked: bool, r: Region, k: nat, data: seq<bool>)
    requires Fits(r, |fuse|) && FirstFlagged(fuse, r, k)
    ensures Returned(fuse, masked, r) == Some(data) <==> DataOf(fuse, r, k, data)
  {
    hide FirstFlagged, DataOf, Returned, Slot, Lowest;
    LowestIsFirst(fuse, r, k);
    ReturnsLowest(fuse, masked, r);
    SlotExact(fuse, r, k, data);
  }

  /** With exact reads and two flags for every slot it returns nothing else. */
  lemma ReturnedExact(fuse: seq<bool>, r: Region, data: seq<bool>)
    requires Fits(r, |fuse|) && r.flagBits % 2 == 0
    ensures Returned(fuse, true, r) == Some(data) <==>
            exists k :: FirstFlagged(fuse, r, k) && DataOf(fuse, r, k, data)
  {
    hide FirstFlagged, DataOf, Returned, Slot, Lowest;
    var low := Lowest(fuse, r, 0);
    if low == Slots(r) {
      ReturnsNothing(fuse, r);
    } else {
      LowestIsFirst(fuse, r, low);
      ReturnsFirst(fuse, true, r, low, data);
    }
    if k :| FirstFlagged(fuse, r, k) && DataOf(fuse, r, k, data) {
      LowestIsFirst(fuse, r, k);
      ReturnsFirst(fuse, true, r, k, data);
    }
  }

  // ---------- The boot hash ----------

  /** Eight fuses as a number, the lowest bit first. */
  function EightFuses(fuse: seq<bool>, p: nat): nat
    requires p + 8 <= |fuse|
  {
    Digit(fuse[p]) + 2 * Digit(fuse[p + 1]) + 4 * Digit(fuse[p + 2]) + 8 * Digit(fuse[p + 3]) + 16 * Digit(fuse[p + 4])
    + 32 * Digit(fuse[p + 5]) + 64 * Digit(fuse[p + 6]) + 128 * Digit(fuse[p + 7])
  }

  lemma NumFirst(fuse: seq<bool>, p: nat, n: nat)
    requires 0 < n && p + n <= |fuse|
    ensures Num(fuse[p..p + n]) == Digit(fuse[p]) + 2 * Num(fuse[p + 1..p + n])
  {
    assert fuse[p..p + n][1..] == fuse[p + 1..p + n];
  }

  lemma NumFour(fuse: seq<bool>, p: nat, m: nat)
    requires p + 4 + m <= |fuse|
    ensures Num(fuse[p..p + 4 + m])
         == Digit(fuse[p]) + 2 * Digit(fuse[p + 1]) + 4 * Digit(fuse[p + 2]) + 8 * Digit(fuse[p + 3])
          + 16 * Num(fuse[p + 4..p + 4 + m])
  {
    hide Num, Digit;
    NumFirst(fuse, p, 4 + m);
    NumFirst(fuse, p + 1, 3 + m);
    NumFirst(fuse, p + 2, 2 + m);
    NumFirst(fuse, p + 3, 1 + m);
  }

  lemma NumberExact(fuse: seq<bool>, p: nat)
    requires p + 8 <= |fuse|
    ensures Number(fuse, p) == EightFuses(fuse, p)
  {
    hide Num, Digit;
    NumFour(fuse, p, 4);
    NumFour(fuse, p + 4, 0);
    NumNothing();
    assert fuse[p + 8..p + 8] == [];
  }

  lemma NumNothing()
    ensures Num([]) == 0
  {
  }

  /** The boot fields lie behind one another: two flags, an enable fuse and eight fuses for the first error, the
      same for the second, and 256 fuses of the hash. A bit that is read is its fuse, inverted for each error that
      is enabled and names it; the second one counts only with the first. */
  lemma CorrectedExact(fuse: seq<bool>, masked: bool, l: Layout, i: nat)
    requires OnChip(l, |fuse|) && i < 256
    ensures var p := l.flag;
            var first := Shows(fuse, masked, p + 2, 1);
            var second := first && Shows(fuse, masked, p + 11, 1);
            var inverted := (first && EightFuses(fuse, p + 3) == i) != (second && EightFuses(fuse, p + 12) == i);
            Corrected(fuse, masked, l)[i] == (fuse[p + 20 + i] != inverted)
  {
    hide Shows, EightFuses, Num, Set;
    var p := l.flag;
    SetExact(fuse, masked, p + 2, 1);
    SetExact(fuse, masked, p + 11, 1);
    NumberExact(fuse, p + 3);
    NumberExact(fuse, p + 12);
    assert Stored(fuse, l)[i] == fuse[p + 20 + i];
  }
}
