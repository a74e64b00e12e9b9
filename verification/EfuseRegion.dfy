/** Regions of src/efpg/efpg_efuse.c: several slots for the same data, two flag fuses for each, written
    from the last slot to the first; efpg_read_region and efpg_write_region. */
module EfuseRegion {
  import opened Basics
  import opened Efuse

  datatype Ack = Ok | RwErr | DiErr | NoDataErr

  /** efpg_region_info_t without the buffer. */
  datatype Region = Region(flagStart: nat, flagBits: nat, dataStart: nat, dataBits: nat)

  /** The regions for the MAC address on the two chip generations. */
  const MAC1 := Region(997, 18, 1015, 48)
  const MAC2 := Region(522, 6, 528, 48)

  function Slots(r: Region): nat {
    r.flagBits / 2
  }

  /** Flags in one 32-bit word, before the data, all on the chip. */
  predicate Fits(r: Region, size: nat) {
    && 0 < r.flagBits <= 32 && 0 < r.dataBits
    && r.flagStart + r.flagBits <= r.dataStart
    && r.dataStart + Slots(r) * r.dataBits <= size
  }

  lemma MacFits()
    ensures Fits(MAC1, 2048) && Slots(MAC1) == 9 && Fits(MAC2, 1024) && Slots(MAC2) == 3
  {
  }

  function SlotStart(r: Region, k: nat): nat {
    r.dataStart + k * r.dataBits
  }

  lemma ProductGrows(j: nat, k: nat, n: nat)
    requires j <= k
    ensures 0 <= j * n <= k * n && (j + 1) * n == j * n + n
  {
    assert k * n == j * n + (k - j) * n;
  }

  lemma SlotOnChip(r: Region, size: nat, k: nat)
    requires Fits(r, size) && k < Slots(r)
    ensures r.flagStart + 2 * k + 2 <= r.flagStart + r.flagBits <= SlotStart(r, k)
    ensures SlotStart(r, k) + r.dataBits <= size
  {
    ProductGrows(k, k + 1, r.dataBits);
    ProductGrows(k + 1, Slots(r), r.dataBits);
  }

  /** Whether a slot is flagged. */
  predicate Pair(fuse: seq<bool>, r: Region, k: nat)
    requires Fits(r, |fuse|) && k < Slots(r)
  {
    fuse[r.flagStart + 2 * k] || fuse[r.flagStart + 2 * k + 1]
  }

  function Slot(fuse: seq<bool>, r: Region, k: nat): (data: seq<bool>)
    requires Fits(r, |fuse|) && k < Slots(r)
    ensures |data| == r.dataBits
  {
    SlotOnChip(r, |fuse|, k);
    fuse[SlotStart(r, k)..SlotStart(r, k) + r.dataBits]
  }

  function FlagAt(r: Region, k: nat): nat {
    r.flagStart + 2 * k
  }

  /** The two flags of a slot read as zero: the test of tmp in efpg_write_region. */
  predicate ReadsZero(fuse: seq<bool>, masked: bool, r: Region, k: nat)
    requires Fits(r, |fuse|) && k < Slots(r)
  {
    SlotOnChip(r, |fuse|, k);
    Zero(Seen(fuse, masked, FlagAt(r, k), 2))
  }

  /** The first flagged slot from k on. */
  function Lowest(fuse: seq<bool>, r: Region, k: nat): (n: nat)
    requires Fits(r, |fuse|) && k <= Slots(r)
    ensures k <= n <= Slots(r)
    ensures forall j :: k <= j < n ==> !Pair(fuse, r, j)
    ensures n < Slots(r) ==> Pair(fuse, r, n)
    decreases Slots(r) - k
  {
    if k == Slots(r) || Pair(fuse, r, k) then k else Lowest(fuse, r, k + 1)
  }

  /** The test of the two lowest bits after k shifts by two. */
  predicate FlagPair(flag: seq<bool>, k: nat) {
    (2 * k < |flag| && flag[2 * k]) || (2 * k + 1 < |flag| && flag[2 * k + 1])
  }

  lemma FlagsShowPairs(fuse: seq<bool>, masked: bool, r: Region, k: nat)
    requires Fits(r, |fuse|) && k < Slots(r)
    ensures FlagPair(Seen(fuse, masked, r.flagStart, r.flagBits), k) == Pair(fuse, r, k)
  {
    SlotOnChip(r, |fuse|, k);
    var seen := Seen(fuse, masked, r.flagStart, r.flagBits);
    assert seen[2 * k] == seen[..r.flagBits][2 * k] && seen[2 * k + 1] == seen[..r.flagBits][2 * k + 1];
  }

  /** The first pair of flags from k on that is not zero. */
  function Found(flag: seq<bool>, k: nat): (n: nat)
    ensures k <= n
    ensures 2 * n < |flag| ==> FlagPair(flag, n)
    ensures forall j :: k <= j < n ==> !FlagPair(flag, j)
    decreases |flag| - 2 * k
  {
    if 2 * k >= |flag| || FlagPair(flag, k) then k else Found(flag, k + 1)
  }

  lemma FlagsOnChip(r: Region, size: nat)
    requires Fits(r, size)
    ensures r.flagStart + r.flagBits <= size
  {
    ProductGrows(0, Slots(r), r.dataBits);
  }

  function Flags(fuse: seq<bool>, masked: bool, r: Region): seq<bool>
    requires Fits(r, |fuse|)
  {
    FlagsOnChip(r, |fuse|);
    Seen(fuse, masked, r.flagStart, r.flagBits)
  }

  /** What a read of the region returns when the chip is not busy. Bits seen behind the flags count as flags. */
  function Returned(fuse: seq<bool>, masked: bool, r: Region): (data: Option<seq<bool>>)
    requires Fits(r, |fuse|)
  {
    var flag := Flags(fuse, masked, r);
    var start := SlotStart(r, Found(flag, 0));
    if Zero(flag) || start + r.dataBits > |fuse| then None else Some(fuse[start..start + r.dataBits])
  }

  lemma SomeSet(flag: seq<bool>, k: nat)
    requires FlagPair(flag, k)
    ensures 2 * k < |flag| && !Zero(flag)
  {
  }

  /** If a slot is flagged, the read returns the data of the lowest one. */
  lemma ReturnsLowest(fuse: seq<bool>, masked: bool, r: Region)
    requires Fits(r, |fuse|) && Lowest(fuse, r, 0) < Slots(r)
    ensures Returned(fuse, masked, r) == Some(Slot(fuse, r, Lowest(fuse, r, 0)))
  {
    hide Seen, SlotStart, FlagPair, Found, Lowest, Pair;
    var low, flag := Lowest(fuse, r, 0), Flags(fuse, masked, r);
    FlagsShowPairs(fuse, masked, r, low);
    SomeSet(flag, low);
    FoundFirst(flag, low, 0);
    var n := Found(flag, 0);
    if n < low {
      FlagsShowPairs(fuse, masked, r, n);
    }
    SlotOnChip(r, |fuse|, low);
  }

  // The scan stops at a pair that is not zero, or before.
  lemma {:induction false} FoundFirst(flag: seq<bool>, low: nat, k: nat)
    requires k <= low && FlagPair(flag, low)
    ensures Found(flag, k) <= low && FlagPair(flag, Found(flag, k))
    decreases low - k
  {
    if 2 * k < |flag| && !FlagPair(flag, k) {
      FoundFirst(flag, low, k + 1);
    }
  }

  /** If no slot is flagged, an exact read of an even number of flags returns nothing. */
  lemma ReturnsNothing(fuse: seq<bool>, r: Region)
    requires Fits(r, |fuse|) && r.flagBits % 2 == 0 && Lowest(fuse, r, 0) == Slots(r)
    ensures Returned(fuse, true, r).None?
  {
    hide Seen;
    FlagsOnChip(r, |fuse|);
    var flag := Flags(fuse, true, r);
    forall i | 0 <= i < |flag|
      ensures !flag[i]
    {
      if i < r.flagBits {
        FlagsShowPairs(fuse, true, r, i / 2);
        assert !FlagPair(flag, i / 2);
      } else {
        assert flag[r.flagBits..][i - r.flagBits] == flag[i];
      }
    }
  }

  // As long as no pair was found there is one to come.
  lemma SomeFlag(flag: seq<bool>, k: nat)
    requires !Zero(flag) && |flag| % 2 == 0 && forall j :: 0 <= j < k ==> !FlagPair(flag, j)
    ensures 2 * k < |flag|
  {
    var i :| 0 <= i < |flag| && flag[i];
    assert FlagPair(flag, i / 2);
  }

  // The scan for the first pair.
  method FirstPair(flag: seq<bool>) returns (idx: nat)
    requires !Zero(flag) && |flag| % 2 == 0
    ensures idx == Found(flag, 0)
  {
    idx := 0;
    while !FlagPair(flag, idx)
      invariant 0 <= 2 * idx < |flag|
      invariant Found(flag, idx) == Found(flag, 0)
      invariant forall j :: 0 <= j < idx ==> !FlagPair(flag, j)
      decreases |flag| - idx
    {
      SomeFlag(flag, idx + 1);
      idx := idx + 1;
    }
  }

  // Both cases together.
  lemma FoundByRead(fuse: seq<bool>, masked: bool, r: Region)
    requires Fits(r, |fuse|)
    ensures Lowest(fuse, r, 0) < Slots(r) ==> Returned(fuse, masked, r) == Some(Slot(fuse, r, Lowest(fuse, r, 0)))
    ensures masked && r.flagBits % 2 == 0 && Returned(fuse, masked, r).Some? ==> Lowest(fuse, r, 0) < Slots(r)
  {
    hide Returned, Slot, Pair, SlotStart;
    if Lowest(fuse, r, 0) < Slots(r) {
      ReturnsLowest(fuse, masked, r);
    } else if masked && r.flagBits % 2 == 0 {
      ReturnsNothing(fuse, r);
    }
  }

  /** efpg_read_region */
  method ReadRegion(chip: Chip, r: Region) returns (ack: Ack, data: seq<bool>)
    requires Fits(r, |chip.fuse|)
    ensures ack.Ok? || ack.RwErr? || ack.NoDataErr?
    ensures ack.NoDataErr? ==> Returned(chip.fuse, chip.masked, r).None?
    ensures ack.Ok? ==> |data| >= r.dataBits && Returned(chip.fuse, chip.masked, r) == Some(data[..r.dataBits])
    ensures Lowest(chip.fuse, r, 0) < Slots(r) ==>
              !ack.NoDataErr? && (ack.Ok? ==> data[..r.dataBits] == Slot(chip.fuse, r, Lowest(chip.fuse, r, 0)))
    ensures chip.masked && r.flagBits % 2 == 0 && ack.Ok? ==> Lowest(chip.fuse, r, 0) < Slots(r)
  {
    hide Seen, Zero, FlagPair, Slot, Pair, SlotStart, Found, Lowest;
    FoundByRead(chip.fuse, chip.masked, r);
    data := [];
    var ok, flag := chip.Read(r.flagStart, r.flagBits);
    if !ok {
      return RwErr, data;
    }
    if Zero(flag) {
      return NoDataErr, data;
    }
    var idx := FirstPair(flag);
    ok, data := chip.Read(SlotStart(r, idx), r.dataBits);
    ack := if ok then Ok else RwErr;
  }

  /** efpg_bit_cmp, as a test for equality of the first n bits. */
  function SameBits(a: seq<bool>, b: seq<bool>, n: nat): (same: bool)
    requires n <= |a| && n <= |b|
  {
    a[..n] == b[..n]
  }

  /** What a write attempt to one slot leaves alone: the flags and data of every other slot. */
  predicate OthersKept(before: seq<bool>, after: seq<bool>, r: Region, k: nat)
    requires Fits(r, |before|) && |after| == |before|
  {
    forall j :: 0 <= j < Slots(r) && j != k ==>
      Pair(after, r, j) == Pair(before, r, j) && Slot(after, r, j) == Slot(before, r, j)
  }

  // What one programming does to slot j: nothing where the ranges are apart.
  lemma WriteKeepsSlot(before: seq<bool>, after: seq<bool>, r: Region, j: nat, start: nat, bits: seq<bool>)
    requires Fits(r, |before|) && j < Slots(r) && Programs(before, after, start, bits)
    requires start + |bits| <= SlotStart(r, j) || SlotStart(r, j) + r.dataBits <= start
    ensures Slot(after, r, j) == Slot(before, r, j)
  {
    SlotOnChip(r, |before|, j);
    forall i | SlotStart(r, j) <= i < SlotStart(r, j) + r.dataBits
      ensures after[i] == before[i]
    {
    }
  }

  lemma WriteKeepsPair(before: seq<bool>, after: seq<bool>, r: Region, j: nat, start: nat, bits: seq<bool>)
    requires Fits(r, |before|) && j < Slots(r) && Programs(before, after, start, bits)
    requires start + |bits| <= r.flagStart + 2 * j || r.flagStart + 2 * j + 2 <= start
    ensures Pair(after, r, j) == Pair(before, r, j)
  {
    SlotOnChip(r, |before|, j);
    var i := r.flagStart + 2 * j;
    assert after[i] == before[i] && after[i + 1] == before[i + 1];
  }

  lemma FlagWriteKeeps(before: seq<bool>, after: seq<bool>, r: Region, k: nat, bits: seq<bool>)
    requires Fits(r, |before|) && |after| == |before| && k < Slots(r) && |bits| == 2
    requires Programs(before, after, r.flagStart + 2 * k, bits)
    ensures OthersKept(before, after, r, k) && Slot(after, r, k) == Slot(before, r, k)
  {
    hide Programs, Pair, Slot;
    SlotOnChip(r, |before|, k);
    forall j | 0 <= j < Slots(r)
      ensures j != k ==> Pair(after, r, j) == Pair(before, r, j)
      ensures Slot(after, r, j) == Slot(before, r, j)
    {
      SlotOnChip(r, |before|, j);
      WriteKeepsSlot(before, after, r, j, r.flagStart + 2 * k, bits);
      if j != k {
        WriteKeepsPair(before, after, r, j, r.flagStart + 2 * k, bits);
      }
    }
  }

  lemma SlotsApart(r: Region, j: nat, k: nat)
    requires j < k
    ensures SlotStart(r, j) + r.dataBits <= SlotStart(r, k)
  {
    ProductGrows(j, j + 1, r.dataBits);
    ProductGrows(j + 1, k, r.dataBits);
  }

  lemma DataWriteKeeps(before: seq<bool>, after: seq<bool>, r: Region, k: nat, bits: seq<bool>)
    requires Fits(r, |before|) && |after| == |before| && k < Slots(r) && |bits| == r.dataBits
    requires Programs(before, after, SlotStart(r, k), bits)
    ensures OthersKept(before, after, r, k) && Pair(after, r, k) == Pair(before, r, k)
  {
    hide Programs, Pair, Slot, SlotStart;
    forall j | 0 <= j < Slots(r)
      ensures Pair(after, r, j) == Pair(before, r, j)
      ensures j != k ==> Slot(after, r, j) == Slot(before, r, j)
    {
      SlotOnChip(r, |before|, j);
      SlotOnChip(r, |before|, k);
      WriteKeepsPair(before, after, r, j, SlotStart(r, k), bits);
      if j != k {
        SlotsApart(r, if j < k then j else k, if j < k then k else j);
        WriteKeepsSlot(before, after, r, j, SlotStart(r, k), bits);
      }
    }
  }

  // ---------- What a write may do ----------

  /** A try of one slot: first its flags are written, and where they read as zero the slot is given up; then
      the data is written, and the try succeeds if it reads back. */
  ghost predicate Tried(before: seq<bool>, middle: seq<bool>, after: seq<bool>, masked: bool, r: Region, k: nat,
                        data: seq<bool>, ok: bool)
    requires Fits(r, |before|) && k < Slots(r) && |data| == r.dataBits
  {
    && Programs(before, middle, FlagAt(r, k), [true, true])
    && if ReadsZero(middle, masked, r, k) then !ok && after == middle
       else Programs(middle, after, SlotStart(r, k), data) && (ok <==> Slot(after, r, k) == data)
  }

  ghost predicate Attempt(before: seq<bool>, after: seq<bool>, masked: bool, r: Region, k: nat, data: seq<bool>,
                          ok: bool)
    requires Fits(r, |before|) && k < Slots(r) && |data| == r.dataBits
    ensures Attempt(before, after, masked, r, k, data, ok) ==> |after| == |before|
  {
    |after| == |before| && exists middle :: Tried(before, middle, after, masked, r, k, data, ok)
  }

  /** A successful write: the slots below k are tried downwards, and the try of one of them succeeds. */
  ghost predicate Run(before: seq<bool>, after: seq<bool>, masked: bool, r: Region, k: nat, data: seq<bool>, slot: nat)
    requires Fits(r, |before|) && k <= Slots(r) && |data| == r.dataBits
    ensures Run(before, after, masked, r, k, data, slot) ==> |after| == |before| && slot < k
    decreases k, 1
  {
    && slot < k && |after| == |before|
    && if slot == k - 1 then Attempt(before, after, masked, r, slot, data, true)
       else exists next :: GoesOn(before, next, after, masked, r, k, data, slot)
  }

  ghost predicate GoesOn(before: seq<bool>, next: seq<bool>, after: seq<bool>, masked: bool, r: Region, k: nat,
                         data: seq<bool>, slot: nat)
    requires Fits(r, |before|) && 0 < k <= Slots(r) && |data| == r.dataBits
    decreases k, 0
  {
    Attempt(before, next, masked, r, k - 1, data, false) && Run(next, after, masked, r, k - 1, data, slot)
  }

  /** A write that fails: all slots below k are tried downwards, each of them in vain. */
  ghost predicate Vain(before: seq<bool>, after: seq<bool>, masked: bool, r: Region, k: nat, data: seq<bool>)
    requires Fits(r, |before|) && k <= Slots(r) && |data| == r.dataBits
    decreases k, 1
  {
    if k == 0 then after == before
    else exists next :: VainFirst(before, next, after, masked, r, k, data)
  }

  ghost predicate VainFirst(before: seq<bool>, next: seq<bool>, after: seq<bool>, masked: bool, r: Region, k: nat,
                            data: seq<bool>)
    requires Fits(r, |before|) && 0 < k <= Slots(r) && |data| == r.dataBits
    decreases k, 0
  {
    Attempt(before, next, masked, r, k - 1, data, false) && Vain(next, after, masked, r, k - 1, data)
  }

  /** The slot has no 1 where the data has 0. */
  predicate CanHold(fuse: seq<bool>, r: Region, k: nat, data: seq<bool>)
    requires Fits(r, |fuse|) && k < Slots(r) && |data| == r.dataBits
  {
    var slot := Slot(fuse, r, k);
    forall i :: 0 <= i < r.dataBits && slot[i] ==> data[i]
  }

  /** The fuses with data in a slot. */
  function WithSlot(fuse: seq<bool>, r: Region, k: nat, data: seq<bool>): (after: seq<bool>)
    requires Fits(r, |fuse|) && k < Slots(r) && |data| == r.dataBits
    ensures |after| == |fuse| && Slot(after, r, k) == data
  {
    SlotOnChip(r, |fuse|, k);
    fuse[..SlotStart(r, k)] + data + fuse[SlotStart(r, k) + r.dataBits..]
  }

  /** Fuses only went from 0 to 1. */
  predicate Grown(before: seq<bool>, after: seq<bool>) {
    |after| == |before| && forall i :: 0 <= i < |before| && before[i] ==> after[i]
  }

  lemma ReadsZeroBefore(before: seq<bool>, after: seq<bool>, masked: bool, r: Region, k: nat)
    requires Fits(r, |before|) && k < Slots(r) && Grown(before, after) && ReadsZero(after, masked, r, k)
    ensures ReadsZero(before, masked, r, k)
  {
    SlotOnChip(r, |before|, k);
    var s0, s1 := Seen(before, masked, FlagAt(r, k), 2), Seen(after, masked, FlagAt(r, k), 2);
    forall i | 0 <= i < |s0|
      ensures !s0[i]
    {
      assert !s1[i];
    }
  }

  /** Flags that read as zero are not set; with exact reads that is all there is to it. */
  lemma ZeroFlags(fuse: seq<bool>, masked: bool, r: Region, k: nat)
    requires Fits(r, |fuse|) && k < Slots(r)
    ensures ReadsZero(fuse, masked, r, k) ==> !Pair(fuse, r, k)
    ensures masked ==> (ReadsZero(fuse, masked, r, k) <==> !Pair(fuse, r, k))
  {
    SlotOnChip(r, |fuse|, k);
    var i := FlagAt(r, k);
    var tmp := Seen(fuse, masked, i, 2);
    assert tmp[..2][0] == fuse[i] && tmp[..2][1] == fuse[i + 1];
    assert tmp[0] == fuse[i] && tmp[1] == fuse[i + 1];
    if masked {
      forall j | 2 <= j < |tmp|
        ensures !tmp[j]
      {
        assert tmp[2..][j - 2] == tmp[j];
      }
    }
  }

  lemma AttemptKeeps(before: seq<bool>, after: seq<bool>, masked: bool, r: Region, k: nat, data: seq<bool>, ok: bool)
    requires Fits(r, |before|) && k < Slots(r) && |data| == r.dataBits
    requires Attempt(before, after, masked, r, k, data, ok)
    ensures Grown(before, after) && OthersKept(before, after, r, k)
  {
    hide ReadsZero, Pair, Slot;
    var middle :| Tried(before, middle, after, masked, r, k, data, ok);
    FlagWriteKeeps(before, middle, r, k, [true, true]);
    if !ReadsZero(middle, masked, r, k) {
      DataWriteKeeps(middle, after, r, k, data);
    }
  }

  /** A success: the slot could hold the data, and does. Its flags are set, or they read as not zero before;
      in that case nothing but the data was programmed. */
  lemma SuccessFacts(before: seq<bool>, after: seq<bool>, masked: bool, r: Region, k: nat, data: seq<bool>)
    requires Fits(r, |before|) && k < Slots(r) && |data| == r.dataBits
    requires Attempt(before, after, masked, r, k, data, true)
    ensures CanHold(before, r, k, data) && Slot(after, r, k) == data
    ensures masked ==> Pair(after, r, k)
    ensures !Pair(after, r, k) ==> !ReadsZero(before, masked, r, k) && after == WithSlot(before, r, k, data)
  {
    hide ReadsZero;
    var middle :| Tried(before, middle, after, masked, r, k, data, true);
    SlotOnChip(r, |before|, k);
    FlagWriteKeeps(before, middle, r, k, [true, true]);
    DataWriteKeeps(middle, after, r, k, data);
    ZeroFlags(middle, masked, r, k);
    var start := SlotStart(r, k);
    forall i | 0 <= i < r.dataBits && Slot(before, r, k)[i]
      ensures data[i]
    {
      assert middle[start + i] && after[start + i] && Slot(after, r, k)[i];
    }
    if !Pair(after, r, k) {
      FlagsStuck(before, middle, r, k);
      var goal := WithSlot(before, r, k, data);
      forall i | 0 <= i < |before|
        ensures after[i] == goal[i]
      {
        if start <= i < start + r.dataBits {
          assert after[i] == Slot(after, r, k)[i - start];
        }
      }
    }
  }

  lemma FlagsStuck(before: seq<bool>, middle: seq<bool>, r: Region, k: nat)
    requires Fits(r, |before|) && k < Slots(r) && Programs(before, middle, FlagAt(r, k), [true, true])
    requires !Pair(middle, r, k)
    ensures middle == before
  {
    SlotOnChip(r, |before|, k);
    forall i | 0 <= i < |before|
      ensures middle[i] == before[i]
    {
    }
  }

  /** A slot that holds the data already is given up only if its flags read as zero, and then nothing changes. */
  lemma HeldGivenUp(before: seq<bool>, after: seq<bool>, masked: bool, r: Region, k: nat, data: seq<bool>)
    requires Fits(r, |before|) && k < Slots(r) && |data| == r.dataBits && Slot(before, r, k) == data
    requires Attempt(before, after, masked, r, k, data, false)
    ensures after == before && ReadsZero(before, masked, r, k)
  {
    hide ReadsZero;
    var middle :| Tried(before, middle, after, masked, r, k, data, false);
    SlotOnChip(r, |before|, k);
    FlagWriteKeeps(before, middle, r, k, [true, true]);
    if ReadsZero(middle, masked, r, k) {
      ZeroFlags(middle, masked, r, k);
      FlagsStuck(before, middle, r, k);
    } else {
      HeldTakes(middle, after, r, k, data);
    }
  }

  lemma HeldTakes(before: seq<bool>, after: seq<bool>, r: Region, k: nat, data: seq<bool>)
    requires Fits(r, |before|) && k < Slots(r) && |data| == r.dataBits && Slot(before, r, k) == data
    requires Programs(before, after, SlotStart(r, k), data)
    ensures Slot(after, r, k) == data
  {
    SlotOnChip(r, |before|, k);
    var start := SlotStart(r, k);
    forall i | start <= i < start + r.dataBits
      ensures after[i] == before[i]
    {
      assert before[i] == Slot(before, r, k)[i - start];
    }
  }

  /** Any other slot may be given up with nothing programmed. */
  lemma MayGiveUp(fuse: seq<bool>, masked: bool, r: Region, k: nat, data: seq<bool>)
    requires Fits(r, |fuse|) && k < Slots(r) && |data| == r.dataBits
    requires ReadsZero(fuse, masked, r, k) || Slot(fuse, r, k) != data
    ensures Attempt(fuse, fuse, masked, r, k, data, false)
  {
    assert Tried(fuse, fuse, fuse, masked, r, k, data, false);
  }

  lemma {:induction false} LowestIs(fuse: seq<bool>, r: Region, from: nat, k: nat)
    requires Fits(r, |fuse|) && from <= k < Slots(r) && forall j :: from <= j < k ==> !Pair(fuse, r, j)
    ensures Lowest(fuse, r, from) == k <==> Pair(fuse, r, k)
    decreases k - from
  {
    if from < k {
      LowestIs(fuse, r, from + 1, k);
    }
  }

  /** What a successful write leaves: the data in a slot below those that were flagged, no flags under it, and
      the flags and data of the slots that were flagged. With exact reads the slot is flagged. */
  lemma {:induction false} RunKeeps(before: seq<bool>, after: seq<bool>, masked: bool, r: Region, k: nat,
                                    data: seq<bool>, slot: nat)
    requires Fits(r, |before|) && k <= Slots(r) && |data| == r.dataBits
    requires forall j :: 0 <= j < k ==> !Pair(before, r, j)
    requires Run(before, after, masked, r, k, data, slot)
    decreases k
    ensures Slot(after, r, slot) == data && forall j :: 0 <= j < slot ==> !Pair(after, r, j)
    ensures forall j :: k <= j < Slots(r) ==>
              Pair(after, r, j) == Pair(before, r, j) && Slot(after, r, j) == Slot(before, r, j)
    ensures masked ==> Pair(after, r, slot)
  {
    hide Attempt, Pair, Slot;
    if slot == k - 1 {
      SuccessFacts(before, after, masked, r, slot, data);
      AttemptKeeps(before, after, masked, r, slot, data, true);
    } else {
      var next :| GoesOn(before, next, after, masked, r, k, data, slot);
      AttemptKeeps(before, next, masked, r, k - 1, data, false);
      RunKeeps(next, after, masked, r, k - 1, data, slot);
    }
  }

  // The same for all slots below the lowest flagged one.
  lemma Written(before: seq<bool>, after: seq<bool>, masked: bool, r: Region, data: seq<bool>, slot: nat)
    requires Fits(r, |before|) && |data| == r.dataBits
    requires Run(before, after, masked, r, Lowest(before, r, 0), data, slot)
    ensures Slot(after, r, slot) == data && forall j :: 0 <= j < slot ==> !Pair(after, r, j)
    ensures masked ==> Pair(after, r, slot)
    ensures slot == Lowest(before, r, 0) - 1 && ReadsZero(before, masked, r, slot) ==> Pair(after, r, slot)
  {
    hide Attempt, Pair, Slot, ReadsZero;
    RunKeeps(before, after, masked, r, Lowest(before, r, 0), data, slot);
    if slot == Lowest(before, r, 0) - 1 {
      SuccessFacts(before, after, masked, r, slot, data);
    }
  }

  // ---------- efpg_write_region ----------

  /** efpg_write_region: the slots below the lowest flagged one are tried downwards. Slots that were
      flagged before keep their flags and data. On success the data is in a slot below and the slots under it
      have no flag; the slot itself has one if reads are exact, or if it was the first one tried and its flags
      read as zero before. */
  method WriteRegion(chip: Chip, r: Region, data: seq<bool>) returns (ack: Ack, ghost slot: nat)
    requires Fits(r, |chip.fuse|) && r.dataBits <= |data|
    modifies chip
    ensures |chip.fuse| == |old(chip.fuse)|
    ensures ack.Ok? || ack.RwErr? || ack.DiErr?
    ensures ack.DiErr? ==>
              Vain(old(chip.fuse), chip.fuse, chip.masked, r, Lowest(old(chip.fuse), r, 0), data[..r.dataBits])
    ensures forall j :: Lowest(old(chip.fuse), r, 0) <= j < Slots(r) ==>
              Pair(chip.fuse, r, j) == Pair(old(chip.fuse), r, j) && Slot(chip.fuse, r, j) == Slot(old(chip.fuse), r, j)
    ensures ack.Ok? ==>
              Run(old(chip.fuse), chip.fuse, chip.masked, r, Lowest(old(chip.fuse), r, 0), data[..r.dataBits], slot)
    ensures ack.Ok? ==>
              && slot < Lowest(old(chip.fuse), r, 0)
              && Slot(chip.fuse, r, slot) == data[..r.dataBits]
              && (forall j :: 0 <= j < slot ==> !Pair(chip.fuse, r, j))
              && (chip.masked ==> Pair(chip.fuse, r, slot))
              && (slot == Lowest(old(chip.fuse), r, 0) - 1 && ReadsZero(old(chip.fuse), chip.masked, r, slot) ==>
                    Pair(chip.fuse, r, slot))
  {
    hide Seen, Attempt, Pair, Slot, ReadsZero;
    slot := 0;
    ghost var first, low, bits := chip.fuse, Lowest(chip.fuse, r, 0), data[..r.dataBits];
    var ok, flag := chip.Read(r.flagStart, r.flagBits);
    if !ok {
      return RwErr, slot;
    }
    var idx := FindFree(chip, r, flag);
    while idx > 0
      invariant 0 <= idx <= low && |chip.fuse| == |first|
      invariant forall after, n :: Run(chip.fuse, after, chip.masked, r, idx, bits, n) ==>
                  Run(first, after, chip.masked, r, low, bits, n)
      invariant forall after :: Vain(chip.fuse, after, chip.masked, r, idx, bits) ==>
                  Vain(first, after, chip.masked, r, low, bits)
      invariant forall j :: low <= j < Slots(r) ==>
                  Pair(chip.fuse, r, j) == Pair(first, r, j) && Slot(chip.fuse, r, j) == Slot(first, r, j)
    {
      ghost var now := chip.fuse;
      ack := TrySlot(chip, r, idx - 1, data);
      if ack.Ok? || ack.RwErr? {
        slot := idx - 1;
        if ack.Ok? {
          assert Run(now, chip.fuse, chip.masked, r, idx, bits, slot);
          Written(first, chip.fuse, chip.masked, r, bits, slot);
        }
        return;
      }
      GoOn(now, chip.fuse, chip.masked, r, idx, bits);
      idx := idx - 1;
    }
    ack := DiErr;
  }

  lemma GoOn(now: seq<bool>, next: seq<bool>, masked: bool, r: Region, k: nat, data: seq<bool>)
    requires Fits(r, |now|) && 0 < k <= Slots(r) && |data| == r.dataBits
    requires Attempt(now, next, masked, r, k - 1, data, false)
    ensures forall after, n :: Run(next, after, masked, r, k - 1, data, n) ==> Run(now, after, masked, r, k, data, n)
    ensures forall after :: Vain(next, after, masked, r, k - 1, data) ==> Vain(now, after, masked, r, k, data)
  {
    hide Attempt;
    forall after | Vain(next, after, masked, r, k - 1, data)
      ensures Vain(now, after, masked, r, k, data)
    {
      assert VainFirst(now, next, after, masked, r, k, data);
    }
    forall after, n | Run(next, after, masked, r, k - 1, data, n)
      ensures Run(now, after, masked, r, k, data, n)
    {
      assert GoesOn(now, next, after, masked, r, k, data, n);
    }
  }

  // The scan of the flags.
  method FindFree(chip: Chip, r: Region, flag: seq<bool>) returns (idx: nat)
    requires Fits(r, |chip.fuse|) && flag == Seen(chip.fuse, chip.masked, r.flagStart, r.flagBits)
    ensures idx == Lowest(chip.fuse, r, 0)
  {
    hide Seen;
    idx := 0;
    while idx < r.flagBits / 2 && !FlagPair(flag, idx)
      invariant 0 <= idx <= Slots(r)
      invariant Lowest(chip.fuse, r, idx) == Lowest(chip.fuse, r, 0)
    {
      FlagsShowPairs(chip.fuse, chip.masked, r, idx);
      idx := idx + 1;
    }
    if idx < Slots(r) {
      FlagsShowPairs(chip.fuse, chip.masked, r, idx);
    }
  }

  // The body of the loop that tries one slot; DiErr stands for going on with the next one.
  method TrySlot(chip: Chip, r: Region, k: nat, data: seq<bool>) returns (ack: Ack)
    requires Fits(r, |chip.fuse|) && k < Slots(r) && r.dataBits <= |data|
    modifies chip
    ensures |chip.fuse| == |old(chip.fuse)| && OthersKept(old(chip.fuse), chip.fuse, r, k)
    ensures ack.Ok? || ack.RwErr? || ack.DiErr?
    ensures !ack.RwErr? ==> Attempt(old(chip.fuse), chip.fuse, chip.masked, r, k, data[..r.dataBits], ack.Ok?)
  {
    hide Seen;
    SlotOnChip(r, |chip.fuse|, k);
    ghost var before := chip.fuse;
    var flagAt := r.flagStart + 2 * k;
    var ok := chip.Write(flagAt, 2, [true, true]);
    assert [true, true][..2] == [true, true];
    FlagWriteKeeps(before, chip.fuse, r, k, [true, true]);
    if !ok {
      return RwErr;
    }
    var tmp;
    ok, tmp := chip.Read(flagAt, 2);
    if !ok {
      return RwErr;
    }
    ghost var middle := chip.fuse;
    if Zero(tmp) {
      assert Tried(before, middle, chip.fuse, chip.masked, r, k, data[..r.dataBits], false);
      return DiErr;
    }
    ok := chip.Write(SlotStart(r, k), r.dataBits, data);
    DataWriteKeeps(middle, chip.fuse, r, k, data[..r.dataBits]);
    if !ok {
      return RwErr;
    }
    var buf;
    ok, buf := chip.Read(SlotStart(r, k), r.dataBits);
    if !ok {
      return RwErr;
    }
    ack := if SameBits(data, buf, r.dataBits) then Ok else DiErr;
    assert Tried(before, middle, chip.fuse, chip.masked, r, k, data[..r.dataBits], ack.Ok?);
  }

  // ---------- The protocol ----------

  /** What a successful write says about the fuses before it: its slot could hold the data, and each slot above
      it could be given up. If those held the data already, nothing was programmed before the last try. */
  lemma {:induction false} RunShape(before: seq<bool>, after: seq<bool>, masked: bool, r: Region, k: nat,
                                    data: seq<bool>, slot: nat)
    requires Fits(r, |before|) && k <= Slots(r) && |data| == r.dataBits
    requires Run(before, after, masked, r, k, data, slot)
    decreases k
    ensures CanHold(before, r, slot, data)
    ensures forall j :: slot < j < k ==> ReadsZero(before, masked, r, j) || Slot(before, r, j) != data
    ensures (forall j :: slot < j < k ==> Slot(before, r, j) == data) ==>
              Attempt(before, after, masked, r, slot, data, true)
  {
    hide Attempt, ReadsZero, Slot, Pair;
    if slot == k - 1 {
      SuccessFacts(before, after, masked, r, slot, data);
    } else {
      var next :| GoesOn(before, next, after, masked, r, k, data, slot);
      AttemptKeeps(before, next, masked, r, k - 1, data, false);
      RunShape(next, after, masked, r, k - 1, data, slot);
      assert Slot(next, r, slot) == Slot(before, r, slot);
      forall j | slot < j < k
        ensures ReadsZero(before, masked, r, j) || Slot(before, r, j) != data
      {
        if j < k - 1 {
          if ReadsZero(next, masked, r, j) {
            ReadsZeroBefore(before, next, masked, r, j);
          }
        } else if Slot(before, r, j) == data {
          HeldGivenUp(before, next, masked, r, j, data);
        }
      }
      if Slot(before, r, k - 1) == data {
        HeldGivenUp(before, next, masked, r, k - 1, data);
      }
    }
  }

  /** Every slot between could be given up before. */
  predicate Reached(fuse: seq<bool>, masked: bool, r: Region, slot: nat, k: nat, data: seq<bool>)
    requires Fits(r, |fuse|) && k <= Slots(r) && |data| == r.dataBits
  {
    forall j :: slot < j < k ==> ReadsZero(fuse, masked, r, j) || Slot(fuse, r, j) != data
  }

  /** Stuck flags of a slot can go unnoticed, and the next read then returns something else than the data: the
      slot above may be flagged and have failed to take the data, or other fuses are seen in the test of the flags
      already and the read does not come upon the data elsewhere. */
  predicate GoesWrong(fuse: seq<bool>, masked: bool, r: Region, slot: nat, k: nat, data: seq<bool>)
    requires Fits(r, |fuse|) && slot < k <= Slots(r) && |data| == r.dataBits
  {
    || (slot + 1 < k && Slot(fuse, r, slot + 1) != data)
    || (!ReadsZero(fuse, masked, r, slot) && Returned(WithSlot(fuse, r, slot, data), masked, r) != Some(data))
  }

  /** With reads that show the fuses behind, a write to these fuses may succeed in vain. */
  predicate AtRisk(fuse: seq<bool>, masked: bool, r: Region, data: seq<bool>)
    requires Fits(r, |fuse|) && |data| == r.dataBits
  {
    var low := Lowest(fuse, r, 0);
    !masked && exists slot :: 0 <= slot < low && CanHold(fuse, r, slot, data) &&
                 Reached(fuse, masked, r, slot, low, data) && GoesWrong(fuse, masked, r, slot, low, data)
  }

  // Above a slot that can hold the data and below one that does not hold it there are two such slots side by side.
  lemma {:induction false} SideBySide(fuse: seq<bool>, masked: bool, r: Region, slot: nat, j: nat, k: nat,
                                      data: seq<bool>) returns (m: nat)
    requires Fits(r, |fuse|) && slot < j < k <= Slots(r) && |data| == r.dataBits
    requires CanHold(fuse, r, slot, data) && Slot(fuse, r, j) != data && Reached(fuse, masked, r, slot, k, data)
    ensures slot <= m < m + 1 < k && CanHold(fuse, r, m, data) && Slot(fuse, r, m + 1) != data
    ensures Reached(fuse, masked, r, m, k, data)
    decreases j
  {
    hide ReadsZero, Pair;
    if CanHold(fuse, r, j - 1, data) {
      m := j - 1;
    } else {
      m := SideBySide(fuse, masked, r, slot, j - 1, k, data);
    }
  }

  /** A write that succeeds in vain was at risk. */
  lemma VainAtRisk(before: seq<bool>, after: seq<bool>, masked: bool, r: Region, data: seq<bool>, slot: nat)
    requires Fits(r, |before|) && |data| == r.dataBits
    requires Run(before, after, masked, r, Lowest(before, r, 0), data, slot)
    requires Returned(after, masked, r) != Some(data)
    ensures AtRisk(before, masked, r, data)
  {
    hide Attempt, ReadsZero, Slot, Pair, Returned, WithSlot, CanHold;
    var low := Lowest(before, r, 0);
    RunKeeps(before, after, masked, r, low, data, slot);
    LowestIs(after, r, 0, slot);
    if Pair(after, r, slot) {
      ReturnsLowest(after, masked, r);
      assert false;
    }
    RunShape(before, after, masked, r, low, data, slot);
    if j :| slot < j < low && Slot(before, r, j) != data {
      var m := SideBySide(before, masked, r, slot, j, low, data);
      assert GoesWrong(before, masked, r, m, low, data);
    } else {
      SuccessFacts(before, after, masked, r, slot, data);
      assert GoesWrong(before, masked, r, slot, low, data);
    }
  }

  // Down to a slot with nothing programmed.
  lemma {:induction false} GiveUpAbove(fuse: seq<bool>, after: seq<bool>, masked: bool, r: Region, slot: nat, k: nat,
                                       n: nat, data: seq<bool>)
    requires Fits(r, |fuse|) && slot < k <= Slots(r) && |data| == r.dataBits
    requires Reached(fuse, masked, r, slot, k, data) && Run(fuse, after, masked, r, slot + 1, data, n)
    ensures Run(fuse, after, masked, r, k, data, n)
    decreases k
  {
    hide Attempt, ReadsZero, Slot, Pair;
    if slot + 1 < k {
      GiveUpAbove(fuse, after, masked, r, slot, k - 1, n, data);
      MayGiveUp(fuse, masked, r, k - 1, data);
      assert GoesOn(fuse, fuse, after, masked, r, k, data, n);
    }
  }

  /** The fuses with both flags of a slot set. */
  function WithFlags(fuse: seq<bool>, r: Region, k: nat): (after: seq<bool>)
    requires Fits(r, |fuse|) && k < Slots(r)
    ensures |after| == |fuse| && Programs(fuse, after, FlagAt(r, k), [true, true])
    ensures FlagAt(r, k) < |after| && after[FlagAt(r, k)] && Pair(after, r, k)
  {
    SlotOnChip(r, |fuse|, k);
    fuse[FlagAt(r, k) := true][FlagAt(r, k) + 1 := true]
  }

  // The flags take and the data does not.
  lemma FlaggedInVain(fuse: seq<bool>, masked: bool, r: Region, k: nat, data: seq<bool>)
    requires Fits(r, |fuse|) && k < Slots(r) && |data| == r.dataBits && Slot(fuse, r, k) != data
    ensures var after := WithFlags(fuse, r, k);
            && Attempt(fuse, after, masked, r, k, data, false) && OthersKept(fuse, after, r, k)
            && Slot(after, r, k) == Slot(fuse, r, k)
  {
    hide ReadsZero, Pair;
    var after := WithFlags(fuse, r, k);
    FlagWriteKeeps(fuse, after, r, k, [true, true]);
    ZeroFlags(after, masked, r, k);
    assert Programs(after, after, SlotStart(r, k), data);
    assert Tried(fuse, after, after, masked, r, k, data, false);
  }

  /** Flags of the slot above are seen in the test of the flags of a slot. */
  lemma FlagsAboveSeen(fuse: seq<bool>, r: Region, k: nat)
    requires Fits(r, |fuse|) && k + 1 < Slots(r) && fuse[FlagAt(r, k + 1)]
    ensures !ReadsZero(fuse, false, r, k)
  {
    SlotOnChip(r, |fuse|, k);
    var seen := Seen(fuse, false, FlagAt(r, k), 2);
    assert FlagAt(r, k) + 2 == FlagAt(r, k + 1);
    assert seen[2];
  }

  // The flags are stuck and pass for set, and the data takes.
  lemma StuckUnnoticed(fuse: seq<bool>, masked: bool, r: Region, k: nat, data: seq<bool>)
    requires Fits(r, |fuse|) && k < Slots(r) && |data| == r.dataBits
    requires CanHold(fuse, r, k, data) && !ReadsZero(fuse, masked, r, k)
    ensures Attempt(fuse, WithSlot(fuse, r, k, data), masked, r, k, data, true)
    ensures OthersKept(fuse, WithSlot(fuse, r, k, data), r, k)
    ensures Pair(WithSlot(fuse, r, k, data), r, k) == Pair(fuse, r, k)
  {
    hide ReadsZero, Pair;
    SlotOnChip(r, |fuse|, k);
    var after, start := WithSlot(fuse, r, k, data), SlotStart(r, k);
    assert Programs(fuse, fuse, FlagAt(r, k), [true, true]);
    forall i | 0 <= i < |fuse|
      ensures after[i] == fuse[i] || (!fuse[i] && start <= i < start + r.dataBits && data[i - start])
    {
      if start <= i < start + r.dataBits {
        assert fuse[i] == Slot(fuse, r, k)[i - start];
      }
    }
    assert Programs(fuse, after, start, data);
    DataWriteKeeps(fuse, after, r, k, data);
    assert Tried(fuse, fuse, after, masked, r, k, data, true);
  }

  /** Where there is a risk, some write succeeds in vain. */
  lemma RiskInVain(fuse: seq<bool>, r: Region, data: seq<bool>) returns (after: seq<bool>, slot: nat)
    requires Fits(r, |fuse|) && |data| == r.dataBits && AtRisk(fuse, false, r, data)
    ensures Run(fuse, after, false, r, Lowest(fuse, r, 0), data, slot)
    ensures Returned(after, false, r) != Some(data)
  {
    hide Attempt, ReadsZero, Slot, Pair, Returned, WithSlot, CanHold, WithFlags;
    var low := Lowest(fuse, r, 0);
    slot :| 0 <= slot < low && CanHold(fuse, r, slot, data) &&
            Reached(fuse, false, r, slot, low, data) && GoesWrong(fuse, false, r, slot, low, data);
    if slot + 1 < low && Slot(fuse, r, slot + 1) != data {
      after := FlagAboveInVain(fuse, r, slot, data);
      GiveUpAbove(fuse, after, false, r, slot + 1, low, slot, data);
    } else {
      after := WithSlot(fuse, r, slot, data);
      StuckUnnoticed(fuse, false, r, slot, data);
      assert Run(fuse, after, false, r, slot + 1, data, slot);
      GiveUpAbove(fuse, after, false, r, slot, low, slot, data);
    }
  }

  // The slot above takes its flags and not the data, and hides that the flags of this one are stuck.
  lemma FlagAboveInVain(fuse: seq<bool>, r: Region, slot: nat, data: seq<bool>) returns (after: seq<bool>)
    requires Fits(r, |fuse|) && slot + 1 < Slots(r) && |data| == r.dataBits
    requires forall j :: 0 <= j <= slot ==> !Pair(fuse, r, j)
    requires CanHold(fuse, r, slot, data) && Slot(fuse, r, slot + 1) != data
    ensures Run(fuse, after, false, r, slot + 2, data, slot)
    ensures Returned(after, false, r) != Some(data)
  {
    hide Attempt, ReadsZero, Pair, Returned, WithSlot, WithFlags, OthersKept, CanHold;
    var next := WithFlags(fuse, r, slot + 1);
    FlaggedInVain(fuse, false, r, slot + 1, data);
    KeptAt(fuse, next, r, slot + 1, slot);
    FlagsAboveSeen(next, r, slot);
    SameHold(fuse, next, r, slot, data);
    after := WithSlot(next, r, slot, data);
    StuckUnnoticed(next, false, r, slot, data);
    assert Run(next, after, false, r, slot + 1, data, slot);
    assert GoesOn(fuse, next, after, false, r, slot + 2, data, slot);
    FoundAbove(fuse, next, after, r, slot, data);
  }

  lemma KeptAt(before: seq<bool>, after: seq<bool>, r: Region, k: nat, j: nat)
    requires Fits(r, |before|) && |after| == |before| && j < Slots(r) && j != k && OthersKept(before, after, r, k)
    ensures Pair(after, r, j) == Pair(before, r, j) && Slot(after, r, j) == Slot(before, r, j)
  {
  }

  lemma SameHold(before: seq<bool>, after: seq<bool>, r: Region, k: nat, data: seq<bool>)
    requires Fits(r, |before|) && |after| == |before| && k < Slots(r) && |data| == r.dataBits
    requires Slot(after, r, k) == Slot(before, r, k)
    ensures CanHold(after, r, k, data) == CanHold(before, r, k, data)
  {
  }

  // The read comes upon the slot above.
  lemma FoundAbove(fuse: seq<bool>, next: seq<bool>, after: seq<bool>, r: Region, slot: nat, data: seq<bool>)
    requires Fits(r, |fuse|) && slot + 1 < Slots(r) && |data| == r.dataBits && |fuse| == |next| == |after|
    requires forall j :: 0 <= j <= slot ==> !Pair(fuse, r, j)
    requires OthersKept(fuse, next, r, slot + 1) && Slot(next, r, slot + 1) == Slot(fuse, r, slot + 1) != data
    requires Pair(next, r, slot + 1)
    requires OthersKept(next, after, r, slot) && Pair(after, r, slot) == Pair(next, r, slot)
    ensures Returned(after, false, r) != Some(data)
  {
    hide Pair, Returned, OthersKept;
    forall j | 0 <= j <= slot
      ensures !Pair(after, r, j)
    {
      KeptAt(fuse, next, r, slot + 1, j);
      if j < slot {
        KeptAt(next, after, r, slot, j);
      }
    }
    KeptAt(next, after, r, slot, slot + 1);
    LowestIs(after, r, 0, slot + 1);
    ReturnsLowest(after, false, r);
  }

  /** Every write that succeeds is returned by the next read, whatever fuses fail, if and only if the fuses are not
      at risk before. With exact reads they never are. */
  lemma WriteExact(fuse: seq<bool>, masked: bool, r: Region, data: seq<bool>)
    requires Fits(r, |fuse|) && |data| == r.dataBits
    ensures !AtRisk(fuse, masked, r, data) <==>
            forall after, slot :: Run(fuse, after, masked, r, Lowest(fuse, r, 0), data, slot) ==>
              Returned(after, masked, r) == Some(data)
  {
    hide Run, AtRisk, Returned;
    forall after, slot | Run(fuse, after, masked, r, Lowest(fuse, r, 0), data, slot) && !AtRisk(fuse, masked, r, data)
      ensures Returned(after, masked, r) == Some(data)
    {
      if Returned(after, masked, r) != Some(data) {
        VainAtRisk(fuse, after, masked, r, data, slot);
      }
    }
    if AtRisk(fuse, masked, r, data) {
      NotMasked(fuse, masked, r, data);
      var after, slot := RiskInVain(fuse, r, data);
    }
  }

  lemma NotMasked(fuse: seq<bool>, masked: bool, r: Region, data: seq<bool>)
    requires Fits(r, |fuse|) && |data| == r.dataBits && AtRisk(fuse, masked, r, data)
    ensures !masked
  {
  }

  /** One slot: a try that succeeds has always set a flag, if and only if the flags read as zero before. */
  lemma GuardExact(fuse: seq<bool>, masked: bool, r: Region, k: nat)
    requires Fits(r, |fuse|) && k < Slots(r) && !Pair(fuse, r, k)
    ensures ReadsZero(fuse, masked, r, k) <==>
            forall middle :: Programs(fuse, middle, FlagAt(r, k), [true, true]) && !ReadsZero(middle, masked, r, k) ==>
              Pair(middle, r, k)
  {
    hide ReadsZero, Pair;
    forall middle | Programs(fuse, middle, FlagAt(r, k), [true, true]) && !ReadsZero(middle, masked, r, k)
      ensures ReadsZero(fuse, masked, r, k) ==> Pair(middle, r, k)
    {
      if !Pair(middle, r, k) {
        FlagsStuck(fuse, middle, r, k);
      }
    }
    assert Programs(fuse, fuse, FlagAt(r, k), [true, true]);
  }

  /** A write and the next read. If both succeed, the read returns the data, provided that the fuses were not at risk
      before, or that the flag of the slot took. */
  method WriteThenRead(chip: Chip, r: Region, data: seq<bool>)
    returns (written: Ack, read: Ack, back: seq<bool>, ghost slot: nat)
    requires Fits(r, |chip.fuse|) && r.dataBits <= |data|
    modifies chip
    ensures |chip.fuse| == |old(chip.fuse)|
    ensures written.Ok? ==>
              && slot < Slots(r)
              && (chip.masked ==> Pair(chip.fuse, r, slot))
              && (Lowest(chip.fuse, r, 0) == slot <==> Pair(chip.fuse, r, slot))
    ensures written.Ok? && (Pair(chip.fuse, r, slot) || !AtRisk(old(chip.fuse), chip.masked, r, data[..r.dataBits])) ==>
              !read.NoDataErr? && (read.Ok? ==> |back| >= r.dataBits && back[..r.dataBits] == data[..r.dataBits])
  {
    hide Run, AtRisk, Pair, Slot, Returned;
    ghost var before, bits := chip.fuse, data[..r.dataBits];
    written, slot := WriteRegion(chip, r, data);
    read, back := ReadRegion(chip, r);
    if written.Ok? {
      WriteExact(before, chip.masked, r, bits);
      LowestIs(chip.fuse, r, 0, slot);
    }
  }

  /** Each successful write whose flag took uses a lower slot: at most one write for each slot of the region can
      succeed with its flag, whatever fails in between. With exact reads these are all successful writes. */
  method WriteMany(chip: Chip, r: Region, datas: seq<seq<bool>>) returns (count: nat, ghost took: nat)
    requires Fits(r, |chip.fuse|) && forall i :: 0 <= i < |datas| ==> r.dataBits <= |datas[i]|
    modifies chip
    ensures |chip.fuse| == |old(chip.fuse)|
    ensures took + Lowest(chip.fuse, r, 0) <= Lowest(old(chip.fuse), r, 0) <= Slots(r)
    ensures took <= count <= |datas| && (chip.masked ==> took == count)
  {
    hide Run, Pair, Slot;
    count, took := 0, 0;
    for i := 0 to |datas|
      invariant |chip.fuse| == |old(chip.fuse)|
      invariant took + Lowest(chip.fuse, r, 0) <= Lowest(old(chip.fuse), r, 0)
      invariant took <= count <= i && (chip.masked ==> took == count)
    {
      ghost var before := chip.fuse;
      var ack, slot := WriteRegion(chip, r, datas[i]);
      NotHigher(before, chip.fuse, r);
      if ack.Ok? {
        count := count + 1;
        LowestIs(chip.fuse, r, 0, slot);
        if Pair(chip.fuse, r, slot) {
          took := took + 1;
        }
      }
    }
  }

  lemma NotHigher(before: seq<bool>, after: seq<bool>, r: Region)
    requires Fits(r, |before|) && |after| == |before|
    requires forall j :: Lowest(before, r, 0) <= j < Slots(r) ==> Pair(after, r, j) == Pair(before, r, j)
    ensures Lowest(after, r, 0) <= Lowest(before, r, 0)
  {
  }

  /** A number of writes of the same data in a row may succeed. */
  ghost predicate Succeed(fuse: seq<bool>, masked: bool, r: Region, data: seq<bool>, n: nat)
    requires Fits(r, |fuse|) && |data| == r.dataBits
    decreases n
  {
    n == 0 || exists after, slot ::
                Run(fuse, after, masked, r, Lowest(fuse, r, 0), data, slot) && Succeed(after, masked, r, data, n - 1)
  }

  /** Where the highest free slot can hold the data and other fuses are seen in the test of its flags, any number of
      writes may succeed, all in that slot. */
  lemma {:induction false} NoBound(fuse: seq<bool>, r: Region, data: seq<bool>, n: nat)
    requires Fits(r, |fuse|) && |data| == r.dataBits && Lowest(fuse, r, 0) > 0
    requires CanHold(fuse, r, Lowest(fuse, r, 0) - 1, data) && !ReadsZero(fuse, false, r, Lowest(fuse, r, 0) - 1)
    ensures Succeed(fuse, false, r, data, n)
    decreases n
  {
    hide Attempt, ReadsZero, Pair, WithSlot;
    if n > 0 {
      var low := Lowest(fuse, r, 0);
      var after := WithSlot(fuse, r, low - 1, data);
      StuckUnnoticed(fuse, false, r, low - 1, data);
      SuccessFacts(fuse, after, false, r, low - 1, data);
      AttemptKeeps(fuse, after, false, r, low - 1, data, true);
      SamePairs(fuse, after, r);
      if ReadsZero(after, false, r, low - 1) {
        ReadsZeroBefore(fuse, after, false, r, low - 1);
      }
      NoBound(after, r, data, n - 1);
      assert Run(fuse, after, false, r, low, data, low - 1);
    }
  }

  lemma SamePairs(before: seq<bool>, after: seq<bool>, r: Region)
    requires Fits(r, |before|) && |after| == |before|
    requires forall j :: 0 <= j < Slots(r) ==> Pair(after, r, j) == Pair(before, r, j)
    ensures Lowest(after, r, 0) == Lowest(before, r, 0)
  {
    hide Pair;
    var a, b := Lowest(after, r, 0), Lowest(before, r, 0);
    if a < Slots(r) {
      LowestIs(before, r, 0, a);
    }
  }

  lemma OneFlagged(fuse: seq<bool>, data: seq<bool>)
    requires |data| == 48 && |fuse| == 1024 && forall i :: 0 <= i < 1024 ==> fuse[i] == (i == 524)
    ensures Lowest(fuse, MAC2, 0) == 1 && CanHold(fuse, MAC2, 0, data) && !ReadsZero(fuse, false, MAC2, 0)
  {
    hide Seen, ReadsZero;
    assert Pair(fuse, MAC2, 1);
    LowestIs(fuse, MAC2, 0, 1);
    FlagsAboveSeen(fuse, MAC2, 0);
  }

  /** The three slots of the MAC address, the middle one flagged: a hundred writes may succeed. */
  lemma ManyWrites(data: seq<bool>) returns (fuse: seq<bool>)
    requires |data| == 48
    ensures Fits(MAC2, |fuse|) && Slots(MAC2) == 3 && Succeed(fuse, false, MAC2, data, 100)
  {
    fuse := seq(1024, i => i == 524);
    OneFlagged(fuse, data);
    NoBound(fuse, MAC2, data, 100);
  }

  /** A blank region with more than one slot is at risk for any data but zeros. */
  lemma BlankAtRisk(fuse: seq<bool>, r: Region, data: seq<bool>)
    requires Fits(r, |fuse|) && |data| == r.dataBits && !Zero(data) && Slots(r) > 1
    requires forall k :: 0 <= k < Slots(r) ==> !Pair(fuse, r, k) && Zero(Slot(fuse, r, k))
    ensures AtRisk(fuse, false, r, data)
  {
    hide Seen, ReadsZero, Slot, Pair;
    var low := Lowest(fuse, r, 0);
    assert low == Slots(r);
    assert GoesWrong(fuse, false, r, 0, low, data);
    assert CanHold(fuse, r, 0, data) && Reached(fuse, false, r, 0, low, data);
  }

  /** Where a slot is flagged already, the read comes upon its data whatever is put into an unflagged slot. */
  lemma ComesUpon(fuse: seq<bool>, masked: bool, r: Region, slot: nat, data: seq<bool>)
    requires Fits(r, |fuse|) && |data| == r.dataBits && slot < Lowest(fuse, r, 0) < Slots(r)
    requires CanHold(fuse, r, slot, data) && !ReadsZero(fuse, masked, r, slot)
    ensures Returned(WithSlot(fuse, r, slot, data), masked, r) == Some(Slot(fuse, r, Lowest(fuse, r, 0)))
  {
    hide ReadsZero, Slot, Pair, Returned, WithSlot;
    var after := WithSlot(fuse, r, slot, data);
    StuckUnnoticed(fuse, masked, r, slot, data);
    SamePairs(fuse, after, r);
    ReturnsLowest(after, masked, r);
  }
}
