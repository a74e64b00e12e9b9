/** The boot hash of src/efpg/efpg_efuse.c: 256 fuses, and two recorded corrections for fuses that would not
    take; efpg_boot_hash_cmp, efpg_read_boot and efpg_write_boot. */
module EfuseBoot {
  import opened Basics
  import opened Efuse
  import opened EfuseRegion

  const HASH_BITS := 256

  /** Where the fields start: two flags, an enable fuse and an eight-bit number for each correction, and
      the hash, one after the other. */
  datatype Layout = Layout(flag: nat, en1: nat, no1: nat, en2: nat, no2: nat, hash: nat)

  const BOOT1 := Layout(332, 334, 335, 343, 344, 352)
  const BOOT2 := Layout(246, 248, 249, 257, 258, 266)

  predicate OnChip(l: Layout, size: nat) {
    && l.en1 == l.flag + 2 && l.no1 == l.en1 + 1 && l.en2 == l.no1 + 8 && l.no2 == l.en2 + 1
    && l.hash == l.no2 + 8 && l.hash + HASH_BITS <= size
  }

  lemma LayoutsOnChip()
    ensures OnChip(BOOT1, 2048) && OnChip(BOOT2, 1024)
  {
  }

  // ---------- Differences ----------

  /** The positions below n where two buffers differ, in order. */
  function Diffs(a: seq<bool>, b: seq<bool>, n: nat): (d: seq<nat>)
    requires n <= |a| && n <= |b|
    ensures |d| <= n && forall i :: 0 <= i < |d| ==> d[i] < n
  {
    if n == 0 then []
    else Diffs(a, b, n - 1) + (if a[n - 1] != b[n - 1] then [n - 1] else [])
  }

  /** They are all the differing positions, each once: their number is the Hamming distance. */
  lemma {:induction false} DiffsExact(a: seq<bool>, b: seq<bool>, n: nat)
    requires n <= |a| && n <= |b|
    ensures forall x :: x in Diffs(a, b, n) <==> 0 <= x < n && a[x] != b[x]
    ensures forall i, j :: 0 <= i < j < |Diffs(a, b, n)| ==> Diffs(a, b, n)[i] < Diffs(a, b, n)[j]
  {
    if n > 0 {
      DiffsExact(a, b, n - 1);
      var d, e := Diffs(a, b, n - 1), Diffs(a, b, n);
      forall x
        ensures x in e <==> 0 <= x < n && a[x] != b[x]
      {
        assert x in e <==> x in d || (x == n - 1 && a[x] != b[x]);
      }
      forall i, j | 0 <= i < j < |e|
        ensures e[i] < e[j]
      {
        assert i < |d| && e[i] == d[i] && d[i] in d;
        assert j < |d| ==> e[j] == d[j];
      }
    }
  }

  lemma {:induction false} DiffsGrow(a: seq<bool>, b: seq<bool>, m: nat, n: nat)
    requires m <= n <= |a| && n <= |b|
    ensures Diffs(a, b, m) <= Diffs(a, b, n)
    decreases n
  {
    if m < n {
      DiffsGrow(a, b, m, n - 1);
    }
  }

  lemma {:induction false} DiffsSame(a: seq<bool>, b: seq<bool>, m: nat, n: nat)
    requires m <= n <= |a| && n <= |b| && forall i :: m <= i < n ==> a[i] == b[i]
    ensures Diffs(a, b, n) == Diffs(a, b, m)
    decreases n
  {
    if m < n {
      DiffsSame(a, b, m, n - 1);
    }
  }

  datatype Errors = Errors(count: nat, first: nat, second: nat)

  /** What is recorded about the differences found so far. */
  predicate Records(e: Errors, d: seq<nat>) {
    && |d| <= 2 && e.count == |d|
    && (|d| >= 1 ==> e.first == d[0])
    && (|d| == 2 ==> e.second == d[1])
  }

  /** efpg_boot_hash_cmp: succeeds exactly for a Hamming distance of at most two, and then reports exactly
      the differing positions; with no difference it reports nothing. */
  method HashCmp(data: seq<bool>, buf: seq<bool>, e0: Errors) returns (ok: bool, e: Errors)
    requires |data| == HASH_BITS && |buf| == HASH_BITS
    ensures ok <==> |Diffs(data, buf, HASH_BITS)| <= 2
    ensures ok && data == buf ==> e == e0
    ensures ok && data != buf ==> Records(e, Diffs(data, buf, HASH_BITS))
  {
    hide Diffs;
    ok, e := true, e0;
    DiffsNone(data, buf);
    if data == buf {
      DiffsSame(data, buf, 0, HASH_BITS);
      return;
    }
    e := e.(count := 0);
    for byte := 0 to 32
      invariant Records(e, Diffs(data, buf, 8 * byte))
    {
      if data[8 * byte..8 * byte + 8] == buf[8 * byte..8 * byte + 8] {
        SameByte(data, buf, byte);
        continue;
      }
      for bit := 0 to 8
        invariant Records(e, Diffs(data, buf, 8 * byte + bit))
      {
        var at := 8 * byte + bit;
        DiffsNext(data, buf, at);
        DiffsGrow(data, buf, at + 1, HASH_BITS);
        if data[at] == buf[at] {
          continue;
        }
        if e.count == 0 {
          e := e.(first := at, count := 1);
        } else if e.count == 1 {
          e := e.(second := at, count := 2);
        } else {
          return false, e;
        }
      }
    }
  }

  lemma DiffsNone(a: seq<bool>, b: seq<bool>)
    ensures Diffs(a, b, 0) == []
  {
  }

  lemma DiffsNext(a: seq<bool>, b: seq<bool>, n: nat)
    requires n < |a| && n < |b|
    ensures Diffs(a, b, n + 1) == Diffs(a, b, n) + (if a[n] != b[n] then [n] else [])
  {
  }

  lemma SameByte(a: seq<bool>, b: seq<bool>, byte: nat)
    requires |a| == |b| == HASH_BITS && byte < 32
    requires a[8 * byte..8 * byte + 8] == b[8 * byte..8 * byte + 8]
    ensures Diffs(a, b, 8 * byte + 8) == Diffs(a, b, 8 * byte)
  {
    forall i | 8 * byte <= i < 8 * byte + 8
      ensures a[i] == b[i]
    {
      assert a[8 * byte..8 * byte + 8][i - 8 * byte] == b[8 * byte..8 * byte + 8][i - 8 * byte];
    }
    DiffsSame(a, b, 8 * byte, 8 * byte + 8);
  }

  // ---------- Numbers in fuses ----------

  function Digit(b: bool): nat {
    if b then 1 else 0
  }

  /** The number that bits stand for, lowest first. */
  function Num(bits: seq<bool>): (n: nat)
    ensures n < Pow2(|bits|)
  {
    if bits == [] then 0 else Digit(bits[0]) + 2 * Num(bits[1..])
  }

  function ToBits(n: nat, k: nat): (bits: seq<bool>)
    ensures |bits| == k
  {
    if k == 0 then [] else [n % 2 == 1] + ToBits(n / 2, k - 1)
  }

  lemma {:induction false} NumOfBits(n: nat, k: nat)
    requires n < Pow2(k)
    ensures Num(ToBits(n, k)) == n
    decreases k
  {
    if k > 0 {
      NumOfBits(n / 2, k - 1);
      assert ToBits(n, k)[1..] == ToBits(n / 2, k - 1);
    }
  }

  lemma EightBits()
    ensures Pow2(8) == 256
  {
  }

  // ---------- Reading ----------

  function Flip(data: seq<bool>, i: nat): (r: seq<bool>)
    requires i < |data|
    ensures |r| == |data|
  {
    data[i := !data[i]]
  }

  /** A field reads as something other than zero. */
  predicate Set(fuse: seq<bool>, masked: bool, start: nat, n: nat)
    requires start + n <= |fuse|
  {
    !Zero(Seen(fuse, masked, start, n))
  }

  function Stored(fuse: seq<bool>, l: Layout): (h: seq<bool>)
    requires OnChip(l, |fuse|)
    ensures |h| == HASH_BITS
  {
    fuse[l.hash..l.hash + HASH_BITS]
  }

  function Number(fuse: seq<bool>, start: nat): (n: nat)
    requires start + 8 <= |fuse|
    ensures n < 256
  {
    EightBits();
    Num(fuse[start..start + 8])
  }

  /** The stored hash with the recorded corrections. */
  function Corrected(fuse: seq<bool>, masked: bool, l: Layout): (h: seq<bool>)
    requires OnChip(l, |fuse|)
    ensures |h| == HASH_BITS
  {
    var stored := Stored(fuse, l);
    if !Set(fuse, masked, l.en1, 1) then stored
    else
      var once := Flip(stored, Number(fuse, l.no1));
      if !Set(fuse, masked, l.en2, 1) then once else Flip(once, Number(fuse, l.no2))
  }

  /** efpg_read_boot */
  method ReadBoot(chip: Chip, l: Layout, data: array<bool>) returns (ack: Ack)
    requires OnChip(l, |chip.fuse|) && data.Length == HASH_BITS
    modifies data
    ensures ack.Ok? || ack.RwErr? || ack.NoDataErr?
    ensures ack.NoDataErr? ==> !Set(chip.fuse, chip.masked, l.flag, 2)
    ensures ack.Ok? ==> Set(chip.fuse, chip.masked, l.flag, 2) && data[..] == Corrected(chip.fuse, chip.masked, l)
  {
    hide Seen, Num;
    var ok, tmp := chip.Read(l.flag, 2);
    if !ok {
      return RwErr;
    }
    if Zero(tmp) {
      return NoDataErr;
    }
    ok, tmp := chip.Read(l.hash, HASH_BITS);
    if !ok {
      return RwErr;
    }
    assert tmp[..HASH_BITS] == tmp;
    forall i | 0 <= i < HASH_BITS {
      data[i] := tmp[i];
    }
    assert data[..] == Stored(chip.fuse, l);
    ok, tmp := chip.Read(l.en1, 1);
    if !ok {
      return RwErr;
    }
    if !Zero(tmp) {
      ok, tmp := chip.Read(l.no1, 8);
      if !ok {
        return RwErr;
      }
      assert tmp[..8] == tmp;
      var at := Num(tmp);
      data[at] := !data[at];
      ok, tmp := chip.Read(l.en2, 1);
      if !ok {
        return RwErr;
      }
      if !Zero(tmp) {
        ok, tmp := chip.Read(l.no2, 8);
        if !ok {
          return RwErr;
        }
        assert tmp[..8] == tmp;
        at := Num(tmp);
        data[at] := !data[at];
      }
    }
    ack := Ok;
  }

  // ---------- Writing ----------

  /** Fuses changed from 0 to 1, and only between two positions. */
  predicate OnlyIn(before: seq<bool>, after: seq<bool>, a: nat, b: nat) {
    && |after| == |before|
    && forall i :: 0 <= i < |before| ==> after[i] == before[i] || (!before[i] && a <= i < b)
  }

  lemma ProgramsOnlyIn(before: seq<bool>, after: seq<bool>, start: nat, bits: seq<bool>)
    requires Programs(before, after, start, bits)
    ensures OnlyIn(before, after, start, start + |bits|)
  {
  }

  lemma OnlyInBoth(f0: seq<bool>, f1: seq<bool>, f2: seq<bool>, a: nat, m: nat, b: nat)
    requires OnlyIn(f0, f1, a, m) && OnlyIn(f1, f2, m, b) && a <= m <= b
    ensures OnlyIn(f0, f2, a, b)
  {
  }

  /** A field that reads as non-zero goes on doing so, and fields elsewhere stay as they are. */
  lemma SetStays(before: seq<bool>, after: seq<bool>, masked: bool, a: nat, b: nat, start: nat, n: nat)
    requires OnlyIn(before, after, a, b) && start + n <= |before|
    ensures Set(before, masked, start, n) ==> Set(after, masked, start, n)
    ensures b <= start || start + ByteBits(n) <= a ==> Set(before, masked, start, n) == Set(after, masked, start, n)
  {
    var s0, s1 := Seen(before, masked, start, n), Seen(after, masked, start, n);
    if Set(before, masked, start, n) {
      var i :| 0 <= i < |s0| && s0[i];
      assert s1[i];
    }
    if b <= start || start + ByteBits(n) <= a {
      forall i | 0 <= i < |s0|
        ensures s0[i] == s1[i]
      {
        assert start + i < |before| ==> before[start + i] == after[start + i];
      }
    }
  }

  lemma FieldStays(before: seq<bool>, after: seq<bool>, a: nat, b: nat, start: nat, n: nat)
    requires OnlyIn(before, after, a, b) && start + n <= |before|
    requires b <= start || start + n <= a
    ensures after[start..start + n] == before[start..start + n]
  {
    forall i | start <= i < start + n
      ensures after[i] == before[i]
    {
    }
  }

  // A write and the read that checks it.
  method WriteAndRead(chip: Chip, start: nat, n: nat, bits: seq<bool>) returns (ok: bool, back: seq<bool>)
    requires n <= |bits|
    modifies chip
    ensures OnlyIn(old(chip.fuse), chip.fuse, start, start + n)
    ensures Programs(old(chip.fuse), chip.fuse, start, bits[..n])
    ensures ok ==> start + n <= |chip.fuse| && back == Seen(chip.fuse, chip.masked, start, n)
  {
    back := [];
    ghost var before := chip.fuse;
    ok := chip.Write(start, n, bits);
    ProgramsOnlyIn(before, chip.fuse, start, bits[..n]);
    if ok {
      ok, back := chip.Read(start, n);
    }
  }

  /** What a successful record of one error does: the enable fuse is written and reads as one, then the number is
      written and reads back. */
  ghost predicate RecordedBy(before: seq<bool>, middle: seq<bool>, after: seq<bool>, masked: bool, en: nat, at: nat)
    requires en + 9 <= |before| && at < 256
  {
    && Programs(before, middle, en, [true]) && One(Seen(middle, masked, en, 1))
    && Programs(middle, after, en + 1, ToBits(at, 8)) && Seen(after, masked, en + 1, 8) == ToBits(at, 8)
  }

  ghost predicate Recorded(before: seq<bool>, after: seq<bool>, masked: bool, en: nat, at: nat)
    requires en + 9 <= |before| && at < 256
    ensures Recorded(before, after, masked, en, at) ==> |after| == |before|
  {
    |after| == |before| && exists middle :: RecordedBy(before, middle, after, masked, en, at)
  }

  /** The record of one error: its enable fuse and its number. */
  method RecordError(chip: Chip, en: nat, no: nat, at: nat) returns (ack: Ack)
    requires no == en + 1 && no + 8 <= |chip.fuse| && at < 256
    modifies chip
    ensures |chip.fuse| == |old(chip.fuse)|
    ensures ack.Ok? || ack.RwErr? || ack.DiErr?
    ensures ack.Ok? ==> Recorded(old(chip.fuse), chip.fuse, chip.masked, en, at)
  {
    hide Seen, Num, ToBits;
    ghost var f0 := chip.fuse;
    var ok, tmp := WriteAndRead(chip, en, 1, [true]);
    assert [true][..1] == [true];
    ghost var f1 := chip.fuse;
    if !ok {
      return RwErr;
    }
    if !One(tmp) {
      return DiErr;
    }
    ok, tmp := WriteAndRead(chip, no, 8, ToBits(at, 8));
    assert ToBits(at, 8)[..8] == ToBits(at, 8);
    if !ok {
      return RwErr;
    }
    if tmp != ToBits(at, 8) {
      return DiErr;
    }
    assert RecordedBy(f0, f1, chip.fuse, chip.masked, en, at);
    ack := Ok;
  }

  /** Then the record shows the error, and nothing else has changed. */
  lemma RecordFacts(before: seq<bool>, after: seq<bool>, masked: bool, en: nat, at: nat)
    requires en + 9 <= |before| && at < 256 && Recorded(before, after, masked, en, at)
    ensures OnlyIn(before, after, en, en + 9)
    ensures Set(after, masked, en, 1) && Number(after, en + 1) == at
  {
    hide Seen, Num, ToBits;
    var middle :| RecordedBy(before, middle, after, masked, en, at);
    ProgramsOnlyIn(before, middle, en, [true]);
    ProgramsOnlyIn(middle, after, en + 1, ToBits(at, 8));
    OnlyInBoth(before, middle, after, en, en + 1, en + 9);
    SetStays(middle, after, masked, en + 1, en + 9, en, 1);
    EightBits();
    NumOfBits(at, 8);
    var tmp := Seen(after, masked, en + 1, 8);
    assert tmp[..8] == tmp;
  }

  /** What a successful write leaves: the stored hash differs in at most two places from the data, and
      those are recorded; records that were not needed are as before. */
  predicate BootWritten(before: seq<bool>, fuse: seq<bool>, masked: bool, l: Layout, data: seq<bool>)
    requires OnChip(l, |fuse|) && |before| == |fuse| && |data| == HASH_BITS
  {
    var d := Diffs(data, Stored(fuse, l), HASH_BITS);
    && |d| <= 2
    && (|d| >= 1 ==> Set(fuse, masked, l.en1, 1) && Number(fuse, l.no1) == d[0])
    && (|d| == 2 ==> Set(fuse, masked, l.en2, 1) && Number(fuse, l.no2) == d[1])
    && (|d| == 0 ==> fuse[l.en1..l.hash] == before[l.en1..l.hash])
    && (|d| == 1 ==> fuse[l.en2..l.hash] == before[l.en2..l.hash])
    && Set(fuse, masked, l.flag, 2)
  }

  /** The steps of a successful write: the hash, the records of up to two errors, the flags. */
  ghost predicate Steps(f0: seq<bool>, f1: seq<bool>, f2: seq<bool>, f3: seq<bool>, f4: seq<bool>, masked: bool,
                        l: Layout, data: seq<bool>)
    requires OnChip(l, |f0|) && |data| == HASH_BITS
  {
    && Programs(f0, f1, l.hash, data)
    && var d := Diffs(data, Stored(f1, l), HASH_BITS);
    && |d| <= 2
    && (if |d| >= 1 then Recorded(f1, f2, masked, l.en1, d[0]) else f2 == f1)
    && (if |d| == 2 then Recorded(f2, f3, masked, l.en2, d[1]) else f3 == f2)
    && Programs(f3, f4, l.flag, [true, true]) && Set(f4, masked, l.flag, 2)
  }

  ghost predicate BootRun(before: seq<bool>, after: seq<bool>, masked: bool, l: Layout, data: seq<bool>)
    requires OnChip(l, |before|) && |data| == HASH_BITS
    ensures BootRun(before, after, masked, l, data) ==> |after| == |before|
  {
    |after| == |before| && exists f1, f2, f3 :: Steps(before, f1, f2, f3, after, masked, l, data)
  }

  /** efpg_write_boot */
  method WriteBoot(chip: Chip, l: Layout, data: seq<bool>) returns (ack: Ack)
    requires OnChip(l, |chip.fuse|) && |data| == HASH_BITS
    modifies chip
    ensures |chip.fuse| == |old(chip.fuse)|
    ensures ack.Ok? || ack.RwErr? || ack.DiErr?
    ensures ack.Ok? ==> BootRun(old(chip.fuse), chip.fuse, chip.masked, l, data)
    ensures ack.Ok? ==> BootWritten(old(chip.fuse), chip.fuse, chip.masked, l, data)
  {
    hide Seen, Num, ToBits, Diffs, Recorded, Set, BootWritten;
    ghost var f0 := chip.fuse;
    var ok, buf := WriteAndRead(chip, l.hash, HASH_BITS, data);
    assert data[..HASH_BITS] == data;
    ghost var f1 := chip.fuse;
    if !ok {
      return RwErr;
    }
    assert buf[..HASH_BITS] == buf;
    var e;
    ok, e := HashCmp(data, buf, Errors(0, 0, 0));
    if !ok {
      return DiErr;
    }
    ghost var d := Diffs(data, Stored(f1, l), HASH_BITS);
    assert buf == Stored(f1, l);
    NoDiffs(data, buf);
    InRange(d, e);
    if e.count > 0 {
      ack := RecordError(chip, l.en1, l.no1, e.first);
      if !ack.Ok? {
        return;
      }
    }
    ghost var f2 := chip.fuse;
    if e.count == 2 {
      ack := RecordError(chip, l.en2, l.no2, e.second);
      if !ack.Ok? {
        return;
      }
    }
    ghost var f3 := chip.fuse;
    ack := WriteFlags(chip, l);
    if ack.Ok? {
      assert Steps(f0, f1, f2, f3, chip.fuse, chip.masked, l, data);
      Together(f0, f1, f2, f3, chip.fuse, chip.masked, l, data);
    }
  }

  // The last step.
  method WriteFlags(chip: Chip, l: Layout) returns (ack: Ack)
    requires OnChip(l, |chip.fuse|)
    modifies chip
    ensures |chip.fuse| == |old(chip.fuse)|
    ensures ack.Ok? || ack.RwErr? || (ack.DiErr? && !Set(chip.fuse, chip.masked, l.flag, 2))
    ensures ack.Ok? ==>
              Programs(old(chip.fuse), chip.fuse, l.flag, [true, true]) && Set(chip.fuse, chip.masked, l.flag, 2)
  {
    hide Seen;
    var ok, tmp := WriteAndRead(chip, l.flag, 2, [true, true]);
    assert [true, true][..2] == [true, true];
    if !ok {
      return RwErr;
    }
    ack := if Zero(tmp) then DiErr else Ok;
  }

  lemma NoDiffs(data: seq<bool>, buf: seq<bool>)
    requires |data| == |buf| == HASH_BITS
    ensures data == buf ==> Diffs(data, buf, HASH_BITS) == []
  {
    hide Diffs;
    DiffsNone(data, buf);
    if data == buf {
      DiffsSame(data, buf, 0, HASH_BITS);
    }
  }

  lemma InRange(d: seq<nat>, e: Errors)
    requires Records(e, d) && forall i :: 0 <= i < |d| ==> d[i] < HASH_BITS
    ensures e.count > 0 ==> e.first < 256
    ensures e.count == 2 ==> e.second < 256
  {
  }

  // The steps put together.
  lemma Together(f0: seq<bool>, f1: seq<bool>, f2: seq<bool>, f3: seq<bool>, f4: seq<bool>, masked: bool, l: Layout,
                 data: seq<bool>)
    requires OnChip(l, |f0|) && |data| == HASH_BITS && Steps(f0, f1, f2, f3, f4, masked, l, data)
    ensures |f4| == |f0| && BootWritten(f0, f4, masked, l, data)
  {
    hide Seen, Num, Diffs, Set, ToBits, Recorded, BootWritten;
    var d := Diffs(data, Stored(f1, l), HASH_BITS);
    ProgramsOnlyIn(f0, f1, l.hash, data);
    if |d| >= 1 {
      RecordFacts(f1, f2, masked, l.en1, d[0]);
    }
    if |d| == 2 {
      RecordFacts(f2, f3, masked, l.en2, d[1]);
    }
    ProgramsOnlyIn(f3, f4, l.flag, [true, true]);
    Fitted(f0, f1, f2, f3, f4, masked, l, data, d);
  }

  lemma Fitted(f0: seq<bool>, f1: seq<bool>, f2: seq<bool>, f3: seq<bool>, f4: seq<bool>, masked: bool, l: Layout,
               data: seq<bool>, d: seq<nat>)
    requires OnChip(l, |f0|) && |data| == HASH_BITS
    requires OnlyIn(f0, f1, l.hash, l.hash + HASH_BITS) && d == Diffs(data, Stored(f1, l), HASH_BITS) && |d| <= 2
    requires if |d| >= 1 then
               OnlyIn(f1, f2, l.en1, l.no1 + 8) && Set(f2, masked, l.en1, 1) && Number(f2, l.no1) == d[0]
             else
               f2 == f1
    requires if |d| == 2 then
               OnlyIn(f2, f3, l.en2, l.no2 + 8) && Set(f3, masked, l.en2, 1) && Number(f3, l.no2) == d[1]
             else
               f3 == f2
    requires OnlyIn(f3, f4, l.flag, l.flag + 2) && Set(f4, masked, l.flag, 2)
    ensures BootWritten(f0, f4, masked, l, data)
  {
    hide Seen, Num, Diffs, Set;
    assert OnlyIn(f1, f2, l.en1, l.en2) && OnlyIn(f2, f3, l.en2, l.hash);
    FieldStays(f1, f2, l.en1, l.en2, l.hash, HASH_BITS);
    FieldStays(f2, f3, l.en2, l.hash, l.hash, HASH_BITS);
    FieldStays(f3, f4, l.flag, l.en1, l.hash, HASH_BITS);
    SetStays(f2, f3, masked, l.en2, l.hash, l.en1, 1);
    SetStays(f3, f4, masked, l.flag, l.en1, l.en1, 1);
    SetStays(f3, f4, masked, l.flag, l.en1, l.en2, 1);
    FieldStays(f2, f3, l.en2, l.hash, l.no1, 8);
    FieldStays(f3, f4, l.flag, l.en1, l.no1, 8);
    FieldStays(f3, f4, l.flag, l.en1, l.no2, 8);
    FieldStays(f0, f1, l.hash, l.hash + HASH_BITS, l.en1, 18);
    FieldStays(f3, f4, l.flag, l.en1, l.en1, 18);
    FieldStays(f0, f1, l.hash, l.hash + HASH_BITS, l.en2, 9);
    FieldStays(f1, f2, l.en1, l.en2, l.en2, 9);
    FieldStays(f3, f4, l.flag, l.en1, l.en2, 9);
  }

  // ---------- The round trip ----------

  /** What decides whether the hash reads back: whether an error record that this write did not make is
      there from before. */
  predicate ReadsBack(before: seq<bool>, masked: bool, l: Layout, errors: nat)
    requires OnChip(l, |before|)
  {
    if errors == 0 then
      !Set(before, masked, l.en1, 1) ||
      (Set(before, masked, l.en2, 1) && Number(before, l.no1) == Number(before, l.no2))
    else if errors == 1 then !Set(before, masked, l.en2, 1)
    else true
  }

  /** The same records in two states of the fuses. */
  lemma SameRecords(f0: seq<bool>, f1: seq<bool>, masked: bool, l: Layout, from: nat)
    requires OnChip(l, |f0|) && |f1| == |f0| && (from == l.en1 || from == l.en2)
    requires f0[from..l.hash] == f1[from..l.hash]
    ensures Set(f0, masked, l.en2, 1) == Set(f1, masked, l.en2, 1) && Number(f0, l.no2) == Number(f1, l.no2)
    ensures from == l.en1 ==>
              Set(f0, masked, l.en1, 1) == Set(f1, masked, l.en1, 1) && Number(f0, l.no1) == Number(f1, l.no1)
  {
    hide Seen, Num, Set;
    forall i | from <= i < l.hash
      ensures f0[i] == f1[i]
    {
      assert f0[from..l.hash][i - from] == f1[from..l.hash][i - from];
    }
    SameField(f0, f1, masked, l.en2, 1);
    SameNumber(f0, f1, l.no2);
    if from == l.en1 {
      SameField(f0, f1, masked, l.en1, 1);
      SameNumber(f0, f1, l.no1);
    }
  }

  lemma SameNumber(f0: seq<bool>, f1: seq<bool>, start: nat)
    requires |f0| == |f1| && start + 8 <= |f0|
    requires forall i :: start <= i < start + 8 ==> f0[i] == f1[i]
    ensures Number(f0, start) == Number(f1, start)
  {
    hide Num;
    assert f0[start..start + 8] == f1[start..start + 8];
  }

  lemma SameField(f0: seq<bool>, f1: seq<bool>, masked: bool, start: nat, n: nat)
    requires |f0| == |f1| && start + ByteBits(n) <= |f0|
    requires forall i :: start <= i < start + ByteBits(n) ==> f0[i] == f1[i]
    ensures Set(f0, masked, start, n) == Set(f1, masked, start, n)
  {
    var s0, s1 := Seen(f0, masked, start, n), Seen(f1, masked, start, n);
    assert forall i :: 0 <= i < |s0| ==> s0[i] == s1[i];
  }

  /** Flipping the differing bits gives the data. */
  lemma FlipDiffs(data: seq<bool>, stored: seq<bool>)
    requires |data| == |stored| == HASH_BITS
    ensures var d := Diffs(data, stored, HASH_BITS);
            && (|d| == 0 <==> stored == data)
            && (|d| == 1 ==> Flip(stored, d[0]) == data)
            && (|d| == 2 ==> d[0] != d[1] && Flip(Flip(stored, d[0]), d[1]) == data)
  {
    hide Diffs;
    DiffsExact(data, stored, HASH_BITS);
    var d := Diffs(data, stored, HASH_BITS);
    assert |d| > 0 ==> d[0] in d;
    assert |d| > 1 ==> d[1] in d;
  }

  /** The read returns what was written if and only if no record from before gets in the way. */
  lemma BootExact(before: seq<bool>, fuse: seq<bool>, masked: bool, l: Layout, data: seq<bool>)
    requires OnChip(l, |fuse|) && |before| == |fuse| && |data| == HASH_BITS
    requires BootWritten(before, fuse, masked, l, data)
    ensures Corrected(fuse, masked, l) == data
       <==> ReadsBack(before, masked, l, |Diffs(data, Stored(fuse, l), HASH_BITS)|)
  {
    hide Seen, Num, Diffs, Set;
    var stored := Stored(fuse, l);
    var d := Diffs(data, stored, HASH_BITS);
    FlipDiffs(data, stored);
    if |d| == 0 {
      SameRecords(before, fuse, masked, l, l.en1);
      assert data == stored;
      var n1, n2 := Number(fuse, l.no1), Number(fuse, l.no2);
      assert Flip(stored, n1)[n1] != stored[n1];
      assert n1 == n2 ==> Flip(Flip(stored, n1), n2) == stored;
      assert n1 != n2 ==> Flip(Flip(stored, n1), n2)[n1] != stored[n1];
    } else if |d| == 1 {
      SameRecords(before, fuse, masked, l, l.en2);
      var n2 := Number(fuse, l.no2);
      assert Flip(data, n2)[n2] != data[n2];
    }
  }

  /** Before the write the number of errors is not known: the hash reads back for each of them if and only if both
      enable fields read as zero. */
  lemma BlankReadsBack(before: seq<bool>, masked: bool, l: Layout)
    requires OnChip(l, |before|)
    ensures (forall errors: nat | errors <= 2 :: ReadsBack(before, masked, l, errors))
       <==> !Set(before, masked, l.en1, 1) && !Set(before, masked, l.en2, 1)
  {
    hide Set, Number;
    var all := forall errors: nat | errors <= 2 :: ReadsBack(before, masked, l, errors);
    assert all ==> ReadsBack(before, masked, l, 0) && ReadsBack(before, masked, l, 1);
  }

  /** The hash fuses can take all of the data. */
  predicate CanTake(fuse: seq<bool>, l: Layout, data: seq<bool>)
    requires OnChip(l, |fuse|) && |data| == HASH_BITS
  {
    forall i :: 0 <= i < HASH_BITS && fuse[l.hash + i] ==> data[i]
  }

  /** They can take the data with this one error. */
  predicate CanMiss(fuse: seq<bool>, l: Layout, data: seq<bool>, at: nat)
    requires OnChip(l, |fuse|) && |data| == HASH_BITS
  {
    && at < HASH_BITS && fuse[l.hash + at] != data[at]
    && forall i :: 0 <= i < HASH_BITS && i != at && fuse[l.hash + i] ==> data[i]
  }

  /** An error can be recorded: the test of the enable fuse will see nothing else, and the number has no 1 in
      the wrong place. */
  predicate CanRecord(fuse: seq<bool>, masked: bool, en: nat, at: nat)
    requires en + 9 <= |fuse| && at < 256
  {
    && One(Seen(fuse[en := true], masked, en, 1))
    && forall i :: 0 <= i < 8 && fuse[en + 1 + i] ==> ToBits(at, 8)[i]
  }

  /** What a caller has to rule out: that a record from before applies to a hash that takes without error, or a second
      record to a hash that takes with one. */
  predicate BootAtRisk(fuse: seq<bool>, masked: bool, l: Layout, data: seq<bool>)
    requires OnChip(l, |fuse|) && |data| == HASH_BITS
  {
    || (CanTake(fuse, l, data) && !ReadsBack(fuse, masked, l, 0))
    || (Set(fuse, masked, l.en2, 1) &&
        exists at :: 0 <= at < 256 && CanMiss(fuse, l, data, at) && CanRecord(fuse, masked, l.en1, at))
  }

  lemma TakenOrMissed(before: seq<bool>, after: seq<bool>, l: Layout, data: seq<bool>)
    requires OnChip(l, |before|) && |data| == HASH_BITS && Programs(before, after, l.hash, data)
    ensures var d := Diffs(data, Stored(after, l), HASH_BITS);
            (|d| == 0 ==> CanTake(before, l, data)) && (|d| == 1 ==> CanMiss(before, l, data, d[0]))
  {
    hide Diffs;
    var stored := Stored(after, l);
    var d := Diffs(data, stored, HASH_BITS);
    DiffsExact(data, stored, HASH_BITS);
    assert |d| == 1 ==> d[0] in d;
    forall i | 0 <= i < HASH_BITS && i !in d
      ensures before[l.hash + i] ==> data[i]
    {
      assert stored[i] == after[l.hash + i];
    }
    if |d| == 1 {
      assert stored[d[0]] == after[l.hash + d[0]];
    }
  }

  lemma MadeRecord(before: seq<bool>, start: seq<bool>, after: seq<bool>, masked: bool, l: Layout, at: nat)
    requires OnChip(l, |before|) && at < 256 && OnlyIn(before, start, l.hash, l.hash + HASH_BITS)
    requires Recorded(start, after, masked, l.en1, at)
    ensures CanRecord(before, masked, l.en1, at)
  {
    hide ToBits;
    var en := l.en1;
    var middle :| RecordedBy(start, middle, after, masked, en, at);
    var seen, goal := Seen(middle, masked, en, 1), Seen(before[en := true], masked, en, 1);
    assert seen[..1] == middle[en..en + 1];
    assert middle[en] == seen[..1][0];
    forall i | 0 <= i < 8
      ensures seen[i] == goal[i]
    {
    }
    forall i | 0 <= i < 8 && before[en + 1 + i]
      ensures ToBits(at, 8)[i]
    {
      assert after[en + 1 + i];
      assert Seen(after, masked, en + 1, 8)[..8][i] == after[en + 1..en + 9][i];
    }
  }

  lemma RunSafe(before: seq<bool>, after: seq<bool>, masked: bool, l: Layout, data: seq<bool>)
    requires OnChip(l, |before|) && |data| == HASH_BITS && BootRun(before, after, masked, l, data)
    requires !BootAtRisk(before, masked, l, data)
    ensures Corrected(after, masked, l) == data
  {
    hide Seen, Num, Diffs, Set, ToBits, Recorded, CanRecord, CanTake, CanMiss, Corrected;
    var f1, f2, f3 :| Steps(before, f1, f2, f3, after, masked, l, data);
    var d := Diffs(data, Stored(f1, l), HASH_BITS);
    Together(before, f1, f2, f3, after, masked, l, data);
    BootExact(before, after, masked, l, data);
    HashKept(f1, f2, f3, after, masked, l, data);
    TakenOrMissed(before, f1, l, data);
    if |d| == 1 && Set(before, masked, l.en2, 1) {
      ProgramsOnlyIn(before, f1, l.hash, data);
      MadeRecord(before, f1, f2, masked, l, d[0]);
    }
  }

  // The hash is written in the first step.
  lemma HashKept(f1: seq<bool>, f2: seq<bool>, f3: seq<bool>, f4: seq<bool>, masked: bool, l: Layout, data: seq<bool>)
    requires OnChip(l, |f1|) && |data| == HASH_BITS
    requires var d := Diffs(data, Stored(f1, l), HASH_BITS);
             && |d| <= 2
             && (if |d| >= 1 then Recorded(f1, f2, masked, l.en1, d[0]) else f2 == f1)
             && (if |d| == 2 then Recorded(f2, f3, masked, l.en2, d[1]) else f3 == f2)
             && Programs(f3, f4, l.flag, [true, true])
    ensures |f4| == |f1| && Stored(f4, l) == Stored(f1, l)
  {
    hide Seen, Num, Diffs, Set, ToBits, Recorded;
    var d := Diffs(data, Stored(f1, l), HASH_BITS);
    if |d| >= 1 {
      RecordFacts(f1, f2, masked, l.en1, d[0]);
      FieldStays(f1, f2, l.en1, l.en2, l.hash, HASH_BITS);
    }
    if |d| == 2 {
      RecordFacts(f2, f3, masked, l.en2, d[1]);
      FieldStays(f2, f3, l.en2, l.hash, l.hash, HASH_BITS);
    }
    ProgramsOnlyIn(f3, f4, l.flag, [true, true]);
    FieldStays(f3, f4, l.flag, l.en1, l.hash, HASH_BITS);
  }

  /** The fuses with other bits from a position on. */
  function Put(fuse: seq<bool>, start: nat, bits: seq<bool>): (after: seq<bool>)
    requires start + |bits| <= |fuse|
    ensures |after| == |fuse| && after[start..start + |bits|] == bits
    ensures forall i :: 0 <= i < |fuse| ==>
              after[i] == if start <= i < start + |bits| then bits[i - start] else fuse[i]
  {
    fuse[..start] + bits + fuse[start + |bits|..]
  }

  lemma PutPrograms(fuse: seq<bool>, start: nat, bits: seq<bool>, data: seq<bool>)
    requires start + |bits| <= |fuse| && |bits| == |data|
    requires forall i :: 0 <= i < |bits| ==> bits[i] == fuse[start + i] || (!fuse[start + i] && bits[i] && data[i])
    ensures Programs(fuse, Put(fuse, start, bits), start, data)
  {
    var after := Put(fuse, start, bits);
    forall i | 0 <= i < |fuse|
      ensures after[i] == fuse[i] || (!fuse[i] && start <= i < start + |data| && data[i - start])
    {
      if start <= i < start + |bits| {
        assert after[i] == bits[i - start] && fuse[start + (i - start)] == fuse[i];
      }
    }
  }

  // The last step when the flags take.
  lemma FlagsTake(fuse: seq<bool>, masked: bool, l: Layout)
    requires OnChip(l, |fuse|)
    ensures var after := Put(fuse, l.flag, [true, true]);
            Programs(fuse, after, l.flag, [true, true]) && Set(after, masked, l.flag, 2)
  {
    var after := Put(fuse, l.flag, [true, true]);
    var seen := Seen(after, masked, l.flag, 2);
    assert seen[0];
  }

  lemma AllTake(fuse: seq<bool>, l: Layout, data: seq<bool>)
    requires OnChip(l, |fuse|) && |data| == HASH_BITS && CanTake(fuse, l, data)
    ensures Programs(fuse, Put(fuse, l.hash, data), l.hash, data)
  {
    hide Put, Programs;
    PutPrograms(fuse, l.hash, data, data);
  }

  // A write without errors.
  lemma RunWithoutErrors(before: seq<bool>, masked: bool, l: Layout, data: seq<bool>) returns (after: seq<bool>)
    requires OnChip(l, |before|) && |data| == HASH_BITS && CanTake(before, l, data)
    ensures BootRun(before, after, masked, l, data) && Diffs(data, Stored(after, l), HASH_BITS) == []
  {
    hide Seen, Diffs, Set, Recorded, Put, Programs, CanTake;
    var f1 := Put(before, l.hash, data);
    AllTake(before, l, data);
    NoDiffs(data, data);
    after := Put(f1, l.flag, [true, true]);
    FlagsTake(f1, masked, l);
    HashKept(f1, f1, f1, after, masked, l, data);
    assert Steps(before, f1, f1, f1, after, masked, l, data);
  }

  lemma OneDiff(data: seq<bool>, at: nat)
    requires |data| == HASH_BITS && at < HASH_BITS
    ensures Diffs(data, Flip(data, at), HASH_BITS) == [at]
  {
    hide Diffs;
    var d := Diffs(data, Flip(data, at), HASH_BITS);
    DiffsExact(data, Flip(data, at), HASH_BITS);
    assert forall x :: x in d <==> x == at;
    OnlyElement(d, at);
  }

  lemma OnlyElement(d: seq<nat>, x: nat)
    requires x in d && forall y :: y in d ==> y == x
    requires forall i, j :: 0 <= i < j < |d| ==> d[i] < d[j]
    ensures d == [x]
  {
    assert d[0] in d;
    if |d| > 1 {
      TwoElements(d);
      assert false;
    }
  }

  lemma TwoElements(d: seq<nat>)
    requires |d| > 1 && forall i, j :: 0 <= i < j < |d| ==> d[i] < d[j]
    ensures d[0] in d && d[1] in d && d[0] != d[1]
  {
  }

  lemma MissedBit(fuse: seq<bool>, l: Layout, data: seq<bool>, at: nat, i: nat)
    requires OnChip(l, |fuse|) && |data| == HASH_BITS && CanMiss(fuse, l, data, at) && i < HASH_BITS
    ensures at < HASH_BITS
    ensures var bit := Flip(data, at)[i];
            bit == fuse[l.hash + i] || (!fuse[l.hash + i] && bit && data[i])
  {
  }

  lemma OneMissed(before: seq<bool>, l: Layout, data: seq<bool>, at: nat) returns (after: seq<bool>)
    requires OnChip(l, |before|) && |data| == HASH_BITS && CanMiss(before, l, data, at)
    ensures Programs(before, after, l.hash, data)
    ensures Diffs(data, Stored(after, l), HASH_BITS) == [at]
  {
    hide Diffs, Put, Programs, CanMiss, Flip;
    assert at < HASH_BITS by { MissedBit(before, l, data, at, 0); }
    var bits := Flip(data, at);
    after := Put(before, l.hash, bits);
    forall i | 0 <= i < HASH_BITS
      ensures bits[i] == before[l.hash + i] || (!before[l.hash + i] && bits[i] && data[i])
    {
      MissedBit(before, l, data, at, i);
    }
    PutPrograms(before, l.hash, bits, data);
    OneDiff(data, at);
  }

  lemma RecordTakes(before: seq<bool>, masked: bool, en: nat, at: nat) returns (after: seq<bool>)
    requires en + 9 <= |before| && at < 256 && CanRecord(before, masked, en, at)
    ensures Recorded(before, after, masked, en, at)
  {
    hide ToBits, Put;
    var middle := before[en := true];
    assert Programs(before, middle, en, [true]);
    after := Put(middle, en + 1, ToBits(at, 8));
    PutPrograms(middle, en + 1, ToBits(at, 8), ToBits(at, 8));
    assert Seen(after, masked, en + 1, 8)[..8] == Seen(after, masked, en + 1, 8);
    assert RecordedBy(before, middle, after, masked, en, at);
  }

  lemma SameCanRecord(before: seq<bool>, after: seq<bool>, masked: bool, l: Layout, at: nat)
    requires OnChip(l, |before|) && at < 256 && OnlyIn(before, after, l.hash, l.hash + HASH_BITS)
    requires CanRecord(before, masked, l.en1, at)
    ensures CanRecord(after, masked, l.en1, at)
  {
    hide ToBits;
    var s0, s1 := Seen(before[l.en1 := true], masked, l.en1, 1), Seen(after[l.en1 := true], masked, l.en1, 1);
    assert forall i :: 0 <= i < 8 ==> s0[i] == s1[i];
  }

  // A write with one error.
  lemma RunWithOneError(before: seq<bool>, masked: bool, l: Layout, data: seq<bool>, at: nat) returns (after: seq<bool>)
    requires OnChip(l, |before|) && |data| == HASH_BITS && at < 256
    requires CanMiss(before, l, data, at) && CanRecord(before, masked, l.en1, at)
    ensures BootRun(before, after, masked, l, data) && Diffs(data, Stored(after, l), HASH_BITS) == [at]
  {
    hide Seen, Diffs, Set, ToBits, Recorded, CanRecord, CanMiss;
    var f1 := OneMissed(before, l, data, at);
    ProgramsOnlyIn(before, f1, l.hash, data);
    SameCanRecord(before, f1, masked, l, at);
    var f2 := RecordTakes(f1, masked, l.en1, at);
    after := Put(f2, l.flag, [true, true]);
    FlagsTake(f2, masked, l);
    HashKept(f1, f2, f2, after, masked, l, data);
    assert Steps(before, f1, f2, f2, after, masked, l, data);
  }

  lemma RunInVain(before: seq<bool>, masked: bool, l: Layout, data: seq<bool>) returns (after: seq<bool>)
    requires OnChip(l, |before|) && |data| == HASH_BITS && BootAtRisk(before, masked, l, data)
    ensures BootRun(before, after, masked, l, data) && Corrected(after, masked, l) != data
  {
    hide Seen, Num, Diffs, Set, ToBits, Recorded, CanRecord, CanTake, CanMiss, Corrected;
    if CanTake(before, l, data) && !ReadsBack(before, masked, l, 0) {
      after := RunWithoutErrors(before, masked, l, data);
    } else {
      var at :| 0 <= at < 256 && CanMiss(before, l, data, at) && CanRecord(before, masked, l.en1, at);
      after := RunWithOneError(before, masked, l, data, at);
    }
    var f1, f2, f3 :| Steps(before, f1, f2, f3, after, masked, l, data);
    Together(before, f1, f2, f3, after, masked, l, data);
    BootExact(before, after, masked, l, data);
  }

  /** Every successful write reads back, whatever fuses fail, if and only if the fuses are not at risk before. */
  lemma BootWriteExact(before: seq<bool>, masked: bool, l: Layout, data: seq<bool>)
    requires OnChip(l, |before|) && |data| == HASH_BITS
    ensures !BootAtRisk(before, masked, l, data) <==>
            forall after :: BootRun(before, after, masked, l, data) ==> Corrected(after, masked, l) == data
  {
    hide BootAtRisk, BootRun, Corrected;
    if BootAtRisk(before, masked, l, data) {
      var after := RunInVain(before, masked, l, data);
    } else {
      forall after | BootRun(before, after, masked, l, data)
        ensures Corrected(after, masked, l) == data
      {
        RunSafe(before, after, masked, l, data);
      }
    }
  }

  /** In particular with both enable fields blank before the write. */
  lemma BlankNotAtRisk(before: seq<bool>, masked: bool, l: Layout, data: seq<bool>)
    requires OnChip(l, |before|) && |data| == HASH_BITS
    requires !Set(before, masked, l.en1, 1) && !Set(before, masked, l.en2, 1)
    ensures !BootAtRisk(before, masked, l, data)
  {
    hide Set;
    BlankReadsBack(before, masked, l);
  }

  /** The hash in the fuses is written again when a first error was recorded before and no second one: the write
      succeeds and the read turns one bit over. */
  lemma StaleRecord(before: seq<bool>, masked: bool, l: Layout) returns (after: seq<bool>)
    requires OnChip(l, |before|) && Set(before, masked, l.en1, 1) && !Set(before, masked, l.en2, 1)
    ensures BootRun(before, after, masked, l, Stored(before, l))
    ensures Corrected(after, masked, l) != Stored(before, l)
  {
    hide Set, Corrected, BootRun;
    assert CanTake(before, l, Stored(before, l));
    after := RunInVain(before, masked, l, Stored(before, l));
  }

  /** An instance: only the first enable fuse is set, the hash is all zeros and is written again. */
  lemma StaleInstance(masked: bool) returns (before: seq<bool>, after: seq<bool>)
    ensures |before| == 2048 && Stored(before, BOOT1) == seq(HASH_BITS, _ => false)
    ensures BootRun(before, after, masked, BOOT1, seq(HASH_BITS, _ => false))
    ensures Corrected(after, masked, BOOT1) != seq(HASH_BITS, _ => false)
  {
    hide BootRun, Corrected;
    before := seq(2048, i => i == BOOT1.en1);
    assert Seen(before, masked, BOOT1.en1, 1)[0];
    assert Zero(Seen(before, masked, BOOT1.en2, 1));
    assert Stored(before, BOOT1) == seq(HASH_BITS, _ => false);
    after := StaleRecord(before, masked, BOOT1);
  }

  /** A write and the next read. */
  method WriteThenReadBoot(chip: Chip, l: Layout, data: seq<bool>, back: array<bool>)
    returns (written: Ack, read: Ack, ghost errors: nat)
    requires OnChip(l, |chip.fuse|) && |data| == HASH_BITS && back.Length == HASH_BITS
    modifies chip, back
    ensures OnChip(l, |chip.fuse|)
    ensures written.Ok? ==> !read.NoDataErr? && errors == |Diffs(data, Stored(chip.fuse, l), HASH_BITS)| <= 2
    ensures written.Ok? && read.Ok? ==> (back[..] == data <==> ReadsBack(old(chip.fuse), chip.masked, l, errors))
    ensures written.Ok? && read.Ok? && !BootAtRisk(old(chip.fuse), chip.masked, l, data) ==> back[..] == data
    ensures written.Ok? && read.Ok? &&
            !Set(old(chip.fuse), chip.masked, l.en1, 1) && !Set(old(chip.fuse), chip.masked, l.en2, 1) ==>
              back[..] == data
  {
    hide Seen, Num, Diffs, Set, BootRun, BootAtRisk, ReadsBack, Corrected;
    ghost var before := chip.fuse;
    written := WriteBoot(chip, l, data);
    read := ReadBoot(chip, l, back);
    errors := |Diffs(data, Stored(chip.fuse, l), HASH_BITS)|;
    if written.Ok? {
      BootExact(before, chip.fuse, chip.masked, l, data);
      BootWriteExact(before, chip.masked, l, data);
      if !Set(before, chip.masked, l.en1, 1) && !Set(before, chip.masked, l.en2, 1) {
        BlankNotAtRisk(before, chip.masked, l, data);
      }
    }
  }
}
