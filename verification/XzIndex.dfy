/** What the decoder accepts as the Index and Stream Footer of a .xz file (section 4 of The .xz File
    Format): exactly the encoding of records that agree with the Blocks. */
module XzIndex {
  import opened Basics
  import opened XzFormat

  datatype Record = Record(unpadded: nat, uncompressed: nat)

  const VLI_LIMIT := 0x8000_0000_0000_0000

  predicate Small(rs: seq<Record>) {
    forall r <- rs :: r.unpadded < VLI_LIMIT && r.uncompressed < VLI_LIMIT
  }

  function RecordBytes(r: Record): seq<Byte> {
    Encode(r.unpadded) + Encode(r.uncompressed)
  }

  function RecordsBytes(rs: seq<Record>): seq<Byte> {
    if rs == [] then [] else RecordBytes(rs[0]) + RecordsBytes(rs[1..])
  }

  function HashOf(rs: seq<Record>, h: Hash): Hash {
    if rs == [] then h else HashOf(rs[1..], AddUncompressed(AddUnpadded(h, rs[0].unpadded), rs[0].uncompressed))
  }

  function SumUnpadded(rs: seq<Record>): nat {
    if rs == [] then 0 else rs[0].unpadded + SumUnpadded(rs[1..])
  }

  function SumUncompressed(rs: seq<Record>): nat {
    if rs == [] then 0 else rs[0].uncompressed + SumUncompressed(rs[1..])
  }

  /** The hash holds the sums of both sizes modulo 2^64. */
  lemma {:induction false} HashSums(rs: seq<Record>, h: Hash)
    requires h.unpadded < U64 && h.uncompressed < U64
    ensures HashOf(rs, h).unpadded == (h.unpadded + SumUnpadded(rs)) % U64
    ensures HashOf(rs, h).uncompressed == (h.uncompressed + SumUncompressed(rs)) % U64
    decreases rs
  {
    hide Crc, HashBytes;
    if rs != [] {
      var h1 := AddUncompressed(AddUnpadded(h, rs[0].unpadded), rs[0].uncompressed);
      HashSums(rs[1..], h1);
      SumWraps(h.unpadded + rs[0].unpadded, SumUnpadded(rs[1..]));
      SumWraps(h.uncompressed + rs[0].uncompressed, SumUncompressed(rs[1..]));
    }
  }

  lemma SumWraps(a: nat, b: nat)
    ensures (a % U64 + b) % U64 == (a + b) % U64
  {
    var q, r := a / U64, a % U64 + b;
    assert a + b == U64 * q + r;
    var q1, r1 := r / U64, r % U64;
    assert U64 * q + r == U64 * (q + q1) + r1;
  }

  /** As many zeros as are missing to a multiple of four. */
  function PadLength(n: nat): (k: nat)
    ensures k < 4 && (n + k) % 4 == 0
  {
    if n % 4 == 0 then 0 else 4 - n % 4
  }

  function Zeros(n: nat): (s: seq<Byte>)
    ensures |s| == n && forall i :: 0 <= i < n ==> s[i] == 0
  {
    if n == 0 then [] else [0] + Zeros(n - 1)
  }

  /** Index Indicator, Number of Records and List of Records. */
  function IndexFields(rs: seq<Record>): seq<Byte> {
    [0] + Encode(|rs|) + RecordsBytes(rs)
  }

  /** The Index without its CRC32. */
  function IndexBytes(rs: seq<Record>): (s: seq<Byte>) {
    IndexFields(rs) + Zeros(PadLength(|IndexFields(rs)|))
  }

  /** At p stand the Index for these records, its CRC32 and a Stream Footer that fits, up to end, and the
      records agree with the Blocks. */
  predicate IndexAt(s: seq<Byte>, check: Byte, p: nat, end: nat, blocks: Blocks, rs: seq<Record>) {
    var bytes := IndexBytes(rs);
    var q := p + |bytes|;
    && |rs| == blocks.count < VLI_LIMIT && Small(rs) && HashOf(rs, NO_HASH) == blocks.hash
    && q + 4 + STREAM_HEADER_SIZE == end <= |s|
    && s[p..q] == bytes
    && s[q..q + 4] == Le(Crc(bytes, 0), 4)
    && FooterValid(s[q + 4..end], |bytes|, check)
  }

  // ---------- Reading ----------

  lemma ReadValue(s: seq<Byte>, q: nat) returns (v: nat, q1: nat)
    requires ReadVli(s, q, |s|, 0, 0).Some?
    ensures ReadVli(s, q, |s|, 0, 0) == Some((v, q1)) && q1 == q + |Encode(v)| <= |s| && s[q..q1] == Encode(v)
    ensures v < VLI_LIMIT
  {
    v, q1 := ReadVli(s, q, |s|, 0, 0).value.0, ReadVli(s, q, |s|, 0, 0).value.1;
    VliExact(s, q, |s|, v, q1);
  }

  lemma WrittenValue(s: seq<Byte>, q: nat, v: nat)
    requires q + |Encode(v)| <= |s| && s[q..q + |Encode(v)|] == Encode(v) && v < VLI_LIMIT
    ensures ReadVli(s, q, |s|, 0, 0) == Some((v, q + |Encode(v)|))
  {
    VliExact(s, q, |s|, v, q + |Encode(v)|);
  }

  lemma {:induction false} RecordsRead(s: seq<Byte>, check: Byte, p: nat, q: nat, left: nat, blocks: Blocks, h: Hash)
    returns (rs: seq<Record>, q1: nat)
    requires p <= q <= |s| && FromRecord(s, check, p, q, left, blocks, h).Valid?
    ensures |rs| == left && Small(rs) && q1 == q + |RecordsBytes(rs)| <= |s| && s[q..q1] == RecordsBytes(rs)
    ensures FromRecord(s, check, p, q, left, blocks, h) == FromIndexPadding(s, check, p, q1, blocks, HashOf(rs, h))
    decreases left
  {
    hide ReadVli, Encode, AddUnpadded, AddUncompressed, FromIndexPadding;
    if left == 0 {
      rs, q1 := [], q;
    } else {
      var u, qu := ReadValue(s, q);
      var v, qv := ReadValue(s, qu);
      var rest;
      rest, q1 := RecordsRead(s, check, p, qv, left - 1, blocks, AddUncompressed(AddUnpadded(h, u), v));
      rs := [Record(u, v)] + rest;
      assert rs[1..] == rest;
      assert s[q..q1] == s[q..qu] + s[qu..qv] + s[qv..q1];
      assert RecordsBytes(rs) == Encode(u) + Encode(v) + RecordsBytes(rest);
    }
  }

  lemma SplitThree(s: seq<Byte>, q: nat, a: seq<Byte>, b: seq<Byte>, c: seq<Byte>)
    requires q + |a| + |b| + |c| <= |s| && s[q..q + |a| + |b| + |c|] == a + b + c
    ensures s[q..q + |a|] == a && s[q + |a|..q + |a| + |b|] == b && s[q + |a| + |b|..q + |a| + |b| + |c|] == c
  {
    var end, all := q + |a| + |b| + |c|, a + b + c;
    SubSlice(s, q, end, 0, |a|);
    SubSlice(s, q, end, |a|, |a| + |b|);
    SubSlice(s, q, end, |a| + |b|, |all|);
    assert all[0..|a|] == a && all[|a|..|a| + |b|] == b && all[|a| + |b|..|all|] == c;
  }

  lemma SubSlice(s: seq<Byte>, x: nat, y: nat, i: nat, j: nat)
    requires x <= y <= |s| && i <= j <= y - x
    ensures s[x..y][i..j] == s[x + i..x + j]
  {
    assert forall k :: i <= k < j ==> s[x..y][k] == s[x + k];
  }

  lemma {:induction false} RecordsWritten(s: seq<Byte>, check: Byte, p: nat, q: nat, rs: seq<Record>, blocks: Blocks,
                                          h: Hash)
    requires p <= q && Small(rs) && q + |RecordsBytes(rs)| <= |s| && s[q..q + |RecordsBytes(rs)|] == RecordsBytes(rs)
    ensures FromRecord(s, check, p, q, |rs|, blocks, h)
         == FromIndexPadding(s, check, p, q + |RecordsBytes(rs)|, blocks, HashOf(rs, h))
    decreases rs
  {
    hide ReadVli, Encode, AddUnpadded, AddUncompressed, FromIndexPadding;
    if rs != [] {
      var u, v, tail := Encode(rs[0].unpadded), Encode(rs[0].uncompressed), RecordsBytes(rs[1..]);
      var qu, qv := q + |u|, q + |u| + |v|;
      var all := s[q..q + |RecordsBytes(rs)|];
      assert all == u + v + tail;
      SplitThree(s, q, u, v, tail);
      assert rs[0] in rs;
      WrittenValue(s, q, rs[0].unpadded);
      WrittenValue(s, qu, rs[0].uncompressed);
      assert forall r <- rs[1..] :: r in rs;
      RecordsWritten(s, check, p, qv, rs[1..], blocks,
                     AddUncompressed(AddUnpadded(h, rs[0].unpadded), rs[0].uncompressed));
    }
  }

  lemma {:induction false} PaddingExact(s: seq<Byte>, check: Byte, p: nat, q: nat, blocks: Blocks, h: Hash)
    requires p <= q <= |s|
    ensures var k := PadLength(q - p);
            FromIndexPadding(s, check, p, q, blocks, h) ==
              if q + k <= |s| && s[q..q + k] == Zeros(k) && h == blocks.hash then
                FromIndexCrc(s, check, p, q + k, blocks.out)
              else Invalid(blocks.out)
    decreases |s| - q
  {
    hide FromIndexCrc;
    var k := PadLength(q - p);
    if k > 0 && q < |s| {
      PadNext(q - p);
      PaddingExact(s, check, p, q + 1, blocks, h);
      if q + k <= |s| {
        assert s[q..q + k] == [s[q]] + s[q + 1..q + k];
        assert Zeros(k) == [0] + Zeros(k - 1);
        assert s[q..q + k] == Zeros(k) <==> s[q] == 0 && s[q + 1..q + k] == Zeros(k - 1) by {
          assert s[q..q + k][0] == s[q] && s[q..q + k][1..] == s[q + 1..q + k];
        }
      }
    } else if k == 0 {
      assert s[q..q] == [];
    }
  }

  lemma PadNext(n: nat)
    requires n % 4 != 0
    ensures PadLength(n + 1) == PadLength(n) - 1
  {
    if n % 4 == 3 {
      assert (n + 1) % 4 == 0;
    } else {
      assert (n + 1) % 4 == n % 4 + 1;
    }
  }

  /** The decoder accepts an Index that begins at p, and ends the file at end, if and only if there are
      records for which it is the Index: as many as Blocks, with the sizes of the Blocks as far as their sums
      and hash tell, with its own CRC32, and with its size as the Backward Size. */
  lemma IndexExact(s: seq<Byte>, check: Byte, p: nat, end: nat, blocks: Blocks)
    requires p < |s| && s[p] == 0
    ensures FromCount(s, check, p, p + 1, blocks) == Valid(blocks.out, end) <==>
            exists rs :: IndexAt(s, check, p, end, blocks, rs)
  {
    hide FromCount, IndexAt;
    if FromCount(s, check, p, p + 1, blocks) == Valid(blocks.out, end) {
      var rs := AcceptedIndex(s, check, p, end, blocks);
    }
    if rs :| IndexAt(s, check, p, end, blocks, rs) {
      WrittenIndex(s, check, p, end, blocks, rs);
    }
  }

  lemma AcceptedIndex(s: seq<Byte>, check: Byte, p: nat, end: nat, blocks: Blocks) returns (rs: seq<Record>)
    requires p < |s| && s[p] == 0
    requires FromCount(s, check, p, p + 1, blocks) == Valid(blocks.out, end)
    ensures IndexAt(s, check, p, end, blocks, rs)
  {
    hide ReadVli, Encode, FromIndexPadding, FromRecord, RecordsBytes, HashOf, FooterValid, Crc, Le;
    var n, q0 := ReadValue(s, p + 1);
    var q1;
    rs, q1 := RecordsRead(s, check, p, q0, n, blocks, NO_HASH);
    var fields := IndexFields(rs);
    assert s[p..q1] == [s[p]] + s[p + 1..q0] + s[q0..q1];
    assert s[p..q1] == fields;
    PaddingExact(s, check, p, q1, blocks, HashOf(rs, NO_HASH));
    var k := PadLength(q1 - p);
    assert s[p..q1 + k] == s[p..q1] + s[q1..q1 + k] == IndexBytes(rs);
  }

  lemma WrittenIndex(s: seq<Byte>, check: Byte, p: nat, end: nat, blocks: Blocks, rs: seq<Record>)
    requires p < |s| && IndexAt(s, check, p, end, blocks, rs)
    ensures FromCount(s, check, p, p + 1, blocks) == Valid(blocks.out, end)
  {
    hide ReadVli, Encode, FromIndexPadding, FromRecord, RecordsBytes, HashOf, FooterValid, Crc, Le;
    var bytes, fields := IndexBytes(rs), IndexFields(rs);
    var e, r := Encode(|rs|), RecordsBytes(rs);
    var q0, q1, q := p + 1 + |e|, p + |fields|, p + |bytes|;
    assert s[p..q][..|fields|] == fields && s[p..q][|fields|..] == Zeros(PadLength(|fields|));
    assert s[p..q1] == s[p..q][..|fields|] && s[q1..q] == s[p..q][|fields|..];
    SplitThree(s, p, [0], e, r);
    WrittenValue(s, p + 1, |rs|);
    RecordsWritten(s, check, p, q0, rs, blocks, NO_HASH);
    PaddingExact(s, check, p, q1, blocks, blocks.hash);
  }
}
