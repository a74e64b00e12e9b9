/** What a .xz file is (The .xz File Format), as far as src/xz/xz_dec_stream.c accepts it: integers, CRC32,
    and a parser of the whole file that knows nothing of calls and buffers. */
module XzFormat {
  import opened Basics
  import opened RangeCoder
  import LzmaSymbol
  import opened Lzma2Reference
  import opened Lzma2Decoder
  import opened BcjFilter
  import opened Slicing

  const U64 := 0x1_0000_0000_0000_0000
  const VLI_BYTES_MAX := 9

  // ---------- Variable-length integers ----------

  function Pow128(k: nat): (p: nat)
    ensures p > 0
  {
    if k == 0 then 1 else 128 * Pow128(k - 1)
  }

  /** The encoding of section 1.2 of The .xz File Format. */
  function Encode(n: nat): (s: seq<Byte>)
    ensures |s| > 0
  {
    if n < 128 then [n] else [128 + n % 128] + Encode(n / 128)
  }

  /** dec_vli on bytes that are all there: k bytes were read before, with the value acc. */
  function ReadVli(s: seq<Byte>, p: nat, limit: nat, k: nat, acc: nat): (r: Option<(nat, nat)>)
    requires limit <= |s| && k < VLI_BYTES_MAX
    ensures r.Some? ==> p < r.value.1 <= limit
    decreases VLI_BYTES_MAX - k
  {
    if p >= limit then None
    else
      var acc1 := acc + s[p] % 128 * Pow128(k);
      if s[p] < 128 then
        if s[p] == 0 && k != 0 then None else Some((acc1, p + 1))
      else if k + 1 == VLI_BYTES_MAX then None
      else ReadVli(s, p + 1, limit, k + 1, acc1)
  }

  lemma {:induction false} ReadsEncoded(s: seq<Byte>, p: nat, limit: nat, k: nat, acc: nat, n: nat)
    requires limit <= |s| && k < VLI_BYTES_MAX
    requires p + |Encode(n)| <= limit && s[p..p + |Encode(n)|] == Encode(n)
    requires k + |Encode(n)| <= VLI_BYTES_MAX && (k > 0 ==> n > 0)
    ensures ReadVli(s, p, limit, k, acc) == Some((acc + n * Pow128(k), p + |Encode(n)|))
    decreases n
  {
    hide Encode, Pow128, ReadVli;
    var q := p + |Encode(n)|;
    assert s[p] == s[p..q][0];
    if n < 128 {
      EncodedOne(n);
      LastByte(s, p, limit, k, acc);
    } else {
      EncodedTail(n);
      LowSeven(n % 128);
      assert s[p + 1..q] == s[p..q][1..];
      MoreBytes(s, p, limit, k, acc, n % 128);
      ReadsEncoded(s, p + 1, limit, k + 1, acc + n % 128 * Pow128(k), n / 128);
      Shift(n, Pow128(k));
      PowStep(k);
    }
  }

  lemma EncodedOne(n: nat)
    requires n < 128
    ensures Encode(n) == [n]
  {
  }

  lemma PowStep(k: nat)
    ensures Pow128(k + 1) == 128 * Pow128(k)
  {
  }

  lemma LastByte(s: seq<Byte>, p: nat, limit: nat, k: nat, acc: nat)
    requires p < limit <= |s| && k < VLI_BYTES_MAX && s[p] < 128 && (k > 0 ==> s[p] > 0)
    ensures ReadVli(s, p, limit, k, acc) == Some((acc + s[p] * Pow128(k), p + 1))
  {
    hide Pow128;
  }

  lemma MoreBytes(s: seq<Byte>, p: nat, limit: nat, k: nat, acc: nat, r: nat)
    requires p < limit <= |s| && k + 1 < VLI_BYTES_MAX && r < 128 && s[p] == 128 + r
    ensures ReadVli(s, p, limit, k, acc) == ReadVli(s, p + 1, limit, k + 1, acc + r * Pow128(k))
  {
    hide Pow128;
    LowSeven(r);
  }

  lemma EncodedTail(n: nat)
    requires n >= 128
    ensures Encode(n)[0] == 128 + n % 128 && Encode(n)[1..] == Encode(n / 128) && |Encode(n)| == 1 + |Encode(n / 128)|
  {
  }

  lemma LowSeven(r: nat)
    requires r < 128
    ensures (128 + r) % 128 == r
  {
  }

  lemma Shift(n: nat, p: nat)
    ensures n % 128 * p + n / 128 * (128 * p) == n * p
  {
    assert n == n % 128 + 128 * (n / 128);
    assert n * p == n % 128 * p + 128 * (n / 128) * p;
  }

  lemma {:induction false} ReadIsEncoded(s: seq<Byte>, p: nat, limit: nat, k: nat, acc: nat) returns (n: nat)
    requires limit <= |s| && k < VLI_BYTES_MAX && ReadVli(s, p, limit, k, acc).Some?
    ensures var (v, q) := ReadVli(s, p, limit, k, acc).value;
            && v == acc + n * Pow128(k) && q <= |s| && s[p..q] == Encode(n)
            && k + |Encode(n)| <= VLI_BYTES_MAX && (k > 0 ==> n > 0)
    decreases VLI_BYTES_MAX - k
  {
    hide Encode, Pow128;
    var q := ReadVli(s, p, limit, k, acc).value.1;
    if s[p] < 128 {
      n := s[p];
      EncodedOne(n);
      assert s[p..q] == [s[p]];
    } else {
      var r := s[p] % 128;
      var m := ReadIsEncoded(s, p + 1, limit, k + 1, acc + r * Pow128(k));
      n := r + 128 * m;
      Parts(r, m);
      EncodedTail(n);
      PowStep(k);
      Shift(n, Pow128(k));
      assert s[p..q] == [s[p]] + s[p + 1..q];
      assert Encode(n) == [Encode(n)[0]] + Encode(n)[1..];
    }
  }

  lemma Parts(r: nat, m: nat)
    requires r < 128
    ensures (r + 128 * m) / 128 == m && (r + 128 * m) % 128 == r
  {
  }

  lemma {:induction false} EncodeLength(n: nat, k: nat)
    requires k > 0
    ensures |Encode(n)| <= k <==> n < Pow128(k)
    decreases k
  {
    if n >= 128 {
      if k == 1 {
        assert Pow128(1) == 128 * Pow128(0);
      } else {
        EncodeLength(n / 128, k - 1);
      }
    } else {
      assert Pow128(k) == 128 * Pow128(k - 1);
    }
  }

  lemma NineBytes()
    ensures Pow128(9) == 0x8000_0000_0000_0000
  {
    assert Pow128(9) == 128 * Pow128(8) && Pow128(8) == 128 * Pow128(7) && Pow128(7) == 128 * Pow128(6);
    assert Pow128(6) == 128 * Pow128(5) && Pow128(5) == 128 * Pow128(4) && Pow128(4) == 128 * Pow128(3);
    assert Pow128(3) == 128 * Pow128(2) && Pow128(2) == 128 * Pow128(1) && Pow128(1) == 128 * Pow128(0);
  }

  /** An integer is read exactly where the bytes are its encoding and it is below 2^63; so encodings are
      minimal, at most nine bytes long and different for different integers. */
  lemma VliExact(s: seq<Byte>, p: nat, limit: nat, v: nat, q: nat)
    requires limit <= |s|
    ensures ReadVli(s, p, limit, 0, 0) == Some((v, q))
       <==> p + |Encode(v)| == q <= limit && s[p..q] == Encode(v) && v < 0x8000_0000_0000_0000
  {
    NineBytes();
    EncodeLength(v, 9);
    if ReadVli(s, p, limit, 0, 0) == Some((v, q)) {
      var n := ReadIsEncoded(s, p, limit, 0, 0);
      assert Pow128(0) == 1 && n == v;
    }
    if p + |Encode(v)| == q <= limit && s[p..q] == Encode(v) && v < 0x8000_0000_0000_0000 {
      ReadsEncoded(s, p, limit, 0, 0, v);
    }
  }

  lemma {:induction false} EncodeInjective(m: nat, n: nat)
    requires Encode(m) == Encode(n)
    ensures m == n
    decreases m
  {
    assert Encode(m)[0] == Encode(n)[0];
    if m >= 128 {
      assert Encode(m)[1..] == Encode(m / 128) && Encode(n)[1..] == Encode(n / 128);
      EncodeInjective(m / 128, n / 128);
      assert m % 128 == n % 128;
    }
  }

  /** Seven bits a byte, the lowest first. */
  function SevenBits(s: seq<Byte>): nat {
    if s == [] then 0 else s[0] % 128 + 128 * SevenBits(s[1..])
  }

  /** The highest bit is set in all bytes but the last, and the last is not zero if it is not alone. */
  predicate Minimal(s: seq<Byte>) {
    && s != [] && s[|s| - 1] < 128 && (|s| > 1 ==> s[|s| - 1] != 0)
    && forall i :: 0 <= i < |s| - 1 ==> 128 <= s[i]
  }

  /** Every integer has exactly one minimal encoding. */
  lemma {:induction false} EncodeExact(s: seq<Byte>, n: nat)
    ensures s == Encode(n) <==> Minimal(s) && SevenBits(s) == n
    decreases |s| + n
  {
    if |s| == 1 {
      assert SevenBits(s[1..]) == 0;
      assert s == [s[0]];
      EncodeLong(n);
    } else if |s| > 1 {
      var t := s[1..];
      assert t[|t| - 1] == s[|s| - 1];
      assert s == [s[0]] + t;
      if n >= 128 {
        EncodeExact(t, n / 128);
        EncodeMinimal(s, n);
      } else if Minimal(s) {
        SevenBitsPositive(t);
      }
    }
  }

  lemma EncodeLong(n: nat)
    ensures |Encode(n)| == 1 <==> n < 128
  {
  }

  lemma MinimalTail(s: seq<Byte>)
    requires |s| > 1
    ensures Minimal(s) <==> 128 <= s[0] && Minimal(s[1..]) && (|s| == 2 ==> s[1] != 0)
  {
    var t := s[1..];
    assert t[|t| - 1] == s[|s| - 1];
    if Minimal(s) {
      assert forall i :: 0 <= i < |t| - 1 ==> t[i] == s[i + 1];
    }
    if 128 <= s[0] && Minimal(t) {
      assert forall i :: 1 <= i < |s| - 1 ==> s[i] == t[i - 1];
    }
  }

  lemma OneMore(b: Byte, v: nat, n: nat)
    ensures b >= 128 ==> (b % 128 + 128 * v == n <==> b == 128 + n % 128 && v == n / 128)
  {
  }

  lemma EncodeMinimal(s: seq<Byte>, n: nat)
    requires |s| > 1 && n >= 128
    requires s[1..] == Encode(n / 128) <==> Minimal(s[1..]) && SevenBits(s[1..]) == n / 128
    ensures s == Encode(n) <==> Minimal(s) && SevenBits(s) == n
  {
    hide Encode, Minimal;
    var t := s[1..];
    EncodedTail(n);
    MinimalTail(s);
    OneMore(s[0], SevenBits(t), n);
    assert s == Encode(n) <==> s[0] == Encode(n)[0] && t == Encode(n)[1..] by {
      assert s == [s[0]] + t && Encode(n) == [Encode(n)[0]] + Encode(n)[1..];
    }
    if |s| == 2 && t == Encode(n / 128) {
      EncodeLong(n / 128);
      EncodedOne(n / 128);
    }
  }

  lemma {:induction false} SevenBitsPositive(s: seq<Byte>)
    requires s != [] && s[|s| - 1] < 128 && s[|s| - 1] != 0
    ensures SevenBits(s) > 0
    decreases |s|
  {
    if |s| > 1 {
      SevenBitsPositive(s[1..]);
    }
  }

  // ---------- CRC32 ----------

  /** Exclusive or of k bits. */
  function Xor(a: nat, b: nat, k: nat): (r: nat)
    ensures r < Pow2(k)
  {
    if k == 0 then 0 else (if a % 2 != b % 2 then 1 else 0) + 2 * Xor(a / 2, b / 2, k - 1)
  }

  function Xor32(a: Word, b: Word): (r: Word) {
    TwoTo32();
    Xor(a, b, 32)
  }

  lemma {:induction false} ShiftBy8(n: nat)
    ensures Pow2(n + 8) == 256 * Pow2(n)
  {
    if n == 0 {
      LzmaSymbol.Pow2Values();
    } else {
      ShiftBy8(n - 1);
    }
  }

  lemma TwoTo32()
    ensures Pow2(32) == U32
  {
    LzmaSymbol.Pow2Values();
    ShiftBy8(8);
    ShiftBy8(16);
    ShiftBy8(24);
  }

  /** An entry of the CRC table: n more shifts. */
  function TableEntry(r: Word, n: nat): Word
    decreases n
  {
    if n == 0 then r else TableEntry(if r % 2 == 1 then Xor32(r / 2, 0xEDB8_8320) else r / 2, n - 1)
  }

  function CrcByte(crc: Word, b: Byte): Word {
    Xor32(TableEntry(Xor32(b, crc % 256), 8), crc / 256)
  }

  function CrcFold(bytes: seq<Byte>, crc: Word): Word {
    if bytes == [] then crc else CrcFold(bytes[1..], CrcByte(crc, bytes[0]))
  }

  /** xz_crc32 */
  function Crc(bytes: seq<Byte>, crc: Word): Word {
    U32 - 1 - CrcFold(bytes, U32 - 1 - crc)
  }

  lemma {:induction false} CrcFoldJoin(a: seq<Byte>, b: seq<Byte>, crc: Word)
    ensures CrcFold(a + b, crc) == CrcFold(b, CrcFold(a, crc))
    decreases a
  {
    hide CrcByte;
    if a == [] {
      assert a + b == b;
    } else {
      assert (a + b)[1..] == a[1..] + b;
      CrcFoldJoin(a[1..], b, CrcByte(crc, a[0]));
    }
  }

  /** A CRC can be computed in pieces. */
  lemma CrcJoin(a: seq<Byte>, b: seq<Byte>, crc: Word)
    ensures Crc(a + b, crc) == Crc(b, Crc(a, crc))
  {
    CrcFoldJoin(a, b, U32 - 1 - crc);
  }

  /** The n lowest bytes of a number. */
  function Le(v: nat, n: nat): (s: seq<Byte>)
    ensures |s| == n
  {
    if n == 0 then [] else [v % 256] + Le(v / 256, n - 1)
  }

  /** get_le32 */
  function GetLe32(s: seq<Byte>, p: nat): nat
    requires p + 4 <= |s|
  {
    var b0: int, b1: int, b2: int, b3: int := s[p], s[p + 1], s[p + 2], s[p + 3];
    b0 + 0x100 * b1 + 0x1_0000 * b2 + 0x100_0000 * b3
  }

  // ---------- Sizes of Blocks ----------

  /** struct xz_dec_hash: sums of sizes, and a CRC over their history. */
  datatype Hash = Hash(unpadded: nat, uncompressed: nat, crc: Word)

  const NO_HASH := Hash(0, 0, 0)

  /** The bytes of the struct in memory, padding included. */
  function HashBytes(h: Hash): seq<Byte> {
    Le(h.unpadded, 8) + Le(h.uncompressed, 8) + Le(h.crc, 4) + [0, 0, 0, 0]
  }

  /** The first half of a record is added. */
  function AddUnpadded(h: Hash, v: nat): Hash {
    h.(unpadded := (h.unpadded + v) % U64)
  }

  /** The second half, and the CRC. */
  function AddUncompressed(h: Hash, v: nat): Hash {
    var h1 := h.(uncompressed := (h.uncompressed + v) % U64);
    h1.(crc := Crc(HashBytes(h1), h1.crc))
  }

  // ---------- The parser ----------

  /** A file that is accepted, with what it decodes to and where it ends; or what was decoded before it is refused. */
  datatype Outcome = Valid(out: seq<Byte>, end: nat) | Invalid(out: seq<Byte>)

  const VLI_UNKNOWN := U64 - 1
  const STREAM_HEADER_SIZE := 12
  const HEADER_MAGIC: seq<Byte> := [0xFD, 0x37, 0x7A, 0x58, 0x5A, 0x00]
  const FOOTER_MAGIC: seq<Byte> := [0x59, 0x5A]
  const LZMA2_ID := 0x21

  /** What is known after the Blocks before a position: their number, their sizes and what they decode to. */
  datatype Blocks = Blocks(count: nat, hash: Hash, out: seq<Byte>)

  datatype BlockHeader = BlockHeader(size: nat, compressed: nat, uncompressed: nat, bcj: bool, props: Byte)

  /** A size that may be there or not. */
  function SizeField(h: seq<Byte>, present: bool, p: nat, limit: nat): (r: Option<(nat, nat)>)
    requires limit <= |h|
    ensures r.Some? && p <= limit ==> p <= r.value.1 <= limit
  {
    if present then ReadVli(h, p, limit, 0, 0) else Some((VLI_UNKNOWN, p))
  }

  /** The filters at p: an optional ARM-Thumb filter, then LZMA2 with its dictionary size, then zeros. */
  function Filters(h: seq<Byte>, bcj: bool, p: nat, limit: nat): (props: Option<Byte>)
    requires p <= limit <= |h|
  {
    if bcj && (limit - p < 2 || h[p] != 8 || h[p + 1] != 0) then None
    else
      var p1 := if bcj then p + 2 else p;
      if limit - p1 < 3 || h[p1] != LZMA2_ID || h[p1 + 1] != 1 then None
      else if h[p1 + 2] > 39 || exists i :: p1 + 3 <= i < limit && h[i] != 0 then None
      else Some(h[p1 + 2])
  }

  /** dec_block_header: h is the whole Block Header. */
  function ReadBlockHeader(h: seq<Byte>, dictMax: nat): (r: Option<BlockHeader>)
    requires 8 <= |h| <= 1024
    ensures r.Some? ==> r.value.size == |h| && r.value.props <= 39 && DictionarySize(r.value.props) <= dictMax
  {
    var limit := |h| - 4;
    if Crc(h[..limit], 0) != GetLe32(h, limit) || h[1] / 2 % 32 != 0 then None
    else
      match SizeField(h, h[1] / 0x40 % 2 == 1, 2, limit)
      case None => None
      case Some((compressed, p1)) =>
        match SizeField(h, h[1] / 0x80 == 1, p1, limit)
        case None => None
        case Some((uncompressed, p2)) =>
          match Filters(h, h[1] % 2 == 1, p2, limit)
          case None => None
          case Some(props) =>
            if DictionarySize(props) > dictMax then None
            else Some(BlockHeader(|h|, compressed, uncompressed, h[1] % 2 == 1, props))
  }

  function CheckSize(check: Byte): nat {
    if check == 1 then 4 else 0
  }

  /** dec_stream_header */
  function ReadStreamHeader(s: seq<Byte>): (check: Option<Byte>)
    requires |s| == STREAM_HEADER_SIZE
    ensures check.Some? ==> check.value <= 1
  {
    if s[..6] != HEADER_MAGIC || Crc(s[6..8], 0) != GetLe32(s, 8) || s[6] != 0 || s[7] > 1 then None else Some(s[7])
  }

  /** dec_stream_footer */
  predicate FooterValid(s: seq<Byte>, indexSize: nat, check: Byte)
    requires |s| == STREAM_HEADER_SIZE
  {
    && s[10..] == FOOTER_MAGIC && Crc(s[4..10], 0) == GetLe32(s, 0) && indexSize / 4 == GetLe32(s, 4) && s[8] == 0
    && s[9] == check
  }

  /** From the Stream Footer at p on. */
  function FromFooter(s: seq<Byte>, check: Byte, indexSize: nat, p: nat, out: seq<Byte>): Outcome {
    if p + STREAM_HEADER_SIZE <= |s| && FooterValid(s[p..p + STREAM_HEADER_SIZE], indexSize, check) then
      Valid(out, p + STREAM_HEADER_SIZE)
    else
      Invalid(out)
  }

  /** From the CRC32 of the Index at q on; the Index began at p. */
  function FromIndexCrc(s: seq<Byte>, check: Byte, p: nat, q: nat, out: seq<Byte>): Outcome
    requires p <= q
  {
    if q + 4 <= |s| && s[q..q + 4] == Le(Crc(s[p..q], 0), 4) then FromFooter(s, check, q - p, q + 4, out)
    else Invalid(out)
  }

  /** From the padding of the Index on. */
  function FromIndexPadding(s: seq<Byte>, check: Byte, p: nat, q: nat, blocks: Blocks, hash: Hash): Outcome
    requires p <= q
    decreases |s| - q
  {
    if (q - p) % 4 != 0 then
      if q < |s| && s[q] == 0 then FromIndexPadding(s, check, p, q + 1, blocks, hash) else Invalid(blocks.out)
    else if hash != blocks.hash then Invalid(blocks.out)
    else FromIndexCrc(s, check, p, q, blocks.out)
  }

  /** From a record of the Index on, with left records to come. */
  function FromRecord(s: seq<Byte>, check: Byte, p: nat, q: nat, left: nat, blocks: Blocks, hash: Hash): Outcome
    requires p <= q
    decreases left, 1
  {
    if left == 0 then FromIndexPadding(s, check, p, q, blocks, hash)
    else
      match ReadVli(s, q, |s|, 0, 0)
      case None => Invalid(blocks.out)
      case Some((v, q1)) => FromSecond(s, check, p, q1, left, blocks, AddUnpadded(hash, v))
  }

  /** From the second half of a record on. */
  function FromSecond(s: seq<Byte>, check: Byte, p: nat, q: nat, left: nat, blocks: Blocks, hash: Hash): Outcome
    requires p <= q && left > 0
    decreases left, 0
  {
    match ReadVli(s, q, |s|, 0, 0)
    case None => Invalid(blocks.out)
    case Some((v, q1)) => FromRecord(s, check, p, q1, left - 1, blocks, AddUncompressed(hash, v))
  }

  /** From the number of records of the Index on. */
  function FromCount(s: seq<Byte>, check: Byte, p: nat, q: nat, blocks: Blocks): Outcome
    requires p <= q
  {
    match ReadVli(s, q, |s|, 0, 0)
    case None => Invalid(blocks.out)
    case Some((n, q1)) =>
      if n != blocks.count then Invalid(blocks.out) else FromRecord(s, check, p, q1, n, blocks, NO_HASH)
  }

  /** What a Block adds. */
  function WithBlock(blocks: Blocks, h: BlockHeader, check: Byte, compressed: nat, text: seq<Byte>): Blocks {
    Blocks(
      blocks.count + 1,
      AddUncompressed(AddUnpadded(blocks.hash, h.size + compressed + CheckSize(check)), |text|),
      blocks.out + text)
  }

  /** From a Block or the Index on. */
  ghost function FromBlocks(s: seq<Byte>, dictMax: nat, check: Byte, p: nat, blocks: Blocks): Outcome
    decreases |s| - p, 0
  {
    if p >= |s| then Invalid(blocks.out)
    else if s[p] == 0 then FromCount(s, check, p, p + 1, blocks)
    else
      var first: int := s[p];
      var size := (first + 1) * 4;
      if p + size > |s| then Invalid(blocks.out)
      else
        match ReadBlockHeader(s[p..p + size], dictMax)
        case None => Invalid(blocks.out)
        case Some(h) => FromData(s, dictMax, check, p + size, h, blocks)
  }

  /** What the data of a Block decodes to, from d on. */
  ghost function BlockData(s: seq<Byte>, d: nat, h: BlockHeader): Lzma2Reference.Outcome
    requires d <= |s| && h.props <= 39
  {
    DictionarySizeBound(h.props);
    DecodeStream(s[d..], DictionarySize(h.props))
  }

  function Filtered(h: BlockHeader, raw: seq<Byte>): seq<Byte> {
    if h.bcj then Filter(raw, 0, true) else raw
  }

  /** The observed sizes fit 64 bits and are those of the Block Header, where it has them. */
  predicate SizesAgree(h: BlockHeader, compressed: int, uncompressed: nat) {
    && compressed <= h.compressed && uncompressed <= h.uncompressed
    && (h.compressed == VLI_UNKNOWN || h.compressed == compressed)
    && (h.uncompressed == VLI_UNKNOWN || h.uncompressed == uncompressed)
  }

  /** From the compressed data of a Block on. */
  ghost function FromData(s: seq<Byte>, dictMax: nat, check: Byte, d: nat, h: BlockHeader, blocks: Blocks): Outcome
    requires d <= |s| && h.props <= 39
    decreases |s| - d, 3
  {
    var data := BlockData(s, d, h);
    var text := Filtered(h, data.out);
    if data.status != Ended || !(0 <= data.pos <= |s| - d) || !SizesAgree(h, data.pos, |text|) then
      Invalid(blocks.out + text)
    else FromBlockPadding(s, dictMax, check, data.pos, d + data.pos, text, WithBlock(blocks, h, check, data.pos, text))
  }

  /** From the padding of a Block on; its data and padding so far have size bytes. */
  ghost function FromBlockPadding(s: seq<Byte>, dictMax: nat, check: Byte, size: nat, q: nat, text: seq<Byte>,
                                  blocks: Blocks): Outcome
    requires q <= |s|
    decreases |s| - q, 2
  {
    if size % 4 != 0 then
      if q < |s| && s[q] == 0 then FromBlockPadding(s, dictMax, check, size + 1, q + 1, text, blocks)
      else Invalid(blocks.out)
    else FromCheck(s, dictMax, check, q, text, blocks)
  }

  /** From the Check of a Block on. */
  ghost function FromCheck(s: seq<Byte>, dictMax: nat, check: Byte, q: nat, text: seq<Byte>, blocks: Blocks): Outcome
    requires q <= |s|
    decreases |s| - q, 1
  {
    if check != 1 then FromBlocks(s, dictMax, check, q, blocks)
    else if q + 4 <= |s| && s[q..q + 4] == Le(Crc(text, 0), 4) then FromBlocks(s, dictMax, check, q + 4, blocks)
    else Invalid(blocks.out)
  }

  /** A whole file. */
  ghost function DecodeFile(s: seq<Byte>, dictMax: nat): Outcome {
    if |s| < STREAM_HEADER_SIZE then Invalid([])
    else
      match ReadStreamHeader(s[..STREAM_HEADER_SIZE])
      case None => Invalid([])
      case Some(check) => FromBlocks(s, dictMax, check, STREAM_HEADER_SIZE, Blocks(0, NO_HASH, []))
  }
}
