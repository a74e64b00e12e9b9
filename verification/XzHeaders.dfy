/** Stream Header, Block Header and Stream Footer written byte by byte from The .xz File Format, sections 2.1 and
    3.1. The parser accepts exactly what is written. */
module XzHeaders {
  import opened Basics
  import opened Places
  import opened Lzma2Decoder
  import opened XzFormat
  import opened XzIndex

  // ---------- What is written ----------

  /** 32 bits, the lowest byte first. */
  function Word32(v: nat): (s: seq<Byte>)
    ensures |s| == 4
  {
    [v % 0x100, v / 0x100 % 0x100, v / 0x1_0000 % 0x100, v / 0x100_0000 % 0x100]
  }

  /** The magic bytes 0xFD "7zXZ" 0x00, the check, and a CRC32. */
  function StreamHeader(check: Byte): (h: seq<Byte>)
    ensures |h| == 12
  {
    [0xFD, 0x37, 0x7A, 0x58, 0x5A, 0x00] + ([0x00, check] + Word32(Crc([0x00, check], 0)))
  }

  /** The size of the Index with its CRC32, in words less one, and the check. */
  function FooterFields(indexSize: nat, check: Byte): (f: seq<Byte>)
    requires indexSize >= 4
    ensures |f| == 6
  {
    Word32(indexSize / 4 - 1) + [0x00, check]
  }

  /** A CRC32, the fields and the magic bytes "YZ". */
  function StreamFooter(indexSize: nat, check: Byte): (f: seq<Byte>)
    requires indexSize >= 4
    ensures |f| == 12
  {
    Word32(Crc(FooterFields(indexSize, check), 0)) + (FooterFields(indexSize, check) + [0x59, 0x5A])
  }

  /** What a Block Header says: sizes, where it has them, the filters, and how much padding there is. */
  datatype Fields = Fields(compressed: Option<nat>, uncompressed: Option<nat>, branches: bool, props: Byte,
                           padding: nat)

  /** Block Flags: the number of filters less one, and which sizes follow. */
  function FlagsByte(f: Fields): Byte {
    (if f.branches then 0x01 else 0) + (if f.compressed.Some? then 0x40 else 0)
    + (if f.uncompressed.Some? then 0x80 else 0)
  }

  function OptionalSize(size: Option<nat>): seq<Byte> {
    if size.Some? then Encode(size.value) else []
  }

  /** ARM-Thumb has the filter ID 0x08 and no properties, LZMA2 has 0x21 and one byte. */
  function FilterBytes(f: Fields): seq<Byte> {
    (if f.branches then [0x08, 0x00] else []) + [0x21, 0x01, f.props]
  }

  /** Sizes, filters and padding. */
  function FieldBytes(f: Fields): seq<Byte> {
    OptionalSize(f.compressed) + (OptionalSize(f.uncompressed) + (FilterBytes(f) + Zeros(f.padding)))
  }

  /** The header is a multiple of four bytes long, and at most 1024. */
  predicate LengthFits(f: Fields) {
    (2 + |FieldBytes(f)|) % 4 == 0 && 2 + |FieldBytes(f)| <= 1020
  }

  /** The size of the header in words less one, the flags and the fields. */
  function SizedFields(f: Fields): seq<Byte>
    requires LengthFits(f)
  {
    [(2 + |FieldBytes(f)|) / 4, FlagsByte(f)] + FieldBytes(f)
  }

  function HeaderBytes(f: Fields): (h: seq<Byte>)
    requires LengthFits(f)
    ensures |h| == |FieldBytes(f)| + 6
  {
    SizedFields(f) + Word32(Crc(SizedFields(f), 0))
  }

  predicate Fits(size: Option<nat>) {
    size.Some? ==> size.value < VLI_LIMIT
  }

  predicate FieldsFit(f: Fields) {
    LengthFits(f) && Fits(f.compressed) && Fits(f.uncompressed) && f.props <= 39
  }

  function SizeOf(size: Option<nat>): nat {
    if size.Some? then size.value else VLI_UNKNOWN
  }

  /** What the parser makes of it. */
  function HeaderOf(f: Fields): BlockHeader
    requires LengthFits(f)
  {
    BlockHeader(|HeaderBytes(f)|, SizeOf(f.compressed), SizeOf(f.uncompressed), f.branches, f.props)
  }

  // ---------- Words and bytes ----------

  lemma WordIsLe(v: nat)
    ensures v < 0x1_0000_0000 ==> Word32(v) == Le(v, 4)
  {
    assert Le(v, 4) == [v % 256] + Le(v / 256, 3);
    assert Le(v / 256, 3) == [v / 256 % 256] + Le(v / 256 / 256, 2);
    assert Le(v / 256 / 256, 2) == [v / 256 / 256 % 256] + Le(v / 256 / 256 / 256, 1);
    assert Le(v / 256 / 256 / 256, 1) == [v / 256 / 256 / 256 % 256] + Le(v / 256 / 256 / 256 / 256, 0);
  }

  lemma LowByte(v: nat, b: Byte, q: nat)
    ensures v == b + 0x100 * q <==> v % 0x100 == b && v / 0x100 == q
  {
  }

  lemma Bytes(v: nat)
    ensures v / 0x1_0000 == v / 0x100 / 0x100 && v / 0x100_0000 == v / 0x100 / 0x100 / 0x100
  {
  }

  lemma Digits(v: nat, b0: Byte, b1: Byte, b2: Byte, b3: Byte)
    requires v < 0x1_0000_0000
    ensures v == b0 + 0x100 * b1 + 0x1_0000 * b2 + 0x100_0000 * b3 <==>
            Word32(v) == [b0, b1, b2, b3]
  {
    Bytes(v);
    var c0: int, c1: int, c2: int, c3: int := b0, b1, b2, b3;
    LowByte(v, b0, c1 + 0x100 * (c2 + 0x100 * c3));
    LowByte(v / 0x100, b1, c2 + 0x100 * c3);
    LowByte(v / 0x100 / 0x100, b2, c3);
    var w := Word32(v);
    assert w == [b0, b1, b2, b3] <==> w[0] == b0 && w[1] == b1 && w[2] == b2 && w[3] == b3;
  }

  lemma FourAt(s: seq<Byte>, p: nat, bytes: seq<Byte>)
    requires |bytes| == 4
    ensures At(s, p, bytes) <==> p + 4 <= |s| && bytes == [s[p], s[p + 1], s[p + 2], s[p + 3]]
  {
    AtSlice(s, p, bytes);
  }

  lemma WordExact(s: seq<Byte>, p: nat, v: nat)
    requires v < 0x1_0000_0000 && p + 4 <= |s|
    ensures At(s, p, Word32(v)) <==> GetLe32(s, p) == v
  {
    hide At, Word32;
    FourAt(s, p, Word32(v));
    Digits(v, s[p], s[p + 1], s[p + 2], s[p + 3]);
  }

  lemma TwoAt(s: seq<Byte>, p: nat, a: Byte, b: Byte)
    ensures At(s, p, [a, b]) <==> p + 2 <= |s| && s[p] == a && s[p + 1] == b
  {
    AtSlice(s, p, [a, b]);
  }

  // ---------- Stream Header and Stream Footer ----------

  /** A Stream Header is accepted exactly if it is written so. */
  lemma StreamHeaderExact(h: seq<Byte>, check: Byte)
    requires |h| == 12
    ensures ReadStreamHeader(h) == Some(check) <==> check <= 1 && h == StreamHeader(check)
  {
    hide Crc, Word32, At, GetLe32;
    var magic, flags: seq<Byte> := [0xFD, 0x37, 0x7A, 0x58, 0x5A, 0x00], [0x00, check];
    var crc := Word32(Crc(flags, 0));
    AtWhole(h, StreamHeader(check));
    AtParts(h, 0, magic, flags + crc);
    AtParts(h, 6, flags, crc);
    AtSlice(h, 0, magic);
    assert h[0..6] == h[..6];
    TwoAt(h, 6, 0x00, check);
    AtSlice(h, 6, flags);
    WordExact(h, 8, Crc(flags, 0));
  }

  /** A Stream Footer is accepted exactly if it is written so, for an Index of this size without its CRC32. */
  lemma StreamFooterExact(f: seq<Byte>, indexSize: nat, check: Byte)
    requires |f| == 12 && indexSize % 4 == 0
    ensures FooterValid(f, indexSize, check) <==>
            indexSize / 4 < 0x1_0000_0000 && f == StreamFooter(indexSize + 4, check)
  {
    hide Crc, Word32, At;
    var size, flags, magic: seq<Byte> := Word32(indexSize / 4), [0x00, check], [0x59, 0x5A];
    var fields := FooterFields(indexSize + 4, check);
    AtWhole(f, StreamFooter(indexSize + 4, check));
    AtParts(f, 0, Word32(Crc(fields, 0)), fields + magic);
    AtParts(f, 4, fields, magic);
    AtParts(f, 4, size, flags);
    AtSlice(f, 4, fields);
    AtSlice(f, 10, magic);
    assert f[10..12] == f[10..];
    TwoAt(f, 8, 0x00, check);
    WordExact(f, 0, Crc(fields, 0));
    if indexSize / 4 < 0x1_0000_0000 {
      WordExact(f, 4, indexSize / 4);
    }
  }

  // ---------- Block Header ----------

  lemma FlagBits(f: Fields)
    ensures var flags: int := FlagsByte(f);
            && flags / 2 % 32 == 0 && (flags % 2 == 1 <==> f.branches)
            && (flags / 0x40 % 2 == 1 <==> f.compressed.Some?) && (flags / 0x80 == 1 <==> f.uncompressed.Some?)
  {
  }

  lemma FlagsRead(f: Fields, flags: Byte)
    requires flags / 2 % 32 == 0 && (flags % 2 == 1 <==> f.branches)
    requires (flags / 0x40 % 2 == 1 <==> f.compressed.Some?) && (flags / 0x80 == 1 <==> f.uncompressed.Some?)
    ensures flags == FlagsByte(f)
  {
  }

  /** A size is read exactly where it is written. */
  lemma SizeExact(h: seq<Byte>, present: bool, p: nat, limit: nat, size: Option<nat>)
    requires p <= limit <= |h| && present == size.Some?
    ensures SizeField(h, present, p, limit) == Some((SizeOf(size), p + |OptionalSize(size)|))
       <==> Fits(size) && p + |OptionalSize(size)| <= limit && At(h, p, OptionalSize(size))
  {
    hide Encode, ReadVli;
    if present {
      AtSlice(h, p, Encode(size.value));
      VliExact(h, p, limit, size.value, p + |Encode(size.value)|);
    }
  }

  lemma ZerosAt(h: seq<Byte>, p: nat, n: nat)
    requires p + n <= |h|
    ensures At(h, p, Zeros(n)) <==> forall i :: p <= i < p + n ==> h[i] == 0
  {
    if At(h, p, Zeros(n)) {
      forall i | p <= i < p + n
        ensures h[i] == 0
      {
        assert h[p + (i - p)] == Zeros(n)[i - p];
      }
    }
  }

  /** The filters are read exactly where they are written, with zeros up to the limit. */
  lemma FiltersExact(h: seq<Byte>, f: Fields, p: nat, limit: nat)
    requires p + |FilterBytes(f)| + f.padding == limit <= |h|
    ensures Filters(h, f.branches, p, limit) == Some(f.props)
       <==> f.props <= 39 && At(h, p, FilterBytes(f) + Zeros(f.padding))
  {
    hide At, Zeros;
    var last: seq<Byte> := [0x21, 0x01, f.props];
    var q := if f.branches then p + 2 else p;
    AtParts(h, p, FilterBytes(f), Zeros(f.padding));
    ZerosAt(h, p + |FilterBytes(f)|, f.padding);
    ThreeAt(h, q, 0x21, 0x01, f.props);
    if f.branches {
      AtParts(h, p, [0x08, 0x00], last);
      TwoAt(h, p, 0x08, 0x00);
    } else {
      assert [] + last == last;
    }
  }

  lemma ThreeAt(s: seq<Byte>, p: nat, a: Byte, b: Byte, c: Byte)
    ensures At(s, p, [a, b, c]) <==> p + 3 <= |s| && s[p] == a && s[p + 1] == b && s[p + 2] == c
  {
    AtSlice(s, p, [a, b, c]);
  }

  /** The parts of a Block Header at their places. */
  lemma HeaderPlaces(h: seq<Byte>, f: Fields)
    requires 8 <= |h| && LengthFits(f) && |h| == |HeaderBytes(f)|
    ensures var limit, p1 := |h| - 4, 2 + |OptionalSize(f.compressed)|;
            var p2 := p1 + |OptionalSize(f.uncompressed)|;
            && limit == p2 + |FilterBytes(f)| + f.padding
            && (h == HeaderBytes(f) <==>
                && h[0] == |h| / 4 - 1 && h[1] == FlagsByte(f)
                && At(h, 2, OptionalSize(f.compressed)) && At(h, p1, OptionalSize(f.uncompressed))
                && At(h, p2, FilterBytes(f) + Zeros(f.padding))
                && Crc(h[..limit], 0) == GetLe32(h, limit))
  {
    hide Crc, Word32, At, FlagsByte, FilterBytes, OptionalSize, GetLe32, Zeros;
    var sized, limit := SizedFields(f), |h| - 4;
    var c, u, tail := OptionalSize(f.compressed), OptionalSize(f.uncompressed), FilterBytes(f) + Zeros(f.padding);
    AtWhole(h, HeaderBytes(f));
    AtParts(h, 0, sized, Word32(Crc(sized, 0)));
    AtSlice(h, 0, sized);
    assert h[0..limit] == h[..limit];
    WordExact(h, limit, Crc(sized, 0));
    AtParts(h, 0, [sized[0], FlagsByte(f)], c + (u + tail));
    TwoAt(h, 0, sized[0], FlagsByte(f));
    AtParts(h, 2, c, u + tail);
    AtParts(h, 2 + |c|, u, tail);
  }

  lemma HeaderWritten(h: seq<Byte>, f: Fields, dictMax: nat)
    requires FieldsFit(f) && DictionarySize(f.props) <= dictMax && h == HeaderBytes(f)
    ensures 8 <= |h| <= 1024 && ReadBlockHeader(h, dictMax) == Some(HeaderOf(f))
  {
    hide Crc, At, FlagsByte, FilterBytes, OptionalSize, GetLe32, HeaderBytes, SizeField, Filters, FieldBytes;
    hide DictionarySize;
    FilterLength(f);
    FieldLength(f);
    HeaderPlaces(h, f);
    var limit, p1 := |h| - 4, 2 + |OptionalSize(f.compressed)|;
    var p2 := p1 + |OptionalSize(f.uncompressed)|;
    FlagBits(f);
    SizeExact(h, f.compressed.Some?, 2, limit, f.compressed);
    SizeExact(h, f.uncompressed.Some?, p1, limit, f.uncompressed);
    FiltersExact(h, f, p2, limit);
  }

  lemma FilterLength(f: Fields)
    ensures |FilterBytes(f)| == if f.branches then 5 else 3
  {
  }

  lemma FieldLength(f: Fields)
    ensures |FieldBytes(f)|
         == |OptionalSize(f.compressed)| + |OptionalSize(f.uncompressed)| + |FilterBytes(f)| + f.padding
  {
    hide OptionalSize, FilterBytes;
  }

  lemma SizeParsed(h: seq<Byte>, present: bool, p: nat, limit: nat, v: nat, q: nat) returns (size: Option<nat>)
    requires p <= limit <= |h| && SizeField(h, present, p, limit) == Some((v, q))
    ensures size.Some? == present && v == SizeOf(size) && q == p + |OptionalSize(size)| <= limit
  {
    hide Encode, ReadVli;
    size := if present then Some(v) else None;
    if present {
      VliExact(h, p, limit, v, q);
    }
  }

  lemma FiltersInside(h: seq<Byte>, bcj: bool, p: nat, limit: nat)
    requires p <= limit <= |h| && Filters(h, bcj, p, limit).Some?
    ensures p + (if bcj then 5 else 3) <= limit
  {
  }

  lemma HeaderParsed(h: seq<Byte>, dictMax: nat, r: BlockHeader) returns (f: Fields)
    requires 8 <= |h| <= 1024 && |h| % 4 == 0 && h[0] == |h| / 4 - 1 && ReadBlockHeader(h, dictMax) == Some(r)
    ensures FieldsFit(f) && DictionarySize(f.props) <= dictMax && h == HeaderBytes(f) && r == HeaderOf(f)
  {
    hide Crc, At, FlagsByte, FilterBytes, OptionalSize, GetLe32, HeaderBytes, SizeField, Filters, FieldBytes;
    hide DictionarySize;
    var limit := |h| - 4;
    var hasC, hasU, bcj := h[1] / 0x40 % 2 == 1, h[1] / 0x80 == 1, h[1] % 2 == 1;
    var (c, p1) := SizeField(h, hasC, 2, limit).value;
    var (u, p2) := SizeField(h, hasU, p1, limit).value;
    var compressed := SizeParsed(h, hasC, 2, limit, c, p1);
    var uncompressed := SizeParsed(h, hasU, p1, limit, u, p2);
    FiltersInside(h, bcj, p2, limit);
    var n := if bcj then 5 else 3;
    f := Fields(compressed, uncompressed, bcj, Filters(h, bcj, p2, limit).value, limit - p2 - n);
    FilterLength(f);
    FieldLength(f);
    FlagsRead(f, h[1]);
    HeaderPlaces(h, f);
    SizeExact(h, hasC, 2, limit, compressed);
    SizeExact(h, hasU, p1, limit, uncompressed);
    FiltersExact(h, f, p2, limit);
  }

  /** A Block Header of the length that its first byte says is accepted exactly if it is written so. */
  lemma BlockHeaderExact(h: seq<Byte>, dictMax: nat, r: BlockHeader)
    requires 8 <= |h| <= 1024 && |h| % 4 == 0 && h[0] == |h| / 4 - 1
    ensures ReadBlockHeader(h, dictMax) == Some(r)
       <==> exists f ::
              FieldsFit(f) && DictionarySize(f.props) <= dictMax && h == HeaderBytes(f) && r == HeaderOf(f)
  {
    hide ReadBlockHeader, HeaderBytes, HeaderOf, FieldBytes, DictionarySize;
    if ReadBlockHeader(h, dictMax) == Some(r) {
      var f := HeaderParsed(h, dictMax, r);
    }
    if f :| FieldsFit(f) && DictionarySize(f.props) <= dictMax && h == HeaderBytes(f) && r == HeaderOf(f) {
      HeaderWritten(h, f, dictMax);
    }
  }

  /** The sizes of a Block are accepted exactly if they are those that its header has. */
  lemma SizesExact(f: Fields, compressed: nat, uncompressed: nat)
    requires FieldsFit(f) && compressed < VLI_LIMIT && uncompressed < VLI_LIMIT
    ensures SizesAgree(HeaderOf(f), compressed, uncompressed) <==>
            (f.compressed.Some? ==> f.compressed.value == compressed) &&
            (f.uncompressed.Some? ==> f.uncompressed.value == uncompressed)
  {
    hide HeaderBytes, FieldBytes, DictionarySize;
  }
}
