/** The places between which dec_main of src/xz/xz_dec_stream.c moves, and what the rest of a file amounts to from
    each of them. */
module XzPlace {
  import opened Basics
  import opened XzFormat

  /** The places between which dec_main moves, with what is known there. */
  datatype Place =
    | AtHeader
    | AtBlocks(p: nat, blocks: Blocks)
    | AtData(d: nat, header: BlockHeader, blocks: Blocks)
    | AtBlockPadding(size: nat, q: nat, text: seq<Byte>, blocks: Blocks)
    | AtCheck(q: nat, text: seq<Byte>, blocks: Blocks)
    | AtCount(p: nat, q: nat, blocks: Blocks)
    | AtRecord(p: nat, q: nat, left: nat, blocks: Blocks, hash: Hash)
    | AtSecond(p: nat, q: nat, left: nat, blocks: Blocks, hash: Hash)
    | AtIndexPadding(p: nat, q: nat, blocks: Blocks, hash: Hash)
    | AtIndexCrc(p: nat, q: nat, out: seq<Byte>)
    | AtFooter(indexSize: nat, p: nat, out: seq<Byte>)

  predicate PlaceValid(s: seq<Byte>, place: Place) {
    match place
    case AtData(d, h, _) => d <= |s| && h.props <= 39
    case AtBlockPadding(_, q, _, _) => q <= |s|
    case AtCheck(q, _, _) => q <= |s|
    case AtCount(p, q, _) => p <= q
    case AtRecord(p, q, _, _, _) => p <= q
    case AtSecond(p, q, left, _, _) => p <= q && left > 0
    case AtIndexPadding(p, q, _, _) => p <= q
    case AtIndexCrc(p, q, _) => p <= q
    case _ => true
  }

  /** What the rest of the file amounts to from a place on. */
  ghost function Rest(s: seq<Byte>, dictMax: nat, check: Byte, place: Place): Outcome
    requires PlaceValid(s, place)
  {
    match place
    case AtHeader => DecodeFile(s, dictMax)
    case AtBlocks(p, blocks) => FromBlocks(s, dictMax, check, p, blocks)
    case AtData(d, h, blocks) => FromData(s, dictMax, check, d, h, blocks)
    case AtBlockPadding(size, q, text, blocks) => FromBlockPadding(s, dictMax, check, size, q, text, blocks)
    case AtCheck(q, text, blocks) => FromCheck(s, dictMax, check, q, text, blocks)
    case AtCount(p, q, blocks) => FromCount(s, check, p, q, blocks)
    case AtRecord(p, q, left, blocks, hash) => FromRecord(s, check, p, q, left, blocks, hash)
    case AtSecond(p, q, left, blocks, hash) => FromSecond(s, check, p, q, left, blocks, hash)
    case AtIndexPadding(p, q, blocks, hash) => FromIndexPadding(s, check, p, q, blocks, hash)
    case AtIndexCrc(p, q, out) => FromIndexCrc(s, check, p, q, out)
    case AtFooter(indexSize, p, out) => FromFooter(s, check, indexSize, p, out)
  }

  /** The place leads to target. */
  ghost predicate Leads(s: seq<Byte>, dictMax: nat, check: Byte, place: Place, target: Outcome) {
    PlaceValid(s, place) && Rest(s, dictMax, check, place) == target
  }

  // ---------- What was decoded stays ----------

  lemma {:induction false} PaddingOut(s: seq<Byte>, check: Byte, p: nat, q: nat, blocks: Blocks, hash: Hash)
    requires p <= q
    ensures var r := FromIndexPadding(s, check, p, q, blocks, hash); r.out == blocks.out
    decreases |s| - q
  {
    if (q - p) % 4 != 0 && q < |s| {
      PaddingOut(s, check, p, q + 1, blocks, hash);
    }
  }

  lemma {:induction false} RecordsOut(s: seq<Byte>, check: Byte, p: nat, q: nat, left: nat, blocks: Blocks, hash: Hash)
    requires p <= q
    ensures var r := FromRecord(s, check, p, q, left, blocks, hash); r.out == blocks.out
    decreases left
  {
    hide ReadVli, AddUnpadded, AddUncompressed, FromIndexPadding;
    if left == 0 {
      PaddingOut(s, check, p, q, blocks, hash);
    } else if ReadVli(s, q, |s|, 0, 0).Some? {
      var (v, q1) := ReadVli(s, q, |s|, 0, 0).value;
      if ReadVli(s, q1, |s|, 0, 0).Some? {
        var (w, q2) := ReadVli(s, q1, |s|, 0, 0).value;
        RecordsOut(s, check, p, q2, left - 1, blocks, AddUncompressed(AddUnpadded(hash, v), w));
      }
    }
  }

  lemma CountOut(s: seq<Byte>, check: Byte, p: nat, q: nat, blocks: Blocks)
    requires p <= q
    ensures var r := FromCount(s, check, p, q, blocks); r.out == blocks.out
  {
    hide ReadVli, FromRecord;
    if ReadVli(s, q, |s|, 0, 0).Some? {
      RecordsOut(s, check, p, ReadVli(s, q, |s|, 0, 0).value.1, ReadVli(s, q, |s|, 0, 0).value.0, blocks, NO_HASH);
    }
  }

  /** What the Blocks before a place decode to is the beginning of what the file decodes to. */
  lemma {:induction false} BlocksGrow(s: seq<Byte>, dictMax: nat, check: Byte, p: nat, blocks: Blocks)
    ensures var r := FromBlocks(s, dictMax, check, p, blocks); blocks.out <= r.out
    decreases |s| - p, 0
  {
    hide FromCount, FromData, ReadBlockHeader;
    if p < |s| {
      if s[p] == 0 {
        CountOut(s, check, p, p + 1, blocks);
      } else {
        var first: int := s[p];
        var size := (first + 1) * 4;
        if p + size <= |s| {
          var h := ReadBlockHeader(s[p..p + size], dictMax);
          if h.Some? {
            DataGrows(s, dictMax, check, p + size, h.value, blocks);
          }
        }
      }
    }
  }

  // Bad data ends the file; good data is a Block.
  lemma DataCases(s: seq<Byte>, dictMax: nat, check: Byte, d: nat, h: BlockHeader, blocks: Blocks)
    requires d <= |s| && h.props <= 39
    ensures var data := BlockData(s, d, h);
            var text := Filtered(h, data.out);
            var r := FromData(s, dictMax, check, d, h, blocks);
            || r == Invalid(blocks.out + text)
            || (0 <= data.pos <= |s| - d
                && r == FromBlockPadding(s, dictMax, check, data.pos, d + data.pos, text,
                                         WithBlock(blocks, h, check, data.pos, text)))
  {
    hide BlockData, Filtered, FromBlockPadding, SizesAgree, WithBlock;
  }

  lemma TextAdded(blocks: Blocks, h: BlockHeader, check: Byte, compressed: nat, text: seq<Byte>)
    ensures WithBlock(blocks, h, check, compressed, text).out == blocks.out + text
  {
    hide AddUnpadded, AddUncompressed;
  }

  lemma {:induction false} DataGrows(s: seq<Byte>, dictMax: nat, check: Byte, d: nat, h: BlockHeader, blocks: Blocks)
    requires d <= |s| && h.props <= 39
    ensures blocks.out + Filtered(h, BlockData(s, d, h).out) <= FromData(s, dictMax, check, d, h, blocks).out
    decreases |s| - d, 3
  {
    hide BlockData, Filtered, FromData, FromBlockPadding, WithBlock;
    var data := BlockData(s, d, h);
    var text := Filtered(h, data.out);
    DataCases(s, dictMax, check, d, h, blocks);
    if 0 <= data.pos <= |s| - d {
      var next := WithBlock(blocks, h, check, data.pos, text);
      TextAdded(blocks, h, check, data.pos, text);
      BlockPaddingGrows(s, dictMax, check, data.pos, d + data.pos, text, next);
    }
  }

  lemma {:induction false} BlockPaddingGrows(s: seq<Byte>, dictMax: nat, check: Byte, size: nat, q: nat,
                                             text: seq<Byte>, blocks: Blocks)
    requires q <= |s|
    ensures var r := FromBlockPadding(s, dictMax, check, size, q, text, blocks); blocks.out <= r.out
    decreases |s| - q, 2
  {
    hide FromCheck;
    if size % 4 != 0 {
      if q < |s| {
        BlockPaddingGrows(s, dictMax, check, size + 1, q + 1, text, blocks);
      }
    } else {
      CheckGrows(s, dictMax, check, q, text, blocks);
    }
  }

  lemma {:induction false} CheckGrows(s: seq<Byte>, dictMax: nat, check: Byte, q: nat, text: seq<Byte>, blocks: Blocks)
    requires q <= |s|
    ensures var r := FromCheck(s, dictMax, check, q, text, blocks); blocks.out <= r.out
    decreases |s| - q, 1
  {
    hide FromBlocks, Crc, Le;
    if check != 1 {
      BlocksGrow(s, dictMax, check, q, blocks);
    } else if q + 4 <= |s| {
      BlocksGrow(s, dictMax, check, q + 4, blocks);
    }
  }
}
