/** Fields of a .xz file that can be split between calls: integers and checks, and how the input of a call
    lies in the file. */
module XzField {
  import opened Basics
  import opened RangeCoder
  import opened XzBuffer
  import opened XzFormat

  /** The input from an index on, not behind inPos, is the file from that index + delta on. */
  ghost predicate Given(s: seq<Byte>, b: XzBuf, from: nat, delta: int)
    reads b`input, b`inPos
  {
    && from <= b.inPos <= |b.input| && 0 <= from + delta && |b.input| + delta <= |s|
    && forall i :: from <= i < |b.input| ==> b.input[i] == s[i + delta]
  }

  function Pow256(k: nat): (p: nat)
    ensures p > 0
  {
    if k == 0 then 1 else 256 * Pow256(k - 1)
  }

  /** (crc >> 8 * j) & 0xFF */
  function ByteOf(crc: Word, j: nat): Byte {
    crc / Pow256(j) % 256
  }

  lemma LeBytes(crc: Word)
    ensures Le(crc, 4) == [ByteOf(crc, 0), ByteOf(crc, 1), ByteOf(crc, 2), ByteOf(crc, 3)]
  {
    assert Pow256(0) == 1 && Pow256(1) == 256 && Pow256(2) == 65536 && Pow256(3) == 16777216;
    assert crc / 256 / 256 == crc / 65536 && crc / 65536 / 256 == crc / 16777216;
    assert Le(crc / 16777216, 1) == [crc / 16777216 % 256] + Le(crc / 16777216 / 256, 0);
    assert Le(crc / 65536, 2) == [crc / 65536 % 256] + Le(crc / 16777216, 1);
    assert Le(crc / 256, 3) == [crc / 256 % 256] + Le(crc / 65536, 2);
    assert Le(crc, 4) == [crc % 256] + Le(crc / 256, 3);
  }

  /** The part of struct xz_dec that says how far a field is read that can be split between calls: pos and
      vli of an integer, pos and crc of a check. */
  class Field {
    var pos: nat
    var vli: nat
    var crc: Word

    constructor ()
      ensures pos == 0 && crc == 0
    {
      pos, vli, crc := 0, 0, 0;
    }

    /** pos / 8 bytes of the check at an index of s were read, and they are right. */
    ghost predicate InCheck(s: seq<Byte>, at: nat)
      reads this
    {
      && pos % 8 == 0 && pos < 32 && at + pos / 8 <= |s|
      && forall j :: 0 <= j < pos / 8 ==> s[at + j] == ByteOf(crc, j)
    }

    /** crc_validate with 32 bits, on input from p on. */
    method CrcValidate(input: seq<Byte>, p: nat, ghost s: seq<Byte>, ghost delta: int, ghost at: nat)
      returns (ret: Ret, q: nat)
      requires InCheck(s, at) && p <= |input| && p + delta == at + pos / 8 && |input| + delta <= |s|
      requires forall i :: p <= i < |input| ==> input[i] == s[i + delta]
      modifies this`pos, this`crc
      ensures p <= q <= |input|
      ensures ret.XzOk? || ret.XzStreamEnd? || ret.XzDataError?
      ensures var right := at + 4 <= |s| && s[at..at + 4] == Le(old(crc), 4);
              && (ret.XzStreamEnd? ==> right && q + delta == at + 4 && pos == 0 && crc == 0)
              && (ret.XzDataError? ==> !right)
              && (ret.XzOk? ==> q == |input| && InCheck(s, at) && q + delta == at + pos / 8 && crc == old(crc))
    {
      hide Pow256, Le;
      LeBytes(crc);
      q := p;
      while true
        invariant p <= q <= |input| && crc == old(crc) && InCheck(s, at) && q + delta == at + pos / 8
        decreases |input| - q
      {
        if q == |input| {
          return XzOk, q;
        }
        q := q + 1;
        if ByteOf(crc, pos / 8) != input[q - 1] {
          WrongByte(s, at, crc, pos / 8);
          return XzDataError, q;
        }
        pos := pos + 8;
        if pos >= 32 {
          break;
        }
      }
      assert s[at..at + 4] == [s[at], s[at + 1], s[at + 2], s[at + 3]];
      pos, crc := 0, 0;
      ret := XzStreamEnd;
    }

    lemma WrongByte(s: seq<Byte>, at: nat, c: Word, j: nat)
      requires j < 4 && at + j < |s| && s[at + j] != ByteOf(c, j)
      ensures at + 4 <= |s| ==> s[at..at + 4] != Le(c, 4)
    {
      hide Pow256, Le;
      LeBytes(c);
      if at + 4 <= |s| {
        assert s[at..at + 4][j] == s[at + j];
      }
    }

    /** How many bytes of an integer were read, and their value. */
    predicate InVli()
      reads this
    {
      pos % 7 == 0 && pos / 7 < VLI_BYTES_MAX
    }

    function Acc(): nat
      reads this
    {
      if pos == 0 then 0 else vli
    }

    /** dec_vli on input from p on: it computes ReadVli on all the bytes, of which input has those up to
        its end. */
    method DecVli(input: seq<Byte>, p: nat, ghost s: seq<Byte>, ghost delta: int, ghost limit: nat)
      returns (ret: Ret, q: nat)
      requires InVli() && p <= |input| && 0 <= p + delta && |input| + delta <= limit <= |s|
      requires forall i :: p <= i < |input| ==> input[i] == s[i + delta]
      modifies this`pos, this`vli
      ensures p <= q <= |input| && (!ret.XzDataError? ==> InVli())
      ensures ret.XzOk? || ret.XzStreamEnd? || ret.XzDataError?
      ensures var whole := ReadVli(s, p + delta, limit, old(pos / 7), old(Acc()));
              && (ret.XzStreamEnd? ==> pos == 0 && whole == Some((vli, q + delta)))
              && (ret.XzDataError? ==> whole == None)
              && (ret.XzOk? ==> q == |input| && whole == ReadVli(s, q + delta, limit, pos / 7, Acc()))
    {
      hide Pow128;
      if pos == 0 {
        vli := 0;
      }
      q := p;
      while q < |input|
        invariant p <= q <= |input| && InVli() && Acc() == vli
        invariant ReadVli(s, p + delta, limit, old(pos / 7), old(Acc())) == ReadVli(s, q + delta, limit, pos / 7, vli)
        decreases |input| - q
      {
        var byte := input[q];
        q := q + 1;
        vli := vli + byte % 128 * Pow128(pos / 7);
        if byte < 128 {
          if byte == 0 && pos != 0 {
            return XzDataError, q;
          }
          pos := 0;
          return XzStreamEnd, q;
        }
        pos := pos + 7;
        if pos == 7 * VLI_BYTES_MAX {
          return XzDataError, q;
        }
      }
      ret := XzOk;
    }
  }
}
