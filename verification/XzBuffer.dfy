/** struct xz_buf of include/xz/xz.h: the caller's input and output of one call. The input is
    constant data; in_size is its length. */
module XzBuffer {
  import opened Basics

  /** enum xz_ret, without the codes that no modelled path returns. */
  datatype Ret = XzOk | XzStreamEnd | XzMemlimitError | XzFormatError | XzOptionsError | XzDataError | XzBufError

  class XzBuf {
    var input: seq<Byte>
    var inPos: nat
    var out: array<Byte>
    var outPos: nat
    var outSize: nat

    ghost predicate Valid()
      reads this
    {
      inPos <= |input| && outPos <= outSize <= out.Length
    }

    constructor (input: seq<Byte>, out: array<Byte>)
      ensures this.input == input && inPos == 0
      ensures this.out == out && outPos == 0 && outSize == out.Length
    {
      this.input, inPos := input, 0;
      this.out, outPos, outSize := out, 0, out.Length;
    }

    /** memcpy to the output position, and past it. */
    method Write(bytes: seq<Byte>)
      requires Valid() && |bytes| <= outSize - outPos
      modifies this`outPos, out
      ensures Valid() && outPos == old(outPos) + |bytes|
      ensures out[..outPos] == old(out[..outPos]) + bytes
      ensures out[outPos..] == old(out[..])[outPos..]
    {
      MemCpy(out, outPos, bytes);
      assert out[..outPos + |bytes|] == out[..outPos] + out[outPos..outPos + |bytes|];
      outPos := outPos + |bytes|;
    }
  }

  /** memcpy of constant data, or of a slice read before the write. */
  method MemCpy(dst: array<Byte>, at: nat, src: seq<Byte>)
    requires at + |src| <= dst.Length
    modifies dst
    ensures dst[at..at + |src|] == src
    ensures forall i :: at <= i < at + |src| ==> dst[i] == src[i - at]
    ensures forall i :: 0 <= i < dst.Length && !(at <= i < at + |src|) ==> dst[i] == old(dst[i])
    ensures dst[..at] == old(dst[..at]) && dst[at + |src|..] == old(dst[at + |src|..])
  {
    forall i | 0 <= i < |src| {
      dst[at + i] := src[i];
    }
  }

  /** memzero from an index to the end. */
  method MemZero(dst: array<Byte>, from: nat)
    requires from <= dst.Length
    modifies dst
    ensures forall i :: 0 <= i < from ==> dst[i] == old(dst[i])
    ensures forall i :: from <= i < dst.Length ==> dst[i] == 0
  {
    forall i | from <= i < dst.Length {
      dst[i] := 0;
    }
  }
}
