/** The ARM-Thumb branch filter of src/xz/xz_dec_bcj.c: bcj_armthumb in place, and what it means. */
module BcjFilter {
  import opened Basics
  import opened RangeCoder

  // ---------- The filter on values ----------

  /** A branch-with-link pair: the top five bits of its odd bytes are 11110 and 11111. */
  predicate Matches(s: seq<Byte>) {
    |s| >= 4 && s[1] / 8 == 0x1E && s[3] / 8 == 0x1F
  }

  /** The 22 address bits of a pair. */
  function Address(s: seq<Byte>): nat
    requires |s| >= 4
  {
    var b0: int, b1: int, b2: int, b3: int := s[0], s[1], s[2], s[3];
    b1 % 8 * 0x8_0000 + b0 * 0x800 + b3 % 8 * 0x100 + b2
  }

  /** The pair with the low 22 bits of addr. */
  function Encode(addr: nat): (s: seq<Byte>)
    ensures |s| == 4
  {
    [addr / 0x800 % 0x100, 0xF0 + addr / 0x8_0000 % 8, addr % 0x100, 0xF8 + addr / 0x100 % 8]
  }

  /** A decoder subtracts the position of the next instruction, an encoder adds it. */
  function Offset(pos: int, decode: bool): int {
    if decode then -(pos + 4) else pos + 4
  }

  /** Address arithmetic on byte offsets in 32 bits. */
  function Moved(addr: nat, offset: int): (r: nat)
    ensures r < 0x8000_0000
  {
    (2 * addr + offset) % U32 / 2
  }

  function Converted(s: seq<Byte>, pos: int, decode: bool): (r: seq<Byte>)
    requires |s| >= 4
    ensures |r| == 4
  {
    Encode(Moved(Address(s), Offset(pos, decode)))
  }

  /** The whole scan; the last bytes, fewer than four, stay as they are. */
  function Filter(s: seq<Byte>, pos: int, decode: bool): (r: seq<Byte>)
    ensures |r| == |s|
  {
    if |s| < 4 then s
    else if Matches(s) then Converted(s, pos, decode) + Filter(s[4..], pos + 4, decode)
    else s[..2] + Filter(s[2..], pos + 2, decode)
  }

  /** How many bytes the scan is done with. */
  function Done(s: seq<Byte>): (n: nat)
    ensures n <= |s| < n + 4 && n % 2 == 0
  {
    if |s| < 4 then 0
    else if Matches(s) then 4 + Done(s[4..])
    else 2 + Done(s[2..])
  }

  // ---------- Properties ----------

  lemma EncodeKeepsPrefix(addr: nat)
    ensures Matches(Encode(addr))
  {
  }

  lemma Low3(q: int, r: int)
    requires 0 <= r < 8
    ensures (8 * q + r) % 8 == r
  {
  }

  lemma Low8(q: int, r: int)
    requires 0 <= r < 0x100
    ensures (0x100 * q + r) % 0x100 == r && (0x100 * q + r) / 0x100 == q
  {
  }

  lemma Low11(q: int, r: int)
    requires 0 <= r < 0x800
    ensures (0x800 * q + r) / 0x800 == q
  {
  }

  lemma Low19(q: int, r: int)
    requires 0 <= r < 0x8_0000
    ensures (0x8_0000 * q + r) / 0x8_0000 == q
  {
  }

  lemma Low22(q: int, r: int)
    requires 0 <= r < 0x40_0000
    ensures (0x40_0000 * q + r) % 0x40_0000 == r
  {
  }

  /** The fields of a number. */
  lemma Fields(addr: int, q: int, a: int, b: int, c: int, d: int)
    requires addr == 0x40_0000 * q + 0x8_0000 * a + 0x800 * b + 0x100 * c + d
    requires 0 <= a < 8 && 0 <= b < 0x100 && 0 <= c < 8 && 0 <= d < 0x100
    ensures addr % 0x100 == d && addr / 0x100 % 8 == c && addr / 0x800 % 0x100 == b && addr / 0x8_0000 % 8 == a
    ensures addr % 0x40_0000 == addr - 0x40_0000 * q
  {
    Low8(0x4000 * q + 0x800 * a + 8 * b + c, d);
    Low11(0x800 * q + 0x100 * a + b, 0x100 * c + d);
    Low19(8 * q + a, 0x800 * b + 0x100 * c + d);
    Low22(q, 0x8_0000 * a + 0x800 * b + 0x100 * c + d);
    Low3(0x800 * q + 0x100 * a + b, c);
    Low8(8 * q + a, b);
    Low3(q, a);
  }

  lemma SplitFields(addr: nat) returns (q: int, a: int, b: int, c: int, d: int)
    ensures addr == 0x40_0000 * q + 0x8_0000 * a + 0x800 * b + 0x100 * c + d
    ensures 0 <= a < 8 && 0 <= b < 0x100 && 0 <= c < 8 && 0 <= d < 0x100
  {
    var x, y, w := addr / 0x100, addr / 0x800, addr / 0x8_0000;
    q, a, b, c, d := w / 8, w % 8, y - 0x100 * w, x - 8 * y, addr - 0x100 * x;
  }

  lemma AddressOfEncoded(addr: nat)
    ensures Address(Encode(addr)) == addr % 0x40_0000
  {
    var q, a, b, c, d := SplitFields(addr);
    Fields(addr, q, a, b, c, d);
  }

  lemma EncodedAddress(s: seq<Byte>)
    requires Matches(s)
    ensures Encode(Address(s)) == s[..4] && Address(s) < 0x40_0000
  {
    var b0: int, b1: int, b2: int, b3: int := s[0], s[1], s[2], s[3];
    Fields(Address(s), 0, b1 % 8, b0, b3 % 8, b2);
  }

  lemma EncodeLow(addr: nat)
    ensures Encode(addr % 0x40_0000) == Encode(addr)
  {
    AddressOfEncoded(addr);
    EncodeKeepsPrefix(addr);
    EncodedAddress(Encode(addr));
  }

  // Halving: only the offset modulo 2^23 matters for the low 22 bits.
  lemma MovedLow(addr: nat, h: int)
    ensures Moved(addr, 2 * h) % 0x40_0000 == (addr + h) % 0x40_0000
    ensures Moved(addr, 2 * h + 1) % 0x40_0000 == (addr + h) % 0x40_0000
  {
    var q, r := (addr + h) / 0x8000_0000, (addr + h) % 0x8000_0000;
    assert addr + h == 0x8000_0000 * q + r;
    assert 2 * addr + 2 * h == U32 * q + 2 * r;
    assert (2 * addr + 2 * h) % U32 == 2 * r;
    assert (2 * addr + 2 * h + 1) % U32 == 2 * r + 1;
    LowBits(q, r);
  }

  lemma LowBits(q: int, r: int)
    ensures (0x8000_0000 * q + r) % 0x40_0000 == r % 0x40_0000
  {
    var r1, r2 := r / 0x40_0000, r % 0x40_0000;
    assert 0x8000_0000 * q + r == 0x40_0000 * (0x200 * q + r1) + r2;
  }

  lemma AddLow(x: int, y: int)
    ensures (x % 0x40_0000 + y) % 0x40_0000 == (x + y) % 0x40_0000
  {
    var q, r := x / 0x40_0000, x % 0x40_0000;
    var q1, r1 := (r + y) / 0x40_0000, (r + y) % 0x40_0000;
    assert x + y == 0x40_0000 * (q + q1) + r1;
  }

  lemma AddressOfFour(s: seq<Byte>)
    requires |s| >= 4
    ensures Address(s[..4]) == Address(s)
  {
  }

  // Moving there and back, in the low 22 bits.
  lemma MovedBack(a: nat, o: int)
    requires a < 0x40_0000
    ensures o % 2 == 0 <==> Moved(Moved(a, o) % 0x40_0000, -o) % 0x40_0000 == a
  {
    hide Moved;
    var m, h := Moved(a, o), o / 2;
    if o % 2 == 0 {
      assert o == 2 * h && -o == 2 * -h;
      MovedLow(a, h);
      MovedLow(m % 0x40_0000, -h);
      AddLow(a + h, -h);
    } else {
      assert o == 2 * h + 1 && -o == 2 * (-h - 1) + 1;
      MovedLow(a, h);
      MovedLow(m % 0x40_0000, -h - 1);
      AddLow(a + h, -h - 1);
      assert a % 0x40_0000 != (a - 1) % 0x40_0000;
    }
  }

  /** Converting there and back is the identity at even positions, and never at odd ones. */
  lemma ConvertBack(s: seq<Byte>, pos: int, decode: bool)
    requires Matches(s)
    ensures Matches(Converted(s, pos, decode))
    ensures pos % 2 == 0 <==> Converted(Converted(s, pos, decode), pos, !decode) == s[..4]
  {
    hide Moved, Encode, Address;
    var a := Address(s);
    EncodedAddress(s);
    var o := Offset(pos, decode);
    var m := Moved(a, o);
    EncodeKeepsPrefix(m);
    AddressOfEncoded(m);
    var back := Moved(m % 0x40_0000, -o);
    EncodeLow(back);
    AddressOfEncoded(back);
    AddressOfFour(s);
    assert Offset(pos, !decode) == -o;
    MovedBack(a, o);
  }

  /** The scan keeps the five prefix bits of the byte that the pair before may look at. */
  lemma KeepsPrefix(s: seq<Byte>, pos: int, decode: bool)
    requires |s| >= 2
    ensures Filter(s, pos, decode)[1] / 8 == s[1] / 8
  {
    if Matches(s) {
      EncodeKeepsPrefix(Moved(Address(s), Offset(pos, decode)));
    }
  }

  /** The same scan with addition in place of subtraction undoes the filter, and the filter undoes it:
      on buffers of every length, a bijection. */
  lemma {:induction false} FilterInverse(s: seq<Byte>, pos: int, decode: bool)
    requires pos % 2 == 0
    ensures Filter(Filter(s, pos, decode), pos, !decode) == s
    decreases |s|
  {
    hide Converted, Matches;
    var f := Filter(s, pos, decode);
    if |s| >= 4 {
      if Matches(s) {
        var rest := Filter(s[4..], pos + 4, decode);
        var c := Converted(s, pos, decode);
        ConvertBack(s, pos, decode);
        MatchesAtFour(c, rest);
        assert f[..4] == c && f[4..] == rest;
        ConvertedAtFour(c, rest, pos, !decode);
        FilterInverse(s[4..], pos + 4, decode);
        assert s == s[..4] + s[4..];
      } else {
        var rest := Filter(s[2..], pos + 2, decode);
        KeepsPrefix(s[2..], pos + 2, decode);
        assert f[..2] == s[..2] && f[2..] == rest;
        SameMatch(s, f);
        FilterInverse(s[2..], pos + 2, decode);
        assert s == s[..2] + s[2..];
      }
    }
  }

  lemma MatchesAtFour(c: seq<Byte>, rest: seq<Byte>)
    requires |c| == 4
    ensures Matches(c + rest) == Matches(c)
  {
  }

  lemma ConvertedAtFour(c: seq<Byte>, rest: seq<Byte>, pos: int, decode: bool)
    requires |c| == 4
    ensures Converted(c + rest, pos, decode) == Converted(c, pos, decode)
  {
  }

  lemma SameMatch(s: seq<Byte>, f: seq<Byte>)
    requires |s| == |f| >= 4 && f[1] == s[1] && f[3] / 8 == s[3] / 8
    ensures Matches(f) == Matches(s)
  {
  }

  /** Filtering a prefix and resuming where the scan stopped equals filtering the whole. */
  lemma {:induction false} FilterResumes(s: seq<Byte>, t: seq<Byte>, pos: int, decode: bool)
    ensures var n := Done(s);
            && Filter(s + t, pos, decode) == Filter(s, pos, decode)[..n] + Filter(s[n..] + t, pos + n, decode)
            && Done(s + t) == n + Done(s[n..] + t)
    decreases |s|
  {
    hide Filter, Done, Head, Matches;
    if |s| >= 4 {
      var k := if Matches(s) then 4 else 2;
      FilterHead(s, pos, decode);
      FilterHead(s + t, pos, decode);
      SameHead(s, t, pos, decode);
      FilterResumes(s[k..], t, pos + k, decode);
      var n := Done(s[k..]);
      assert (s + t)[k..] == s[k..] + t;
      assert s[k..][n..] == s[k + n..];
      Regroup(Head(s, pos, decode), Filter(s[k..], pos + k, decode), n, Filter(s[k + n..] + t, pos + k + n, decode));
    } else {
      NoStep(s, pos, decode);
      assert s[0..] + t == s + t;
    }
  }

  lemma NoStep(s: seq<Byte>, pos: int, decode: bool)
    requires |s| < 4
    ensures Filter(s, pos, decode) == s && Done(s) == 0
  {
  }

  lemma Regroup(head: seq<Byte>, rest: seq<Byte>, n: nat, tail: seq<Byte>)
    requires n <= |rest|
    ensures head + (rest[..n] + tail) == (head + rest)[..|head| + n] + tail
  {
    assert (head + rest)[..|head| + n] == head + rest[..n];
  }

  /** What becomes of the bytes of one step of the scan. */
  function Head(s: seq<Byte>, pos: int, decode: bool): (r: seq<Byte>)
    requires |s| >= 4
    ensures |r| == if Matches(s) then 4 else 2
  {
    if Matches(s) then Converted(s, pos, decode) else s[..2]
  }

  lemma FilterHead(s: seq<Byte>, pos: int, decode: bool)
    requires |s| >= 4
    ensures var k := if Matches(s) then 4 else 2;
            && Filter(s, pos, decode) == Head(s, pos, decode) + Filter(s[k..], pos + k, decode)
            && Done(s) == k + Done(s[k..])
  {
  }

  lemma SameHead(s: seq<Byte>, t: seq<Byte>, pos: int, decode: bool)
    requires |s| >= 4
    ensures Matches(s + t) == Matches(s) && Head(s + t, pos, decode) == Head(s, pos, decode)
  {
    assert (s + t)[..4] == s[..4] && (s + t)[..2] == s[..2];
    if Matches(s) {
      SameConverted(s, s + t, pos, decode);
    }
  }

  lemma SameConverted(s: seq<Byte>, t: seq<Byte>, pos: int, decode: bool)
    requires |s| >= 4 && |t| >= 4 && s[..4] == t[..4]
    ensures Converted(s, pos, decode) == Converted(t, pos, decode)
  {
    assert s[0] == s[..4][0] && s[1] == s[..4][1] && s[2] == s[..4][2] && s[3] == s[..4][3];
    assert t[0] == t[..4][0] && t[1] == t[..4][1] && t[2] == t[..4][2] && t[3] == t[..4][3];
  }

  /** What the scan is not done with is not changed. */
  lemma {:induction false} FilterKeepsTail(s: seq<Byte>, pos: int, decode: bool)
    ensures Filter(s, pos, decode)[Done(s)..] == s[Done(s)..]
    decreases |s|
  {
    hide Converted;
    if |s| >= 4 {
      var k := if Matches(s) then 4 else 2;
      FilterKeepsTail(s[k..], pos + k, decode);
      var n := Done(s[k..]);
      assert s[k..][n..] == s[n + k..];
      assert Filter(s, pos, decode)[k..] == Filter(s[k..], pos + k, decode);
      assert Filter(s, pos, decode)[k..][n..] == Filter(s, pos, decode)[n + k..];
    }
  }

  /** The position counts modulo 2^32. */
  lemma {:induction false} PositionWraps(s: seq<Byte>, pos: int, decode: bool)
    ensures Filter(s, pos % U32, decode) == Filter(s, pos, decode)
    decreases |s|
  {
    PositionPlus(s, pos % U32, pos / U32, decode);
  }

  lemma {:induction false} PositionPlus(s: seq<Byte>, pos: int, wraps: int, decode: bool)
    ensures Filter(s, pos + wraps * U32, decode) == Filter(s, pos, decode)
    decreases |s|
  {
    hide Converted;
    if |s| >= 4 {
      if Matches(s) {
        ConvertedWraps(s, pos, wraps, decode);
        PositionPlus(s[4..], pos + 4, wraps, decode);
      } else {
        PositionPlus(s[2..], pos + 2, wraps, decode);
      }
    }
  }

  lemma ConvertedWraps(s: seq<Byte>, pos: int, wraps: int, decode: bool)
    requires |s| >= 4
    ensures Converted(s, pos + wraps * U32, decode) == Converted(s, pos, decode)
  {
    var x := 2 * Address(s) + Offset(pos, decode);
    SameResidue(x, if decode then -wraps else wraps);
  }

  lemma SameResidue(x: int, k: int)
    ensures (x + k * U32) % U32 == x % U32
  {
    assert x + k * U32 == U32 * (x / U32 + k) + x % U32;
  }

  // ---------- In place ----------

  /** The conversion of one pair in place. */
  method ConvertAt(buf: array<Byte>, at: nat, offset: int)
    requires at + 4 <= buf.Length
    modifies buf
    ensures buf[at..at + 4] == Encode(Moved(Address(old(buf[at..at + 4])), offset))
    ensures forall k :: 0 <= k < buf.Length && !(at <= k < at + 4) ==> buf[k] == old(buf[k])
  {
    hide Moved;
    var b0: int, b1: int, b2: int, b3: int := buf[at], buf[at + 1], buf[at + 2], buf[at + 3];
    var addr := Moved(b1 % 8 * 0x8_0000 + b0 * 0x800 + b3 % 8 * 0x100 + b2, offset);
    buf[at + 1] := 0xF0 + addr / 0x8_0000 % 8;
    buf[at] := addr / 0x800 % 0x100;
    buf[at + 3] := 0xF8 + addr / 0x100 % 8;
    buf[at + 2] := addr % 0x100;
  }

  /** bcj_armthumb on the bytes of a buffer between two indices. */
  method ArmThumb(buf: array<Byte>, from: nat, end: nat, pos: int) returns (i: nat)
    requires from <= end <= buf.Length
    modifies buf
    ensures buf[from..end] == Filter(old(buf[from..end]), pos, true)
    ensures i == Done(old(buf[from..end]))
    ensures forall k :: 0 <= k < buf.Length && !(from <= k < end) ==> buf[k] == old(buf[k])
  {
    hide Converted, Filter, Done;
    ghost var w := buf[from..end];
    i := 0;
    assert buf[from..from] + Filter(w, pos, true) == Filter(w, pos, true);
    while i + 4 <= end - from
      invariant i <= end - from
      invariant buf[from..from + i] + Filter(buf[from + i..end], pos + i, true) == Filter(w, pos, true)
      invariant i + Done(buf[from + i..end]) == Done(w)
      invariant forall k :: 0 <= k < buf.Length && !(from <= k < end) ==> buf[k] == old(buf[k])
      decreases end - from - i
    {
      i := ScanStep(buf, from, i, end, pos);
    }
    ShortEnd(buf[from + i..end], pos + i);
    assert buf[from..end] == buf[from..from + i] + buf[from + i..end];
  }

  lemma ShortEnd(s: seq<Byte>, pos: int)
    requires |s| < 4
    ensures Filter(s, pos, true) == s && Done(s) == 0
  {
  }

  lemma TwoBytes(all: seq<Byte>, at: nat, end: nat)
    requires at + 2 <= end <= |all|
    ensures all[at..at + 2] == all[at..end][..2]
  {
  }

  // The body of the loop of bcj_armthumb.
  method ScanStep(buf: array<Byte>, from: nat, i: nat, end: nat, pos: int) returns (next: nat)
    requires from + i + 4 <= end <= buf.Length
    modifies buf
    ensures i < next <= end - from
    ensures buf[from..from + next] + Filter(buf[from + next..end], pos + next, true)
         == old(buf[from..from + i] + Filter(buf[from + i..end], pos + i, true))
    ensures next + Done(buf[from + next..end]) == i + Done(old(buf[from + i..end]))
    ensures forall k :: 0 <= k < buf.Length && !(from <= k < end) ==> buf[k] == old(buf[k])
  {
    hide Filter, Done, Encode, Moved, Address;
    ghost var s, done, at := buf[from + i..end], buf[from..from + i], from + i;
    FilterHead(s, pos + i, true);
    next := i;
    if buf[from + i + 1] / 8 == 0x1E && buf[from + i + 3] / 8 == 0x1F {
      ghost var four := buf[at..at + 4];
      assert four == s[..4];
      AddressOfFour(s);
      assert Converted(s, pos + i, true) == Encode(Moved(Address(four), -(pos + i + 4)));
      ConvertAt(buf, from + i, -(pos + i + 4));
      next := next + 2;
      assert buf[at..at + 4] == Converted(s, pos + i, true);
    } else {
      TwoBytes(buf[..], at, end);
    }
    next := next + 2;
    assert buf[from..at] == done;
    assert buf[at..from + next] == Head(s, pos + i, true);
    assert buf[from..from + next] == buf[from..at] + buf[at..from + next];
    assert buf[from + next..end] == s[next - i..];
  }
}
