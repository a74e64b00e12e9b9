/** What the ARM-Thumb filter does to a program, said of the instructions and without a scan: every branch-with-link
    pair gets the address of its target for the distance to it, or the other way around, and nothing else changes. */
module BcjLaw {
  import opened Basics
  import opened BcjFilter

  /** Two halfwords from an even offset on, from 0xF000 and 0xF800 on. */
  predicate Pair(s: seq<Byte>, i: nat) {
    i % 2 == 0 && i + 4 <= |s| && 0xF0 <= s[i + 1] < 0xF8 && 0xF8 <= s[i + 3]
  }

  /** Eleven bits of each halfword. */
  function Field(s: seq<Byte>, i: nat): (r: int)
    requires Pair(s, i)
    ensures 0 <= r < 0x40_0000
  {
    Halfword(s[i], s[i + 1], 0xF000) * 0x800 + Halfword(s[i + 2], s[i + 3], 0xF800)
  }

  function Halfword(low: int, high: int, base: int): int {
    low + 0x100 * high - base
  }

  /** Of two pairs at the position p the first says as a distance where the second says that it branches to: a distance
      counts halfwords from the next instruction on, which begins at p + 4, and addresses have 23 bits. */
  predicate Branches(p: int, distance: int, target: int) {
    (p + 4 + 2 * distance - 2 * target) % 0x80_0000 == 0
  }

  /** The byte belongs to no pair. */
  predicate Outside(s: seq<Byte>, j: nat) {
    !Pair(s, j - j % 2) && (j >= 2 ==> !Pair(s, j - j % 2 - 2))
  }

  /** The pair at i of f has the distance for the target in s, or the other way around. */
  predicate PairMoved(s: seq<Byte>, f: seq<Byte>, i: nat, pos: int, decode: bool)
    requires Pair(s, i) && Pair(f, i)
  {
    if decode then Branches(pos + i, Field(f, i), Field(s, i)) else Branches(pos + i, Field(s, i), Field(f, i))
  }

  /** f is s with the fields of its pairs replaced; s stands at pos. */
  ghost predicate Replaced(s: seq<Byte>, f: seq<Byte>, pos: int, decode: bool) {
    && |f| == |s|
    && (forall i: nat :: Pair(s, i) ==>
          && Pair(f, i)
          && PairMoved(s, f, i, pos, decode))
    && (forall j: nat :: j < |s| && Outside(s, j) ==> f[j] == s[j])
  }

  // ---------- One pair ----------

  lemma PairIsMatch(s: seq<Byte>)
    ensures Pair(s, 0) <==> Matches(s)
    ensures Pair(s, 0) ==> Field(s, 0) == Address(s)
  {
  }

  lemma MovedBy(addr: nat, offset: int)
    requires offset % 2 == 0
    ensures (2 * (Moved(addr, offset) % 0x40_0000) - (2 * addr + offset)) % 0x80_0000 == 0
  {
    hide Moved;
    var q := MovedParts(addr, offset);
    Congruent(2 * addr + offset, q, Moved(addr, offset));
  }

  lemma MovedParts(addr: nat, offset: int) returns (q: int)
    requires offset % 2 == 0
    ensures 2 * addr + offset == 0x1_0000_0000 * q + 2 * Moved(addr, offset)
  {
    EvenWord(2 * addr + offset);
    q := (2 * addr + offset) / 0x1_0000_0000;
  }

  lemma Congruent(x: int, q: int, h: nat)
    requires x == 0x1_0000_0000 * q + 2 * h
    ensures (2 * (h % 0x40_0000) - x) % 0x80_0000 == 0
  {
    var a, b := h / 0x40_0000, h % 0x40_0000;
    Rounded(h, 0x40_0000);
    var k := -a - 0x200 * q;
    assert 2 * b - x == 0x80_0000 * k;
    Multiple(k);
  }

  lemma EvenWord(x: int)
    requires x % 2 == 0
    ensures x == 0x1_0000_0000 * (x / 0x1_0000_0000) + 2 * (x % 0x1_0000_0000 / 2)
  {
    var q, y := x / 0x1_0000_0000, x % 0x1_0000_0000;
    assert x == 0x1_0000_0000 * q + y;
    assert y == x - 2 * (0x8000_0000 * q);
  }

  lemma Rounded(h: nat, p: nat)
    requires p > 0
    ensures h == p * (h / p) + h % p
  {
  }

  lemma Multiple(k: int)
    ensures 0x80_0000 * k % 0x80_0000 == 0
  {
  }

  lemma ConvertedPair(s: seq<Byte>, pos: int, decode: bool)
    requires Pair(s, 0) && pos % 2 == 0
    ensures var c := Converted(s, pos, decode);
            && Pair(c, 0)
            && if decode then Branches(pos, Field(c, 0), Field(s, 0)) else Branches(pos, Field(s, 0), Field(c, 0))
  {
    hide Encode, Moved;
    var c, m := Converted(s, pos, decode), Moved(Address(s), Offset(pos, decode));
    EncodeKeepsPrefix(m);
    AddressOfEncoded(m);
    PairIsMatch(s);
    PairIsMatch(c);
    MovedBy(Address(s), Offset(pos, decode));
    Negated(2 * Field(c, 0) - (2 * Field(s, 0) + Offset(pos, decode)));
  }

  lemma Negated(x: int)
    requires x % 0x80_0000 == 0
    ensures -x % 0x80_0000 == 0
  {
  }

  // ---------- All pairs ----------

  lemma PairShifts(s: seq<Byte>, k: nat, i: nat)
    requires k <= i && k % 2 == 0 && k <= |s|
    ensures Pair(s, i) <==> Pair(s[k..], i - k)
    ensures Pair(s, i) ==> Field(s, i) == Field(s[k..], i - k)
  {
    assert (i - k) % 2 == i % 2;
  }

  /** Every pair is found, for no two of them overlap. */
  lemma {:induction false} FilterPair(s: seq<Byte>, pos: int, decode: bool, i: nat)
    requires Pair(s, i) && pos % 2 == 0
    ensures var f := Filter(s, pos, decode);
            && Pair(f, i)
            && PairMoved(s, f, i, pos, decode)
    decreases |s|
  {
    hide Converted, Branches, Field;
    var f := Filter(s, pos, decode);
    PairIsMatch(s);
    if i == 0 {
      var c := Converted(s, pos, decode);
      ConvertedPair(s, pos, decode);
      PairFront(c, Filter(s[4..], pos + 4, decode));
    } else {
      var k := if Matches(s) then 4 else 2;
      PairShifts(s, k, i);
      FilterPair(s[k..], pos + k, decode, i - k);
      PairShifts(f, k, i);
      assert f[k..] == Filter(s[k..], pos + k, decode);
      assert pos + k + (i - k) == pos + i;
    }
  }

  lemma PairFront(c: seq<Byte>, rest: seq<Byte>)
    requires |c| == 4 && Pair(c, 0)
    ensures Pair(c + rest, 0) && Field(c + rest, 0) == Field(c, 0)
  {
  }

  /** All other bytes stay. */
  lemma {:induction false} FilterOutside(s: seq<Byte>, pos: int, decode: bool, j: nat)
    requires j < |s| && Outside(s, j)
    ensures Filter(s, pos, decode)[j] == s[j]
    decreases |s|
  {
    hide Converted, Pair;
    PairIsMatch(s);
    if |s| >= 4 {
      var k := if Matches(s) then 4 else 2;
      OutsideFirst(s, j);
      if j >= k {
        OutsideShifts(s, k, j);
        FilterOutside(s[k..], pos + k, decode, j - k);
      }
    }
  }

  lemma OutsideFirst(s: seq<Byte>, j: nat)
    requires Outside(s, j)
    ensures j < 4 ==> !Pair(s, 0)
  {
    hide Pair;
    if j < 2 {
      assert j - j % 2 == 0;
    } else if j < 4 {
      assert j - j % 2 - 2 == 0;
    }
  }

  lemma OutsideShifts(s: seq<Byte>, k: nat, j: nat)
    requires Outside(s, j) && k <= j && k % 2 == 0 && k <= |s|
    ensures Outside(s[k..], j - k)
  {
    hide Pair;
    var e := j - j % 2;
    assert (j - k) % 2 == j % 2;
    PairShifts(s, k, e);
    if j - k >= 2 {
      PairShifts(s, k, e - 2);
    }
  }

  // ---------- Nothing else does so ----------

  lemma SameField(p: int, a: int, b: int, x: int)
    requires 0 <= a < 0x40_0000 && 0 <= b < 0x40_0000
    requires (Branches(p, a, x) && Branches(p, b, x)) || (Branches(p, x, a) && Branches(p, x, b))
    ensures a == b
  {
    if Branches(p, a, x) && Branches(p, b, x) {
      Close(p + 4 + 2 * a - 2 * x, p + 4 + 2 * b - 2 * x);
    } else {
      Close(p + 4 + 2 * x - 2 * a, p + 4 + 2 * x - 2 * b);
    }
  }

  lemma Close(x: int, y: int)
    requires x % 0x80_0000 == 0 && y % 0x80_0000 == 0 && -0x80_0000 < x - y < 0x80_0000
    ensures x == y
  {
  }

  lemma SamePair(f: seq<Byte>, g: seq<Byte>, i: nat)
    requires Pair(f, i) && Pair(g, i) && Field(f, i) == Field(g, i)
    ensures forall j :: i <= j < i + 4 ==> f[j] == g[j]
  {
    Halves(Halfword(f[i], f[i + 1], 0xF000), Halfword(f[i + 2], f[i + 3], 0xF800),
           Halfword(g[i], g[i + 1], 0xF000), Halfword(g[i + 2], g[i + 3], 0xF800));
  }

  lemma Halves(a: int, b: int, c: int, d: int)
    requires a * 0x800 + b == c * 0x800 + d && 0 <= b < 0x800 && 0 <= d < 0x800
    ensures a == c && b == d
  {
  }

  lemma SameByte(s: seq<Byte>, f: seq<Byte>, g: seq<Byte>, pos: int, decode: bool, j: nat)
    requires Replaced(s, f, pos, decode) && Replaced(s, g, pos, decode) && j < |s|
    ensures f[j] == g[j]
  {
    hide Branches, Field, Pair;
    if !Outside(s, j) {
      var e := j - j % 2;
      assert e <= j < e + 2;
      var i: nat := if Pair(s, e) then e else e - 2;
      SameField(pos + i, Field(f, i), Field(g, i), Field(s, i));
      SamePair(f, g, i);
    }
  }

  /** The filter replaces the fields of all pairs and nothing else, and it is all that does so. */
  lemma FilterExact(s: seq<Byte>, f: seq<Byte>, pos: int, decode: bool)
    requires pos % 2 == 0
    ensures f == Filter(s, pos, decode) <==> Replaced(s, f, pos, decode)
  {
    hide Filter, Field, Branches, Outside;
    var g := Filter(s, pos, decode);
    forall i: nat | Pair(s, i)
      ensures Pair(g, i)
      ensures PairMoved(s, g, i, pos, decode)
    {
      FilterPair(s, pos, decode, i);
    }
    forall j: nat | j < |s| && Outside(s, j)
      ensures g[j] == s[j]
    {
      FilterOutside(s, pos, decode, j);
    }
    assert Replaced(s, g, pos, decode);
    if Replaced(s, f, pos, decode) {
      forall j | 0 <= j < |s|
        ensures f[j] == g[j]
      {
        SameByte(s, f, g, pos, decode, j);
      }
    }
  }
}
