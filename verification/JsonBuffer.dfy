/** struct printbuffer of src/cjson/cJSON.c with ensure, update and pow2gt, and C strings in arrays. */
module JsonBuffer {
  import opened Basics


  // ---------- C strings in arrays ----------

  /** text with its terminator stands at an index of an array, below cap. */
  ghost predicate TextAt(a: array<char>, base: nat, text: string, cap: nat)
    reads a
  {
    base + |text| < cap <= a.Length && a[base..base + |text|] == text && a[base + |text|] == '\0'
  }

  /** Characters one after the other. */
  method Store(a: array<char>, at: nat, text: string, ghost cap: nat)
    requires at + |text| <= cap <= a.Length
    modifies a
    ensures a[at..at + |text|] == text
    ensures forall i :: 0 <= i < a.Length && !(at <= i < at + |text|) ==> a[i] == old(a[i])
  {
    forall i | 0 <= i < |text| {
      a[at + i] := text[i];
    }
  }

  /** strcpy */
  method StrCpy(a: array<char>, at: nat, text: string, ghost cap: nat)
    requires at + |text| < cap <= a.Length
    modifies a
    ensures TextAt(a, at, text, cap)
    ensures a[..at] == old(a[..at])
  {
    Store(a, at, text, cap);
    a[at + |text|] := '\0';
    assert a[at..at + |text|] == text;
  }

  /** strlen */
  method StrLen(a: array<char>, base: nat, ghost text: string, ghost cap: nat) returns (n: nat)
    requires TextAt(a, base, text, cap) && '\0' !in text
    ensures n == |text|
  {
    n := 0;
    assert |text| > 0 ==> a[base] == a[base..base + |text|][0];
    while a[base + n] != '\0'
      invariant n <= |text|
      invariant n < |text| ==> a[base + n] == text[n] && text[n] in text
      decreases |text| - n
    {
      n := n + 1;
      assert n < |text| ==> a[base + n] == a[base..base + |text|][n];
    }
  }

  // ---------- Powers of two ----------

  /** Bitwise or. */
  function Or(a: nat, b: nat): (r: nat)
    ensures r >= a && r >= b
    decreases a + b
  {
    if a == 0 then b
    else if b == 0 then a
    else 2 * Or(a / 2, b / 2) + (if a % 2 == 1 || b % 2 == 1 then 1 else 0)
  }

  /** pow2gt for 32-bit integers; x >> k is x / Pow2(k). */
  function Pow2Gt(x0: nat): (r: nat)
    requires x0 > 0
    ensures r >= x0
  {
    var x := x0 - 1;
    var x := Or(x, x / 2);
    var x := Or(x, x / 4);
    var x := Or(x, x / 16);
    var x := Or(x, x / 256);
    var x := Or(x, x / 65536);
    x + 1
  }

  lemma {:induction false} Pow2Sum(m: nat, n: nat)
    ensures Pow2(m + n) == Pow2(m) * Pow2(n)
    decreases m
  {
    if m > 0 {
      Pow2Sum(m - 1, n);
      assert Pow2(m) * Pow2(n) == 2 * (Pow2(m - 1) * Pow2(n));
    }
  }

  lemma {:induction false} Pow2Between(x: nat) returns (k: nat)
    requires x > 0
    ensures Pow2(k) <= x < Pow2(k + 1)
    decreases x
  {
    if x == 1 {
      k := 0;
    } else {
      k := Pow2Between(x / 2);
      k := k + 1;
    }
  }

  lemma {:induction false} OrBelow(a: nat, b: nat, m: nat)
    requires a < Pow2(m) && b < Pow2(m)
    ensures Or(a, b) < Pow2(m)
    decreases m
  {
    if a > 0 && b > 0 {
      OrBelow(a / 2, b / 2, m - 1);
    }
  }

  // One bit.
  lemma {:induction false} OrStep(a: nat, b: nat)
    ensures Or(a, b) == 2 * Or(a / 2, b / 2) + (if a % 2 == 1 || b % 2 == 1 then 1 else 0)
  {
    assert a == 2 * (a / 2) + a % 2 && b == 2 * (b / 2) + b % 2;
  }

  lemma EvenPlus(half: nat, r: nat)
    ensures (2 * half + r) / 2 == half + r / 2 && (2 * half + r) % 2 == r % 2
  {
  }

  // Bits above the second operand stay.
  lemma {:induction false} OrTop(h: nat, r: nat, s: nat, m: nat)
    requires r < Pow2(m) && s < Pow2(m)
    ensures Or(h * Pow2(m) + r, s) == h * Pow2(m) + Or(r, s)
    decreases m
  {
    if m == 0 {
      assert Or(h, 0) == h && Or(0, 0) == 0;
    } else {
      hide Or;
      var half := h * Pow2(m - 1);
      assert h * Pow2(m) == 2 * half;
      EvenPlus(half, r);
      OrStep(2 * half + r, s);
      OrStep(r, s);
      OrTop(h, r / 2, s / 2, m - 1);
    }
  }

  /** The highest j of the k + 1 bits of x are set. */
  ghost predicate Ones(x: nat, k: nat, j: nat) {
    1 <= j <= k + 1 && Pow2(k + 1) - Pow2(k + 1 - j) <= x < Pow2(k + 1)
  }

  function Least(a: nat, b: nat): nat {
    if a < b then a else b
  }

  /** One line of pow2gt doubles the number of ones at the top. */
  lemma OnesDouble(x: nat, k: nat, j: nat)
    requires 1 <= j && Ones(x, k, Least(j, k + 1))
    ensures Ones(Or(x, x / Pow2(j)), k, Least(2 * j, k + 1))
  {
    hide Or, Pow2;
    if j > k + 1 {
      Pow2Step(0);
      QuotientLess(x, Pow2(j));
      OrBelow(x, x / Pow2(j), k + 1);
    } else {
      OnesDoubleNear(x, k, j, k + 1 - j);
    }
  }

  lemma OnesDoubleNear(x: nat, k: nat, j: nat, m: nat)
    requires 1 <= j && m == k + 1 - j && Ones(x, k, j)
    ensures Ones(Or(x, x / Pow2(j)), k, Least(2 * j, k + 1))
  {
    hide Or, Pow2;
    var p, q, s := Pow2(m), Pow2(j), x / Pow2(j);
    Pow2Sum(m, j);
    Spread(p, q, x);
    var hp := (q - 1) * p;
    var r := x - hp;
    OrTop(q - 1, r, s, m);
    assert Or(x, s) == hp + Or(r, s);
    OrBelow(r, s, m);
    Pow2Step(0);
    if 2 * j < k + 1 {
      Pow2Sum(m - j, j);
      Spread2(Pow2(m - j), q, x, p);
    } else {
      Pow2Grows(m, j);
      Spread1(p, q, x);
    }
  }

  lemma MulMono(a: int, b: int, q: nat)
    requires a <= b
    ensures a * q <= b * q
  {
  }

  lemma QuotientLess(x: nat, q: nat)
    requires q > 0
    ensures x / q <= x
  {
    MulMono(1, q, x / q);
    assert x == x / q * q + x % q;
  }

  lemma QuotientBound(x: nat, q: nat, lo: int, hi: nat)
    requires q > 0 && lo * q <= x < hi * q
    ensures lo <= x / q < hi
  {
    var d := x / q;
    assert x == d * q + x % q;
    if d >= hi {
      MulMono(hi, d, q);
    }
    if d < lo {
      MulMono(d + 1, lo, q);
    }
  }

  // The ones at the top, split off.
  lemma Spread(p: nat, q: nat, x: nat)
    requires p > 0 && q > 0 && p * q - p <= x < p * q
    ensures 0 <= x - (q - 1) * p < p && x / q < p && p * q == (q - 1) * p + p
  {
    assert p * q == (q - 1) * p + p;
    QuotientBound(x, q, 0, p);
  }

  lemma Spread1(p: nat, q: nat, x: nat)
    requires 0 < p <= q && p * q - p <= x < p * q
    ensures x / q >= p - 1
  {
    assert (p - 1) * q == p * q - q;
    QuotientBound(x, q, p - 1, p);
  }

  lemma Spread2(r: nat, q: nat, x: nat, p: nat)
    requires q > 0 && p == r * q && p * q - p <= x < p * q
    ensures x / q >= p - r
  {
    assert (p - r) * q == p * q - p;
    QuotientBound(x, q, p - r, p);
  }

  lemma {:induction false} Pow2Grows(m: nat, n: nat)
    requires m <= n
    ensures Pow2(m) <= Pow2(n)
    decreases n
  {
    if m < n {
      Pow2Grows(m, n - 1);
    }
  }

  lemma Pow2Values()
    ensures Pow2(1) == 2 && Pow2(2) == 4 && Pow2(4) == 16 && Pow2(8) == 256 && Pow2(16) == 65536
    ensures Pow2(32) == 0x1_0000_0000
  {
    assert Pow2(4) == 2 * Pow2(3) && Pow2(3) == 2 * Pow2(2) && Pow2(2) == 2 * Pow2(1) && Pow2(1) == 2 * Pow2(0);
    Pow2Sum(4, 4);
    Pow2Sum(8, 8);
    Pow2Sum(16, 16);
  }

  /** pow2gt gives the least power of two that is not smaller. */
  lemma Pow2GtIsLeast(x0: nat) returns (n: nat)
    requires 0 < x0 <= 0x8000_0000
    ensures Pow2Gt(x0) == Pow2(n) && (n == 0 || Pow2(n - 1) < x0)
  {
    hide Or;
    Pow2Values();
    if x0 == 1 {
      n := 0;
      assert Or(0, 0) == 0 by {
        OrZero();
      }
    } else {
      hide Pow2;
      var k := Pow2Between(x0 - 1);
      if k > 31 {
        Pow2Grows(32, k);
      }
      Pow2Step(k);
      var x := x0 - 1;
      OnesDouble(x, k, 1);
      x := Or(x, x / 2);
      OnesDouble(x, k, 2);
      x := Or(x, x / 4);
      OnesDouble(x, k, 4);
      x := Or(x, x / 16);
      OnesDouble(x, k, 8);
      x := Or(x, x / 256);
      OnesDouble(x, k, 16);
      n := k + 1;
    }
  }

  lemma OrZero()
    ensures Or(0, 0) == 0
  {
  }

  lemma Pow2Step(k: nat)
    ensures Pow2(k + 1) == 2 * Pow2(k) && Pow2(0) == 1
  {
  }

  // ---------- struct printbuffer ----------

  /** What ensure asks for is at most this much more than what is then printed: 21 characters for a number. */
  const SLACK := 20

  class PrintBuffer {
    var buffer: array<char>
    var length: nat
    var offset: nat
    var noalloc: bool

    ghost predicate Valid()
      reads this
    {
      offset <= length <= buffer.Length
    }

    /** What was printed so far. */
    ghost function Text(): (s: string)
      requires Valid()
      reads this, buffer
      ensures |s| == offset
    {
      buffer[..offset]
    }

    /** The buffer holds s as a C string; offset may lag behind its end. */
    ghost predicate Shows(s: string)
      reads this, buffer
    {
      offset <= |s| && TextAt(buffer, 0, s, length)
    }

    /** The same buffer as before, or a new one where that is allowed. */
    twostate predicate Kept()
      reads this
    {
      (buffer == old(buffer) && length == old(length)) || (fresh(buffer) && !noalloc)
    }

    constructor (buffer: array<char>, length: nat, noalloc: bool)
      requires length <= buffer.Length
      ensures Valid() && Text() == [] && this.buffer == buffer && this.length == length && this.noalloc == noalloc
    {
      this.buffer, this.length, offset, this.noalloc := buffer, length, 0, noalloc;
    }

    /** ensure: room for needed more characters, in a bigger buffer where there was none. It fails
        exactly when the buffer may not grow. */
    method Ensure(needed: nat) returns (ok: bool)
      requires Valid() && needed > 0
      modifies this`buffer, this`length
      ensures Valid() && Text() == old(Text())
      ensures ok <==> !noalloc || offset + needed <= old(length)
      ensures ok ==> offset + needed <= length
      ensures Kept() && (length == old(length) || length == Pow2Gt(offset + needed))
    {
      hide Pow2Gt;
      var all := needed + offset;
      if all <= length {
        return true;
      }
      if noalloc {
        return false;
      }
      var newSize := Pow2Gt(all);
      var newBuffer := new char[newSize](_ => '\0');
      var old_buffer := buffer;
      forall i | 0 <= i < length {
        newBuffer[i] := old_buffer[i];
      }
      length := newSize;
      buffer := newBuffer;
      ok := true;
    }

    /** p->offset = update(p) */
    method Update(ghost s: string)
      requires Shows(s) && '\0' !in s[offset..]
      modifies this`offset
      ensures Shows(s) && offset == |s|
    {
      ghost var rest := s[offset..];
      assert buffer[offset..offset + |rest|] == rest;
      var n := StrLen(buffer, offset, rest, length);
      offset := offset + n;
    }

    /** ensure, then the last piece of a value with its terminator; offset stays before it. */
    method Close(text: string) returns (ok: bool)
      requires Valid()
      modifies this`buffer, this`length, buffer
      ensures noalloc == old(noalloc) && offset == old(offset)
      ensures !ok ==> noalloc && old(offset) + |text| + 1 > old(length)
      ensures ok ==> Shows(old(Text()) + text) && Kept()
    {
      ok := Ensure(|text| + 1);
      if ok {
        ghost var before := Text();
        StrCpy(buffer, offset, text, length);
        assert buffer[..offset + |text|] == buffer[..offset] + buffer[offset..offset + |text|] == before + text;
        assert buffer[0..offset + |text|] == buffer[..offset + |text|];
      }
    }

    /** ensure, then a piece of text with a terminator. */
    method AppendTerminated(text: string) returns (ok: bool)
      requires Valid()
      modifies this, buffer
      ensures noalloc == old(noalloc) && (!ok ==> noalloc && old(offset) + |text| + 1 > old(length))
      ensures ok ==> Valid() && Text() == old(Text()) + text && Kept()
      ensures ok ==> Shows(Text())
    {
      ok := Close(text);
      if ok {
        assert buffer[..offset + |text|] == buffer[0..offset + |text|];
        offset := offset + |text|;
      }
    }

    /** ensure, then a piece of text without a terminator. */
    method Append(text: string) returns (ok: bool)
      requires Valid() && |text| > 0
      modifies this, buffer
      ensures noalloc == old(noalloc) && (!ok ==> noalloc && old(offset) + |text| > old(length))
      ensures ok ==> Valid() && Text() == old(Text()) + text && Kept()
    {
      ok := Ensure(|text|);
      if ok {
        ghost var before := Text();
        Store(buffer, offset, text, length);
        assert buffer[..offset] == before;
        assert buffer[..offset + |text|] == buffer[..offset] + buffer[offset..offset + |text|];
        offset := offset + |text|;
      }
    }
  }
}
