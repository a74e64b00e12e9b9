/** CRC32 as the remainder of a division of polynomials over two elements, bit by bit. The table-driven code of
    src/xz/xz_crc32.c computes it. */
module XzCrc {
  import opened Basics
  import opened RangeCoder
  import opened RangeEncoder
  import opened LzmaEncoder
  import opened XzFormat

  /** A register of 32 bits: the coefficient of x^31 comes first, as the lowest bit of a word. */
  type Register = s: seq<bool> | |s| == 32 witness seq(32, _ => false)

  /** The powers of x below x^32 in the divisor. */
  const POWERS: set<int> := {26, 23, 22, 16, 12, 11, 10, 8, 7, 5, 4, 2, 1, 0}

  function Divisor(): Register {
    seq(32, i => (31 - i) in POWERS)
  }

  /** Sum of two polynomials. */
  function Plus(a: Register, b: Register): (c: Register)
    ensures forall i :: 0 <= i < 32 ==> c[i] == (a[i] != b[i])
  {
    seq(32, i requires 0 <= i < 32 => a[i] != b[i])
  }

  /** Times x, without the power that falls out. */
  function Shifted(a: Register): Register {
    a[1..] + [false]
  }

  /** One bit of a message: what falls out together with it decides whether the divisor is subtracted. */
  function DivideBit(a: Register, bit: bool): Register {
    if a[0] != bit then Plus(Shifted(a), Divisor()) else Shifted(a)
  }

  function Divide(a: Register, bits: seq<bool>): Register
    decreases |bits|
  {
    if bits == [] then a else Divide(DivideBit(a, bits[0]), bits[1..])
  }

  /** Every byte with its lowest bit first. */
  function Message(bytes: seq<Byte>): seq<bool> {
    if bytes == [] then [] else LowFirst(bytes[0], 8) + Message(bytes[1..])
  }

  function RegisterOf(v: Word): Register {
    LowFirst(v, 32)
  }

  // ---------- Words as registers ----------

  lemma {:induction false} XorBits(a: nat, b: nat, k: nat)
    ensures forall i :: 0 <= i < k ==> LowFirst(Xor(a, b, k), k)[i] == (LowFirst(a, k)[i] != LowFirst(b, k)[i])
    decreases k
  {
    if k > 0 {
      XorBits(a / 2, b / 2, k - 1);
      var x := Xor(a / 2, b / 2, k - 1);
      assert Xor(a, b, k) / 2 == x && (Xor(a, b, k) % 2 == 1 <==> a % 2 != b % 2);
    }
  }

  lemma XorIsPlus(a: Word, b: Word)
    ensures RegisterOf(Xor32(a, b)) == Plus(RegisterOf(a), RegisterOf(b))
  {
    hide Xor, LowFirst;
    XorBits(a, b, 32);
  }

  lemma {:induction false} HalfBits(v: nat, n: nat)
    requires n > 0 && v < Pow2(n)
    ensures LowFirst(v / 2, n) == LowFirst(v, n)[1..] + [false]
    decreases n
  {
    if n == 1 {
      assert Pow2(1) == 2 * Pow2(0);
      assert LowFirst(0, 1) == [false] + LowFirst(0, 0);
      assert LowFirst(v, 1) == [v % 2 == 1] + LowFirst(v / 2, 0);
    } else {
      HalfBits(v / 2, n - 1);
      assert LowFirst(v, n)[1..] == LowFirst(v / 2, n - 1);
    }
  }

  lemma HalfIsShifted(v: Word)
    ensures RegisterOf(v / 2) == Shifted(RegisterOf(v))
  {
    hide LowFirst;
    TwoTo32();
    HalfBits(v, 32);
  }

  function Nothing(n: nat): (s: seq<bool>)
    ensures |s| == n && forall i :: 0 <= i < n ==> !s[i]
  {
    if n == 0 then [] else [false] + Nothing(n - 1)
  }

  lemma {:induction false} ZeroBits(n: nat)
    ensures LowFirst(0, n) == Nothing(n)
  {
    if n > 0 {
      ZeroBits(n - 1);
    }
  }

  /** The lowest n bits of a number alone. */
  lemma {:induction false} LowPart(v: nat, n: nat, m: nat)
    ensures LowFirst(v % Pow2(n), n + m) == LowFirst(v, n) + Nothing(m)
    decreases n
  {
    if n == 0 {
      ZeroBits(m);
      assert v % Pow2(0) == 0;
      assert [] + Nothing(m) == Nothing(m);
    } else {
      var p := Pow2(n - 1);
      ModHalf(v, p);
      DivNat(v / 2, p);
      LowPart(v / 2, n - 1, m);
      var w := v % Pow2(n);
      assert w / 2 == v / 2 % p && w % 2 == v % 2;
      assert LowFirst(w, n + m) == [w % 2 == 1] + LowFirst(w / 2, n + m - 1);
      assert LowFirst(v, n) + Nothing(m) == [v % 2 == 1] + (LowFirst(v / 2, n - 1) + Nothing(m));
    }
  }

  lemma {:induction false} FirstBits(v: nat, n: nat, m: nat)
    ensures LowFirst(v, n + m)[..n] == LowFirst(v, n)
    decreases n
  {
    if n > 0 {
      FirstBits(v / 2, n - 1, m);
      assert LowFirst(v, n + m)[..n] == [v % 2 == 1] + LowFirst(v / 2, n - 1 + m)[..n - 1];
    }
  }

  lemma OneFirst(v: nat, m: nat)
    ensures LowFirst(v, m + 1) == [v % 2 == 1] + LowFirst(v / 2, m)
  {
  }

  lemma FourFirst(v: nat, m: nat)
    ensures LowFirst(v, m + 4) == [v % 2 == 1, v / 2 % 2 == 1, v / 4 % 2 == 1, v / 8 % 2 == 1] + LowFirst(v / 16, m)
  {
    hide LowFirst;
    OneFirst(v, m + 3);
    OneFirst(v / 2, m + 2);
    OneFirst(v / 4, m + 1);
    OneFirst(v / 8, m);
  }

  /** The constant of the code is the divisor. */
  lemma DivisorIs()
    ensures RegisterOf(0xEDB8_8320) == Divisor()
  {
    hide LowFirst;
    FourFirst(0xEDB8_8320, 28);
    FourFirst(0xEDB_8832, 24);
    FourFirst(0xED_B883, 20);
    FourFirst(0xE_DB88, 16);
    HighHalf();
  }

  lemma HighHalf()
    ensures LowFirst(0xEDB8, 16) == [false, false, false, true, true, true, false, true,
                                     true, false, true, true, false, true, true, true]
  {
    hide LowFirst;
    FourFirst(0xEDB8, 12);
    FourFirst(0xEDB, 8);
    FourFirst(0xED, 4);
    FourFirst(0xE, 0);
    NoBitsLeft();
  }

  lemma NoBitsLeft()
    ensures LowFirst(0, 0) == []
  {
  }

  lemma Parity(v: Word)
    ensures RegisterOf(v)[0] <==> v % 2 == 1
  {
  }

  // ---------- The table ----------

  /** One step of the table: a bit of zero is divided. */
  function Turns(a: Register, n: nat): Register
    decreases n
  {
    if n == 0 then a else Turns(DivideBit(a, false), n - 1)
  }

  lemma {:induction false} EntryIsTurns(v: Word, n: nat)
    ensures RegisterOf(TableEntry(v, n)) == Turns(RegisterOf(v), n)
    decreases n
  {
    hide RegisterOf, Divisor, Xor32;
    if n > 0 {
      var half: Word := v / 2;
      Parity(v);
      HalfIsShifted(v);
      XorIsPlus(half, 0xEDB8_8320);
      DivisorIs();
      EntryIsTurns(if v % 2 == 1 then Xor32(half, 0xEDB8_8320) else half, n - 1);
    }
  }

  /** Bits at the front of a register. */
  function Front(bits: seq<bool>): Register
    requires |bits| <= 32
  {
    bits + Nothing(32 - |bits|)
  }

  /** A register without its first n bits. */
  function Behind(a: Register, n: nat): Register
    requires n <= 32
  {
    a[n..] + Nothing(n)
  }

  /** A message can be added to the register first. */
  lemma {:induction false} DivideIsTurns(a: Register, bits: seq<bool>)
    requires |bits| <= 32
    ensures Divide(a, bits) == Turns(Plus(a, Front(bits)), |bits|)
    decreases |bits|
  {
    hide Divisor;
    if bits == [] {
      assert Plus(a, Front(bits)) == a;
    } else {
      var b := DivideBit(a, bits[0]);
      DivideIsTurns(b, bits[1..]);
      var sum := Plus(a, Front(bits));
      assert DivideBit(sum, false) == Plus(b, Front(bits[1..])) by {
        DivideSum(a, bits);
      }
    }
  }

  lemma DivideSum(a: Register, bits: seq<bool>)
    requires 0 < |bits| <= 32
    ensures DivideBit(Plus(a, Front(bits)), false) == Plus(DivideBit(a, bits[0]), Front(bits[1..]))
  {
    hide Divisor;
    var left, right := DivideBit(Plus(a, Front(bits)), false), Plus(DivideBit(a, bits[0]), Front(bits[1..]));
    forall i | 0 <= i < 32
      ensures left[i] == right[i]
    {
    }
  }

  lemma TurnSum(a: Register, b: Register)
    ensures DivideBit(Plus(a, b), false) == Plus(DivideBit(a, false), DivideBit(b, false))
  {
    hide Divisor;
    var left, right := DivideBit(Plus(a, b), false), Plus(DivideBit(a, false), DivideBit(b, false));
    forall i | 0 <= i < 32
      ensures left[i] == right[i]
    {
    }
  }

  lemma {:induction false} TurnsSum(a: Register, b: Register, n: nat)
    ensures Turns(Plus(a, b), n) == Plus(Turns(a, n), Turns(b, n))
    decreases n
  {
    hide DivideBit;
    if n > 0 {
      TurnSum(a, b);
      TurnsSum(DivideBit(a, false), DivideBit(b, false), n - 1);
    }
  }

  /** Bits behind zeros only move. */
  lemma {:induction false} TurnsMove(a: Register, n: nat)
    requires n <= 32 && forall i :: 0 <= i < n ==> !a[i]
    ensures Turns(a, n) == Behind(a, n)
    decreases n
  {
    if n == 0 {
      assert Behind(a, 0) == a;
    } else {
      var b := Shifted(a);
      TurnsMove(b, n - 1);
      assert Behind(b, n - 1) == Behind(a, n);
    }
  }

  // ---------- The code ----------

  lemma {:induction false} DivideJoin(a: Register, x: seq<bool>, y: seq<bool>)
    ensures Divide(a, x + y) == Divide(Divide(a, x), y)
    decreases |x|
  {
    hide DivideBit;
    if x == [] {
      assert x + y == y;
    } else {
      assert (x + y)[1..] == x[1..] + y;
      DivideJoin(DivideBit(a, x[0]), x[1..], y);
    }
  }

  /** The low byte goes through the table, the rest moves. */
  lemma ByteParts(crc: Word, b: Byte)
    ensures var low: Word, rest: Word := crc % 256, crc / 256;
            && RegisterOf(b) == Front(LowFirst(b, 8)) && RegisterOf(low) == Front(RegisterOf(crc)[..8])
            && RegisterOf(rest) == Behind(RegisterOf(crc), 8)
  {
    hide LowFirst;
    LowEight(b);
    LowPart(b, 8, 24);
    LowPart(crc, 8, 24);
    FirstBits(crc, 8, 24);
    LastBits(crc, 8, 24);
    HighBits(crc / 256, 24);
  }

  lemma {:induction false} LastBits(v: nat, n: nat, m: nat)
    ensures v / Pow2(n) >= 0 && LowFirst(v, n + m)[n..] == LowFirst(v / Pow2(n), m)
    decreases n
  {
    DivNat(v, Pow2(n));
    if n > 0 {
      LastBits(v / 2, n - 1, m);
      HalfFirst(v, Pow2(n - 1));
      assert LowFirst(v, n + m)[n..] == LowFirst(v / 2, n - 1 + m)[n - 1..];
    }
  }

  lemma HalfFirst(v: nat, p: nat)
    requires p > 0
    ensures v / (2 * p) == v / 2 / p
  {
    var h := v / 2;
    DivNat(h, p);
    assert v == (2 * p) * (h / p) + (2 * (h % p) + v % 2) by {
      assert 2 * (p * (h / p)) == (2 * p) * (h / p);
    }
    DivUnique(v, 2 * p, h / p, 2 * (h % p) + v % 2);
  }

  lemma LowEight(b: Byte)
    ensures Pow2(8) == 256 && Pow2(24) == 0x100_0000 && b % 256 == b
  {
    LzmaSymbol.Pow2Values();
    ShiftBy8(8);
    ShiftBy8(16);
  }

  lemma HighBits(v: nat, n: nat)
    requires v < Pow2(n)
    ensures LowFirst(v, n + 8) == LowFirst(v, n) + Nothing(8)
  {
    DivNat(v, Pow2(n));
    DivUnique(v, Pow2(n), 0, v);
    LowPart(v, n, 8);
  }

  lemma ByteIsDivision(crc: Word, b: Byte)
    ensures RegisterOf(CrcByte(crc, b)) == Divide(RegisterOf(crc), LowFirst(b, 8))
  {
    hide LowFirst, RegisterOf, TableEntry, Xor32, Turns, Divide;
    var low: Word, rest: Word, byte: Word := crc % 256, crc / 256, b;
    var a, bits := RegisterOf(crc), LowFirst(b, 8);
    ByteParts(crc, b);
    XorIsPlus(byte, low);
    EntryIsTurns(Xor32(byte, low), 8);
    XorIsPlus(TableEntry(Xor32(byte, low), 8), rest);
    DivideIsTurns(a, bits);
    var high := Nothing(8) + a[8..];
    TurnsSum(Plus(Front(bits), Front(a[..8])), high, 8);
    TurnsMove(high, 8);
    assert Behind(high, 8) == Behind(a, 8);
    assert Plus(a, Front(bits)) == Plus(Plus(Front(bits), Front(a[..8])), high);
  }

  /** What xz_crc32 folds over the bytes is the remainder of the message. */
  lemma {:induction false} FoldIsDivision(bytes: seq<Byte>, crc: Word)
    ensures RegisterOf(CrcFold(bytes, crc)) == Divide(RegisterOf(crc), Message(bytes))
    decreases |bytes|
  {
    hide CrcByte, RegisterOf, LowFirst;
    if bytes != [] {
      ByteIsDivision(crc, bytes[0]);
      FoldIsDivision(bytes[1..], CrcByte(crc, bytes[0]));
      DivideJoin(RegisterOf(crc), LowFirst(bytes[0], 8), Message(bytes[1..]));
    }
  }

  function Ones(): Register {
    seq(32, _ => true)
  }

  /** The CRC32 is the complement of the remainder of the message, divided from a register of ones. */
  lemma CrcIsDivision(bytes: seq<Byte>)
    ensures RegisterOf(Crc(bytes, 0)) == Plus(Ones(), Divide(Ones(), Message(bytes)))
  {
    hide RegisterOf, Divide, CrcFold;
    FoldIsDivision(bytes, U32 - 1);
    ComplementBits(CrcFold(bytes, U32 - 1));
    ComplementBits(0);
    AllZero();
    assert Plus(Ones(), Nothing(32)) == Ones();
  }

  lemma AllZero()
    ensures RegisterOf(0) == Nothing(32)
  {
    ZeroBits(32);
  }

  lemma ComplementBits(v: Word)
    ensures RegisterOf(U32 - 1 - v) == Plus(Ones(), RegisterOf(v))
  {
    hide LowFirst;
    TwoTo32();
    Complement(v, 32);
  }

  lemma {:induction false} Complement(v: nat, n: nat)
    requires v < Pow2(n)
    ensures forall i :: 0 <= i < n ==> LowFirst(Pow2(n) - 1 - v, n)[i] == !LowFirst(v, n)[i]
    decreases n
  {
    if n > 0 {
      var w := Pow2(n) - 1 - v;
      assert w / 2 == Pow2(n - 1) - 1 - v / 2 && (w % 2 == 1 <==> v % 2 == 0);
      Complement(v / 2, n - 1);
    }
  }
}
