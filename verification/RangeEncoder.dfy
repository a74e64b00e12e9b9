/** A range encoder that knows nothing of the decoder: intervals of unbounded numbers that are narrowed bit by bit and
    scaled by 256 when they get small. The bytes of the lower end of the last interval are decoded to the same bits. */
module RangeEncoder {
  import opened Basics
  import opened RangeCoder

  /** The interval from low on with range numbers, scaled n times. */
  datatype Interval = Interval(low: nat, range: nat, n: nat)

  const WHOLE := Interval(0, 0xFFFF_FFFF, 0)

  predicate IntervalValid(e: Interval) {
    RANGE_MIN <= e.range < 0x1_0000_0000
  }

  /** Intervals below 2^24 are scaled. */
  function Scaled(e: Interval): Interval {
    if e.range < 0x100_0000 then Interval(256 * e.low, 256 * e.range, e.n + 1) else e
  }

  /** The lower part, of probability in 2048, stands for a zero. */
  function PutBit(e: Interval, prob: nat, bit: bool): Interval {
    var s := Scaled(e);
    var zeros := s.range / 2048 * prob;
    if !bit then s.(range := zeros) else Interval(s.low + zeros, if zeros <= s.range then s.range - zeros else 0, s.n)
  }

  /** Both halves alike; an odd number in the middle is lost. */
  function PutDirect(e: Interval, bit: bool): Interval {
    var s := Scaled(e);
    Interval(if bit then s.low + s.range / 2 else s.low, s.range / 2, s.n)
  }

  lemma PutValid(e: Interval, prob: nat, bit: bool)
    requires IntervalValid(e) && 31 <= prob <= 2017
    ensures IntervalValid(Scaled(e)) && Scaled(e).range >= 0x100_0000
    ensures IntervalValid(PutBit(e, prob, bit)) && IntervalValid(PutDirect(e, bit))
    ensures 0 < Scaled(e).range / 2048 * prob < Scaled(e).range
  {
    BoundSplits(Scaled(e).range, prob);
  }

  // ---------- Intervals inside intervals ----------

  function Pow256(n: nat): (p: nat)
    ensures p > 0
  {
    if n == 0 then 1 else 256 * Pow256(n - 1)
  }

  /** The lower end of f lies in e. */
  predicate Holds(e: Interval, f: Interval) {
    && e.n <= f.n
    && e.low * Pow256(f.n - e.n) <= f.low < (e.low + e.range) * Pow256(f.n - e.n)
  }

  lemma Times(a: int, b: int, p: nat)
    requires a <= b
    ensures a * p <= b * p
  {
  }

  lemma HoldsWider(e: Interval, e1: Interval, f: Interval)
    requires Holds(e1, f) && e1.n == e.n && e.low <= e1.low && e1.low + e1.range <= e.low + e.range
    ensures Holds(e, f)
  {
    Times(e.low, e1.low, Pow256(f.n - e.n));
    Times(e1.low + e1.range, e.low + e.range, Pow256(f.n - e.n));
  }

  lemma HoldsScaled(e: Interval, f: Interval)
    requires Holds(Scaled(e), f)
    ensures Holds(e, f)
  {
    if e.range < 0x100_0000 {
      var p := Pow256(f.n - e.n - 1);
      assert Pow256(f.n - e.n) == 256 * p;
      assert (256 * e.low) * p == e.low * (256 * p);
      assert (256 * e.low + 256 * e.range) * p == (e.low + e.range) * (256 * p);
    }
  }

  lemma HoldsBit(e: Interval, prob: nat, bit: bool, f: Interval)
    requires IntervalValid(e) && 31 <= prob <= 2017 && Holds(PutBit(e, prob, bit), f)
    ensures Holds(Scaled(e), f) && Holds(e, f)
  {
    hide Holds;
    PutValid(e, prob, bit);
    HoldsWider(Scaled(e), PutBit(e, prob, bit), f);
    HoldsScaled(e, f);
  }

  lemma HoldsDirect(e: Interval, bit: bool, f: Interval)
    requires Holds(PutDirect(e, bit), f)
    ensures Holds(Scaled(e), f) && Holds(e, f)
  {
    hide Holds;
    HoldsWider(Scaled(e), PutDirect(e, bit), f);
    HoldsScaled(e, f);
  }

  // ---------- Bytes ----------

  /** A number as n bytes, the highest first. */
  function BigEndian(v: nat, n: nat): (s: seq<Byte>)
    ensures |s| == n
  {
    if n == 0 then [] else BigEndian(v / 256, n - 1) + [v % 256]
  }

  /** The code of an interval: a zero byte, and its lower end. */
  function CodeBytes(f: Interval): (s: seq<Byte>)
    ensures |s| == f.n + 5
  {
    [0] + BigEndian(f.low, f.n + 4)
  }

  lemma DivTwice(v: nat, p: nat)
    requires p > 0
    ensures v / 256 / p == v / (256 * p)
  {
    var q := v / (256 * p);
    var r := v - (256 * p) * q;
    assert 0 <= r < 256 * p;
    assert v == 256 * (p * q) + r;
    assert v / 256 == p * q + r / 256;
    assert 0 <= r / 256 < p;
    DivUnique(v / 256, p, q, r / 256);
  }

  lemma DivUnique(v: nat, p: nat, q: nat, r: nat)
    requires v == p * q + r && r < p
    ensures v / p == q
  {
    var q1, r1 := v / p, v % p;
    assert v == p * q1 + r1 && r1 < p;
    if q1 < q {
      Times(q1 + 1, q, p);
      assert false;
    }
    if q < q1 {
      Times(q + 1, q1, p);
      assert false;
    }
  }

  lemma {:induction false} BigEndianDigit(v: nat, n: nat, i: nat)
    requires i < n
    ensures BigEndian(v, n)[i] == v / Pow256(n - 1 - i) % 256
    decreases n
  {
    if i < n - 1 {
      BigEndianDigit(v / 256, n - 1, i);
      DivTwice(v, Pow256(n - 2 - i));
    } else {
      assert Pow256(0) == 1;
    }
  }

  /** The bytes from base on are the code of f. */
  predicate CodeAt(input: seq<Byte>, base: int, f: Interval) {
    forall i :: 0 <= i < f.n + 5 ==> Peek(input, base + i) == CodeBytes(f)[i]
  }

  /** The upper digits of the code, all but n of them. */
  function Top(f: Interval, n: nat): nat {
    DivNat(f.low, Pow256(n));
    f.low / Pow256(n)
  }

  lemma DivNat(v: nat, p: nat)
    requires p > 0
    ensures v / p >= 0 && v == p * (v / p) + v % p && 0 <= v % p < p
  {
    var q := v / p;
    if q < 0 {
      NegativeTimes(p, q);
      assert false;
    }
  }

  lemma NegativeTimes(p: nat, q: int)
    requires q < 0
    ensures p * q + p <= 0
  {
    Times(q, -1, p);
  }

  lemma TopNext(f: Interval, n: nat)
    requires n > 0
    ensures Top(f, n - 1) == 256 * Top(f, n) + f.low / Pow256(n - 1) % 256
  {
    var p := Pow256(n - 1);
    DivNat(f.low, p);
    var v := f.low / p;
    assert Top(f, n) == v / 256 by {
      DivSwap(f.low, p);
    }
  }

  lemma DivSwap(v: nat, p: nat)
    requires p > 0
    ensures v / (256 * p) == v / p / 256
  {
    DivNat(v, p);
    var q, r := v / p, v % p;
    var a, b := q / 256, q % 256;
    assert p * q == p * (256 * a) + p * b;
    Times(b, 255, p);
    Times(0, b, p);
    assert p * (256 * a) == (256 * p) * a;
    DivUnique(v, 256 * p, a, p * b + r);
  }

  lemma HoldsTop(e: Interval, f: Interval)
    requires Holds(e, f)
    ensures e.low <= Top(f, f.n - e.n) < e.low + e.range
  {
    var p := Pow256(f.n - e.n);
    DivNat(f.low, p);
    DivBetween(f.low, p, e.low, e.low + e.range);
  }

  lemma DivBetween(v: nat, p: nat, a: int, b: int)
    requires p > 0 && a * p <= v < b * p
    ensures a <= v / p < b
  {
    var q := v / p;
    DivNat(v, p);
    if q < a {
      Times(q + 1, a, p);
      assert false;
    }
    if q >= b {
      Times(b, q, p);
      assert false;
    }
  }

  // ---------- The decoder ----------

  /** The registers of the decoder, on the way through the code of f, belong to the interval e. */
  predicate Tuned(input: seq<Byte>, base: int, rc: Rc, e: Interval, f: Interval) {
    && IntervalValid(e) && Holds(e, f) && CodeAt(input, base, f)
    && rc.range == e.range && rc.pos == base + 5 + e.n && rc.code + e.low == Top(f, f.n - e.n)
  }

  lemma NextByte(input: seq<Byte>, base: int, e: Interval, f: Interval)
    requires CodeAt(input, base, f) && e.n < f.n
    ensures Peek(input, base + 5 + e.n) == Top(f, f.n - e.n - 1) - 256 * Top(f, f.n - e.n)
  {
    hide BigEndian;
    var i := 4 + e.n;
    BigEndianDigit(f.low, f.n + 4, i);
    assert Peek(input, base + (1 + i)) == CodeBytes(f)[1 + i] == BigEndian(f.low, f.n + 4)[i];
    TopNext(f, f.n - e.n);
  }

  lemma NormalizeTuned(input: seq<Byte>, base: int, rc: Rc, e: Interval, f: Interval)
    requires Tuned(input, base, rc, e, f) && Holds(Scaled(e), f)
    ensures Tuned(input, base, Normalize(input, rc), Scaled(e), f)
  {
    hide CodeAt, Top, Holds;
    HoldsOrder(Scaled(e), f);
    if e.range < 0x100_0000 {
      NextByte(input, base, e, f);
      HoldsTop(e, f);
      HoldsTop(Scaled(e), f);
    }
  }

  lemma HoldsOrder(e: Interval, f: Interval)
    requires Holds(e, f)
    ensures e.n <= f.n
  {
  }

  /** The decoder gets the bit that the encoder put. */
  lemma BitTuned(input: seq<Byte>, base: int, rc: Rc, e: Interval, f: Interval, prob: Prob, bit: bool)
    requires Tuned(input, base, rc, e, f) && Holds(PutBit(e, prob, bit), f)
    ensures var r := DecodeBit(input, rc, prob);
            r.bit == bit && Tuned(input, base, r.rc, PutBit(e, prob, bit), f)
  {
    hide CodeAt, Top, Holds, Normalize;
    PutValid(e, prob, bit);
    HoldsBit(e, prob, bit, f);
    NormalizeTuned(input, base, rc, e, f);
    HoldsTop(PutBit(e, prob, bit), f);
  }

  lemma DirectTuned(input: seq<Byte>, base: int, rc: Rc, e: Interval, f: Interval, bit: bool)
    requires Tuned(input, base, rc, e, f) && Holds(PutDirect(e, bit), f)
    ensures var r := DirectBit(input, rc);
            r.0 == bit && Tuned(input, base, r.1, PutDirect(e, bit), f)
  {
    hide CodeAt, Top, Holds, Normalize;
    PutValid(e, 1024, bit);
    HoldsDirect(e, bit, f);
    NormalizeTuned(input, base, rc, e, f);
    HoldsTop(PutDirect(e, bit), f);
    HoldsTop(Scaled(e), f);
  }

  /** At the end of its code the decoder has read all of it, and nothing remains. */
  lemma EndTuned(input: seq<Byte>, base: int, rc: Rc, f: Interval)
    requires Tuned(input, base, rc, f, f)
    ensures rc.code == 0 && rc.pos == base + |CodeBytes(f)|
  {
    assert Pow256(0) == 1;
  }
}
