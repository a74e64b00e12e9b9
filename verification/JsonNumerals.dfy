/** Numbers as src/cjson/cJSON.c reads them, written down character by character: what each stands for, and that the
    parser reads exactly these. */
module JsonNumerals {
  import opened Basics
  import opened JsonText
  import opened JsonRoundTrip

  // ---------- Numbers ----------

  predicate AllDigits(s: string) {
    forall i :: 0 <= i < |s| ==> 48 <= s[i] as int <= 57
  }

  /** The number that digits stand for. */
  function DecimalValue(s: string): nat
    requires AllDigits(s)
  {
    if s == [] then 0 else 10 * DecimalValue(s[..|s| - 1]) + (s[|s| - 1] as int - 48)
  }

  function Pow10(n: nat): nat {
    if n == 0 then 1 else 10 * Pow10(n - 1)
  }

  datatype Sign = Unsigned | Plus | Minus

  datatype Exponent = NoExponent | Exponent(letter: char, sign: Sign, digits: string)

  /** A number as it is written; without a point if there are no digits behind it. */
  datatype Numeral = Numeral(negative: bool, whole: string, fraction: string, exponent: Exponent)

  /** RFC 8259 wants at least one digit in front of the point and behind the letter, and no zero in front of other
      digits. The code also reads numbers without these, and one zero more, but a number begins with a sign or a
      digit. */
  predicate NumeralFits(n: Numeral) {
    && AllDigits(n.whole) && AllDigits(n.fraction) && WholeFits(n.whole) && (n.whole == [] ==> n.negative)
    && (n.exponent.Exponent? ==>
          (n.exponent.letter == 'e' || n.exponent.letter == 'E') && AllDigits(n.exponent.digits))
  }

  predicate WholeFits(w: string) {
    var v := if w != [] && w[0] == '0' then w[1..] else w;
    v != [] ==> v[0] != '0'
  }

  function SignText(sign: Sign): string {
    match sign
    case Unsigned => []
    case Plus => "+"
    case Minus => "-"
  }

  function ExponentText(e: Exponent): string {
    if e.NoExponent? then [] else [e.letter] + (SignText(e.sign) + e.digits)
  }

  function FractionText(f: string): string {
    if f == [] then [] else "." + f
  }

  function MinusText(negative: bool): string {
    if negative then "-" else []
  }

  function NumeralText(n: Numeral): string {
    MinusText(n.negative) + (n.whole + (FractionText(n.fraction) + ExponentText(n.exponent)))
  }

  function ExponentValue(e: Exponent): int
    requires e.Exponent? ==> AllDigits(e.digits)
  {
    if e.NoExponent? then 0
    else
      var v: int := DecimalValue(e.digits);
      if e.sign == Minus then -v else v
  }

  /** The digits in front of the point and behind it make the mantissa; each digit behind it counts the exponent
      down. */
  function NumeralValue(n: Numeral): Json
    requires NumeralFits(n)
  {
    var mantissa: int := DecimalValue(n.whole) * Pow10(|n.fraction|) + DecimalValue(n.fraction);
    Number(if n.negative then -mantissa else mantissa, ExponentValue(n.exponent) - |n.fraction|)
  }

  /** What ends a number. */
  predicate Ends(rest: string) {
    Stops(rest) && At(rest, 0) != '+' && At(rest, 0) != '-'
  }

  lemma DigitsAre(s: string)
    ensures AllDigits(s) <==> forall c <- s :: IsDigit(c)
  {
    if AllDigits(s) {
      assert forall c <- s :: IsDigit(c);
    } else {
      var i :| 0 <= i < |s| && !(48 <= s[i] as int <= 57);
      assert s[i] in s && !IsDigit(s[i]);
    }
  }

  lemma {:induction false} FoldedValue(n: nat, s: string)
    requires AllDigits(s)
    ensures forall c <- s :: IsDigit(c)
    ensures Folded(n, s) == n * Pow10(|s|) + DecimalValue(s)
    decreases |s|
  {
    hide Folded;
    DigitsAre(s);
    if s == [] {
      NothingFolded(n);
    } else {
      var front, last := s[..|s| - 1], s[|s| - 1];
      assert front + [last] == s;
      DigitsAre(front);
      FoldedValue(n, front);
      FoldedLast(n, front, last);
      TenTimes(n, Pow10(|front|));
    }
  }

  lemma TenTimes(n: nat, p: nat)
    ensures 10 * (n * p) == n * (10 * p)
  {
  }

  lemma NothingFolded(n: nat)
    ensures Folded(n, []) == n
  {
  }

  /** The digits that are read. */
  lemma {:induction false} DigitsRead(s: string, n: nat, count: nat) returns (d: string)
    ensures var r := ReadDigits(s, n, count);
            && s == d + r.rest && |d| == r.count - count && (forall c <- d :: IsDigit(c)) && r.value == Folded(n, d)
    decreases |s|
  {
    hide IsDigit, DigitValue, Folded;
    FirstDigit(s);
    if IsDigit(At(s, 0)) {
      var e := DigitsRead(s[1..], 10 * n + DigitValue(s[0]), count + 1);
      FoldedFirst(n, s[0], e);
      d := [s[0]] + e;
      FirstBack(s, e, ReadDigits(s, n, count).rest);
    } else {
      d := [];
      NothingFolded(n);
    }
  }

  lemma FirstDigit(s: string)
    ensures IsDigit(At(s, 0)) ==> s != []
  {
  }

  lemma FirstBack(s: string, e: string, rest: string)
    requires s != [] && s[1..] == e + rest
    ensures s == ([s[0]] + e) + rest
  {
    assert s == [s[0]] + s[1..];
  }

  lemma FoldedFirst(n: nat, c: char, e: string)
    requires IsDigit(c) && forall d <- e :: IsDigit(d)
    ensures forall d <- [c] + e :: IsDigit(d)
    ensures Folded(n, [c] + e) == Folded(10 * n + DigitValue(c), e)
  {
    hide IsDigit, DigitValue;
    assert ([c] + e)[1..] == e;
  }

  lemma DigitsExact(d: string, rest: string, n: nat)
    requires AllDigits(d) && !IsDigit(At(rest, 0))
    ensures ReadDigits(d + rest, n, 0) == Run(n * Pow10(|d|) + DecimalValue(d), |d|, rest)
  {
    FoldedValue(n, d);
    ReadDigitsOf(d, rest, n, 0);
  }

  /** The part in front of the point. */
  lemma WholeRead(w: string, rest: string)
    requires AllDigits(w) && WholeFits(w) && !IsDigit(At(rest, 0))
    ensures ReadWhole(w + rest).value == DecimalValue(w) && ReadWhole(w + rest).rest == rest
  {
    hide DecimalValue, ReadDigits, Pow10;
    var zero := w != [] && w[0] == '0';
    var v := if zero then w[1..] else w;
    assert (if At(w + rest, 0) == '0' then (w + rest)[1..] else w + rest) == v + rest;
    DigitsExact(v, rest, 0);
    if v == [] {
      assert v + rest == rest;
      Empty();
    }
    if zero {
      ZeroFirst(w);
    }
  }

  lemma Empty()
    ensures DecimalValue([]) == 0 && Pow10(0) == 1
  {
  }

  lemma {:induction false} ZeroFirst(w: string)
    requires AllDigits(w) && w != [] && w[0] == '0'
    ensures DecimalValue(w) == DecimalValue(w[1..])
    decreases |w|
  {
    if |w| > 1 {
      var front := w[..|w| - 1];
      ZeroFirst(front);
      assert w[1..][..|w| - 2] == front[1..];
    }
  }

  lemma FractionRead(f: string, rest: string, n: nat)
    requires AllDigits(f) && !IsDigit(At(rest, 0)) && (f == [] ==> At(rest, 0) != '.')
    ensures ReadFraction(FractionText(f) + rest, n) == Run(n * Pow10(|f|) + DecimalValue(f), |f|, rest)
  {
    hide DecimalValue, ReadDigits, Pow10;
    if f == [] {
      assert FractionText(f) + rest == rest;
      Empty();
    } else {
      DigitsExact(f, rest, n);
      PointRead(FractionText(f) + rest, f, rest, n);
    }
  }

  lemma PointRead(s: string, f: string, rest: string, n: nat)
    requires s == "." + f + rest && f != [] && AllDigits(f)
    ensures ReadFraction(s, n) == ReadDigits(f + rest, n, 0)
  {
    hide ReadDigits;
    assert s[1..] == f + rest && s[0] == '.' && s[1] == f[0];
  }

  lemma ExponentRead(e: Exponent, rest: string)
    requires Ends(rest)
    requires e.Exponent? ==> (e.letter == 'e' || e.letter == 'E') && AllDigits(e.digits)
    ensures ReadExponent(ExponentText(e) + rest) == (ExponentValue(e), rest)
  {
    hide DecimalValue, ReadDigits, Pow10, AllDigits, Stops, ReadExponent, SignText;
    var s := ExponentText(e) + rest;
    NoLetter(rest);
    if e.NoExponent? {
      assert s == rest;
    } else {
      DigitsExact(e.digits, rest, 0);
      SignRead(e.sign, e.digits, rest);
      LetterFirst(e.letter, SignText(e.sign), e.digits, rest);
      AfterLetter(s, SignText(e.sign) + (e.digits + rest));
    }
  }

  lemma LetterFirst(c: char, sign: string, digits: string, rest: string)
    ensures var s := ([c] + (sign + digits)) + rest; s[0] == c && s[1..] == sign + (digits + rest)
  {
  }

  lemma NoLetter(rest: string)
    requires Stops(rest)
    ensures !IsDigit(At(rest, 0)) && ReadExponent(rest) == (0, rest)
  {
  }

  // What is read behind the letter.
  lemma AfterLetter(s: string, more: string)
    requires (At(s, 0) == 'e' || At(s, 0) == 'E') && s != [] && s[1..] == more
    ensures ReadExponent(s) ==
            var r := ReadDigits(if At(more, 0) == '-' || At(more, 0) == '+' then more[1..] else more, 0, 0);
            var v: int := r.value;
            (if At(more, 0) == '-' then -v else v, r.rest)
  {
    hide ReadDigits;
    assert At(s, 1) == At(more, 0);
    assert more != [] ==> s[2..] == more[1..];
  }

  lemma SignRead(sign: Sign, digits: string, rest: string)
    requires Ends(rest) && AllDigits(digits)
    ensures var s := SignText(sign) + (digits + rest);
            && (At(s, 0) == '-' <==> sign == Minus) && (At(s, 0) == '+' <==> sign == Plus)
            && (if sign == Unsigned then s else s[1..]) == digits + rest
  {
    var more := digits + rest;
    if digits == [] {
      assert more == rest;
    } else {
      assert more[0] == digits[0];
    }
    if sign == Unsigned {
      assert SignText(sign) + more == more;
    } else {
      assert (SignText(sign) + more)[1..] == more;
    }
  }

  lemma TextJoin(a: string, b: string, c: string, d: string, rest: string)
    ensures (a + (b + (c + d))) + rest == a + (b + (c + (d + rest)))
  {
  }

  /** A number is read as what it stands for. */
  lemma NumeralRead(n: Numeral, rest: string)
    requires NumeralFits(n) && Ends(rest)
    ensures var s := NumeralText(n) + rest;
            && (At(s, 0) == '-' || IsDigit(At(s, 0)))
            && ReadNumber(s) == (NumeralValue(n), rest)
  {
    hide ReadWhole, ReadFraction, ReadExponent, DecimalValue, WholeFits, ExponentValue, Pow10, Ends, FractionText;
    hide ExponentText, MinusText;
    var last := ExponentText(n.exponent) + rest;
    var more := FractionText(n.fraction) + last;
    TextJoin(MinusText(n.negative), n.whole, FractionText(n.fraction), ExponentText(n.exponent), rest);
    AfterFraction(n.exponent, rest);
    AfterWhole(n.fraction, last);
    WholeRead(n.whole, more);
    FractionRead(n.fraction, last, DecimalValue(n.whole));
    ExponentRead(n.exponent, rest);
    MinusRead(n.negative, n.whole, more);
  }

  lemma MinusRead(negative: bool, w: string, more: string)
    requires AllDigits(w) && (w == [] ==> negative)
    ensures var s := MinusText(negative) + (w + more);
            && (At(s, 0) == '-' <==> negative) && (!negative ==> IsDigit(At(s, 0)))
            && (if negative then s[1..] else s) == w + more
  {
    if negative {
      assert ("-" + (w + more))[1..] == w + more;
    } else {
      assert MinusText(negative) + (w + more) == w + more;
      assert (w + more)[0] == w[0];
    }
  }

  lemma AfterFraction(e: Exponent, rest: string)
    requires Ends(rest) && (e.Exponent? ==> e.letter == 'e' || e.letter == 'E')
    ensures var s := ExponentText(e) + rest; !IsDigit(At(s, 0)) && At(s, 0) != '.'
  {
    if e.NoExponent? {
      assert ExponentText(e) + rest == rest;
    }
  }

  lemma AfterWhole(f: string, rest: string)
    requires !IsDigit(At(rest, 0))
    ensures !IsDigit(At(FractionText(f) + rest, 0))
  {
    if f == [] {
      assert FractionText(f) + rest == rest;
    }
  }

  // ---------- Numbers that are read are written so ----------

  lemma WholeParsed(s: string) returns (w: string)
    ensures s == w + ReadWhole(s).rest && AllDigits(w) && WholeFits(w) && ReadWhole(s).value == DecimalValue(w)
    ensures IsDigit(At(s, 0)) ==> w != []
  {
    hide ReadDigits, Pow10, AllDigits, DecimalValue, Folded;
    if At(s, 0) == '0' {
      var v := DigitsParsed(s[1..]);
      w := ['0'] + v;
      FirstBack(s, v, ReadWhole(s).rest);
      ZeroWhole(v);
    } else {
      w := DigitsParsed(s);
      NotZero(s);
    }
  }

  lemma ZeroWhole(v: string)
    requires AllDigits(v) && (v != [] ==> v[0] != '0')
    ensures var w := ['0'] + v; AllDigits(w) && WholeFits(w) && DecimalValue(w) == DecimalValue(v)
  {
    hide DecimalValue;
    assert (['0'] + v)[1..] == v;
    ZeroFirst(['0'] + v);
  }

  lemma NotZero(s: string)
    requires At(s, 0) != '0'
    ensures IsDigit(At(s, 0)) ==> '1' <= At(s, 0) <= '9'
  {
  }

  // Digits that do not begin with a zero.
  lemma DigitsParsed(s: string) returns (v: string)
    ensures AllDigits(v) && (v != [] ==> v[0] != '0') && (v == [] <==> !('1' <= At(s, 0) <= '9'))
    ensures var r := if '1' <= At(s, 0) <= '9' then ReadDigits(s, 0, 0) else Run(0, 0, s);
            s == v + r.rest && r.value == DecimalValue(v)
  {
    hide ReadDigits, Pow10, AllDigits, DecimalValue, Folded;
    v := [];
    Empty();
    NoDigits();
    if '1' <= At(s, 0) <= '9' {
      v := DigitsRead(s, 0, 0);
      DigitsAre(v);
      FoldedValue(0, v);
      FirstOf(s, v, ReadDigits(s, 0, 0).rest);
    }
  }

  lemma NoDigits()
    ensures AllDigits([])
  {
  }

  lemma FirstOf(s: string, v: string, rest: string)
    requires s == v + rest && IsDigit(At(s, 0)) && !IsDigit(At(rest, 0))
    ensures v != [] && v[0] == s[0]
  {
  }

  lemma FractionParsed(s: string, n: nat) returns (f: string)
    ensures s == FractionText(f) + ReadFraction(s, n).rest && AllDigits(f) && ReadFraction(s, n).count == |f|
    ensures ReadFraction(s, n).value == n * Pow10(|f|) + DecimalValue(f)
  {
    hide ReadDigits, Pow10, AllDigits, DecimalValue, Folded;
    Empty();
    NoDigits();
    f := [];
    if At(s, 0) == '.' && IsDigit(At(s, 1)) {
      f := DigitsRead(s[1..], n, 0);
      DigitsAre(f);
      FoldedValue(n, f);
      FirstOf(s[1..], f, ReadDigits(s[1..], n, 0).rest);
      assert s == ['.'] + s[1..];
    }
  }

  lemma ExponentParsed(s: string) returns (e: Exponent)
    ensures s == ExponentText(e) + ReadExponent(s).1
    ensures e.Exponent? ==> (e.letter == 'e' || e.letter == 'E') && AllDigits(e.digits)
    ensures ReadExponent(s).0 == ExponentValue(e)
  {
    hide ReadDigits, Pow10, AllDigits, DecimalValue, Folded, ReadExponent, SignText;
    e := NoExponent;
    if At(s, 0) == 'e' || At(s, 0) == 'E' {
      var more := s[1..];
      var sign, behind := SignParsed(more);
      var d := DigitsRead(behind, 0, 0);
      DigitsAre(d);
      FoldedValue(0, d);
      Empty();
      AfterLetter(s, more);
      e := Exponent(s[0], sign, d);
      LetterParsed(s, SignText(sign), d, ReadDigits(behind, 0, 0).rest);
    } else {
      NoExponentRead(s);
    }
  }

  lemma SignParsed(s: string) returns (sign: Sign, behind: string)
    ensures (sign == Minus <==> At(s, 0) == '-') && (sign == Plus <==> At(s, 0) == '+')
    ensures s == SignText(sign) + behind && behind == if At(s, 0) == '-' || At(s, 0) == '+' then s[1..] else s
  {
    sign := if At(s, 0) == '-' then Minus else if At(s, 0) == '+' then Plus else Unsigned;
    behind := if sign == Unsigned then s else s[1..];
  }

  lemma LetterParsed(s: string, sign: string, d: string, rest: string)
    requires s != [] && s[1..] == sign + (d + rest)
    ensures s == ([s[0]] + (sign + d)) + rest
  {
    assert s == [s[0]] + s[1..];
  }

  lemma NoExponentRead(s: string)
    requires At(s, 0) != 'e' && At(s, 0) != 'E'
    ensures ReadExponent(s) == (0, s)
  {
  }

  /** Whatever is read as a number is written so, and stands for what was read. */
  lemma NumeralParsed(s: string) returns (n: Numeral)
    requires At(s, 0) == '-' || IsDigit(At(s, 0))
    ensures NumeralFits(n) && s == NumeralText(n) + ReadNumber(s).1 && ReadNumber(s).0 == NumeralValue(n)
  {
    hide ReadWhole, ReadFraction, ReadExponent, DecimalValue, WholeFits, ExponentValue, Pow10, AllDigits, FractionText;
    hide ExponentText;
    var negative := At(s, 0) == '-';
    var s1 := if negative then s[1..] else s;
    var w := WholeParsed(s1);
    var r := ReadWhole(s1);
    var f := FractionParsed(r.rest, r.value);
    var after := ReadFraction(r.rest, r.value).rest;
    var e := ExponentParsed(after);
    n := Numeral(negative, w, f, e);
    MinusParsed(s);
    TextJoin(MinusText(negative), w, FractionText(f), ExponentText(e), ReadExponent(after).1);
  }

  lemma MinusParsed(s: string)
    ensures s == if At(s, 0) == '-' then MinusText(true) + s[1..] else MinusText(false) + s
  {
  }
}
