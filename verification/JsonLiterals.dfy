/** String literals as src/cjson/cJSON.c reads them, written down character by character: escapes, UTF-16 surrogates and
    UTF-8 in numbers, and that the parser reads exactly these. */
module JsonLiterals {
  import opened Basics
  import opened JsonText
  import opened JsonRoundTrip
  import opened JsonStrict

  // ---------- What is written ----------

  /** One character of a literal: itself, a backslash and a letter, a code in four hexadecimal digits, or two codes. */
  datatype Character = Bare(c: char) | Short(letter: char) | Code(hex: string) | Surrogates(high: string, low: string)

  predicate IsHex(c: char) {
    48 <= c as int <= 57 || 65 <= c as int <= 70 || 97 <= c as int <= 102
  }

  predicate AllHex(s: string) {
    forall i :: 0 <= i < |s| ==> IsHex(s[i])
  }

  function HexDigit(c: char): (d: nat)
    requires IsHex(c)
    ensures d < 16
  {
    var v: int := c as int;
    if v <= 57 then v - 48 else if v <= 70 then v - 55 else v - 87
  }

  function HexNumber(s: string): nat
    requires AllHex(s)
  {
    if s == [] then 0 else 16 * HexNumber(s[..|s| - 1]) + HexDigit(s[|s| - 1])
  }

  predicate CharacterFits(u: Character) {
    match u
    case Bare(c) => c != '"' && c != '\\'
    case Short(letter) => letter in "bfnrt\"\\/"
    case Code(hex) =>
      |hex| == 4 && AllHex(hex) && HexNumber(hex) != 0 && !(0xD800 <= HexNumber(hex) <= 0xDFFF)
    case Surrogates(high, low) =>
      && |high| == 4 && AllHex(high) && 0xD800 <= HexNumber(high) <= 0xDBFF
      && |low| == 4 && AllHex(low) && 0xDC00 <= HexNumber(low) <= 0xDFFF
  }

  function CharacterText(u: Character): (s: string) {
    match u
    case Bare(c) => [c]
    case Short(letter) => ['\\', letter]
    case Code(hex) => ['\\', 'u'] + hex
    case Surrogates(high, low) => ['\\', 'u'] + (high + (['\\', 'u'] + low))
  }

  /** The character for a letter behind a backslash, in ASCII. */
  function ShortValue(letter: char): nat {
    if letter == 'b' then 8 else if letter == 't' then 9 else if letter == 'n' then 10 else if letter == 'f' then 12
    else if letter == 'r' then 13 else if letter == '"' then 34 else if letter == '/' then 47 else 92
  }

  /** What it stands for, in UTF-8. Two codes are the halves of one above 2^16 (RFC 2781, section 2.2). */
  function CharacterValue(u: Character): (s: string)
    requires CharacterFits(u)
  {
    match u
    case Bare(c) => [c]
    case Short(letter) => [ShortValue(letter) as char]
    case Code(hex) => HexBound(hex); Utf8(HexNumber(hex))
    case Surrogates(high, low) => Utf8(0x1_0000 + (HexNumber(high) - 0xD800) * 0x400 + (HexNumber(low) - 0xDC00))
  }

  // ---------- UTF-8 ----------

  /** Section 3 of RFC 3629: the bytes of a code point. */
  predicate Encodes(s: string, v: nat) {
    if v < 0x80 then |s| == 1 && s[0] as int == v
    else if v < 0x800 then
      |s| == 2 && Tail(s, 1) && v == (s[0] as int - 0xC0) * 0x40 + (s[1] as int - 0x80)
    else if v < 0x1_0000 then
      && |s| == 3 && Tail(s, 1) && Tail(s, 2)
      && v == (s[0] as int - 0xE0) * 0x1000 + (s[1] as int - 0x80) * 0x40 + (s[2] as int - 0x80)
    else
      && |s| == 4 && Tail(s, 1) && Tail(s, 2) && Tail(s, 3)
      && v == (s[0] as int - 0xF0) * 0x4_0000 + (s[1] as int - 0x80) * 0x1000 + (s[2] as int - 0x80) * 0x40
              + (s[3] as int - 0x80)
  }

  /** The bytes behind the first have the highest bits 10. */
  predicate Tail(s: string, i: nat) {
    i < |s| && 0x80 <= s[i] as int < 0xC0
  }

  lemma SixBits(v: nat, q: int, r: int)
    requires 0 <= r < 0x40
    ensures v == q * 0x40 + r <==> v / 0x40 == q && v % 0x40 == r
  {
  }

  lemma Twelve(v: nat)
    ensures v / 0x1000 == v / 0x40 / 0x40 && v / 0x4_0000 == v / 0x40 / 0x40 / 0x40
  {
  }

  /** What is written for a code point is its encoding, and nothing else is. */
  lemma Utf8Exact(s: string, v: nat)
    requires v < 0x11_0000
    ensures s == Utf8(v) <==> Encodes(s, v)
  {
    hide Encodes, Utf8;
    Twelve(v);
    if v < 0x80 {
      OneByte(s, v);
    } else if v < 0x800 {
      TwoBytes(s, v);
    } else if v < 0x1_0000 {
      ThreeBytes(s, v);
    } else {
      FourBytes(s, v);
    }
  }

  lemma OneByte(s: string, v: nat)
    requires v < 0x80
    ensures s == Utf8(v) <==> Encodes(s, v)
  {
    if |s| == 1 {
      assert s == [s[0]];
    }
  }

  lemma TwoBytes(s: string, v: nat)
    requires 0x80 <= v < 0x800
    ensures s == Utf8(v) <==> Encodes(s, v)
  {
    if |s| == 2 {
      var a: int, b: int := s[0] as int, s[1] as int;
      assert s == [s[0], s[1]];
      if Tail(s, 1) {
        SixBits(v, a - 0xC0, b - 0x80);
      }
    }
  }

  lemma ThreeBytes(s: string, v: nat)
    requires 0x800 <= v < 0x1_0000
    ensures s == Utf8(v) <==> Encodes(s, v)
  {
    Twelve(v);
    if |s| == 3 {
      var a: int, b: int, c: int := s[0] as int, s[1] as int, s[2] as int;
      assert s == [s[0], s[1], s[2]];
      if Tail(s, 1) && Tail(s, 2) {
        SixBits(v, (a - 0xE0) * 0x40 + (b - 0x80), c - 0x80);
        SixBits(v / 0x40, a - 0xE0, b - 0x80);
      }
    }
  }

  lemma FourBytes(s: string, v: nat)
    requires 0x1_0000 <= v < 0x11_0000
    ensures s == Utf8(v) <==> Encodes(s, v)
  {
    Twelve(v);
    if |s| == 4 {
      var a: int, b: int, c: int, d: int := s[0] as int, s[1] as int, s[2] as int, s[3] as int;
      assert s == [s[0], s[1], s[2], s[3]];
      if Tail(s, 1) && Tail(s, 2) && Tail(s, 3) {
        SixBits(v, ((a - 0xF0) * 0x40 + (b - 0x80)) * 0x40 + (c - 0x80), d - 0x80);
        SixBits(v / 0x40, (a - 0xF0) * 0x40 + (b - 0x80), c - 0x80);
        SixBits(v / 0x40 / 0x40, a - 0xF0, b - 0x80);
      }
    }
  }

  // ---------- Hexadecimal digits ----------

  lemma HexDigitExact(c: char)
    ensures HexValue(c) == if IsHex(c) then Some(HexDigit(c)) else None
  {
  }

  lemma {:induction false} HexOf(s: string)
    requires |s| == 4 && AllHex(s)
    ensures HexNumber(s)
         == 0x1000 * HexDigit(s[0]) + 0x100 * HexDigit(s[1]) + 0x10 * HexDigit(s[2]) + HexDigit(s[3])
  {
    hide HexDigit;
    var s3, s2, s1 := s[..3], s[..2], s[..1];
    assert s3[..2] == s2 && s2[..1] == s1 && s1[..0] == [];
    assert HexNumber(s) == 16 * HexNumber(s3) + HexDigit(s[3]);
    assert HexNumber(s3) == 16 * HexNumber(s2) + HexDigit(s[2]);
    assert HexNumber(s2) == 16 * HexNumber(s1) + HexDigit(s[1]);
    assert HexNumber(s1) == HexDigit(s[0]);
  }

  lemma HexBound(s: string)
    requires |s| == 4 && AllHex(s)
    ensures HexNumber(s) < 0x1_0000
  {
    hide HexDigit, HexNumber;
    HexOf(s);
  }

  /** Four digits are read as their number; anything else as zero. */
  lemma Hex4Exact(s: string)
    ensures Hex4(s) == if |s| >= 4 && AllHex(s[..4]) then HexNumber(s[..4]) else 0
  {
    hide HexDigit, HexNumber, HexValue, IsHex;
    HexDigitExact(At(s, 0));
    HexDigitExact(At(s, 1));
    HexDigitExact(At(s, 2));
    HexDigitExact(At(s, 3));
    NoHex();
    if |s| >= 4 {
      FourHex(s[..4]);
      if AllHex(s[..4]) {
        HexOf(s[..4]);
      }
    }
  }

  lemma NoHex()
    ensures !IsHex('\0')
  {
  }

  lemma FourHex(s: string)
    requires |s| == 4
    ensures AllHex(s) <==> IsHex(s[0]) && IsHex(s[1]) && IsHex(s[2]) && IsHex(s[3])
  {
    hide IsHex;
  }

  // ---------- Characters ----------

  lemma HexRead(s: string, p: nat, h: string, rest: string)
    requires p <= |s| && s[p..] == h + rest && |h| == 4 && AllHex(h)
    ensures p + 4 <= |s| && Hex4(s[p..]) == HexNumber(h)
  {
    hide HexNumber, AllHex, Hex4;
    assert s[p..][..4] == h;
    Hex4Exact(s[p..]);
  }

  lemma CodeRead(hex: string, rest: string)
    requires CharacterFits(Code(hex))
    ensures ReadUnicode(CharacterText(Code(hex)) + rest) == Some(Unit(CharacterValue(Code(hex)), 6))
  {
    hide HexNumber, AllHex, Hex4, Utf8;
    var s := CharacterText(Code(hex)) + rest;
    assert s[2..] == hex + rest;
    HexRead(s, 2, hex, rest);
    HexBound(hex);
  }

  lemma SurrogatesRead(high: string, low: string, rest: string)
    requires CharacterFits(Surrogates(high, low))
    ensures ReadUnicode(CharacterText(Surrogates(high, low)) + rest)
         == Some(Unit(CharacterValue(Surrogates(high, low)), 12))
  {
    hide HexNumber, AllHex, Hex4, Utf8;
    var s := CharacterText(Surrogates(high, low)) + rest;
    SurrogatePlaces(high, low, rest);
    HexRead(s, 2, high, ['\\', 'u'] + (low + rest));
    HexRead(s, 8, low, rest);
    Halves(HexNumber(high), HexNumber(low));
  }

  lemma SurrogatePlaces(high: string, low: string, rest: string)
    requires |high| == 4 && |low| == 4
    ensures var s := (['\\', 'u'] + (high + (['\\', 'u'] + low))) + rest;
            && s[2..] == high + (['\\', 'u'] + (low + rest)) && s[8..] == low + rest
            && s[6] == '\\' && s[7] == 'u'
  {
    var s := (['\\', 'u'] + (high + (['\\', 'u'] + low))) + rest;
    assert s == (['\\', 'u'] + high) + (['\\', 'u'] + (low + rest));
  }

  lemma Halves(high: nat, low: nat)
    requires 0xD800 <= high <= 0xDBFF && 0xDC00 <= low <= 0xDFFF
    ensures high % 0x400 == high - 0xD800 && low % 0x400 == low - 0xDC00
  {
  }

  /** A character is read as what it stands for. */
  lemma CharacterRead(u: Character, rest: string)
    requires CharacterFits(u)
    ensures var s := CharacterText(u) + rest;
            s[0] != '"' && ReadUnit(s) == Some(Unit(CharacterValue(u), |CharacterText(u)|))
  {
    hide ReadUnicode, HexNumber, AllHex;
    var s := CharacterText(u) + rest;
    match u
    case Bare(c) => assert s[..1] == [c];
    case Short(_) =>
    case Code(hex) => CodeRead(hex, rest);
    case Surrogates(high, low) => SurrogatesRead(high, low, rest);
  }

  lemma HexParsed(s: string, p: nat) returns (h: string)
    requires p <= |s| && Hex4(s[p..]) != 0
    ensures p + 4 <= |s| && h == s[p..p + 4] && AllHex(h) && HexNumber(h) == Hex4(s[p..])
  {
    hide HexNumber, AllHex, Hex4;
    Hex4Exact(s[p..]);
    assert s[p..][..4] == s[p..p + 4];
    h := s[p..p + 4];
  }

  lemma UnicodeParsed(s: string) returns (u: Character)
    requires |s| >= 2 && s[0] == '\\' && s[1] == 'u' && ReadUnicode(s).Some?
    ensures CharacterFits(u) && ReadUnicode(s) == Some(Unit(CharacterValue(u), |CharacterText(u)|))
    ensures |CharacterText(u)| <= |s| && s[..|CharacterText(u)|] == CharacterText(u)
  {
    hide HexNumber, AllHex, Hex4, Utf8;
    var high := HexParsed(s, 2);
    if 0xD800 <= HexNumber(high) <= 0xDBFF {
      var low := HexParsed(s, 8);
      u := Surrogates(high, low);
      Halves(HexNumber(high), HexNumber(low));
      assert s[..12] == ['\\', 'u'] + (s[2..6] + (['\\', 'u'] + s[8..12]));
    } else {
      u := Code(high);
      assert s[..6] == ['\\', 'u'] + s[2..6];
    }
  }

  /** Whatever is read as a character is one, and stands for what was read. */
  lemma CharacterParsed(s: string) returns (u: Character)
    requires s != [] && s[0] != '"' && ReadUnit(s).Some?
    ensures CharacterFits(u) && ReadUnit(s) == Some(Unit(CharacterValue(u), |CharacterText(u)|))
    ensures |CharacterText(u)| <= |s| && s[..|CharacterText(u)|] == CharacterText(u)
  {
    hide ReadUnicode, HexNumber, AllHex;
    if s[0] != '\\' {
      u := Bare(s[0]);
      assert s[..1] == [s[0]];
    } else if At(s, 1) == 'u' {
      u := UnicodeParsed(s);
    } else {
      u := Short(At(s, 1));
      assert s[..2] == [s[0], s[1]];
    }
  }

  // ---------- Literals ----------

  predicate LiteralFits(us: seq<Character>) {
    forall u <- us :: CharacterFits(u)
  }

  function LiteralText(us: seq<Character>): string {
    if us == [] then [] else CharacterText(us[0]) + LiteralText(us[1..])
  }

  function LiteralValue(us: seq<Character>): string
    requires LiteralFits(us)
  {
    if us == [] then [] else CharacterValue(us[0]) + LiteralValue(us[1..])
  }

  /** With its quotes. */
  function QuotedLiteral(us: seq<Character>): string {
    "\"" + (LiteralText(us) + "\"")
  }

  lemma Behind(a: string, b: string)
    ensures (a + b)[|a|..] == b
  {
  }

  lemma Regrouped(a: string, b: string, c: string, d: string)
    ensures ((a + b) + c) + d == a + ((b + c) + d)
  {
  }

  lemma {:induction false} LiteralRead(us: seq<Character>, rest: string)
    requires LiteralFits(us)
    ensures ReadString((LiteralText(us) + "\"") + rest) == Some((LiteralValue(us), rest))
    decreases |us|
  {
    hide ReadUnit, CharacterText, CharacterValue, CharacterFits;
    if us == [] {
      assert ([] + "\"") + rest == "\"" + rest;
      Behind("\"", rest);
    } else {
      var tail := (LiteralText(us[1..]) + "\"") + rest;
      Regrouped(CharacterText(us[0]), LiteralText(us[1..]), "\"", rest);
      CharacterRead(us[0], tail);
      Behind(CharacterText(us[0]), tail);
      LiteralRead(us[1..], rest);
    }
  }

  /** A quoted literal is read as what its characters stand for. */
  lemma QuotedRead(us: seq<Character>, rest: string)
    requires LiteralFits(us)
    ensures var s := QuotedLiteral(us) + rest;
            At(s, 0) == '"' && ReadString(s[1..]) == Some((LiteralValue(us), rest))
  {
    hide ReadString;
    LiteralRead(us, rest);
    assert (QuotedLiteral(us) + rest)[1..] == (LiteralText(us) + "\"") + rest;
  }

  lemma {:induction false} LiteralParsed(s: string) returns (us: seq<Character>)
    requires StrictString(s).Some?
    ensures LiteralFits(us) && s == (LiteralText(us) + "\"") + StrictString(s).value.1
    ensures StrictString(s).value.0 == LiteralValue(us)
    decreases |s|
  {
    hide ReadUnit, CharacterText, CharacterValue, CharacterFits;
    if s[0] == '"' {
      us := [];
      assert s == "\"" + s[1..];
      assert ([] + "\"") + s[1..] == "\"" + s[1..];
    } else {
      var u := CharacterParsed(s);
      var more := s[|CharacterText(u)|..];
      var rest := LiteralParsed(more);
      us := [u] + rest;
      assert us[1..] == rest;
      assert s == CharacterText(u) + more;
      Regrouped(CharacterText(u), LiteralText(rest), "\"", StrictString(s).value.1);
    }
  }

  /** Whatever is read between quotes is a literal, and stands for what was read. */
  lemma QuotedParsed(s: string) returns (us: seq<Character>)
    requires At(s, 0) == '"' && StrictString(s[1..]).Some?
    ensures LiteralFits(us) && s == QuotedLiteral(us) + StrictString(s[1..]).value.1
    ensures StrictString(s[1..]).value.0 == LiteralValue(us)
  {
    hide StrictString, LiteralText;
    us := LiteralParsed(s[1..]);
    assert s == "\"" + s[1..];
  }
}
