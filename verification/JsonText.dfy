/** JSON values and text as src/cjson/cJSON.c reads and writes them: what the printer prints, what the
    parser accepts, and that they undo each other. A C string is its characters before the
    terminator; a char stands for a byte. */
module JsonText {
  import opened Basics

  /** The value of a cJSON node: a number is mantissa * 10^exponent, exactly. */
  datatype Json =
    | Null
    | False
    | True
    | Number(mantissa: int, exponent: int)
    | String(text: string)
    | Array(elems: seq<Json>)
    | Object(members: seq<Member>)

  datatype Member = Member(name: string, value: Json)

  const INT_MIN := -0x8000_0000
  const INT_MAX := 0x7FFF_FFFF

  /** The trees that print exactly: C strings, and numbers that are 32-bit integers. */
  predicate Plain(t: Json) {
    match t
    case Number(m, e) => e == 0 && INT_MIN <= m <= INT_MAX
    case String(s) => '\0' !in s
    case Array(elems) => forall e <- elems :: Plain(e)
    case Object(members) => forall m <- members :: '\0' !in m.name && Plain(m.value)
    case _ => true
  }

  // ---------- Printing ----------

  function DigitChar(d: nat): char
    requires d < 10
  {
    '0' + d as char
  }

  function Digits(n: nat): (s: string)
    ensures |s| > 0
  {
    if n < 10 then [DigitChar(n)] else Digits(n / 10) + [DigitChar(n % 10)]
  }

  /** %d */
  function Decimal(n: int): (s: string)
    ensures |s| > 0
  {
    if n < 0 then "-" + Digits(-n) else Digits(n)
  }

  function HexChar(d: nat): char
    requires d < 16
  {
    if d < 10 then '0' + d as char else 'a' + (d - 10) as char
  }

  /** One character of a string as print_string_ptr writes it. */
  function Escaped(c: char): (s: string)
    ensures 0 < |s| <= 6
  {
    if c > 31 as char && c != '"' && c != '\\' then [c]
    else if c == '\\' then "\\\\"
    else if c == '"' then "\\\""
    else if c == 8 as char then "\\b"
    else if c == 12 as char then "\\f"
    else if c == '\n' then "\\n"
    else if c == '\r' then "\\r"
    else if c == '\t' then "\\t"
    else ['\\', 'u', '0', '0', HexChar(c as nat / 16), HexChar(c as nat % 16)]
  }

  function EscapedAll(s: string): string {
    if s == [] then [] else Escaped(s[0]) + EscapedAll(s[1..])
  }

  function Quoted(s: string): string {
    "\"" + EscapedAll(s) + "\""
  }

  function Tabs(n: nat): (s: string)
    ensures |s| == n && forall c <- s :: c == '\t'
  {
    if n == 0 then [] else ['\t'] + Tabs(n - 1)
  }

  /** What print_value renders, at a depth of nesting, formatted or not. */
  function Printed(t: Json, depth: nat, fmt: bool): string
    decreases t
  {
    match t
    case Null => "null"
    case False => "false"
    case True => "true"
    case Number(m, _) => Decimal(m)
    case String(s) => Quoted(s)
    case Array(elems) => if elems == [] then "[]" else "[" + PrintedElems(elems, depth + 1, fmt) + "]"
    case Object(members) =>
      if members == [] then
        if fmt then "{\n" + Tabs(depth) + "}" else "{}"
      else
        (if fmt then "{\n" else "{") + PrintedMembers(members, depth + 1, fmt) + (if fmt then Tabs(depth) else "") + "}"
  }

  function Comma(last: bool, fmt: bool): string {
    if last then "" else if fmt then ", " else ","
  }

  function PrintedElems(elems: seq<Json>, depth: nat, fmt: bool): string
    requires elems != []
    decreases elems
  {
    Printed(elems[0], depth, fmt) +
    (if |elems| == 1 then "" else Comma(false, fmt) + PrintedElems(elems[1..], depth, fmt))
  }

  /** The key of a member with what stands before and after it. */
  function Key(name: string, depth: nat, fmt: bool): string {
    (if fmt then Tabs(depth) else "") + Quoted(name) + (if fmt then ":\t" else ":")
  }

  /** What follows the value of a member. */
  function MemberEnd(last: bool, fmt: bool): string {
    (if last then "" else ",") + (if fmt then "\n" else "")
  }

  function PrintedMembers(members: seq<Member>, depth: nat, fmt: bool): string
    requires members != []
    decreases members
  {
    Key(members[0].name, depth, fmt) + Printed(members[0].value, depth, fmt) +
    MemberEnd(|members| == 1, fmt) +
    (if |members| == 1 then "" else PrintedMembers(members[1..], depth, fmt))
  }

  // ---------- Parsing ----------

  /** The character at a position, or the terminator. */
  function At(s: string, i: nat): char {
    if i < |s| then s[i] else '\0'
  }

  predicate IsDigit(c: char) {
    '0' <= c <= '9'
  }

  function DigitValue(c: char): (d: nat)
    requires IsDigit(c)
    ensures d < 10
  {
    c as int - '0' as int
  }

  /** skip */
  function Skip(s: string): (r: string)
    ensures |r| <= |s|
  {
    if s != [] && s[0] != '\0' && s[0] <= 32 as char then Skip(s[1..]) else s
  }

  datatype Run = Run(value: nat, count: nat, rest: string)

  /** Reads digits into a number that starts at n. */
  function ReadDigits(s: string, n: nat, count: nat): (r: Run)
    ensures |s| == |r.rest| + (r.count - count)
    ensures r.count >= count
    ensures !IsDigit(At(r.rest, 0))
  {
    if IsDigit(At(s, 0)) then ReadDigits(s[1..], 10 * n + DigitValue(s[0]), count + 1) else Run(n, count, s)
  }

  /** The part of a number before the point. */
  function ReadWhole(s: string): (r: Run)
    ensures |r.rest| <= |s|
    ensures IsDigit(At(s, 0)) ==> |r.rest| < |s|
  {
    var s1 := if At(s, 0) == '0' then s[1..] else s;
    if '1' <= At(s1, 0) <= '9' then ReadDigits(s1, 0, 0) else Run(0, 0, s1)
  }

  /** The digits after the point go on with the number. */
  function ReadFraction(s: string, n: nat): (r: Run)
    ensures |r.rest| <= |s|
  {
    if At(s, 0) == '.' && IsDigit(At(s, 1)) then ReadDigits(s[1..], n, 0) else Run(n, 0, s)
  }

  function ReadExponent(s: string): (r: (int, string))
    ensures |r.1| <= |s|
  {
    if At(s, 0) == 'e' || At(s, 0) == 'E' then
      var negative := At(s, 1) == '-';
      var r := ReadDigits(if negative || At(s, 1) == '+' then s[2..] else s[1..], 0, 0);
      var v: int := r.value;
      (if negative then -v else v, r.rest)
    else
      (0, s)
  }

  /** parse_number */
  function ReadNumber(s: string): (r: (Json, string))
    requires At(s, 0) == '-' || IsDigit(At(s, 0))
    ensures |r.1| < |s|
  {
    var negative := At(s, 0) == '-';
    var w := ReadWhole(if negative then s[1..] else s);
    var f := ReadFraction(w.rest, w.value);
    var (e, rest) := ReadExponent(f.rest);
    var v: int := f.value;
    (Number(if negative then -v else v, e - f.count), rest)
  }

  function HexValue(c: char): (v: Option<nat>)
    ensures v.Some? ==> v.value < 16
  {
    var v: int := c as int;
    if '0' <= c <= '9' then Some(v - '0' as int)
    else if 'A' <= c <= 'F' then Some(10 + v - 'A' as int)
    else if 'a' <= c <= 'f' then Some(10 + v - 'a' as int)
    else None
  }

  /** parse_hex4: zero where a digit is missing. */
  function Hex4(s: string): (v: nat)
    ensures v < 0x1_0000
    ensures v > 0 ==> |s| >= 4
  {
    match (HexValue(At(s, 0)), HexValue(At(s, 1)), HexValue(At(s, 2)), HexValue(At(s, 3)))
    case (Some(a), Some(b), Some(c), Some(d)) => 0x1000 * a + 0x100 * b + 0x10 * c + d
    case _ => 0
  }

  function Continuation(v: nat): char {
    (0x80 + v % 0x40) as char
  }

  /** The UTF-8 encoding of a code point. */
  function Utf8(uc: nat): (s: string)
    requires uc < 0x11_0000
    ensures 0 < |s| <= 4
  {
    if uc < 0x80 then [uc as char]
    else if uc < 0x800 then [(0xC0 + uc / 0x40) as char, Continuation(uc)]
    else if uc < 0x1_0000 then [(0xE0 + uc / 0x1000) as char, Continuation(uc / 0x40), Continuation(uc)]
    else [(0xF0 + uc / 0x4_0000) as char, Continuation(uc / 0x1000), Continuation(uc / 0x40), Continuation(uc)]
  }

  datatype Unit = Unit(text: string, length: nat)

  /** One character or escape sequence of a string literal: what it stands for and how long it is. */
  function ReadUnit(s: string): (u: Option<Unit>)
    requires s != []
    ensures u.Some? ==> 0 < u.value.length <= |s| && 0 < |u.value.text| <= u.value.length
  {
    if s[0] != '\\' then Some(Unit(s[..1], 1))
    else
      var c := At(s, 1);
      if c == 'b' then Some(Unit([8 as char], 2))
      else if c == 'f' then Some(Unit([12 as char], 2))
      else if c == 'n' then Some(Unit("\n", 2))
      else if c == 'r' then Some(Unit("\r", 2))
      else if c == 't' then Some(Unit("\t", 2))
      else if c == '"' || c == '\\' || c == '/' then Some(Unit([c], 2))
      else if c == 'u' then ReadUnicode(s)
      else None
  }

  /** A \u escape, or two of them that form a surrogate pair. */
  function ReadUnicode(s: string): (u: Option<Unit>)
    requires |s| >= 2
    ensures u.Some? ==> 6 <= u.value.length <= |s| && 0 < |u.value.text| <= 4
  {
    var uc := Hex4(s[2..]);
    if uc == 0 || 0xDC00 <= uc <= 0xDFFF then None
    else if 0xD800 <= uc <= 0xDBFF then
      if At(s, 6) == '\\' && At(s, 7) == 'u' then
        var uc2 := Hex4(s[8..]);
        if 0xDC00 <= uc2 <= 0xDFFF then Some(Unit(Utf8(0x1_0000 + uc % 0x400 * 0x400 + uc2 % 0x400), 12)) else None
      else None
    else Some(Unit(Utf8(uc), 6))
  }

  /** The rest of a string literal; a missing quote at the end of the text is accepted. */
  function ReadString(s: string): (r: Option<(string, string)>)
    ensures r.Some? ==> |r.value.1| <= |s|
  {
    if s == [] then Some(([], []))
    else if s[0] == '"' then Some(([], s[1..]))
    else
      match ReadUnit(s)
      case None => None
      case Some(u) =>
        match ReadString(s[u.length..])
        case None => None
        case Some((text, rest)) => Some((u.text + text, rest))
  }

  /** parse_value: the value and what follows it. */
  function Parsed(s: string): (r: Option<(Json, string)>)
    ensures r.Some? ==> |r.value.1| < |s|
    decreases |s|, 0
  {
    if "null" <= s then Some((Null, s[4..]))
    else if "false" <= s then Some((False, s[5..]))
    else if "true" <= s then Some((True, s[4..]))
    else if At(s, 0) == '"' then
      match ReadString(s[1..])
      case None => None
      case Some((text, rest)) => Some((String(text), rest))
    else if At(s, 0) == '-' || IsDigit(At(s, 0)) then Some(ReadNumber(s))
    else if At(s, 0) == '[' then
      var s1 := Skip(s[1..]);
      if At(s1, 0) == ']' then Some((Array([]), s1[1..]))
      else
        match ParsedElems(s1)
        case None => None
        case Some((elems, rest)) => Some((Array(elems), rest))
    else if At(s, 0) == '{' then
      var s1 := Skip(s[1..]);
      if At(s1, 0) == '}' then Some((Object([]), s1[1..]))
      else
        match ParsedMembers(s1)
        case None => None
        case Some((members, rest)) => Some((Object(members), rest))
    else None
  }

  function ParsedElems(s: string): (r: Option<(seq<Json>, string)>)
    ensures r.Some? ==> |r.value.1| < |s|
    decreases |s|, 1
  {
    match Parsed(s)
    case None => None
    case Some((t, rest)) =>
      var rest1 := Skip(rest);
      if At(rest1, 0) == ',' then
        match ParsedElems(Skip(rest1[1..]))
        case None => None
        case Some((elems, last)) => Some(([t] + elems, last))
      else if At(rest1, 0) == ']' then Some(([t], rest1[1..]))
      else None
  }

  /** A key with its colon: parse_string, then skip. */
  function ParsedKey(s: string): (r: Option<(string, string)>)
    ensures r.Some? ==> |r.value.1| < |s|
  {
    if At(s, 0) != '"' then None
    else
      match ReadString(s[1..])
      case None => None
      case Some((name, rest)) =>
        var rest1 := Skip(rest);
        if At(rest1, 0) == ':' then Some((name, Skip(rest1[1..]))) else None
  }

  function ParsedMembers(s: string): (r: Option<(seq<Member>, string)>)
    ensures r.Some? ==> |r.value.1| < |s|
    decreases |s|, 1
  {
    match ParsedKey(s)
    case None => None
    case Some((name, s1)) =>
      match Parsed(s1)
      case None => None
      case Some((t, rest)) =>
        var rest1 := Skip(rest);
        if At(rest1, 0) == ',' then
          match ParsedMembers(Skip(rest1[1..]))
          case None => None
          case Some((members, last)) => Some(([Member(name, t)] + members, last))
        else if At(rest1, 0) == '}' then Some(([Member(name, t)], rest1[1..]))
        else None
  }
}
