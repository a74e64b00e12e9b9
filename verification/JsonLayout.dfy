/** How src/cjson/cJSON.c lays out what it prints: formatted text has a member to a line, behind a tab for each
    level, and unformatted text no blanks at all. */
module JsonLayout {
  import opened Basics
  import opened JsonText
  import opened JsonRoundTrip
  import opened JsonNumerals
  import opened JsonLiterals
  import opened JsonGrammar

  // ---------- Literals ----------

  function LowHex(d: nat): char
    requires d < 16
  {
    if d < 10 then (48 + d) as char else (87 + d) as char
  }

  /** Quotes, backslashes and control characters are escaped, with a letter where there is one. */
  function Spelled(c: char): Character {
    var v := c as int;
    if v == 34 || v == 92 then Short(c)
    else if v == 8 then Short('b')
    else if v == 9 then Short('t')
    else if v == 10 then Short('n')
    else if v == 12 then Short('f')
    else if v == 13 then Short('r')
    else if v < 32 then Code(['0', '0', LowHex(v / 16), LowHex(v % 16)])
    else Bare(c)
  }

  function SpelledAll(s: string): seq<Character> {
    if s == [] then [] else [Spelled(s[0])] + SpelledAll(s[1..])
  }

  lemma SpelledIs(c: char)
    ensures CharacterText(Spelled(c)) == Escaped(c)
  {
    var v := c as int;
    if v < 32 && v != 8 && v != 9 && v != 10 && v != 12 && v != 13 {
      assert LowHex(v / 16) == HexChar(c as nat / 16) && LowHex(v % 16) == HexChar(c as nat % 16);
    }
  }

  lemma {:induction false} SpelledAllIs(s: string)
    ensures LiteralText(SpelledAll(s)) == EscapedAll(s)
    decreases |s|
  {
    hide Spelled, CharacterText, Escaped;
    if s != [] {
      SpelledIs(s[0]);
      SpelledAllIs(s[1..]);
      assert SpelledAll(s)[1..] == SpelledAll(s[1..]);
    }
  }

  // ---------- Values ----------

  function Laid(t: Json, depth: nat, fmt: bool): Source
    decreases t
  {
    match t
    case Number(m, _) => Numeric(Numeral(m < 0, Digits(if m < 0 then -m else m), "", NoExponent))
    case String(text) => Literal(SpelledAll(text))
    case Array(elems) => List("", LaidElems(elems, depth, fmt, true))
    case Object(members) =>
      Dict(if members == [] then NewLine(depth, fmt) else "", LaidMembers(members, depth, fmt))
    case _ => Word(t)
  }

  /** A new line with a tab for each level. */
  function NewLine(depth: nat, fmt: bool): string {
    if fmt then "\n" + Tabs(depth) else ""
  }

  /** Elements stand in one line, with a space behind each comma. */
  function LaidElems(elems: seq<Json>, depth: nat, fmt: bool, first: bool): (items: seq<Item>)
    ensures |items| == |elems|
    decreases elems
  {
    if elems == [] then []
    else
      [Item(if fmt && !first then " " else "", Laid(elems[0], depth + 1, fmt), "")] +
      LaidElems(elems[1..], depth, fmt, false)
  }

  /** Members stand in a line each, one level deeper, with a tab behind the colon; the closing brace in a line of
      its own. */
  function LaidMembers(members: seq<Member>, depth: nat, fmt: bool): (entries: seq<Entry>)
    ensures |entries| == |members|
    decreases members
  {
    if members == [] then []
    else
      var m := members[0];
      [Entry(NewLine(depth + 1, fmt), SpelledAll(m.name), "", if fmt then "\t" else "", Laid(m.value, depth + 1, fmt),
             if |members| == 1 then NewLine(depth, fmt) else "")] +
      LaidMembers(members[1..], depth, fmt)
  }

  lemma QuotedLaid(s: string)
    ensures QuotedLiteral(SpelledAll(s)) == Quoted(s)
  {
    SpelledAllIs(s);
    assert "\"" + (EscapedAll(s) + "\"") == ("\"" + EscapedAll(s)) + "\"";
  }

  lemma NumberLaid(m: int)
    ensures var n := Numeral(m < 0, Digits(if m < 0 then -m else m), "", NoExponent);
            NumeralText(n) == Decimal(m)
  {
    var d := Digits(if m < 0 then -m else m);
    assert d + (FractionText("") + ExponentText(NoExponent)) == d;
    assert m >= 0 ==> MinusText(false) + d == d;
  }

  /** What is printed is laid out so. */
  lemma {:induction false} PrintedLaid(t: Json, depth: nat, fmt: bool)
    ensures Printed(t, depth, fmt) == Text(Laid(t, depth, fmt))
    decreases t, 0
  {
    hide QuotedLiteral, Quoted, NumeralText, Decimal, Digits;
    match t
    case Number(m, _) => NumberLaid(m);
    case String(text) => QuotedLaid(text);
    case Array(elems) =>
      if elems != [] {
        ElemsLaid(elems, depth, fmt, true);
        Assoc("[", PrintedElems(elems, depth + 1, fmt), "]");
      }
    case Object(members) => ObjectLaid(members, depth, fmt);
    case _ =>
  }

  lemma {:induction false} ElemsLaid(elems: seq<Json>, depth: nat, fmt: bool, first: bool)
    requires elems != []
    ensures ItemsText(LaidElems(elems, depth, fmt, first))
         == (if fmt && !first then " " else "") + (PrintedElems(elems, depth + 1, fmt) + "]")
    decreases elems, 0
  {
    hide Text, Printed, Laid;
    var items := LaidElems(elems, depth, fmt, first);
    PrintedLaid(elems[0], depth + 1, fmt);
    var head := Printed(elems[0], depth + 1, fmt);
    if |elems| == 1 {
      assert head + "" == head && "" + "]" == "]";
    } else {
      ElemsLaid(elems[1..], depth, fmt, false);
      assert items[1..] == LaidElems(elems[1..], depth, fmt, false);
      var more := PrintedElems(elems[1..], depth + 1, fmt) + "]";
      CommaSpace(fmt, more);
      PrintedMore(elems, depth + 1, fmt);
      Assoc(head, Comma(false, fmt) + PrintedElems(elems[1..], depth + 1, fmt), "]");
      Assoc(Comma(false, fmt), PrintedElems(elems[1..], depth + 1, fmt), "]");
    }
  }

  lemma PrintedMore(elems: seq<Json>, depth: nat, fmt: bool)
    requires |elems| > 1
    ensures PrintedElems(elems, depth, fmt)
         == Printed(elems[0], depth, fmt) + (Comma(false, fmt) + PrintedElems(elems[1..], depth, fmt))
  {
    hide Printed;
  }

  lemma CommaSpace(fmt: bool, more: string)
    ensures "," + ((if fmt then " " else "") + more) == Comma(false, fmt) + more
    ensures "" + ("," + ((if fmt then " " else "") + more)) == Comma(false, fmt) + more
  {
  }

  lemma {:induction false} ObjectLaid(members: seq<Member>, depth: nat, fmt: bool)
    ensures Printed(Object(members), depth, fmt) == Text(Laid(Object(members), depth, fmt))
    decreases members, 1
  {
    hide PrintedMembers, EntriesText, LaidMembers, Tabs;
    if members != [] {
      MembersLaid(members, depth, fmt);
      var body, close := PrintedMembers(members, depth + 1, fmt), (if fmt then Tabs(depth) else "") + "}";
      BraceJoin(body, depth, fmt);
    } else {
      EmptyLaid(depth, fmt);
    }
  }

  lemma EmptyLaid(depth: nat, fmt: bool)
    ensures Printed(Object([]), depth, fmt) == "{" + (NewLine(depth, fmt) + "}")
  {
    hide Tabs;
    assert ("{\n" + Tabs(depth)) + "}" == "{" + (("\n" + Tabs(depth)) + "}");
  }

  lemma BraceJoin(body: string, depth: nat, fmt: bool)
    ensures (if fmt then "{\n" else "{") + body + (if fmt then Tabs(depth) else "") + "}"
         == "{" + ((if fmt then "\n" else "") + (body + ((if fmt then Tabs(depth) else "") + "}")))
  {
    hide Tabs;
  }

  lemma {:induction false} MembersLaid(members: seq<Member>, depth: nat, fmt: bool)
    requires members != []
    ensures EntriesText(LaidMembers(members, depth, fmt))
         == (if fmt then "\n" else "") +
            (PrintedMembers(members, depth + 1, fmt) + ((if fmt then Tabs(depth) else "") + "}"))
    decreases members, 0
  {
    hide Text, Printed, Laid, QuotedLiteral, Quoted, Tabs, SpelledAll, PrintedMembers;
    var m, entries := members[0], LaidMembers(members, depth, fmt);
    var close := (if fmt then Tabs(depth) else "") + "}";
    QuotedLaid(m.name);
    PrintedLaid(m.value, depth + 1, fmt);
    PrintedMember(members, depth + 1, fmt, close);
    if |members| == 1 {
      LastMember(fmt, Tabs(depth + 1), Tabs(depth), Quoted(m.name), Printed(m.value, depth + 1, fmt));
    } else {
      MembersLaid(members[1..], depth, fmt);
      assert entries[1..] == LaidMembers(members[1..], depth, fmt);
      var tail := PrintedMembers(members[1..], depth + 1, fmt) + close;
      NextMember(fmt, Tabs(depth + 1), Quoted(m.name), Printed(m.value, depth + 1, fmt), tail);
    }
  }

  lemma LastMember(fmt: bool, tabs: string, outer: string, name: string, value: string)
    ensures var close := (if fmt then outer else "") + "}";
            (if fmt then "\n" + tabs else "") + (name + ("" + (":" + ((if fmt then "\t" else "") + (value +
            ((if fmt then "\n" + outer else "") + "}")))))) ==
            (if fmt then "\n" else "") + ((if fmt then tabs else "") + (name + (if fmt then ":\t" else ":") +
            (value + (MemberEnd(true, fmt) + close))))
  {
    if fmt {
      assert "\n" + outer + "}" == "\n" + (outer + "}");
    }
  }

  lemma NextMember(fmt: bool, tabs: string, name: string, value: string, tail: string)
    ensures (if fmt then "\n" + tabs else "") + (name + ("" + (":" + ((if fmt then "\t" else "") + (value +
            ("" + ("," + ((if fmt then "\n" else "") + tail))))))))
         == (if fmt then "\n" else "") + ((if fmt then tabs else "") + (name + (if fmt then ":\t" else ":") +
            (value + (MemberEnd(false, fmt) + tail))))
  {
  }
}
