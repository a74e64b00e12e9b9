/** Parsing what was printed gives back the tree. */
module JsonRoundTrip {
  import opened Basics
  import opened JsonText

  // ---------- Numbers ----------

  /** The number that digits make, read after n. */
  function Folded(n: nat, s: string): nat
    requires forall c <- s :: IsDigit(c)
    decreases s
  {
    if s == [] then n else Folded(10 * n + DigitValue(s[0]), s[1..])
  }

  lemma {:induction false} FoldedLast(n: nat, s: string, c: char)
    requires (forall c <- s :: IsDigit(c)) && IsDigit(c)
    ensures Folded(n, s + [c]) == 10 * Folded(n, s) + DigitValue(c)
    decreases s
  {
    if s == [] {
      assert [c][1..] == [];
    } else {
      assert (s + [c])[1..] == s[1..] + [c];
      FoldedLast(10 * n + DigitValue(s[0]), s[1..], c);
    }
  }

  lemma {:induction false} DigitsFold(n: nat)
    ensures forall c <- Digits(n) :: IsDigit(c)
    ensures Folded(0, Digits(n)) == n
    ensures if n == 0 then Digits(n) == "0" else '1' <= Digits(n)[0] <= '9'
  {
    if n < 10 {
      assert Digits(n)[1..] == [];
    } else {
      DigitsFold(n / 10);
      FoldedLast(0, Digits(n / 10), DigitChar(n % 10));
    }
  }

  lemma {:induction false} ReadDigitsOf(s: string, rest: string, n: nat, count: nat)
    requires (forall c <- s :: IsDigit(c)) && !IsDigit(At(rest, 0))
    ensures ReadDigits(s + rest, n, count) == Run(Folded(n, s), count + |s|, rest)
    decreases s
  {
    if s == [] {
      assert s + rest == rest;
    } else {
      assert (s + rest)[1..] == s[1..] + rest;
      ReadDigitsOf(s[1..], rest, 10 * n + DigitValue(s[0]), count + 1);
    }
  }

  /** What cannot continue a number. */
  predicate Stops(rest: string) {
    var c := At(rest, 0);
    !IsDigit(c) && c != '.' && c != 'e' && c != 'E'
  }

  lemma ReadWholeOf(n: nat, rest: string)
    requires Stops(rest)
    ensures ReadWhole(Digits(n) + rest).value == n && ReadWhole(Digits(n) + rest).rest == rest
  {
    DigitsFold(n);
    if n == 0 {
      assert ("0" + rest)[1..] == rest;
    } else {
      ReadDigitsOf(Digits(n), rest, 0, 0);
      assert (Digits(n) + rest)[0] == Digits(n)[0];
    }
  }

  lemma NothingFollows(n: nat, rest: string)
    requires Stops(rest)
    ensures ReadFraction(rest, n) == Run(n, 0, rest) && ReadExponent(rest) == (0, rest)
  {
  }

  lemma NumberRoundTrip(n: int, rest: string)
    requires Stops(rest)
    ensures var s := Decimal(n) + rest;
            && (At(s, 0) == '-' || IsDigit(At(s, 0)))
            && ReadNumber(s) == (Number(n, 0), rest)
  {
    hide Stops, ReadWhole, ReadDigits, ReadFraction, ReadExponent;
    var s := Decimal(n) + rest;
    DigitsFold(if n < 0 then -n else n);
    NothingFollows(if n < 0 then -n else n, rest);
    ReadWholeOf(if n < 0 then -n else n, rest);
    if n < 0 {
      assert s[1..] == Digits(-n) + rest;
    } else {
      assert s[0] == Digits(n)[0];
    }
  }

  // ---------- Strings ----------

  lemma HexRoundTrip(d: nat)
    requires d < 16
    ensures HexValue(HexChar(d)) == Some(d)
  {
  }

  lemma UnitRoundTrip(c: char, rest: string)
    requires c != '\0'
    ensures ReadUnit(Escaped(c) + rest) == Some(Unit([c], |Escaped(c)|))
    ensures Escaped(c)[0] != '"'
  {
    var s := Escaped(c) + rest;
    if |Escaped(c)| == 6 {
      HexRoundTrip(c as nat / 16);
      HexRoundTrip(c as nat % 16);
      var h := s[2..];
      assert At(h, 0) == '0' && At(h, 1) == '0' && At(h, 2) == HexChar(c as nat / 16) && At(h,
                3) == HexChar(c as nat % 16);
      assert Hex4(h) == c as nat;
    }
  }

  lemma {:induction false} StringRoundTrip(text: string, rest: string)
    requires '\0' !in text
    ensures ReadString(EscapedAll(text) + "\"" + rest) == Some((text, rest))
    decreases text
  {
    hide ReadUnit, Escaped;
    if text == [] {
      assert EscapedAll(text) + "\"" + rest == "\"" + rest;
    } else {
      var e, tail := Escaped(text[0]), EscapedAll(text[1..]) + "\"" + rest;
      UnitRoundTrip(text[0], tail);
      assert EscapedAll(text) + "\"" + rest == e + tail;
      assert (e + tail)[|e|..] == tail;
      assert (e + tail)[0] == e[0];
      StringRoundTrip(text[1..], rest);
      assert [text[0]] + text[1..] == text;
    }
  }

  lemma QuotedRoundTrip(text: string, rest: string)
    requires '\0' !in text
    ensures At(Quoted(text) + rest, 0) == '"'
    ensures ReadString((Quoted(text) + rest)[1..]) == Some((text, rest))
  {
    StringRoundTrip(text, rest);
    assert (Quoted(text) + rest)[1..] == EscapedAll(text) + "\"" + rest;
  }

  // ---------- Values ----------

  /** The first character of a value is no space and no closing bracket. */
  lemma PrintedStarts(t: Json, depth: nat, fmt: bool)
    ensures var s := Printed(t, depth, fmt);
            s != [] && s[0] > 32 as char && s[0] != ']' && s[0] != '}' && s[0] != ','
  {
    if t.Number? {
      DigitsFold(if t.mantissa < 0 then -t.mantissa else t.mantissa);
    }
  }

  lemma SkipNothing(s: string)
    requires s != [] ==> s[0] > 32 as char
    ensures Skip(s) == s
  {
  }

  lemma {:induction false} SkipTabs(n: nat, s: string)
    ensures Skip(Tabs(n) + s) == Skip(s)
  {
    if n == 0 {
      assert Tabs(n) + s == s;
    } else {
      SkipTabs(n - 1, s);
      assert (Tabs(n) + s)[1..] == Tabs(n - 1) + s;
    }
  }

  lemma SkipNewline(s: string)
    ensures Skip("\n" + s) == Skip(s) && Skip(" " + s) == Skip(s) && Skip("\t" + s) == Skip(s)
  {
    assert ("\n" + s)[1..] == s && (" " + s)[1..] == s && ("\t" + s)[1..] == s;
  }

  /** The round trip of a value, of the elements of an array and of the members of an object. */
  lemma {:induction false} ValueRoundTrip(t: Json, depth: nat, fmt: bool, rest: string)
    requires Plain(t) && Stops(rest)
    ensures Parsed(Printed(t, depth, fmt) + rest) == Some((t, rest))
    decreases t, 0
  {
    var s := Printed(t, depth, fmt) + rest;
    match t
    case Null => WordRoundTrip("null", Null, rest);
    case False => WordRoundTrip("false", False, rest);
    case True => WordRoundTrip("true", True, rest);
    case Number(m, _) => NumberRoundTrip(m, rest); NotAWord(s);
    case String(text) => QuotedRoundTrip(text, rest); NotAWord(s);
    case Array(elems) => ArrayRoundTrip(elems, depth, fmt, rest);
    case Object(members) => ObjectRoundTrip(members, depth, fmt, rest);
  }

  lemma WordRoundTrip(word: string, t: Json, rest: string)
    requires (word == "null" && t == Null) || (word == "false" && t == False) || (word == "true" && t == True)
    ensures Parsed(word + rest) == Some((t, rest))
  {
    var s := word + rest;
    assert s[..|word|] == word && s[|word|..] == rest && s[0] == word[0];
  }

  lemma NotAWord(s: string)
    requires var c := At(s, 0); c != 'n' && c != 'f' && c != 't'
    ensures !("null" <= s) && !("false" <= s) && !("true" <= s)
  {
  }

  lemma {:induction false} ArrayRoundTrip(elems: seq<Json>, depth: nat, fmt: bool, rest: string)
    requires Plain(Array(elems)) && Stops(rest)
    ensures Parsed(Printed(Array(elems), depth, fmt) + rest) == Some((Array(elems), rest))
    decreases elems, 1
  {
    var s := Printed(Array(elems), depth, fmt) + rest;
    NotAWord(s);
    if elems == [] {
      assert s[1..] == "]" + rest;
      SkipNothing(s[1..]);
      assert s[1..][1..] == rest;
    } else {
      var inner := PrintedElems(elems, depth + 1, fmt) + "]" + rest;
      assert s[1..] == inner;
      PrintedStarts(elems[0], depth + 1, fmt);
      assert inner[0] == Printed(elems[0], depth + 1, fmt)[0];
      SkipNothing(inner);
      ElemsRoundTrip(elems, depth + 1, fmt, rest);
    }
  }

  lemma {:induction false} ElemsRoundTrip(elems: seq<Json>, depth: nat, fmt: bool, rest: string)
    requires elems != [] && Plain(Array(elems))
    ensures ParsedElems(PrintedElems(elems, depth, fmt) + "]" + rest) == Some((elems, rest))
    decreases elems, 0
  {
    hide Parsed, Printed, Plain;
    var t := elems[0];
    PlainElems(elems);
    if |elems| == 1 {
      var after := "]" + rest;
      assert PrintedElems(elems, depth, fmt) + "]" + rest == Printed(t, depth, fmt) + after;
      ValueRoundTrip(t, depth, fmt, after);
      SkipNothing(after);
      assert after[1..] == rest && elems == [t];
    } else {
      var tail := PrintedElems(elems[1..], depth, fmt) + "]" + rest;
      var after := Comma(false, fmt) + tail;
      assert PrintedElems(elems, depth, fmt) + "]" + rest == Printed(t, depth, fmt) + after;
      ValueRoundTrip(t, depth, fmt, after);
      SkipNothing(after);
      PrintedStarts(elems[1], depth, fmt);
      assert tail[0] == Printed(elems[1], depth, fmt)[0];
      SkipNothing(tail);
      SkipNewline(tail);
      assert after[1..] == if fmt then " " + tail else tail;
      ElemsRoundTrip(elems[1..], depth, fmt, rest);
      assert [t] + elems[1..] == elems;
    }
  }

  lemma PlainElems(elems: seq<Json>)
    requires elems != [] && Plain(Array(elems))
    ensures Plain(elems[0]) && Plain(Array(elems[1..]))
  {
  }

  lemma PlainMembers(members: seq<Member>)
    requires members != [] && Plain(Object(members))
    ensures '\0' !in members[0].name && Plain(members[0].value) && Plain(Object(members[1..]))
  {
  }

  lemma {:induction false} ObjectRoundTrip(members: seq<Member>, depth: nat, fmt: bool, rest: string)
    requires Plain(Object(members)) && Stops(rest)
    ensures Parsed(Printed(Object(members), depth, fmt) + rest) == Some((Object(members), rest))
    decreases members, 1
  {
    hide Parsed, Printed, ParsedMembers, PrintedMembers;
    if members == [] {
      EmptyObjectRoundTrip(depth, fmt, rest);
    } else {
      var end := (if fmt then Tabs(depth) else "") + "}" + rest;
      var inner := PrintedMembers(members, depth + 1, fmt) + end;
      MembersRoundTrip(members, depth + 1, depth, fmt, end, rest);
      BracesAround(inner, fmt);
      PrintedObject(members, depth, fmt, rest);
      ParsedObject((if fmt then "{\n" else "{") + inner);
    }
  }

  lemma PrintedObject(members: seq<Member>, depth: nat, fmt: bool, rest: string)
    requires members != []
    ensures Printed(Object(members), depth, fmt) + rest
         == (if fmt then "{\n" else "{")
          + (PrintedMembers(members, depth + 1, fmt) + ((if fmt then Tabs(depth) else "") + "}" + rest))
  {
    hide PrintedMembers, Tabs;
  }

  lemma ParsedObject(s: string)
    requires At(s, 0) == '{' && At(Skip(s[1..]), 0) == '"'
    ensures Parsed(s) ==
              match ParsedMembers(Skip(s[1..]))
              case None => None
              case Some((members, rest)) => Some((Object(members), rest))
  {
    hide ParsedMembers;
    NotAWord(s);
  }

  lemma BracesAround(inner: string, fmt: bool)
    ensures var s := (if fmt then "{\n" else "{") + inner;
            At(s, 0) == '{' && Skip(s[1..]) == Skip(inner) && !("null" <= s) && !("false" <= s) && !("true" <= s)
  {
    var s := (if fmt then "{\n" else "{") + inner;
    NotAWord(s);
    SkipNewline(inner);
    assert s[1..] == if fmt then "\n" + inner else inner;
  }

  lemma EmptyObjectRoundTrip(depth: nat, fmt: bool, rest: string)
    ensures Parsed(Printed(Object([]), depth, fmt) + rest) == Some((Object([]), rest))
  {
    hide Skip, Tabs, ReadString, ReadNumber, ParsedMembers, ParsedElems;
    var inner := (if fmt then Tabs(depth) else "") + ("}" + rest);
    SkipNothing("}" + rest);
    assert ("}" + rest)[1..] == rest;
    SkipTabs(depth, "}" + rest);
    BracesAround(inner, fmt);
    assert inner == if fmt then Tabs(depth) + ("}" + rest) else "}" + rest;
    assert Printed(Object([]), depth, fmt) + rest == (if fmt then "{\n" else "{") + inner;
  }

  lemma PrintedMember(members: seq<Member>, depth: nat, fmt: bool, end: string)
    requires members != []
    ensures var m, last := members[0], |members| == 1;
            var tail := if last then end else PrintedMembers(members[1..], depth, fmt) + end;
            PrintedMembers(members, depth, fmt) + end ==
              (if fmt then Tabs(depth) else "") +
              (Quoted(m.name) + (if fmt then ":\t" else ":") +
               (Printed(m.value, depth, fmt) + (MemberEnd(last, fmt) + tail)))
  {
    hide Printed, Quoted, Tabs;
    var m, last := members[0], |members| == 1;
    var key, value, after := Key(m.name, depth, fmt), Printed(m.value, depth, fmt), MemberEnd(last, fmt);
    var more := if last then "" else PrintedMembers(members[1..], depth, fmt);
    Regroup(key + value + after, more, end);
    Regroup(key + value, after, more + end);
    Regroup(key, value, after + (more + end));
    Regroup(if fmt then Tabs(depth) else "", Quoted(m.name) + (if fmt then ":\t" else ":"),
            value + (after + (more + end)));
    Regroup(if fmt then Tabs(depth) else "", Quoted(m.name), if fmt then ":\t" else ":");
    assert last ==> more + end == end;
  }

  lemma Regroup(a: string, b: string, c: string)
    ensures (a + b) + c == a + (b + c)
  {
  }

  lemma KeyRoundTrip(name: string, value: string, fmt: bool)
    requires '\0' !in name && value != [] && value[0] > 32 as char
    ensures var key := Quoted(name) + (if fmt then ":\t" else ":") + value;
            At(key, 0) == '"' && ParsedKey(key) == Some((name, value))
  {
    hide ReadString;
    var after := (if fmt then ":\t" else ":") + value;
    assert Quoted(name) + (if fmt then ":\t" else ":") + value == Quoted(name) + after;
    QuotedRoundTrip(name, after);
    SkipNothing(after);
    SkipNothing(value);
    SkipNewline(value);
    assert after[1..] == if fmt then "\t" + value else value;
  }

  lemma AfterMember(last: bool, fmt: bool, tail: string, outer: nat, rest: string)
    requires last ==> tail == (if fmt then Tabs(outer) else "") + "}" + rest
    ensures var after := MemberEnd(last, fmt) + tail;
            var next := Skip(after);
            && (!last || fmt ==> after != [])
            && Stops(after)
            && (if last then At(next, 0) == '}' && next[1..] == rest
                else At(next, 0) == ',' && Skip(next[1..]) == Skip(tail))
  {
    hide Skip, Tabs;
    var after := MemberEnd(last, fmt) + tail;
    SkipNewline(tail);
    if last {
      SkipTabs(outer, "}" + rest);
      SkipNothing("}" + rest);
      assert ("}" + rest)[1..] == rest;
      if fmt {
        assert tail == Tabs(outer) + ("}" + rest);
        assert after == "\n" + tail;
      } else {
        assert after == "}" + rest;
      }
    } else {
      SkipNothing(after);
      assert after[1..] == if fmt then "\n" + tail else tail;
    }
  }

  /** After the spaces before it, the first member. */
  lemma {:induction false} MembersRoundTrip(members: seq<Member>, depth: nat, outer: nat, fmt: bool, end: string,
                                            rest: string)
    requires members != [] && Plain(Object(members))
    requires end == (if fmt then Tabs(outer) else "") + "}" + rest
    ensures var s := Skip(PrintedMembers(members, depth, fmt) + end);
            At(s, 0) == '"' && ParsedMembers(s) == Some((members, rest))
    decreases members, 0
  {
    hide Parsed, Printed, PrintedMembers, Plain, ReadString, Quoted;
    PlainMembers(members);
    var m, last := members[0], |members| == 1;
    var tail := if last then end else PrintedMembers(members[1..], depth, fmt) + end;
    var after := MemberEnd(last, fmt) + tail;
    var value := Printed(m.value, depth, fmt) + after;
    var key := Quoted(m.name) + (if fmt then ":\t" else ":") + value;
    PrintedMember(members, depth, fmt, end);
    SkipTabs(depth, key);
    PrintedStarts(m.value, depth, fmt);
    assert value[0] == Printed(m.value, depth, fmt)[0];
    KeyRoundTrip(m.name, value, fmt);
    SkipNothing(key);
    assert Skip(PrintedMembers(members, depth, fmt) + end) == key by {
      assert "" + key == key;
    }
    AfterMember(last, fmt, tail, outer, rest);
    ValueRoundTrip(m.value, depth, fmt, after);
    assert Member(m.name, m.value) == m && [m] + members[1..] == members;
    if last {
      assert [m] == members;
      assert ParsedMembers(key) == Some(([m], rest));
    } else {
      MembersRoundTrip(members[1..], depth, outer, fmt, end, rest);
      assert ParsedMembers(key) == Some(([m] + members[1..], rest));
    }
  }

  // ---------- What is printed ----------

  /** No control character is printed inside a literal. */
  lemma {:induction false} NoControls(text: string)
    requires '\0' !in text
    ensures forall c <- EscapedAll(text) :: c as int >= 32
    decreases text
  {
    hide Escaped;
    if text != [] {
      EscapedVisible(text[0]);
      NoControls(text[1..]);
    }
  }

  lemma EscapedVisible(c: char)
    ensures forall d <- Escaped(c) :: d as int >= 32
  {
  }
}
