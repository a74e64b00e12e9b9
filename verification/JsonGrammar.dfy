/** The texts of JSON values as src/cjson/cJSON.c accepts them, written down with all blanks, numbers and escapes,
    and the values that they stand for. What is written is read, and apart from literals without a closing quote
    nothing else is. */
module JsonGrammar {
  import opened Basics
  import opened JsonText
  import opened JsonRoundTrip
  import opened JsonStrict
  import opened JsonNumerals
  import opened JsonLiterals
  import opened JsonItem
  import opened JsonParser

  datatype Source =
    | Word(value: Json)
    | Numeric(n: Numeral)
    | Literal(us: seq<Character>)
    | List(inner: string, items: seq<Item>)
    | Dict(inner: string, entries: seq<Entry>)

  /** An element of an array with the blanks around it. */
  datatype Item = Item(before: string, source: Source, after: string)

  /** A member of an object with the blanks around its parts. */
  datatype Entry = Entry(before: string, name: seq<Character>, afterName: string, beforeValue: string, source: Source,
                         after: string)

  /** The code skips every control character, RFC 8259 only four of them. */
  predicate Blank(s: string) {
    forall i :: 0 <= i < |s| ==> 1 <= s[i] as int <= 32
  }

  /** Blanks inside empty brackets only; otherwise they belong to the parts. */
  predicate Fits(src: Source) {
    match src
    case Word(v) => v == Null || v == False || v == True
    case Numeric(n) => NumeralFits(n)
    case Literal(us) => LiteralFits(us)
    case List(inner, items) =>
      Blank(inner) && (items != [] ==> inner == []) && forall e <- items :: ItemFits(e)
    case Dict(inner, entries) =>
      Blank(inner) && (entries != [] ==> inner == []) && forall e <- entries :: EntryFits(e)
  }

  predicate ItemFits(e: Item) {
    Blank(e.before) && Blank(e.after) && Fits(e.source)
  }

  predicate EntryFits(e: Entry) {
    && Blank(e.before) && LiteralFits(e.name) && Blank(e.afterName) && Blank(e.beforeValue) && Fits(e.source)
    && Blank(e.after)
  }

  function WordText(v: Json): string {
    if v == Null then "null" else if v == False then "false" else "true"
  }

  function Text(src: Source): string {
    match src
    case Word(v) => WordText(v)
    case Numeric(n) => NumeralText(n)
    case Literal(us) => QuotedLiteral(us)
    case List(inner, items) => "[" + (if items == [] then inner + "]" else ItemsText(items))
    case Dict(inner, entries) => "{" + (if entries == [] then inner + "}" else EntriesText(entries))
  }

  /** Elements with commas between them, and the closing bracket. */
  function ItemsText(items: seq<Item>): string
    requires items != []
  {
    var e := items[0];
    e.before + (Text(e.source) + (e.after + (if |items| == 1 then "]" else "," + ItemsText(items[1..]))))
  }

  function EntriesText(entries: seq<Entry>): string
    requires entries != []
  {
    var e := entries[0];
    e.before + (QuotedLiteral(e.name) + (e.afterName + (":" + (e.beforeValue + (Text(e.source) + (e.after +
    (if |entries| == 1 then "}" else "," + EntriesText(entries[1..]))))))))
  }

  function Value(src: Source): Json
    requires Fits(src)
  {
    match src
    case Word(v) => v
    case Numeric(n) => NumeralValue(n)
    case Literal(us) => String(LiteralValue(us))
    case List(_, items) => Array(ItemValues(items))
    case Dict(_, entries) => Object(EntryValues(entries))
  }

  lemma FirstItem(items: seq<Item>)
    requires items != [] && forall e <- items :: ItemFits(e)
    ensures ItemFits(items[0]) && forall e <- items[1..] :: ItemFits(e)
  {
    hide ItemFits;
    assert items[0] in items && forall e <- items[1..] :: e in items;
  }

  lemma FirstEntry(entries: seq<Entry>)
    requires entries != [] && forall e <- entries :: EntryFits(e)
    ensures EntryFits(entries[0]) && forall e <- entries[1..] :: EntryFits(e)
  {
    hide EntryFits;
    assert entries[0] in entries && forall e <- entries[1..] :: e in entries;
  }

  function ItemValues(items: seq<Item>): seq<Json>
    requires forall e <- items :: ItemFits(e)
  {
    if items == [] then []
    else
      FirstItem(items);
      [Value(items[0].source)] + ItemValues(items[1..])
  }

  function EntryValues(entries: seq<Entry>): seq<Member>
    requires forall e <- entries :: EntryFits(e)
  {
    if entries == [] then []
    else
      FirstEntry(entries);
      [Member(LiteralValue(entries[0].name), Value(entries[0].source))] + EntryValues(entries[1..])
  }

  // ---------- Blanks ----------

  lemma {:induction false} SkipBlank(b: string, s: string)
    requires Blank(b)
    ensures Skip(b + s) == Skip(s)
    decreases |b|
  {
    if b == [] {
      assert b + s == s;
    } else {
      assert (b + s)[1..] == b[1..] + s;
      SkipBlank(b[1..], s);
    }
  }

  /** What is skipped are blanks. */
  lemma {:induction false} SkipParsed(s: string) returns (b: string)
    ensures Blank(b) && s == b + Skip(s)
    decreases |s|
  {
    hide Blank;
    b := [];
    BlankFirst(' ', []);
    if s != [] && s[0] != '\0' && s[0] <= 32 as char {
      var c := SkipParsed(s[1..]);
      b := [s[0]] + c;
      BlankFirst(s[0], c);
      assert s == [s[0]] + s[1..];
      Assoc([s[0]], c, Skip(s));
    }
  }

  lemma BlankFirst(c: char, b: string)
    ensures Blank([])
    ensures c != '\0' && c <= 32 as char && Blank(b) ==> Blank([c] + b)
  {
  }

  lemma Assoc(a: string, b: string, c: string)
    ensures (a + b) + c == a + (b + c)
  {
  }

  /** What stands behind a value in brackets ends a number. */
  lemma BlankEnds(b: string, s: string)
    requires Blank(b) && s != [] && s[0] in ",]}"
    ensures Ends(b + s) && Skip(b + s) == s
  {
    SkipBlank(b, s);
    SkipNothing(s);
    if b == [] {
      assert b + s == s;
    }
  }

  /** A value begins with what is no blank, comma or closing bracket. */
  lemma TextStarts(src: Source)
    requires Fits(src)
    ensures var s := Text(src); s != [] && s[0] > 32 as char && s[0] != ']' && s[0] != '}' && s[0] != ','
  {
    if src.Numeric? {
      NumeralStarts(src.n);
    }
  }

  lemma NumeralStarts(n: Numeral)
    requires NumeralFits(n)
    ensures var s := NumeralText(n); s != [] && (s[0] == '-' || IsDigit(s[0]))
  {
    if n.negative {
    } else {
      assert NumeralText(n) == n.whole + (FractionText(n.fraction) + ExponentText(n.exponent));
      assert NumeralText(n)[0] == n.whole[0];
    }
  }

  // ---------- What is written is read ----------

  lemma {:induction false} ValueRead(src: Source, rest: string)
    requires Fits(src) && Ends(rest)
    ensures Parsed(Text(src) + rest) == Some((Value(src), rest))
    decreases src, 0
  {
    hide NumeralText, NumeralValue, NumeralFits, LiteralFits, ReadNumber, ReadString, QuotedLiteral, Ends;
    var s := Text(src) + rest;
    match src
    case Word(v) => WordRoundTrip(WordText(v), v, rest);
    case Numeric(n) => NumeralRead(n, rest); NotAWord(s);
    case Literal(us) => QuotedRead(us, rest); NotAWord(s);
    case List(inner, items) => ListRead(inner, items, rest);
    case Dict(inner, entries) => DictRead(inner, entries, rest);
  }

  lemma FirstChar(c: char, s: string, rest: string)
    ensures ([c] + s) + rest == [c] + (s + rest) && ([c] + s + rest)[1..] == s + rest
  {
    assert ([c] + s + rest) == [c] + (s + rest);
  }

  lemma {:induction false} ListRead(inner: string, items: seq<Item>, rest: string)
    requires Fits(List(inner, items))
    ensures Parsed(Text(List(inner, items)) + rest) == Some((Value(List(inner, items)), rest))
    decreases items, 2
  {
    hide Parsed, ParsedElems, ItemsText;
    var s := Text(List(inner, items)) + rest;
    if items == [] {
      EmptyBrackets('[', inner, "]", rest);
      ParsedList(s, "]" + rest);
    } else {
      FirstChar('[', ItemsText(items), rest);
      var s1 := ItemsRead(items, rest);
      ParsedList(s, s1);
    }
  }

  lemma ParsedList(s: string, s1: string)
    requires At(s, 0) == '[' && Skip(s[1..]) == s1
    ensures Parsed(s) ==
              if At(s1, 0) == ']' then Some((Array([]), s1[1..]))
              else
                match ParsedElems(s1)
                case None => None
                case Some((elems, rest)) => Some((Array(elems), rest))
  {
    hide ParsedElems, Skip;
    NotAWord(s);
  }

  lemma ParsedDict(s: string, s1: string)
    requires At(s, 0) == '{' && Skip(s[1..]) == s1
    ensures Parsed(s) ==
              if At(s1, 0) == '}' then Some((Object([]), s1[1..]))
              else
                match ParsedMembers(s1)
                case None => None
                case Some((members, rest)) => Some((Object(members), rest))
  {
    hide ParsedMembers, Skip;
    NotAWord(s);
  }

  lemma EmptyBrackets(c: char, inner: string, close: string, rest: string)
    requires Blank(inner) && |close| == 1 && close[0] > 32 as char
    ensures var s := ([c] + (inner + close)) + rest;
            s[0] == c && Skip(s[1..]) == close + rest && (close + rest)[0] == close[0] && (close + rest)[1..] == rest
  {
    FirstChar(c, inner + close, rest);
    Assoc(inner, close, rest);
    SkipBlank(inner, close + rest);
    SkipNothing(close + rest);
  }

  /** What stands behind an element. */
  function AfterItem(items: seq<Item>, rest: string): string
    requires items != []
  {
    if |items| == 1 then "]" + rest else "," + (ItemsText(items[1..]) + rest)
  }

  lemma ItemsJoin(items: seq<Item>, rest: string)
    requires items != []
    ensures var e := items[0];
            ItemsText(items) + rest == e.before + (Text(e.source) + (e.after + AfterItem(items, rest)))
  {
    hide Text;
    var e := items[0];
    if |items| == 1 {
      FourJoin(e.before, Text(e.source), e.after, "]", rest);
    } else {
      FourJoin(e.before, Text(e.source), e.after, "," + ItemsText(items[1..]), rest);
      Assoc(",", ItemsText(items[1..]), rest);
    }
  }

  lemma FourJoin(a: string, b: string, c: string, d: string, rest: string)
    ensures (a + (b + (c + d))) + rest == a + (b + (c + (d + rest)))
  {
  }

  lemma {:induction false} ItemsRead(items: seq<Item>, rest: string) returns (s1: string)
    requires items != [] && forall e <- items :: ItemFits(e)
    ensures s1 == Skip(ItemsText(items) + rest) && At(s1, 0) != ']'
    ensures ParsedElems(s1) == Some((ItemValues(items), rest))
    decreases items, 1
  {
    hide Parsed, Text, Value, Fits, Skip, ItemsText, Ends;
    var e, last := items[0], AfterItem(items, rest);
    FirstItem(items);
    var after := e.after + last;
    s1 := Text(e.source) + after;
    ItemsJoin(items, rest);
    SkipBlank(e.before, s1);
    TextStarts(e.source);
    SkipNothing(s1);
    BlankEnds(e.after, last);
    ValueRead(e.source, after);
    if |items| == 1 {
      assert last[1..] == rest && items[1..] == [];
      assert [Value(e.source)] + [] == [Value(e.source)];
    } else {
      assert last[1..] == ItemsText(items[1..]) + rest;
      var s2 := ItemsRead(items[1..], rest);
    }
  }

  lemma {:induction false} DictRead(inner: string, entries: seq<Entry>, rest: string)
    requires Fits(Dict(inner, entries))
    ensures Parsed(Text(Dict(inner, entries)) + rest) == Some((Value(Dict(inner, entries)), rest))
    decreases entries, 2
  {
    hide Parsed, ParsedMembers, EntriesText;
    var s := Text(Dict(inner, entries)) + rest;
    if entries == [] {
      EmptyBrackets('{', inner, "}", rest);
      ParsedDict(s, "}" + rest);
    } else {
      FirstChar('{', EntriesText(entries), rest);
      var s1 := EntriesRead(entries, rest);
      ParsedDict(s, s1);
    }
  }

  function AfterEntry(entries: seq<Entry>, rest: string): string
    requires entries != []
  {
    if |entries| == 1 then "}" + rest else "," + (EntriesText(entries[1..]) + rest)
  }

  lemma EntriesJoin(entries: seq<Entry>, rest: string)
    requires entries != []
    ensures var e := entries[0];
            EntriesText(entries) + rest ==
            e.before + (QuotedLiteral(e.name) + (e.afterName + (":" + (e.beforeValue + (Text(e.source) + (e.after +
            AfterEntry(entries, rest)))))))
  {
    hide Text, QuotedLiteral;
    var e := entries[0];
    var last := if |entries| == 1 then "}" else "," + EntriesText(entries[1..]);
    FourJoin(e.before, QuotedLiteral(e.name), e.afterName,
             ":" + (e.beforeValue + (Text(e.source) + (e.after + last))), rest);
    FourJoin(":", e.beforeValue, Text(e.source), e.after + last, rest);
    Assoc(e.after, last, rest);
    if |entries| > 1 {
      Assoc(",", EntriesText(entries[1..]), rest);
    }
  }

  /** A name, a colon and the blanks around it. */
  lemma KeyRead(e: Entry, more: string)
    requires EntryFits(e) && more != [] && more[0] > 32 as char
    ensures var s := QuotedLiteral(e.name) + (e.afterName + (":" + (e.beforeValue + more)));
            At(s, 0) == '"' && ParsedKey(s) == Some((LiteralValue(e.name), more))
  {
    hide ReadString, LiteralFits, QuotedLiteral, Skip, Fits;
    var colon := ":" + (e.beforeValue + more);
    QuotedRead(e.name, e.afterName + colon);
    SkipBlank(e.afterName, colon);
    SkipNothing(colon);
    assert colon[1..] == e.beforeValue + more;
    SkipBlank(e.beforeValue, more);
    SkipNothing(more);
  }

  lemma {:induction false} EntriesRead(entries: seq<Entry>, rest: string) returns (s1: string)
    requires entries != [] && forall e <- entries :: EntryFits(e)
    ensures s1 == Skip(EntriesText(entries) + rest) && At(s1, 0) == '"'
    ensures ParsedMembers(s1) == Some((EntryValues(entries), rest))
    decreases entries, 1
  {
    hide Parsed, Text, Value, Fits, Skip, EntriesText, Ends, ParsedKey, QuotedLiteral, LiteralFits;
    var e, last := entries[0], AfterEntry(entries, rest);
    FirstEntry(entries);
    var after := e.after + last;
    var more := Text(e.source) + after;
    s1 := QuotedLiteral(e.name) + (e.afterName + (":" + (e.beforeValue + more)));
    EntriesJoin(entries, rest);
    SkipBlank(e.before, s1);
    TextStarts(e.source);
    KeyRead(e, more);
    SkipNothing(s1);
    BlankEnds(e.after, last);
    ValueRead(e.source, after);
    if |entries| == 1 {
      assert last[1..] == rest && entries[1..] == [];
      var m := Member(LiteralValue(e.name), Value(e.source));
      assert [m] + [] == [m];
    } else {
      assert last[1..] == EntriesText(entries[1..]) + rest;
      var s2 := EntriesRead(entries[1..], rest);
    }
  }

  // ---------- What is read is written so ----------

  lemma WordParsed(s: string) returns (v: Json)
    requires "null" <= s || "false" <= s || "true" <= s
    ensures Fits(Word(v)) && Parsed(s).Some? && Parsed(s).value.0 == v && s == WordText(v) + Parsed(s).value.1
  {
    v := if "null" <= s then Null else if "false" <= s then False else True;
    var rest := s[|WordText(v)|..];
    assert s == WordText(v) + rest;
    WordRoundTrip(WordText(v), v, rest);
  }

  /** Whatever the strict parser reads is the text of what it reads. */
  lemma {:induction false} ValueParsed(s: string) returns (src: Source)
    requires StrictValue(s).Some?
    ensures Fits(src) && s == Text(src) + StrictValue(s).value.1 && StrictValue(s).value.0 == Value(src)
    decreases |s|, 2
  {
    hide NumeralText, NumeralValue, NumeralFits, LiteralFits, ReadNumber, StrictString, QuotedLiteral, StrictElems;
    hide StrictMembers, Skip;
    if "null" <= s || "false" <= s || "true" <= s {
      var v := WordParsed(s);
      src := Word(v);
    } else if At(s, 0) == '"' {
      var us := QuotedParsed(s);
      src := Literal(us);
    } else if At(s, 0) == '[' {
      src := ListParsed(s);
    } else if At(s, 0) == '{' {
      src := DictParsed(s);
    } else {
      var n := NumeralParsed(s);
      src := Numeric(n);
    }
  }

  lemma {:induction false} ListParsed(s: string) returns (src: Source)
    requires StrictValue(s).Some? && At(s, 0) == '['
    ensures Fits(src) && s == Text(src) + StrictValue(s).value.1 && StrictValue(s).value.0 == Value(src)
    decreases |s|, 1
  {
    hide StrictElems, Skip, ItemsText;
    assert s == "[" + s[1..];
    var b := SkipParsed(s[1..]);
    var s1 := Skip(s[1..]);
    if At(s1, 0) == ']' {
      src := List(b, []);
      assert s1 == "]" + s1[1..];
      Assoc(b, "]", s1[1..]);
      Assoc("[", b + "]", s1[1..]);
    } else {
      var items := ItemsParsed(b, s1);
      src := List([], items);
      Assoc("[", ItemsText(items), StrictElems(s1).value.1);
    }
  }

  /** Elements behind blanks b. */
  lemma {:induction false} ItemsParsed(b: string, s: string) returns (items: seq<Item>)
    requires Blank(b) && StrictElems(s).Some?
    ensures items != [] && (forall e <- items :: ItemFits(e)) && b + s == ItemsText(items) + StrictElems(s).value.1
    ensures StrictElems(s).value.0 == ItemValues(items)
    decreases |s|, 3
  {
    hide StrictValue, Text, Value, Fits, Skip, ItemsText, Blank;
    var src := ValueParsed(s);
    var rest := StrictValue(s).value.1;
    var after := SkipParsed(rest);
    var rest1 := Skip(rest);
    var e := Item(b, src, after);
    if At(rest1, 0) == ',' {
      var c := SkipParsed(rest1[1..]);
      var more := ItemsParsed(c, Skip(rest1[1..]));
      items := [e] + more;
      assert items[1..] == more;
      assert rest1 == "," + rest1[1..];
    } else {
      items := [e];
      assert rest1 == "]" + rest1[1..];
      assert [Value(src)] + [] == [Value(src)];
    }
    ItemsJoin(items, StrictElems(s).value.1);
  }

  lemma {:induction false} DictParsed(s: string) returns (src: Source)
    requires StrictValue(s).Some? && At(s, 0) == '{'
    ensures Fits(src) && s == Text(src) + StrictValue(s).value.1 && StrictValue(s).value.0 == Value(src)
    decreases |s|, 1
  {
    hide StrictMembers, Skip, EntriesText;
    assert s == "{" + s[1..];
    var b := SkipParsed(s[1..]);
    var s1 := Skip(s[1..]);
    if At(s1, 0) == '}' {
      src := Dict(b, []);
      assert s1 == "}" + s1[1..];
      Assoc(b, "}", s1[1..]);
      Assoc("{", b + "}", s1[1..]);
    } else {
      var entries := EntriesParsed(b, s1);
      src := Dict([], entries);
      Assoc("{", EntriesText(entries), StrictMembers(s1).value.1);
    }
  }

  lemma KeyParsed(s: string) returns (us: seq<Character>, afterName: string, beforeValue: string)
    requires StrictKey(s).Some?
    ensures LiteralFits(us) && Blank(afterName) && Blank(beforeValue) && StrictKey(s).value.0 == LiteralValue(us)
    ensures s == QuotedLiteral(us) + (afterName + (":" + (beforeValue + StrictKey(s).value.1)))
  {
    hide StrictString, Skip, Blank, LiteralFits, QuotedLiteral;
    us := QuotedParsed(s);
    var rest := StrictString(s[1..]).value.1;
    afterName := SkipParsed(rest);
    var rest1 := Skip(rest);
    beforeValue := SkipParsed(rest1[1..]);
    assert rest1 == ":" + rest1[1..];
  }

  lemma {:induction false} EntriesParsed(b: string, s: string) returns (entries: seq<Entry>)
    requires Blank(b) && StrictMembers(s).Some?
    ensures entries != [] && (forall e <- entries :: EntryFits(e))
    ensures b + s == EntriesText(entries) + StrictMembers(s).value.1
    ensures StrictMembers(s).value.0 == EntryValues(entries)
    decreases |s|, 3
  {
    hide StrictValue, StrictKey, Text, Value, Fits, Skip, EntriesText, Blank, LiteralFits, LiteralValue, QuotedLiteral;
    var us, afterName, beforeValue := KeyParsed(s);
    var s1 := StrictKey(s).value.1;
    var src := ValueParsed(s1);
    var rest := StrictValue(s1).value.1;
    var after := SkipParsed(rest);
    var rest1 := Skip(rest);
    var e := Entry(b, us, afterName, beforeValue, src, after);
    if At(rest1, 0) == ',' {
      var c := SkipParsed(rest1[1..]);
      var more := EntriesParsed(c, Skip(rest1[1..]));
      entries := [e] + more;
      assert entries[1..] == more;
      assert rest1 == "," + rest1[1..];
    } else {
      entries := [e];
      assert rest1 == "}" + rest1[1..];
    }
    EntriesJoin(entries, StrictMembers(s).value.1);
  }

  /** The code reads a value at the front of a text, with this rest, only where the text of the value stands, if it
      is not a literal without a closing quote. */
  lemma OnlyTexts(s: string) returns (src: Source)
    requires Parsed(s).Some? && !OpenLiteral(s)
    ensures Fits(src) && s == Text(src) + Parsed(s).value.1 && Parsed(s).value.0 == Value(src)
  {
    hide Parsed, StrictValue, OpenLiteral, Text, Value, Fits;
    ValueExact(s);
    src := ValueParsed(s);
  }

  // ---------- Whole texts ----------

  /** The text is that of a source for the value t, with blanks around it. */
  ghost predicate Stands(text: string, t: Json) {
    exists before, src, after :: StandsSo(text, before, src, after) && t == Value(src)
  }

  predicate StandsSo(text: string, before: string, src: Source, after: string) {
    Blank(before) && Fits(src) && Blank(after) && text == before + (Text(src) + after)
  }

  predicate ReadsWhole(text: string) {
    var r := Parsed(Skip(text)); r.Some? && Skip(r.value.1) == []
  }

  lemma BlankIsSkipped(b: string)
    requires Blank(b)
    ensures Skip(b) == [] && Ends(b)
  {
    SkipBlank(b, []);
    assert b + [] == b;
  }

  /** A text is read as a value with nothing but blanks around it exactly if it is the text of a source for the
      value. */
  lemma TextExact(text: string, t: Json)
    requires !OpenLiteral(Skip(text))
    ensures ReadsWhole(text) && Parsed(Skip(text)).value.0 == t <==> Stands(text, t)
  {
    hide Parsed, Skip, Blank, Fits, OpenLiteral, Text, Value, Ends;
    if ReadsWhole(text) && Parsed(Skip(text)).value.0 == t {
      var before := SkipParsed(text);
      var src := OnlyTexts(Skip(text));
      var after := Parsed(Skip(text)).value.1;
      var b := SkipParsed(after);
      assert b + [] == b;
      assert StandsSo(text, before, src, after);
    }
    if Stands(text, t) {
      var before, src, after :| StandsSo(text, before, src, after) && t == Value(src);
      SkipBlank(before, Text(src) + after);
      TextStarts(src);
      SkipNothing(Text(src) + after);
      BlankIsSkipped(after);
      ValueRead(src, after);
    }
  }

  /** cJSON_ParseWithOpts, asked for a terminator behind the value, succeeds exactly on the texts of sources, with
      nodes for their value, if the text is not a literal without a closing quote. */
  method ParseText(text: string) returns (root: Item?, ghost t: Json)
    ensures root != null ==> fresh(root) && root.Is(t)
    ensures !OpenLiteral(Skip(text)) && root != null ==> Stands(text, t)
    ensures !OpenLiteral(Skip(text)) && (exists v :: Stands(text, v)) ==> root != null
  {
    hide Parsed, Stands, OpenLiteral, Skip;
    var end;
    root, end, t := ParseWithOpts(text, true);
    if !OpenLiteral(Skip(text)) {
      TextExact(text, t);
      if v :| Stands(text, v) {
        TextExact(text, v);
      }
    }
  }
}
