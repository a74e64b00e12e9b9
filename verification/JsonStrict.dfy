/** What src/cjson/cJSON.c accepts beyond section 7 of RFC 8259: a string literal without its closing quote, where the
    text ends. The strict parser wants the quote and is otherwise the same. */
module JsonStrict {
  import opened Basics
  import opened JsonText
  import opened JsonRoundTrip
  import opened JsonParser

  // ---------- Literals ----------

  /** The rest of a string literal with its closing quote. */
  function StrictString(s: string): (r: Option<(string, string)>)
    ensures r.Some? ==> |r.value.1| < |s|
  {
    if s == [] then None
    else if s[0] == '"' then Some(([], s[1..]))
    else
      match ReadUnit(s)
      case None => None
      case Some(u) => Prepended(u.text, StrictString(s[u.length..]))
  }

  /** The first pass over an accepted literal runs to the end of the text. */
  predicate Unclosed(s: string) {
    ReadString(s).Some? && Span(s).Some? && Span(s).value.length == |s|
  }

  /** A literal that is accepted ends where the first pass says: behind the quote found, or with the text. */
  lemma {:induction false} LiteralEnd(s: string)
    requires ReadString(s).Some?
    ensures Span(s).Some?
    ensures ReadString(s).value.1 == if Span(s).value.length < |s| then s[Span(s).value.length + 1..] else []
    decreases |s|
  {
    hide ReadUnit, Span;
    SpanTurn(Farther(Span(s), 0, 0), s, 0, 0);
    if s != [] && s[0] != '"' {
      var u := ReadUnit(s).value;
      LiteralEnd(s[u.length..]);
      SpanUnit(s);
    }
  }

  /** A literal without its quote is the whole rest of the text, and exactly such a literal is accepted only by the
      code. */
  lemma {:induction false} StrictLiteral(s: string)
    ensures StrictString(s) == if Unclosed(s) then None else ReadString(s)
    ensures Unclosed(s) ==> ReadString(s).Some? && ReadString(s).value.1 == []
    decreases |s|
  {
    hide ReadUnit, Span;
    SpanTurn(Farther(Span(s), 0, 0), s, 0, 0);
    if s != [] && s[0] != '"' && ReadUnit(s).Some? {
      var u := ReadUnit(s).value;
      StrictLiteral(s[u.length..]);
      SpanUnit(s);
    }
  }

  // ---------- Values ----------

  function StrictValue(s: string): (r: Option<(Json, string)>)
    ensures r.Some? ==> |r.value.1| < |s|
    decreases |s|, 0
  {
    if "null" <= s || "false" <= s || "true" <= s then Parsed(s)
    else if At(s, 0) == '"' then
      match StrictString(s[1..])
      case None => None
      case Some((text, rest)) => Some((String(text), rest))
    else if At(s, 0) == '[' then
      var s1 := Skip(s[1..]);
      if At(s1, 0) == ']' then Some((Array([]), s1[1..]))
      else
        match StrictElems(s1)
        case None => None
        case Some((elems, rest)) => Some((Array(elems), rest))
    else if At(s, 0) == '{' then
      var s1 := Skip(s[1..]);
      if At(s1, 0) == '}' then Some((Object([]), s1[1..]))
      else
        match StrictMembers(s1)
        case None => None
        case Some((members, rest)) => Some((Object(members), rest))
    else Parsed(s)
  }

  function StrictElems(s: string): (r: Option<(seq<Json>, string)>)
    ensures r.Some? ==> |r.value.1| < |s|
    decreases |s|, 1
  {
    match StrictValue(s)
    case None => None
    case Some((t, rest)) =>
      var rest1 := Skip(rest);
      if At(rest1, 0) == ',' then
        match StrictElems(Skip(rest1[1..]))
        case None => None
        case Some((elems, last)) => Some(([t] + elems, last))
      else if At(rest1, 0) == ']' then Some(([t], rest1[1..]))
      else None
  }

  function StrictKey(s: string): (r: Option<(string, string)>)
    ensures r.Some? ==> |r.value.1| < |s|
  {
    if At(s, 0) != '"' then None
    else
      match StrictString(s[1..])
      case None => None
      case Some((name, rest)) =>
        var rest1 := Skip(rest);
        if At(rest1, 0) == ':' then Some((name, Skip(rest1[1..]))) else None
  }

  function StrictMembers(s: string): (r: Option<(seq<Member>, string)>)
    ensures r.Some? ==> |r.value.1| < |s|
    decreases |s|, 1
  {
    match StrictKey(s)
    case None => None
    case Some((name, s1)) =>
      match StrictValue(s1)
      case None => None
      case Some((t, rest)) =>
        var rest1 := Skip(rest);
        if At(rest1, 0) == ',' then
          match StrictMembers(Skip(rest1[1..]))
          case None => None
          case Some((members, last)) => Some(([Member(name, t)] + members, last))
        else if At(rest1, 0) == '}' then Some(([Member(name, t)], rest1[1..]))
        else None
  }

  /** The text is a string literal without its closing quote. */
  predicate OpenLiteral(s: string) {
    At(s, 0) == '"' && Unclosed(s[1..])
  }

  /** The code accepts what the strict parser accepts, with the same value and rest, and beyond that exactly the texts
      that are an unclosed literal as a whole: inside an array or object the bracket is then missing. */
  lemma {:induction false} ValueExact(s: string)
    ensures if OpenLiteral(s) then
              StrictValue(s).None? && Parsed(s).Some? && Parsed(s).value.1 == []
            else
              StrictValue(s) == Parsed(s)
    decreases |s|, 0
  {
    hide Unclosed, ReadString, StrictString, ReadNumber, Skip;
    if At(s, 0) == '"' {
      NotAWord(s);
      StrictLiteral(s[1..]);
    } else if At(s, 0) == '[' {
      ElemsExact(Skip(s[1..]));
    } else if At(s, 0) == '{' {
      MembersExact(Skip(s[1..]));
    }
  }

  lemma NothingLeft()
    ensures At(Skip([]), 0) == '\0'
  {
  }

  lemma {:induction false} ElemsExact(s: string)
    ensures StrictElems(s) == ParsedElems(s)
    decreases |s|, 1
  {
    hide OpenLiteral, Parsed, StrictValue, Skip;
    NothingLeft();
    ValueExact(s);
    if !OpenLiteral(s) && Parsed(s).Some? {
      var rest1 := Skip(Parsed(s).value.1);
      if At(rest1, 0) == ',' {
        ElemsExact(Skip(rest1[1..]));
      }
    }
  }

  lemma KeyExact(s: string)
    ensures StrictKey(s) == ParsedKey(s)
  {
    hide Unclosed, ReadString, StrictString, Skip;
    NothingLeft();
    if At(s, 0) == '"' {
      StrictLiteral(s[1..]);
    }
  }

  lemma {:induction false} MembersExact(s: string)
    ensures StrictMembers(s) == ParsedMembers(s)
    decreases |s|, 1
  {
    hide OpenLiteral, Parsed, StrictValue, Skip, ParsedKey, StrictKey;
    NothingLeft();
    KeyExact(s);
    if ParsedKey(s).Some? {
      var s1 := ParsedKey(s).value.1;
      ValueExact(s1);
      if !OpenLiteral(s1) && Parsed(s1).Some? {
        var rest1 := Skip(Parsed(s1).value.1);
        if At(rest1, 0) == ',' {
          MembersExact(Skip(rest1[1..]));
        }
      }
    }
  }

  /** An instance: a quote and a letter are a whole text for the code. */
  lemma OpenInstance()
    ensures Parsed("\"a") == Some((String("a"), [])) && StrictValue("\"a").None? && OpenLiteral("\"a")
  {
    assert "\"a"[1..] == "a" && "a"[1..] == [] && "a"[..1] == "a" && "a" + [] == "a";
    assert ReadString([]) == Some(([], []));
    assert ReadUnit("a") == Some(Unit("a", 1));
    assert ReadString("a") == Some(("a", []));
    assert Span("a") == Some(Extent(1, 1));
    ValueExact("\"a");
  }
}
