/** The parser of src/cjson/cJSON.c, walking over the text with an index and building linked nodes; each function is
    proved to compute the one of JsonText, and the nodes to stand for the value. */
module JsonParser {
  import opened Basics
  import opened JsonText
  import opened JsonRoundTrip
  import opened JsonItem

  lemma Next(text: string, i: nat)
    requires i < |text|
    ensures text[i..] == [text[i]] + text[i + 1..]
    ensures text[i..][1..] == text[i + 1..] && text[i..][0] == text[i] == At(text[i..], 0)
  {
  }

  lemma Later(text: string, i: nat, k: nat)
    requires i + k <= |text|
    ensures text[i..][k..] == text[i + k..]
    ensures At(text[i..], k) == At(text, i + k)
  {
  }

  lemma AtLater(text: string, i: nat, k: nat)
    requires i <= |text|
    ensures At(text[i..], k) == At(text, i + k)
  {
  }

  lemma AtEnd(text: string, i: nat)
    requires i <= |text|
    ensures At(text[i..], 0) == At(text, i) && At(text[i..], 1) == At(text, i + 1)
  {
  }

  /** skip */
  method SkipAt(text: string, i: nat) returns (j: nat)
    requires i <= |text|
    ensures i <= j <= |text| && text[j..] == Skip(text[i..])
  {
    j := i;
    while At(text, j) != '\0' && At(text, j) <= 32 as char
      invariant i <= j <= |text| && Skip(text[j..]) == Skip(text[i..])
      decreases |text| - j
    {
      Next(text, j);
      j := j + 1;
    }
    AtEnd(text, j);
  }

  // ---------- Numbers ----------

  // A loop over digits.
  method DigitsAt(text: string, i: nat, n0: nat, count0: nat) returns (n: nat, count: nat, j: nat)
    requires i <= |text|
    ensures i <= j <= |text| && Run(n, count, text[j..]) == ReadDigits(text[i..], n0, count0)
  {
    n, count, j := n0, count0, i;
    while IsDigit(At(text, j))
      invariant i <= j <= |text|
      invariant ReadDigits(text[j..], n, count) == ReadDigits(text[i..], n0, count0)
      decreases |text| - j
    {
      Next(text, j);
      n := 10 * n + DigitValue(text[j]);
      count, j := count + 1, j + 1;
    }
    AtEnd(text, j);
  }

  /** parse_number */
  method ParseNumber(text: string, i: nat) returns (t: Json, j: nat)
    requires i < |text| && (text[i] == '-' || IsDigit(text[i]))
    ensures t.Number? && i < j <= |text| && (t, text[j..]) == ReadNumber(text[i..])
  {
    hide ReadWhole, ReadFraction, ReadExponent;
    var sign: int := 1;
    j := i;
    AtEnd(text, i);
    if text[j] == '-' {
      Next(text, j);
      sign := -1;
      j := j + 1;
    }
    var n;
    n, j := WholeAt(text, j);
    var scale: int := 0;
    var count;
    n, count, j := FractionAt(text, j, n);
    scale := scale - count;
    var subscale;
    subscale, j := ExponentAt(text, j);
    t := Number(sign * n, scale + subscale);
  }

  method WholeAt(text: string, i: nat) returns (n: nat, j: nat)
    requires i <= |text|
    ensures i <= j <= |text|
    ensures n == ReadWhole(text[i..]).value && text[j..] == ReadWhole(text[i..]).rest
  {
    j := i;
    AtEnd(text, i);
    if At(text, j) == '0' {
      Next(text, j);
      j := j + 1;
      AtEnd(text, j);
    }
    n := 0;
    if '1' <= At(text, j) <= '9' {
      var count;
      n, count, j := DigitsAt(text, j, 0, 0);
    }
  }

  method FractionAt(text: string, i: nat, n0: nat) returns (n: nat, count: nat, j: nat)
    requires i <= |text|
    ensures i <= j <= |text| && Run(n, count, text[j..]) == ReadFraction(text[i..], n0)
  {
    n, count, j := n0, 0, i;
    AtEnd(text, i);
    if At(text, j) == '.' && IsDigit(At(text, j + 1)) {
      Next(text, j);
      n, count, j := DigitsAt(text, j + 1, n, 0);
    }
  }

  method ExponentAt(text: string, i: nat) returns (e: int, j: nat)
    requires i <= |text|
    ensures i <= j <= |text| && (e, text[j..]) == ReadExponent(text[i..])
  {
    e, j := 0, i;
    AtEnd(text, i);
    if At(text, j) == 'e' || At(text, j) == 'E' {
      Next(text, j);
      j := j + 1;
      var sign: int := 1;
      if At(text, j) == '+' {
        Next(text, j);
        Later(text, i, 2);
        j := j + 1;
      } else if At(text, j) == '-' {
        Next(text, j);
        Later(text, i, 2);
        sign := -1;
        j := j + 1;
      }
      var n, count;
      n, count, j := DigitsAt(text, j, 0, 0);
      e := sign * n;
    }
  }

  // ---------- Strings ----------

  datatype Extent = Extent(length: nat, units: nat)

  /** The first pass over a string literal: where it ends, and how many units it has. */
  function Span(s: string): (e: Option<Extent>)
    ensures e.Some? ==> e.value.length <= |s| && (e.value.length < |s| ==> s[e.value.length] == '"')
  {
    if s == [] || s[0] == '"' then Some(Extent(0, 0))
    else if s[0] == '\\' then
      if |s| == 1 then None else Farther(Span(s[2..]), 2, 1)
    else Farther(Span(s[1..]), 1, 1)
  }

  function Farther(e: Option<Extent>, k: nat, units: nat): Option<Extent> {
    if e.None? then None else Some(Extent(e.value.length + k, e.value.units + units))
  }

  lemma {:induction false} SpanSkips(s: string, k: nat)
    requires k <= |s| && forall i :: 0 <= i < k ==> s[i] != '"' && s[i] != '\\'
    ensures Span(s) == Farther(Span(s[k..]), k, k)
    decreases k
  {
    hide Span;
    if k > 0 {
      assert s[1..][k - 1..] == s[k..];
      SpanTurn(Farther(Span(s), 0, 0), s, 0, 0);
      SpanSkips(s[1..], k - 1);
    } else {
      assert s[0..] == s;
    }
  }

  lemma HexDigits(s: string)
    requires Hex4(s) > 0
    ensures |s| >= 4 && forall i :: 0 <= i < 4 ==> s[i] != '"' && s[i] != '\\'
  {
    assert HexValue(At(s, 0)).Some? && HexValue(At(s, 1)).Some? && HexValue(At(s, 2)).Some? && HexValue(At(s, 3)).Some?;
  }

  // A backslash, a u and four digits.
  lemma {:induction false} SpanHex(s: string)
    requires |s| >= 2 && s[0] == '\\' && Hex4(s[2..]) > 0
    ensures |s| >= 6 && Span(s) == Farther(Span(s[6..]), 6, 5)
  {
    hide Hex4, Span;
    HexDigits(s[2..]);
    SpanPair(s);
    SpanSkips(s[2..], 4);
    assert s[2..][4..] == s[6..];
  }

  /** The first pass goes over a whole unit, and counts enough characters for it. */
  lemma {:induction false} SpanUnit(s: string)
    requires s != [] && s[0] != '"' && ReadUnit(s).Some?
    ensures var u := ReadUnit(s).value;
            exists n :: n >= |u.text| && Span(s) == Farther(Span(s[u.length..]), u.length, n)
  {
    hide Hex4, Utf8, Span;
    var u := ReadUnit(s).value;
    if s[0] != '\\' {
      SpanSkips(s, 1);
    } else if At(s, 1) != 'u' {
      SpanPair(s);
    } else if u.length == 6 {
      SpanHex(s);
    } else {
      SpanHex(s);
      assert s[6..][2..] == s[8..] && s[6..][6..] == s[12..];
      SpanHex(s[6..]);
      assert Span(s) == Farther(Span(s[12..]), 12, 10);
    }
  }

  lemma {:induction false} SpanPair(s: string)
    requires s != [] && s[0] == '\\'
    ensures Span(s) == if |s| == 1 then None else Farther(Span(s[2..]), 2, 1)
  {
  }

  // One turn of the first pass.
  lemma {:induction false} SpanTurn(whole: Option<Extent>, s: string, k: nat, units: nat)
    requires whole == Farther(Span(s), k, units)
    ensures s == [] || s[0] == '"' ==> whole == Some(Extent(k, units))
    ensures s != [] && s[0] != '"' && s[0] != '\\' ==> whole == Farther(Span(s[1..]), k + 1, units + 1)
    ensures s != [] && s[0] == '\\' ==>
              whole == if |s| == 1 then None else Farther(Span(s[2..]), k + 2, units + 1)
  {
  }

  /** A literal that ends in a backslash is no string. */
  lemma {:induction false} NoSpan(s: string)
    requires Span(s).None?
    ensures ReadString(s).None?
    decreases |s|
  {
    hide ReadUnit;
    match ReadUnit(s)
    case None =>
    case Some(u) =>
      SpanUnit(s);
      NoSpan(s[u.length..]);
  }

  // The first pass of parse_string.
  method FindEnd(text: string, i: nat) returns (ok: bool, end: nat, len: nat)
    requires i <= |text|
    ensures ok <==> Span(text[i..]).Some?
    ensures ok ==> i <= end <= |text| && Span(text[i..]) == Some(Extent(end - i, len))
  {
    hide Span;
    end, len := i, 0;
    while end < |text| && text[end] != '"'
      invariant i <= end <= |text|
      invariant Span(text[i..]) == Farther(Span(text[end..]), end - i, len)
      decreases |text| - end
    {
      SpanTurn(Span(text[i..]), text[end..], end - i, len);
      Next(text, end);
      if text[end] == '\\' {
        end := end + 1;
        if end == |text| {
          return false, end, len;
        }
        Later(text, end - 1, 2);
      }
      end := end + 1;
      len := len + 1;
    }
    SpanTurn(Span(text[i..]), text[end..], end - i, len);
    ok := true;
  }

  /** The last of len bytes first, six bits each; the first byte gets the rest and the mark. */
  method WriteUtf8(out: array<char>, k: nat, uc: nat) returns (len: nat)
    requires uc < 0x11_0000 && k + |Utf8(uc)| <= out.Length
    modifies out
    ensures len == |Utf8(uc)| && out[..k + len] == old(out[..k]) + Utf8(uc)
  {
    var rest := uc;
    len := if uc < 0x80 then 1 else if uc < 0x800 then 2 else if uc < 0x1_0000 then 3 else 4;
    var mark := if len == 1 then 0 else if len == 2 then 0xC0 else if len == 3 then 0xE0 else 0xF0;
    if len == 4 {
      out[k + 3] := Continuation(rest);
      rest := rest / 0x40;
    }
    if len >= 3 {
      out[k + 2] := Continuation(rest);
      rest := rest / 0x40;
    }
    if len >= 2 {
      out[k + 1] := Continuation(rest);
      rest := rest / 0x40;
    }
    out[k] := (mark + rest) as char;
    Shifts(uc);
  }

  lemma Shifts(n: nat)
    ensures n / 0x40 / 0x40 == n / 0x1000 && n / 0x40 / 0x40 / 0x40 == n / 0x4_0000
  {
    assert n / 0x40 == 0x40 * (n / 0x1000) + n / 0x40 % 0x40;
    assert n / 0x1000 == 0x40 * (n / 0x4_0000) + n / 0x1000 % 0x40;
  }

  // The code point of a \u escape; ptr is at the u, and afterwards at the last digit.
  method CodePoint(text: string, start: nat, end: nat) returns (ok: bool, uc: nat, ptr: nat)
    requires start + 2 <= end <= |text| && text[start] == '\\' && text[start + 1] == 'u'
    requires end < |text| ==> text[end] == '"'
    ensures ok <==> ReadUnicode(text[start..]).Some?
    ensures ok ==>
              var u := ReadUnicode(text[start..]).value;
              uc < 0x11_0000 && u.text == Utf8(uc) && u.length == ptr + 1 - start && ptr < |text|
  {
    hide Hex4, Utf8;
    Later(text, start, 2);
    HexFits(text, start + 2, end);
    ptr := start + 1;
    uc := Hex4(text[ptr + 1..]);
    ptr := ptr + 4;
    if ptr >= end {
      return false, uc, ptr;
    }
    if 0xDC00 <= uc <= 0xDFFF || uc == 0 {
      return false, uc, ptr;
    }
    if 0xD800 <= uc <= 0xDBFF {
      AtLater(text, start, 6);
      AtLater(text, start, 7);
      if ptr + 6 > end {
        SecondFits(text, start, end);
        return false, uc, ptr;
      }
      if text[ptr + 1] != '\\' || text[ptr + 2] != 'u' {
        return false, uc, ptr;
      }
      Later(text, start, 8);
      var uc2 := Hex4(text[ptr + 3..]);
      ptr := ptr + 6;
      if uc2 < 0xDC00 || uc2 > 0xDFFF {
        return false, uc, ptr;
      }
      HexDigits(text[start + 8..]);
      uc := 0x1_0000 + (uc % 0x400 * 0x400 + uc2 % 0x400);
    }
    ok := true;
  }

  // Four digits do not reach over the quote.
  lemma HexFits(text: string, i: nat, end: nat)
    requires i <= end <= |text| && (end < |text| ==> text[end] == '"')
    ensures Hex4(text[i..]) > 0 ==> i + 4 <= end
  {
    if Hex4(text[i..]) > 0 {
      HexDigits(text[i..]);
      assert forall j :: i <= j < i + 4 ==> text[j] == text[i..][j - i];
    }
  }

  // Nor does a second escape that starts before the quote.
  lemma SecondFits(text: string, start: nat, end: nat)
    requires start + 6 <= end <= |text| && (end < |text| ==> text[end] == '"') && end < start + 11
    ensures At(text[start..], 6) == '\\' && At(text[start..], 7) == 'u' ==> Hex4(text[start..][8..]) == 0
  {
    AtLater(text, start, 6);
    AtLater(text, start, 7);
    if start + 8 <= end {
      Later(text, start, 8);
      HexFits(text, start + 8, end);
    }
  }

  /** One turn of the second pass: a character or an escape sequence goes to out. */
  method ParseUnit(text: string, start: nat, end: nat, out: array<char>, k: nat) returns (ok: bool, ptr: nat, k1: nat)
    requires start < end <= |text| && (end < |text| ==> text[end] == '"')
    requires text[start] == '\\' ==> start + 2 <= end
    requires ReadUnit(text[start..]).Some? ==> k + |ReadUnit(text[start..]).value.text| <= out.Length
    modifies out
    ensures ok <==> ReadUnit(text[start..]).Some?
    ensures ok ==>
              var u := ReadUnit(text[start..]).value;
              ptr == start + u.length && k1 == k + |u.text| && out[..k1] == old(out[..k]) + u.text
  {
    hide Hex4, Utf8, ReadUnicode;
    ptr, k1 := start, k;
    AtLater(text, start, 0);
    AtLater(text, start, 1);
    if text[ptr] != '\\' {
      out[k1] := text[ptr];
      ptr, k1 := ptr + 1, k1 + 1;
    } else {
      ptr := ptr + 1;
      var c := text[ptr];
      if c == 'u' {
        var uc, len;
        ok, uc, ptr := CodePoint(text, start, end);
        if !ok {
          return;
        }
        len := WriteUtf8(out, k1, uc);
        k1 := k1 + len;
      } else if c == 'b' || c == 'f' || c == 'n' || c == 'r' || c == 't' || c == '"' || c == '\\' || c == '/' {
        out[k1] :=
          if c == 'b' then 8 as char
          else if c == 'f' then 12 as char
          else if c == 'n' then '\n'
          else if c == 'r' then '\r'
          else if c == 't' then '\t'
          else c;
        k1 := k1 + 1;
      } else {
        return false, ptr, k1;
      }
      ptr := ptr + 1;
    }
    ok := true;
  }

  /** parse_string: a buffer with room for every unit of the literal holds what they stand for. */
  method ParseString(text: string, i: nat) returns (ok: bool, value: string, j: nat)
    requires i <= |text|
    ensures ok <==> At(text, i) == '"' && ReadString(text[i + 1..]).Some?
    ensures ok ==> i < j <= |text| && ReadString(text[i + 1..]) == Some((value, text[j..]))
  {
    hide Span, ReadUnit, ReadString;
    value, j := [], i;
    if At(text, i) != '"' {
      return false, value, j;
    }
    var start := i + 1;
    var end, len;
    ok, end, len := FindEnd(text, start);
    if !ok {
      NoSpan(text[start..]);
      return;
    }
    var out := new char[len + 1](_ => '\0');
    var ptr: nat, k: nat := start, 0;
    ghost var left := len;
    assert out[..0] == [];
    Regrouped([], [], ReadString(text[start..]));
    while ptr < end
      invariant start <= ptr <= end && k + left <= len
      invariant Span(text[ptr..]) == Some(Extent(end - ptr, left))
      invariant ReadString(text[start..]) == Prepended(out[..k], ReadString(text[ptr..]))
      decreases end - ptr
    {
      UnitFacts(text, ptr, end, left);
      ghost var done := out[..k];
      ok, ptr, k := ParseUnit(text, ptr, end, out, k);
      if !ok {
        return;
      }
      left := Span(text[ptr..]).value.units;
      Regrouped(done, out[|done|..k], ReadString(text[ptr..]));
    }
    StringEnd(text, end);
    ghost var text1 := out[..k];
    out[k] := '\0';
    value := out[..k];
    assert value == text1 && value + "" == value;
    j := end;
    if At(text, j) == '"' {
      j := j + 1;
    }
  }

  lemma Regrouped(a: string, b: string, r: Option<(string, string)>)
    ensures Prepended(a, Prepended(b, r)) == Prepended(a + b, r)
    ensures Prepended([], r) == r
  {
    if r.Some? {
      assert a + (b + r.value.0) == (a + b) + r.value.0 && [] + r.value.0 == r.value.0;
    }
  }

  /** Where the second pass is before the end that the first pass found. */
  lemma {:induction false} UnitFacts(text: string, ptr: nat, end: nat, left: nat)
    requires ptr < end <= |text| && Span(text[ptr..]) == Some(Extent(end - ptr, left))
    ensures text[ptr] != '"' && (text[ptr] == '\\' ==> ptr + 2 <= end) && (end < |text| ==> text[end] == '"')
    ensures match ReadUnit(text[ptr..])
            case None => ReadString(text[ptr..]).None?
            case Some(u) =>
              && ptr + u.length <= end
              && ReadString(text[ptr..]) == Prepended(u.text, ReadString(text[ptr + u.length..]))
              && Span(text[ptr + u.length..]).Some?
              && var e := Span(text[ptr + u.length..]).value;
                 e.length == end - ptr - u.length && |u.text| + e.units <= left
  {
    hide ReadUnit, Span;
    var s := text[ptr..];
    SpanTurn(Farther(Span(s), 0, 0), s, 0, 0);
    assert end < |text| ==> s[end - ptr] == text[end];
    if ReadUnit(s).Some? {
      var u := ReadUnit(s).value;
      SpanUnit(s);
      Later(text, ptr, u.length);
    }
  }

  lemma StringEnd(text: string, end: nat)
    requires end <= |text| && (end < |text| ==> text[end] == '"')
    ensures ReadString(text[end..]) == Some(("", text[if end < |text| then end + 1 else end..]))
  {
  }

  function Prepended(text: string, r: Option<(string, string)>): Option<(string, string)> {
    if r.None? then None else Some((text + r.value.0, r.value.1))
  }

  // ---------- Values ----------

  lemma Word(text: string, i: nat, word: string)
    requires i <= |text|
    ensures word <= text[i..] <==> i + |word| <= |text| && text[i..i + |word|] == word
    ensures word <= text[i..] ==> text[i..][|word|..] == text[i + |word|..]
  {
    if i + |word| <= |text| {
      assert text[i..][..|word|] == text[i..i + |word|];
    }
  }

  /** strncmp with a word. */
  predicate Matches(text: string, i: nat, word: string)
    requires i <= |text|
  {
    i + |word| <= |text| && text[i..i + |word|] == word
  }

  /** parse_value, into a new node. */
  method ParseValue(item: Item, text: string, i: nat) returns (ok: bool, j: nat, ghost t: Json)
    requires i <= |text| && item.Blank()
    modifies item`kind, item`mantissa, item`exponent, item`valueString, item`child, item`kids, item`below
    ensures ok <==> Parsed(text[i..]).Some?
    ensures ok ==> i < j <= |text| && Parsed(text[i..]) == Some((t, text[j..])) && item.Is(t) && fresh(item.below)
    decreases |text| - i, 1
  {
    hide ParsedElems, ParsedMembers, ReadString, ReadNumber, JsonText.Skip;
    t, j := Null, i;
    Word(text, i, "null");
    Word(text, i, "false");
    Word(text, i, "true");
    AtLater(text, i, 0);
    if Matches(text, i, "null") {
      item.kind := IsNull;
      return true, i + 4, Null;
    }
    if Matches(text, i, "false") {
      item.kind := IsFalse;
      return true, i + 5, False;
    }
    if Matches(text, i, "true") {
      item.kind := IsTrue;
      return true, i + 4, True;
    }
    var c := At(text, i);
    if c == '"' {
      Next(text, i);
      var s;
      ok, s, j := ParseString(text, i);
      if ok {
        item.valueString, item.kind := s, IsString;
      }
      t := String(s);
    } else if c == '-' || IsDigit(c) {
      var number;
      number, j := ParseNumber(text, i);
      item.mantissa, item.exponent, item.kind := number.mantissa, number.exponent, IsNumber;
      ok, t := true, number;
    } else if c == '[' {
      ok, j, t := ParseArray(item, text, i);
    } else if c == '{' {
      ok, j, t := ParseObject(item, text, i);
    } else {
      ok := false;
    }
  }

  /** The value of the last child, which becomes part of what stands below item. */
  method ParseLast(item: Item, child: Item, text: string, i: nat, ghost values: seq<Json>)
    returns (ok: bool, j: nat, ghost t: Json)
    requires i <= |text| && item.Growing(values) && child == item.kids[|values|] && child != item
    modifies item`below, child`kind, child`mantissa, child`exponent, child`valueString, child`child, child`kids
    modifies child`below
    ensures ok <==> Parsed(text[i..]).Some?
    ensures ok ==>
              && i < j <= |text| && Parsed(text[i..]) == Some((t, text[j..]))
              && item.Filled(values + [t]) && |item.kids| == |values| + 1 && fresh(item.below - old(item.below))
    decreases |text| - i, 2
  {
    hide Item.Is, Parsed;
    ghost var k := item.kids;
    ok, j, t := ParseValue(child, text, i);
    if ok {
      item.below := item.below + child.below;
      ghost var all := values + [t];
      forall n | 0 <= n < |all|
        ensures k[n].Is(all[n])
      {
        if n < |values| {
          assert k[n] != child && child !in k[n].below && old(k[n].Is(values[n])) && item !in k[n].below;
        }
      }
    }
  }

  lemma ArrayStart(text: string, i: nat)
    requires i < |text| && text[i] == '['
    ensures var s := Skip(text[i + 1..]);
            Parsed(text[i..]) ==
              if At(s, 0) == ']' then Some((Array([]), s[1..]))
              else if ParsedElems(s).None? then None
              else Some((Array(ParsedElems(s).value.0), ParsedElems(s).value.1))
  {
    hide ParsedElems, JsonText.Skip;
    Next(text, i);
    NotAWord(text[i..]);
  }

  lemma ObjectStart(text: string, i: nat)
    requires i < |text| && text[i] == '{'
    ensures var s := Skip(text[i + 1..]);
            Parsed(text[i..]) ==
              if At(s, 0) == '}' then Some((Object([]), s[1..]))
              else if ParsedMembers(s).None? then None
              else Some((Object(ParsedMembers(s).value.0), ParsedMembers(s).value.1))
  {
    hide ParsedMembers, JsonText.Skip;
    Next(text, i);
    NotAWord(text[i..]);
  }

  /** One element and what follows it. */
  lemma ElemsTurn(before: seq<Json>, s: string)
    ensures WithElems([], ParsedElems(s)) == ParsedElems(s)
    ensures match Parsed(s)
            case None => ParsedElems(s).None?
            case Some((e, rest)) =>
              var next := Skip(rest);
              WithElems(before, ParsedElems(s)) ==
                if At(next, 0) == ',' then WithElems(before + [e], ParsedElems(Skip(next[1..])))
                else if At(next, 0) == ']' then Some((before + [e], next[1..]))
                else None
  {
    hide Parsed, JsonText.Skip;
    if ParsedElems(s).Some? {
      assert [] + ParsedElems(s).value.0 == ParsedElems(s).value.0;
    }
    if Parsed(s).Some? {
      var e, next := Parsed(s).value.0, Skip(Parsed(s).value.1);
      if At(next, 0) == ',' && ParsedElems(Skip(next[1..])).Some? {
        var more := ParsedElems(Skip(next[1..])).value.0;
        assert before + ([e] + more) == (before + [e]) + more;
      }
    }
  }

  function WithMembers(before: seq<Member>, r: Option<(seq<Member>, string)>): Option<(seq<Member>, string)> {
    if r.None? then None else Some((before + r.value.0, r.value.1))
  }

  /** One member and what follows it. */
  lemma MembersTurn(before: seq<Member>, s: string)
    ensures WithMembers([], ParsedMembers(s)) == ParsedMembers(s)
    ensures ParsedKey(s).None? || Parsed(ParsedKey(s).value.1).None? ==> ParsedMembers(s).None?
    ensures ParsedKey(s).Some? && Parsed(ParsedKey(s).value.1).Some? ==>
              var (name, s1) := ParsedKey(s).value;
              var (t, rest) := Parsed(s1).value;
              var next := Skip(rest);
              WithMembers(before, ParsedMembers(s)) ==
                if At(next, 0) == ',' then WithMembers(before + [Member(name, t)], ParsedMembers(Skip(next[1..])))
                else if At(next, 0) == '}' then Some((before + [Member(name, t)], next[1..]))
                else None
  {
    hide Parsed, ParsedKey, JsonText.Skip;
    if ParsedMembers(s).Some? {
      assert [] + ParsedMembers(s).value.0 == ParsedMembers(s).value.0;
    }
    if ParsedKey(s).Some? && Parsed(ParsedKey(s).value.1).Some? {
      var (name, s1) := ParsedKey(s).value;
      var (t, rest) := Parsed(s1).value;
      var next := Skip(rest);
      if At(next, 0) == ',' && ParsedMembers(Skip(next[1..])).Some? {
        var more := ParsedMembers(Skip(next[1..])).value.0;
        assert before + ([Member(name, t)] + more) == (before + [Member(name, t)]) + more;
      }
    }
  }

  function WithElems(before: seq<Json>, r: Option<(seq<Json>, string)>): Option<(seq<Json>, string)> {
    if r.None? then None else Some((before + r.value.0, r.value.1))
  }

  /** parse_array: the elements are appended one by one. */
  method ParseArray(item: Item, text: string, i: nat) returns (ok: bool, j: nat, ghost t: Json)
    requires i < |text| && text[i] == '[' && item.Blank()
    modifies item`kind, item`child, item`kids, item`below
    ensures ok <==> Parsed(text[i..]).Some?
    ensures ok ==> i < j <= |text| && Parsed(text[i..]) == Some((t, text[j..])) && item.Is(t) && fresh(item.below)
    decreases |text| - i, 0
  {
    hide Parsed, ParsedElems, JsonText.Skip, Item.Is, Item.Growing, Item.Filled;
    t := Null;
    item.kind := IsArray;
    ArrayStart(text, i);
    j := SkipAt(text, i + 1);
    AtLater(text, j, 0);
    if At(text, j) == ']' {
      Next(text, j);
      item.EmptyIs();
      return true, j + 1, Array([]);
    }
    var child := item.AddFirst();
    ghost var elems;
    ok, j, elems := ParseElems(item, child, text, j);
    if ok {
      item.FilledIs(elems);
      t := Array(elems);
    }
  }

  // The elements and the closing bracket.
  method ParseElems(item: Item, child0: Item, text: string, i: nat) returns (ok: bool, j: nat, ghost elems: seq<Json>)
    requires i <= |text| && item.Growing([]) && item.kids == [child0] && item.below == {child0} && child0 != item
    modifies item`kids, item`below, child0
    ensures ok <==> ParsedElems(text[i..]).Some?
    ensures ok ==>
              && i < j <= |text| && ParsedElems(text[i..]) == Some((elems, text[j..]))
              && item.Filled(elems) && fresh(item.below - {child0})
    decreases |text| - i, 3
  {
    hide Parsed, ParsedElems, JsonText.Skip, Item.Is, Item.Growing, Item.Filled;
    var child := child0;
    elems, j := [], i;
    ElemsTurn([], text[i..]);
    while true
      invariant i <= j <= |text|
      invariant ParsedElems(text[i..]) == WithElems(elems, ParsedElems(text[j..]))
      invariant item.Growing(elems) && |item.kids| == |elems| + 1 && child == item.kids[|elems|] && child != item
      invariant child == child0 || fresh(child)
      invariant fresh(item.below - {child0})
      decreases |text| - j
    {
      ElemsTurn(elems, text[j..]);
      ghost var e;
      ok, j, e := ParseLast(item, child, text, j, elems);
      if !ok {
        return;
      }
      j := SkipAt(text, j);
      AtLater(text, j, 0);
      elems := elems + [e];
      if At(text, j) != ',' {
        break;
      }
      child := item.AddNext(child, elems);
      Next(text, j);
      j := SkipAt(text, j + 1);
    }
    if At(text, j) == ']' {
      Next(text, j);
      j := j + 1;
    } else {
      ok := false;
    }
  }

  // A key and its colon.
  method ParseKey(text: string, i: nat) returns (ok: bool, name: string, j: nat)
    requires i <= |text|
    ensures ok <==> ParsedKey(text[i..]).Some?
    ensures ok ==> i < j <= |text| && ParsedKey(text[i..]) == Some((name, text[j..]))
  {
    hide ReadString, JsonText.Skip;
    AtLater(text, i, 0);
    if i < |text| {
      Next(text, i);
    }
    ok, name, j := ParseString(text, i);
    if !ok {
      return;
    }
    j := SkipAt(text, j);
    AtLater(text, j, 0);
    if At(text, j) != ':' {
      return false, name, j;
    }
    Next(text, j);
    j := SkipAt(text, j + 1);
  }

  /** The names and values of members. */
  function ValuesOf(members: seq<Member>): (values: seq<Json>)
    ensures |values| == |members| && forall n :: 0 <= n < |members| ==> values[n] == members[n].value
  {
    seq(|members|, n requires 0 <= n < |members| => members[n].value)
  }

  ghost predicate Named(item: Item, members: seq<Member>)
    requires |members| <= |item.kids|
    reads item`kids, item.kids`name
  {
    forall n :: 0 <= n < |members| ==> item.kids[n].name == members[n].name
  }

  lemma ObjectIs(item: Item, members: seq<Member>)
    requires item.kind.IsObject? && item.Filled(ValuesOf(members)) && Named(item, members)
    ensures item.Is(Object(members))
  {
  }

  /** parse_object */
  method ParseObject(item: Item, text: string, i: nat) returns (ok: bool, j: nat, ghost t: Json)
    requires i < |text| && text[i] == '{' && item.Blank()
    modifies item`kind, item`child, item`kids, item`below
    ensures ok <==> Parsed(text[i..]).Some?
    ensures ok ==> i < j <= |text| && Parsed(text[i..]) == Some((t, text[j..])) && item.Is(t) && fresh(item.below)
    decreases |text| - i, 0
  {
    hide Parsed, ParsedKey, ParsedMembers, JsonText.Skip, Item.Is, Item.Growing, Item.Filled;
    t := Null;
    item.kind := IsObject;
    ObjectStart(text, i);
    j := SkipAt(text, i + 1);
    AtLater(text, j, 0);
    if At(text, j) == '}' {
      Next(text, j);
      item.EmptyIs();
      return true, j + 1, Object([]);
    }
    var child := item.AddFirst();
    ghost var members;
    ok, j, members := ParseMembers(item, child, text, j);
    if ok {
      ObjectIs(item, members);
      t := Object(members);
    }
  }

  // The key of a member goes to the name of its node.
  method NameLast(item: Item, child: Item, name: string, ghost members: seq<Member>)
    requires item.Growing(ValuesOf(members)) && child == item.kids[|members|] && child != item && Named(item, members)
    modifies child`name
    ensures item.Growing(ValuesOf(members)) && Named(item, members) && child.name == name
  {
    hide Item.Is;
    ghost var k, values := item.kids, ValuesOf(members);
    child.name := name;
    forall n | 0 <= n < |values|
      ensures k[n].Is(values[n]) && k[n].name == members[n].name
    {
      assert k[n] != child && child !in k[n].below && old(k[n].Is(values[n]));
    }
  }

  lemma NoMembers(item: Item)
    ensures ValuesOf([]) == [] && Named(item, [])
  {
  }

  // The members and the closing brace.
  method ParseMembers(item: Item, child0: Item, text: string, i: nat)
    returns (ok: bool, j: nat, ghost members: seq<Member>)
    requires i <= |text| && item.Growing([]) && item.kids == [child0] && item.below == {child0} && child0 != item
    modifies item`kids, item`below, child0
    ensures ok <==> ParsedMembers(text[i..]).Some?
    ensures ok ==>
              && i < j <= |text| && ParsedMembers(text[i..]) == Some((members, text[j..]))
              && item.Filled(ValuesOf(members)) && |item.kids| == |members| && Named(item, members)
              && fresh(item.below - {child0})
    decreases |text| - i, 3
  {
    hide Parsed, ParsedKey, ParsedMembers, JsonText.Skip, Item.Is, Item.Growing, Item.Filled, ValuesOf;
    var child := child0;
    members, j := [], i;
    MembersTurn([], text[i..]);
    NoMembers(item);
    while true
      invariant i <= j <= |text|
      invariant ParsedMembers(text[i..]) == WithMembers(members, ParsedMembers(text[j..]))
      invariant item.Growing(ValuesOf(members)) && |item.kids| == |members| + 1 && child == item.kids[|members|]
      invariant child != item
      invariant Named(item, members)
      invariant child == child0 || fresh(child)
      invariant fresh(item.below - {child0})
      decreases |text| - j
    {
      MembersTurn(members, text[j..]);
      var name;
      ok, name, j := ParseKey(text, j);
      if !ok {
        return;
      }
      ghost var m;
      ok, j, m := ParseMember(item, child, name, text, j, members);
      if !ok {
        return;
      }
      j := SkipAt(text, j);
      AtLater(text, j, 0);
      members := members + [m];
      if At(text, j) != ',' {
        break;
      }
      child := item.AddNext(child, ValuesOf(members));
      Next(text, j);
      j := SkipAt(text, j + 1);
    }
    if At(text, j) == '}' {
      Next(text, j);
      j := j + 1;
    } else {
      ok := false;
    }
  }

  // The value behind a key.
  method ParseMember(item: Item, child: Item, name: string, text: string, i: nat, ghost members: seq<Member>)
    returns (ok: bool, j: nat, ghost m: Member)
    requires i <= |text| && item.Growing(ValuesOf(members)) && |item.kids| == |members| + 1
    requires child == item.kids[|members|] && child != item
    requires Named(item, members)
    modifies item`below, child
    ensures ok <==> Parsed(text[i..]).Some?
    ensures ok ==>
              && i < j <= |text| && m.name == name && Parsed(text[i..]) == Some((m.value, text[j..]))
              && item.Filled(ValuesOf(members + [m])) && Named(item, members + [m])
              && fresh(item.below - old(item.below)) && child.next == old(child.next)
    decreases |text| - i, 3
  {
    hide Parsed, Item.Is, Item.Growing, Item.Filled;
    NameLast(item, child, name, members);
    ghost var value;
    ok, j, value := ParseLast(item, child, text, i, ValuesOf(members));
    m := Member(name, value);
    assert ValuesOf(members + [m]) == ValuesOf(members) + [value];
  }

  /** cJSON_ParseWithOpts */
  method ParseWithOpts(text: string, requireNullTerminated: bool) returns (root: Item?, end: nat, ghost t: Json)
    ensures var r := Parsed(Skip(text));
            && (root != null <==> r.Some? && (requireNullTerminated ==> Skip(r.value.1) == []))
            && (root != null ==>
                 && fresh(root) && root.Is(t)
                 && end <= |text| && r.value.0 == t
                 && text[end..] == if requireNullTerminated then [] else r.value.1)
  {
    hide Parsed, JsonText.Skip;
    assert text[0..] == text;
    var item := new Item();
    end := SkipAt(text, 0);
    var ok;
    ok, end, t := ParseValue(item, text, end);
    if ok && requireNullTerminated {
      end := SkipAt(text, end);
      ok := end == |text|;
    }
    root := if ok then item else null;
  }

  /** Parsing what was printed gives back the tree, formatted or not, and consumes the whole text. */
  lemma ParseOfPrinted(t: Json, fmt: bool)
    requires Plain(t)
    ensures Parsed(Skip(Printed(t, 0, fmt))) == Some((t, ""))
  {
    hide Parsed, Printed, Plain;
    PrintedStarts(t, 0, fmt);
    SkipNothing(Printed(t, 0, fmt));
    ValueRoundTrip(t, 0, fmt, "");
    assert Printed(t, 0, fmt) + "" == Printed(t, 0, fmt);
  }
}
