/** The printers of src/cjson/cJSON.c: one that allocates a string for every value, and one that writes
    into a buffer that grows. Both are proved to render JsonText.Printed, inside what they allocated. */
module JsonPrinter {
  import opened JsonText
  import opened JsonRoundTrip
  import opened JsonItem
  import opened JsonBuffer
  import opened JsonParser

  // ---------- No terminator inside the text ----------

  lemma {:induction false} EscapedNulFree(s: string)
    requires '\0' !in s
    ensures '\0' !in EscapedAll(s)
  {
    if s != [] {
      EscapedNulFree(s[1..]);
    }
  }

  lemma {:induction false} PrintedNulFree(t: Json, depth: nat, fmt: bool)
    requires Plain(t)
    ensures '\0' !in Printed(t, depth, fmt)
    decreases t, 0
  {
    match t
    case Number(m, _) => DigitsFold(if m < 0 then -m else m);
    case String(s) => EscapedNulFree(s);
    case Array(elems) => ArrayNulFree(elems, depth, fmt);
    case Object(members) => ObjectNulFree(members, depth, fmt);
    case _ =>
  }

  lemma {:induction false} ArrayNulFree(elems: seq<Json>, depth: nat, fmt: bool)
    requires Plain(Array(elems))
    ensures '\0' !in Printed(Array(elems), depth, fmt)
    decreases elems, 1
  {
    if elems != [] {
      ElemsNulFree(elems, depth + 1, fmt);
    }
  }

  lemma {:induction false} ObjectNulFree(members: seq<Member>, depth: nat, fmt: bool)
    requires Plain(Object(members))
    ensures '\0' !in Printed(Object(members), depth, fmt)
    decreases members, 1
  {
    if members != [] {
      MembersNulFree(members, depth + 1, fmt);
    }
  }

  lemma {:induction false} ElemsNulFree(elems: seq<Json>, depth: nat, fmt: bool)
    requires elems != [] && Plain(Array(elems))
    ensures '\0' !in PrintedElems(elems, depth, fmt)
    decreases elems, 0
  {
    PrintedNulFree(elems[0], depth, fmt);
    if |elems| > 1 {
      ElemsNulFree(elems[1..], depth, fmt);
    }
  }

  lemma {:induction false} MembersNulFree(members: seq<Member>, depth: nat, fmt: bool)
    requires members != [] && Plain(Object(members))
    ensures '\0' !in PrintedMembers(members, depth, fmt)
    decreases members, 0
  {
    EscapedNulFree(members[0].name);
    PrintedNulFree(members[0].value, depth, fmt);
    if |members| > 1 {
      MembersNulFree(members[1..], depth, fmt);
    }
  }

  // ---------- Values without children ----------

  /** ensure or malloc: where the next value goes, with room for n characters. */
  method Reserve(p: PrintBuffer?, n: nat) returns (ok: bool, a: array<char>, base: nat, cap: nat)
    requires n > 0 && (p != null ==> p.Valid())
    modifies if p == null then {} else {p}
    ensures ok ==> base + n <= cap <= a.Length
    ensures p == null ==> ok && fresh(a) && base == 0 && cap == a.Length
    ensures p != null ==>
              && p.Valid() && p.Text() == old(p.Text()) && p.offset == old(p.offset) && p.noalloc == old(p.noalloc)
              && p.Kept()
              && a == p.buffer && base == p.offset && cap == p.length
              && (!ok ==> p.noalloc && p.length == old(p.length) && p.offset + n > p.length)
  {
    if p == null {
      a := new char[n](_ => '\0');
      ok, base, cap := true, 0, n;
    } else {
      ok := p.Ensure(n);
      a, base, cap := p.buffer, p.offset, p.length;
    }
  }

  /** A value rendered at once stands in the reserved space. */
  ghost predicate Rendered(p: PrintBuffer?, a: array<char>, before: string, text: string)
    reads a, p, if p == null then {} else {p.buffer}
  {
    if p == null then TextAt(a, 0, text, a.Length) else p.Shows(before + text) && p.offset == |before|
  }

  ghost function TextOf(p: PrintBuffer?): string
    requires p != null ==> p.Valid()
    reads p, if p == null then {} else {p.buffer}
  {
    if p == null then "" else p.Text()
  }

  /** strcpy of a fixed or formatted text into n reserved characters. */
  method PrintText(text: string, n: nat, p: PrintBuffer?) returns (ok: bool, a: array<char>)
    requires |text| < n && (p != null ==> p.Valid())
    modifies if p == null then {} else {p, p.buffer}
    ensures p == null ==> ok && fresh(a)
    ensures p != null ==> p.noalloc == old(p.noalloc) && p.Kept()
    ensures p != null && !ok ==> p.noalloc && old(p.offset) + n > old(p.length)
    ensures ok ==> Rendered(p, a, old(TextOf(p)), text)
  {
    var base, cap;
    ok, a, base, cap := Reserve(p, n);
    if ok {
      ghost var before := a[..base];
      StrCpy(a, base, text, cap);
      assert a[0..base + |text|] == a[..base] + a[base..base + |text|] == before + text;
    }
  }

  /** The decimal form of a 32-bit integer fits the 21 characters reserved for it. */
  lemma DecimalFits(n: int)
    requires INT_MIN <= n <= INT_MAX
    ensures |Decimal(n)| <= 11
  {
    assert Ten(10) == 10_000_000_000;
    DigitsShort(if n < 0 then -n else n, 10);
  }

  lemma {:induction false} DigitsShort(n: nat, k: nat)
    requires 0 < k && n < Ten(k)
    ensures |Digits(n)| <= k
    decreases k
  {
    if n >= 10 {
      DigitsShort(n / 10, k - 1);
    }
  }

  function Ten(k: nat): nat {
    if k == 0 then 1 else 10 * Ten(k - 1)
  }

  /** print_number, for 32-bit integers */
  method PrintNumber(m: int, p: PrintBuffer?) returns (ok: bool, a: array<char>)
    requires INT_MIN <= m <= INT_MAX && (p != null ==> p.Valid())
    modifies if p == null then {} else {p, p.buffer}
    ensures p == null ==> ok && fresh(a)
    ensures p != null ==> p.noalloc == old(p.noalloc) && p.Kept()
    ensures p != null && !ok ==> p.noalloc && old(p.offset) + |Decimal(m)| + SLACK > old(p.length)
    ensures ok ==> Rendered(p, a, old(TextOf(p)), Decimal(m))
  {
    DecimalFits(m);
    if m == 0 {
      ok, a := PrintText("0", 2, p);
    } else {
      ok, a := PrintText(Decimal(m), 21, p);
    }
  }

  // ---------- Strings ----------

  predicate NeedsEscape(c: char) {
    (0 as char < c < 32 as char) || c == '"' || c == '\\'
  }

  lemma {:induction false} NothingEscaped(s: string)
    requires '\0' !in s && forall c <- s :: !NeedsEscape(c)
    ensures EscapedAll(s) == s
  {
    if s != [] {
      assert s[0] in s;
      NothingEscaped(s[1..]);
      assert [s[0]] + s[1..] == s;
    }
  }

  // The loop that looks for characters to escape.
  method FindEscape(s: string) returns (flag: bool)
    ensures flag <==> exists c <- s :: NeedsEscape(c)
  {
    flag := false;
    for i := 0 to |s|
      invariant flag <==> exists c <- s[..i] :: NeedsEscape(c)
    {
      assert s[..i + 1] == s[..i] + [s[i]];
      flag := flag || NeedsEscape(s[i]);
    }
    assert s[..|s|] == s;
  }

  // The loop that computes the length with all escapes.
  method EscapedLength(s: string) returns (len: nat)
    requires '\0' !in s
    ensures len == |EscapedAll(s)|
  {
    len := 0;
    var i := 0;
    while i < |s|
      invariant 0 <= i <= |s|
      invariant len + |EscapedAll(s[i..])| == |EscapedAll(s)|
    {
      assert s[i..][1..] == s[i + 1..];
      len := len + 1;
      if s[i] in "\"\\\n\r\t" || s[i] == 8 as char || s[i] == 12 as char {
        len := len + 1;
      } else if s[i] < 32 as char {
        len := len + 5;
      }
      i := i + 1;
    }
  }

  // The loop that writes the escaped characters.
  method WriteEscaped(a: array<char>, at: nat, s: string, ghost cap: nat) returns (end: nat)
    requires '\0' !in s && at + |EscapedAll(s)| <= cap <= a.Length
    modifies a
    ensures end == at + |EscapedAll(s)| && a[at..end] == EscapedAll(s)
    ensures forall k :: 0 <= k < a.Length && !(at <= k < end) ==> a[k] == old(a[k])
  {
    hide Escaped;
    end := at;
    var i := 0;
    while i < |s|
      invariant 0 <= i <= |s|
      invariant at <= end && end + |EscapedAll(s[i..])| == at + |EscapedAll(s)|
      invariant a[at..end] + EscapedAll(s[i..]) == EscapedAll(s)
      invariant forall k :: 0 <= k < a.Length && !(at <= k < end) ==> a[k] == old(a[k])
    {
      assert s[i..][1..] == s[i + 1..];
      ghost var before, left := a[at..end], EscapedAll(s[i + 1..]);
      var e := Escaped(s[i]);
      Store(a, end, e, cap);
      assert a[at..end + |e|] == before + e;
      assert (before + e) + left == before + (e + left);
      end, i := end + |e|, i + 1;
    }
  }

  /** print_string_ptr */
  method PrintString(s: string, p: PrintBuffer?) returns (ok: bool, a: array<char>)
    requires '\0' !in s && (p != null ==> p.Valid())
    modifies if p == null then {} else {p, p.buffer}
    ensures p == null ==> ok && fresh(a)
    ensures p != null ==> p.noalloc == old(p.noalloc) && p.Kept()
    ensures p != null && !ok ==> p.noalloc && old(p.offset) + |Quoted(s)| + SLACK > old(p.length)
    ensures ok ==> Rendered(p, a, old(TextOf(p)), Quoted(s))
  {
    hide EscapedAll;
    var flag := FindEscape(s);
    if !flag {
      NothingEscaped(s);
      ok, a := PrintText("\"" + s + "\"", |s| + 3, p);
      return;
    }
    var len := EscapedLength(s);
    var base, cap;
    ok, a, base, cap := Reserve(p, len + 3);
    if !ok {
      return;
    }
    ghost var before := a[..base];
    WriteQuoted(a, base, s, cap);
    assert a[0..base + |Quoted(s)|] == a[..base] + a[base..base + |Quoted(s)|] == before + Quoted(s);
  }

  // The quotes and what is between them.
  method WriteQuoted(a: array<char>, base: nat, s: string, ghost cap: nat)
    requires '\0' !in s && base + |EscapedAll(s)| + 2 < cap <= a.Length
    modifies a
    ensures TextAt(a, base, Quoted(s), cap) && a[..base] == old(a[..base])
  {
    hide EscapedAll;
    Store(a, base, "\"", cap);
    var end := WriteEscaped(a, base + 1, s, cap);
    ghost var done := a[base..end];
    assert done == a[base..base + 1] + a[base + 1..end];
    StrCpy(a, end, "\"", cap);
    assert a[base..end] == a[..end][base..] == done;
    assert a[base..end + 1] == a[base..end] + a[end..end + 1];
    assert a[..base] == a[..end][..base];
  }

  // ---------- Into a buffer ----------

  // What is left to print of an array after i elements.
  function RestElems(elems: seq<Json>, i: nat, depth: nat, fmt: bool): string
    requires i <= |elems|
  {
    if i < |elems| then PrintedElems(elems[i..], depth, fmt) else ""
  }

  lemma RestElemsTurn(elems: seq<Json>, i: nat, depth: nat, fmt: bool)
    requires i < |elems|
    ensures RestElems(elems, i, depth, fmt)
         == Printed(elems[i], depth, fmt) + (if i + 1 < |elems| then Comma(false, fmt) else "")
          + RestElems(elems, i + 1, depth, fmt)
  {
    hide Printed;
    assert elems[i..][1..] == elems[i + 1..];
  }

  function RestMembers(members: seq<Member>, i: nat, depth: nat, fmt: bool): string
    requires i <= |members|
  {
    if i < |members| then PrintedMembers(members[i..], depth, fmt) else ""
  }

  lemma RestMembersTurn(members: seq<Member>, i: nat, depth: nat, fmt: bool)
    requires i < |members|
    ensures RestMembers(members, i, depth, fmt)
         == Key(members[i].name, depth, fmt) + Printed(members[i].value, depth, fmt)
          + MemberEnd(i + 1 == |members|, fmt) + RestMembers(members, i + 1, depth, fmt)
  {
    hide Printed, Key;
    assert members[i..][1..] == members[i + 1..];
  }

  /** print_value with a printbuffer. When it may grow it never fails. */
  method PrintBuffered(item: Item, ghost t: Json, depth: nat, fmt: bool, p: PrintBuffer) returns (ok: bool)
    requires item.Is(t) && Plain(t) && p.Valid()
    modifies p, p.buffer
    ensures p.noalloc == old(p.noalloc)
    ensures !ok ==> p.noalloc && old(p.offset) + |Printed(t, depth, fmt)| + SLACK > old(p.length)
    ensures ok ==> p.Shows(old(p.Text()) + Printed(t, depth, fmt)) && p.Kept()
    ensures ok ==> p.offset >= old(p.offset)
    decreases t, 1
  {
    var a;
    if item.kind.IsNull? {
      ok, a := PrintText("null", 5, p);
    } else if item.kind.IsFalse? {
      ok, a := PrintText("false", 6, p);
    } else if item.kind.IsTrue? {
      ok, a := PrintText("true", 5, p);
    } else if item.kind.IsNumber? {
      ok, a := PrintNumber(item.mantissa, p);
    } else if item.kind.IsString? {
      ok, a := PrintString(item.valueString, p);
    } else if item.kind.IsArray? {
      ok := PrintArrayBuffered(item, t.elems, depth, fmt, p);
    } else {
      ok := PrintObjectBuffered(item, t.members, depth, fmt, p);
    }
  }

  // The value of a child, and update.
  method PrintChild(item: Item, ghost t: Json, depth: nat, fmt: bool, p: PrintBuffer) returns (ok: bool)
    requires item.Is(t) && Plain(t) && p.Valid()
    modifies p, p.buffer
    ensures p.noalloc == old(p.noalloc)
    ensures !ok ==> p.noalloc && old(p.offset) + |Printed(t, depth, fmt)| + SLACK > old(p.length)
    ensures ok ==> p.Valid() && p.Text() == old(p.Text()) + Printed(t, depth, fmt) && p.Kept()
    decreases t, 2
  {
    hide Printed, Plain, Item.Is;
    ghost var before := p.Text();
    ok := PrintBuffered(item, t, depth, fmt, p);
    if ok {
      PrintedNulFree(t, depth, fmt);
      UpdateAll(p, before, Printed(t, depth, fmt));
    }
  }

  method UpdateAll(p: PrintBuffer, ghost before: string, ghost text: string)
    requires p.Shows(before + text) && p.offset >= |before| && '\0' !in text
    modifies p`offset
    ensures p.Valid() && p.Text() == before + text
  {
    ghost var s := before + text;
    assert s[p.offset..] == text[p.offset - |before|..];
    p.Update(s);
    assert p.buffer[0..p.offset] == p.buffer[..p.offset];
  }

  lemma KidIs(item: Item, elems: seq<Json>, i: nat)
    requires item.Is(Array(elems)) && i < |elems|
    ensures |item.kids| == |elems| && item.kids[i].Is(elems[i]) && item.kids[i].next == Kid(item.kids, i + 1)
  {
  }

  lemma MemberIs(item: Item, members: seq<Member>, i: nat)
    requires item.Is(Object(members)) && i < |members|
    ensures |item.kids| == |members| && item.kids[i].Is(members[i].value) && item.kids[i].name == members[i].name
    ensures item.kids[i].next == Kid(item.kids, i + 1)
  {
  }

  // The first child.
  lemma FirstKid(item: Item, t: Json)
    requires item.Is(t) && (t.Array? || t.Object?)
    ensures item.child == Kid(item.kids, 0) && |item.kids| == if t.Array? then |t.elems| else |t.members|
  {
  }

  /** print_array with a printbuffer */
  method PrintArrayBuffered(item: Item, ghost elems: seq<Json>, depth: nat, fmt: bool, p: PrintBuffer)
    returns (ok: bool)
    requires item.Is(Array(elems)) && Plain(Array(elems)) && p.Valid()
    modifies p, p.buffer
    ensures p.noalloc == old(p.noalloc)
    ensures !ok ==> p.noalloc && old(p.offset) + |Printed(Array(elems), depth, fmt)| + SLACK > old(p.length)
    ensures ok ==> p.Shows(old(p.Text()) + Printed(Array(elems), depth, fmt)) && p.Kept()
    ensures ok ==> p.offset >= old(p.offset)
    decreases elems, 3
  {
    hide PrintedElems, Plain, Comma, Item.Is;
    FirstKid(item, Array(elems));
    if item.child == null {
      var a;
      ok, a := PrintText("[]", 3, p);
      return;
    }
    ghost var goal := p.Text() + "[" + PrintedElems(elems, depth + 1, fmt);
    ClosedArray(goal, p.Text(), elems, depth, fmt);
    ok := p.Append("[");
    if !ok {
      return;
    }
    var child := item.child;
    ghost var i := 0;
    assert elems[0..] == elems;
    while child != null
      invariant 0 <= i <= |elems| == |item.kids| && child == Kid(item.kids, i) && item.Is(Array(elems))
      invariant p.Valid() && p.Kept() && p.noalloc == old(p.noalloc)
      invariant p.Text() + RestElems(elems, i, depth + 1, fmt) == goal
      decreases |elems| - i
    {
      ghost var before, left := p.Text(), RestElems(elems, i + 1, depth + 1, fmt);
      KidIs(item, elems, i);
      RestElemsTurn(elems, i, depth + 1, fmt);
      PlainElem(elems, i);
      ok := PrintElem(child, elems[i], child.next == null, depth + 1, fmt, p);
      if !ok {
        return;
      }
      Regroup2(before, Printed(elems[i], depth + 1, fmt), if i + 1 < |elems| then Comma(false, fmt) else "", left);
      i := i + 1;
      child := child.next;
    }
    assert p.Text() == goal;
    ok := p.Close("]");
  }

  lemma ClosedArray(goal: string, before: string, elems: seq<Json>, depth: nat, fmt: bool)
    requires elems != [] && goal == before + "[" + PrintedElems(elems, depth + 1, fmt)
    ensures goal + "]" == before + Printed(Array(elems), depth, fmt)
  {
    hide PrintedElems;
    var inner := PrintedElems(elems, depth + 1, fmt);
    assert (before + "[" + inner) + "]" == before + ("[" + inner + "]");
  }

  lemma Regroup2(a: string, b: string, c: string, d: string)
    ensures (a + (b + c)) + d == a + (b + c + d)
  {
  }

  // One element with the comma behind it, and update.
  method PrintElem(item: Item, ghost t: Json, last: bool, depth: nat, fmt: bool, p: PrintBuffer) returns (ok: bool)
    requires item.Is(t) && Plain(t) && p.Valid()
    modifies p, p.buffer
    ensures p.noalloc == old(p.noalloc)
    ensures !ok ==>
              var text := Printed(t, depth, fmt) + (if last then "" else Comma(false, fmt));
              p.noalloc && old(p.offset) + |text| + SLACK > old(p.length)
    ensures ok ==>
              && p.Valid() && p.Kept()
              && p.Text() == old(p.Text()) + (Printed(t, depth, fmt) + (if last then "" else Comma(false, fmt)))
    decreases t, 3
  {
    hide Printed, Plain, Comma, Item.Is;
    ghost var before := p.Text();
    ok := PrintChild(item, t, depth, fmt, p);
    if ok && !last {
      ok := p.AppendTerminated(Comma(false, fmt));
      ghost var text, comma := Printed(t, depth, fmt), Comma(false, fmt);
      assert (before + text) + comma == before + (text + comma);
    }
  }

  lemma PlainElem(elems: seq<Json>, i: nat)
    requires i < |elems| && Plain(Array(elems))
    ensures Plain(elems[i])
  {
  }

  lemma PlainMember(members: seq<Member>, i: nat)
    requires i < |members| && Plain(Object(members))
    ensures '\0' !in members[i].name && Plain(members[i].value)
  {
  }

  // The key of a member, with the tabs before it and the colon behind it.
  method PrintKey(name: string, depth: nat, fmt: bool, p: PrintBuffer) returns (ok: bool)
    requires '\0' !in name && depth > 0 && p.Valid()
    modifies p, p.buffer
    ensures p.noalloc == old(p.noalloc)
    ensures !ok ==> p.noalloc && old(p.offset) + |Key(name, depth, fmt)| + SLACK > old(p.length)
    ensures ok ==> p.Valid() && p.Text() == old(p.Text()) + Key(name, depth, fmt) && p.Kept()
  {
    hide Quoted;
    ghost var before := p.Text();
    ok := true;
    if fmt {
      ok := p.Append(Tabs(depth));
      if !ok {
        return;
      }
    }
    ghost var middle := p.Text();
    var a;
    ok, a := PrintString(name, p);
    if !ok {
      return;
    }
    QuotedNulFree(name);
    UpdateAll(p, middle, Quoted(name));
    ok := p.Append(if fmt then ":\t" else ":");
  }

  lemma QuotedNulFree(s: string)
    requires '\0' !in s
    ensures '\0' !in Quoted(s)
  {
    EscapedNulFree(s);
  }

  /** print_object with a printbuffer */
  method PrintObjectBuffered(item: Item, ghost members: seq<Member>, depth0: nat, fmt: bool, p: PrintBuffer)
    returns (ok: bool)
    requires item.Is(Object(members)) && Plain(Object(members)) && p.Valid()
    modifies p, p.buffer
    ensures p.noalloc == old(p.noalloc)
    ensures !ok ==> p.noalloc && old(p.offset) + |Printed(Object(members), depth0, fmt)| + SLACK > old(p.length)
    ensures ok ==> p.Shows(old(p.Text()) + Printed(Object(members), depth0, fmt)) && p.Kept()
    ensures ok ==> p.offset >= old(p.offset)
    decreases members, 3
  {
    hide PrintedMembers, Plain, Key, MemberEnd, Item.Is, Tabs;
    FirstKid(item, Object(members));
    if item.child == null {
      var a;
      ok, a := PrintText(if fmt then "{\n" + Tabs(depth0) + "}" else "{}", if fmt then depth0 + 4 else 3, p);
      return;
    }
    ghost var goal := p.Text() + (if fmt then "{\n" else "{") + PrintedMembers(members, depth0 + 1, fmt);
    ClosedObject(goal, p.Text(), members, depth0, fmt);
    ok := p.AppendTerminated(if fmt then "{\n" else "{");
    if !ok {
      return;
    }
    ok := PrintMembersBuffered(item, members, depth0 + 1, fmt, p);
    if ok {
      ok := p.Close((if fmt then Tabs(depth0) else "") + "}");
    }
  }

  // The members of an object.
  method PrintMembersBuffered(item: Item, ghost members: seq<Member>, depth: nat, fmt: bool, p: PrintBuffer)
    returns (ok: bool)
    requires item.Is(Object(members)) && Plain(Object(members)) && members != [] && depth > 0 && p.Valid()
    modifies p, p.buffer
    ensures p.noalloc == old(p.noalloc)
    ensures !ok ==> p.noalloc && old(p.offset) + |PrintedMembers(members, depth, fmt)| + SLACK > old(p.length)
    ensures ok ==> p.Valid() && p.Text() == old(p.Text()) + PrintedMembers(members, depth, fmt) && p.Kept()
    decreases members, 2
  {
    hide PrintedMembers, Plain, Key, MemberEnd, Item.Is, Printed;
    FirstKid(item, Object(members));
    ghost var goal := p.Text() + PrintedMembers(members, depth, fmt);
    var child := item.child;
    ghost var i := 0;
    assert members[0..] == members;
    while child != null
      invariant 0 <= i <= |members| == |item.kids| && child == Kid(item.kids, i) && item.Is(Object(members))
      invariant p.Valid() && p.Kept() && p.noalloc == old(p.noalloc)
      invariant p.Text() + RestMembers(members, i, depth, fmt) == goal
      decreases |members| - i
    {
      MemberIs(item, members, i);
      ghost var before, left := p.Text(), RestMembers(members, i + 1, depth, fmt);
      RestMembersTurn(members, i, depth, fmt);
      PlainMember(members, i);
      ok := PrintMember(child, members[i], child.next == null, depth, fmt, p);
      if !ok {
        return;
      }
      Regroup3(before, Key(members[i].name, depth, fmt), Printed(members[i].value, depth, fmt),
               MemberEnd(i + 1 == |members|, fmt), left);
      i := i + 1;
      child := child.next;
    }
    assert p.Text() == goal;
    ok := true;
  }

  lemma Regroup3(a: string, b: string, c: string, d: string, e: string)
    ensures (a + (b + c + d)) + e == a + (b + c + d + e)
  {
  }

  lemma ClosedObject(goal: string, before: string, members: seq<Member>, depth: nat, fmt: bool)
    requires members != []
    requires goal == before + (if fmt then "{\n" else "{") + PrintedMembers(members, depth + 1, fmt)
    ensures goal + ((if fmt then Tabs(depth) else "") + "}") == before + Printed(Object(members), depth, fmt)
  {
    hide PrintedMembers, Tabs;
    var open, close := if fmt then "{\n" else "{", if fmt then Tabs(depth) else "";
    var inner := PrintedMembers(members, depth + 1, fmt);
    assert (before + open + inner) + (close + "}") == before + (open + inner + close + "}");
  }

  // One member, and update.
  method PrintMember(item: Item, ghost m: Member, last: bool, depth: nat, fmt: bool, p: PrintBuffer) returns (ok: bool)
    requires item.Is(m.value) && item.name == m.name && '\0' !in m.name && Plain(m.value) && depth > 0 && p.Valid()
    modifies p, p.buffer
    ensures p.noalloc == old(p.noalloc)
    ensures !ok ==>
              var text := Key(m.name, depth, fmt) + Printed(m.value, depth, fmt) + MemberEnd(last, fmt);
              p.noalloc && old(p.offset) + |text| + SLACK > old(p.length)
    ensures ok ==>
              && p.Valid() && p.Kept()
              && p.Text() == old(p.Text())
                           + (Key(m.name, depth, fmt) + Printed(m.value, depth, fmt) + MemberEnd(last, fmt))
    decreases m.value, 3
  {
    hide Printed, Plain, Key, MemberEnd, Item.Is;
    ok := PrintKey(item.name, depth, fmt, p);
    if !ok {
      return;
    }
    ok := PrintChild(item, m.value, depth, fmt, p);
    if !ok {
      return;
    }
    ok := p.AppendTerminated(MemberEnd(last, fmt));
  }

  /** cJSON_PrintBuffered: the printed text, whatever the size of the first buffer. */
  method PrintWithBuffer(item: Item, ghost t: Json, prebuffer: nat, fmt: bool) returns (a: array<char>)
    requires item.Is(t) && Plain(t)
    ensures TextAt(a, 0, Printed(t, 0, fmt), a.Length)
  {
    hide Printed, Plain, Item.Is;
    var buffer := new char[prebuffer](_ => '\0');
    var p := new PrintBuffer(buffer, prebuffer, false);
    var ok := PrintBuffered(item, t, 0, fmt, p);
    a := p.buffer;
    assert p.Shows([] + Printed(t, 0, fmt)) && [] + Printed(t, 0, fmt) == Printed(t, 0, fmt);
  }

  /** cJSON_PrintPreallocated: if it succeeds, the caller's buffer holds the printed text; it succeeds where the
      length leaves room for a number behind the text. */
  method PrintPreallocated(item: Item, ghost t: Json, buf: array<char>, len: nat, fmt: bool) returns (ok: bool)
    requires item.Is(t) && Plain(t) && len <= buf.Length
    modifies buf
    ensures ok ==> TextAt(buf, 0, Printed(t, 0, fmt), len)
    ensures |Printed(t, 0, fmt)| + SLACK <= len ==> ok
  {
    hide Printed, Plain, Item.Is;
    var p := new PrintBuffer(buf, len, true);
    ok := PrintBuffered(item, t, 0, fmt, p);
    assert ok ==> [] + Printed(t, 0, fmt) == Printed(t, 0, fmt);
  }

  // ---------- With an allocation for every value ----------

  /** The separate texts of the elements of an array. */
  ghost predicate AllPrinted(entries: seq<array<char>>, elems: seq<Json>, depth: nat, fmt: bool)
    requires |entries| <= |elems|
    reads entries
  {
    forall k :: 0 <= k < |entries| ==> TextAt(entries[k], 0, Printed(elems[k], depth, fmt), entries[k].Length)
  }

  /** print_value without a printbuffer */
  method Print(item: Item, ghost t: Json, depth: nat, fmt: bool) returns (a: array<char>)
    requires item.Is(t) && Plain(t)
    ensures fresh(a) && TextAt(a, 0, Printed(t, depth, fmt), a.Length)
    decreases t, 1
  {
    var ok;
    if item.kind.IsNull? {
      ok, a := PrintText("null", 5, null);
    } else if item.kind.IsFalse? {
      ok, a := PrintText("false", 6, null);
    } else if item.kind.IsTrue? {
      ok, a := PrintText("true", 5, null);
    } else if item.kind.IsNumber? {
      ok, a := PrintNumber(item.mantissa, null);
    } else if item.kind.IsString? {
      ok, a := PrintString(item.valueString, null);
    } else if item.kind.IsArray? {
      a := PrintArray(item, t.elems, depth, fmt);
    } else {
      a := PrintObject(item, t.members, depth, fmt);
    }
  }

  /** print_array without a printbuffer: all elements first, with a length that is enough for them,
      then everything into one string. */
  method PrintArray(item: Item, ghost elems: seq<Json>, depth: nat, fmt: bool) returns (out: array<char>)
    requires item.Is(Array(elems)) && Plain(Array(elems))
    ensures fresh(out) && TextAt(out, 0, Printed(Array(elems), depth, fmt), out.Length)
    decreases elems, 3
  {
    hide PrintedElems, Plain, Comma, Item.Is;
    FirstKid(item, Array(elems));
    if item.child == null {
      var ok;
      ok, out := PrintText("[]", 3, null);
      return;
    }
    var entries, len := PrintElems(item, elems, depth + 1, fmt);
    out := new char[len](_ => '\0');
    var end := ComposeElems(out, entries, elems, depth + 1, fmt);
    StrCpy(out, end, "]", len);
    assert out[0..end + 1] == out[..end] + out[end..end + 1];
  }

  // The loop over the children that prints them and adds up their lengths.
  method PrintElems(item: Item, ghost elems: seq<Json>, depth: nat, fmt: bool)
    returns (entries: seq<array<char>>, len: nat)
    requires item.Is(Array(elems)) && elems != [] && Plain(Array(elems))
    ensures |entries| == |elems| && AllPrinted(entries, elems, depth, fmt) && fresh(entries)
    ensures len >= |PrintedElems(elems, depth, fmt)| + 5
    decreases elems, 2
  {
    hide Printed, PrintedElems, Plain, TextAt, Item.Is;
    FirstKid(item, Array(elems));
    entries, len := [], 5;
    var child := item.child;
    ghost var i := 0;
    assert elems[0..] == elems;
    while child != null
      invariant 0 <= i <= |elems| == |item.kids| && |entries| == i && fresh(entries) && child == Kid(item.kids, i)
      invariant AllPrinted(entries, elems, depth, fmt)
      invariant len + |RestElems(elems, i, depth, fmt)| >= |PrintedElems(elems, depth, fmt)| + 5
      decreases |elems| - i
    {
      KidIs(item, elems, i);
      RestElemsTurn(elems, i, depth, fmt);
      PlainElem(elems, i);
      var ret, n := PrintOneElem(child, elems[i], depth, fmt);
      entries := entries + [ret];
      len := len + n + 2 + (if fmt then 1 else 0);
      i := i + 1;
      child := child.next;
    }
  }

  // One element and its length.
  method PrintOneElem(item: Item, ghost t: Json, depth: nat, fmt: bool) returns (ret: array<char>, n: nat)
    requires item.Is(t) && Plain(t)
    ensures fresh(ret) && TextAt(ret, 0, Printed(t, depth, fmt), ret.Length) && n == |Printed(t, depth, fmt)|
    decreases t, 2
  {
    hide Printed, Plain, TextAt, Item.Is;
    ret := Print(item, t, depth, fmt);
    PrintedNulFree(t, depth, fmt);
    n := StrLen(ret, 0, Printed(t, depth, fmt), ret.Length);
  }

  // The loop that puts the elements behind the bracket.
  method ComposeElems(out: array<char>, entries: seq<array<char>>, ghost elems: seq<Json>, depth: nat, fmt: bool)
    returns (ptr: nat)
    requires elems != [] && Plain(Array(elems))
    requires |entries| == |elems| && AllPrinted(entries, elems, depth, fmt) && out !in entries
    requires out.Length >= |PrintedElems(elems, depth, fmt)| + 3
    modifies out
    ensures ptr == 1 + |PrintedElems(elems, depth, fmt)| && out[..ptr] == "[" + PrintedElems(elems, depth, fmt)
  {
    hide Printed, PrintedElems, Plain, Comma, TextAt;
    ghost var goal := "[" + PrintedElems(elems, depth, fmt);
    StrCpy(out, 0, "[", out.Length);
    ptr := 1;
    var i := 0;
    assert elems[0..] == elems;
    FirstText(out, "[", out.Length);
    while i < |entries|
      invariant 0 <= i <= |elems| && 1 <= ptr
      invariant AllPrinted(entries, elems, depth, fmt)
      invariant ptr + |RestElems(elems, i, depth, fmt)| == |goal|
      invariant out[..ptr] + RestElems(elems, i, depth, fmt) == goal
    {
      ghost var before, left := out[..ptr], RestElems(elems, i + 1, depth, fmt);
      RestElemsTurn(elems, i, depth, fmt);
      PlainElem(elems, i);
      PrintedNulFree(elems[i], depth, fmt);
      ptr := CopyElem(out, ptr, entries[i], Printed(elems[i], depth, fmt),
                      if i + 1 < |entries| then Comma(false, fmt) else "");
      Regroup2(before, Printed(elems[i], depth, fmt), if i + 1 < |elems| then Comma(false, fmt) else "", left);
      i := i + 1;
    }
    assert out[..ptr] + "" == out[..ptr];
  }

  // One element and the comma behind it.
  method CopyElem(out: array<char>, ptr: nat, entry: array<char>, ghost text: string, comma: string) returns (end: nat)
    requires TextAt(entry, 0, text, entry.Length) && '\0' !in text && out != entry
    requires ptr + |text| + |comma| < out.Length
    modifies out
    ensures end == ptr + |text| + |comma| && out[..end] == old(out[..ptr]) + (text + comma)
  {
    var n := StrLen(entry, 0, text, entry.Length);
    ghost var before := out[..ptr];
    assert entry[..n] == entry[0..n] == text;
    StrCpy(out, ptr, entry[..n] + comma, out.Length);
    end := ptr + n + |comma|;
    assert out[ptr..end] == text + comma;
    assert out[..end] == out[..ptr] + out[ptr..end];
  }

  /** The separate texts of the keys and values of an object. */
  ghost predicate AllMembersPrinted(names: seq<array<char>>, entries: seq<array<char>>, members: seq<Member>,
                                    depth: nat, fmt: bool)
    requires |names| == |entries| <= |members|
    reads names, entries
  {
    forall k :: 0 <= k < |names| ==>
      && TextAt(names[k], 0, Quoted(members[k].name), names[k].Length)
      && TextAt(entries[k], 0, Printed(members[k].value, depth, fmt), entries[k].Length)
  }

  /** print_object without a printbuffer */
  method PrintObject(item: Item, ghost members: seq<Member>, depth0: nat, fmt: bool) returns (out: array<char>)
    requires item.Is(Object(members)) && Plain(Object(members))
    ensures fresh(out) && TextAt(out, 0, Printed(Object(members), depth0, fmt), out.Length)
    decreases members, 3
  {
    hide PrintedMembers, Plain, Tabs, Item.Is;
    FirstKid(item, Object(members));
    if item.child == null {
      var ok;
      ok, out := PrintText(if fmt then "{\n" + Tabs(depth0) + "}" else "{}", if fmt then depth0 + 4 else 3, null);
      return;
    }
    var depth := depth0 + 1;
    var names, entries, len := PrintMembers(item, members, depth, fmt);
    out := new char[len](_ => '\0');
    var end := ComposeMembers(out, names, entries, members, depth, fmt);
    CloseObject(out, end, members, depth0, fmt);
  }

  // The tabs and the closing brace.
  method CloseObject(out: array<char>, end: nat, ghost members: seq<Member>, depth: nat, fmt: bool)
    requires members != []
    requires end <= out.Length && out[..end] == (if fmt then "{\n" else "{") + PrintedMembers(members, depth + 1, fmt)
    requires end + (if fmt then depth else 0) + 1 < out.Length
    modifies out
    ensures TextAt(out, 0, Printed(Object(members), depth, fmt), out.Length)
  {
    hide PrintedMembers, Printed, Tabs;
    ghost var goal := out[..end];
    var close := (if fmt then Tabs(depth) else "") + "}";
    StrCpy(out, end, close, out.Length);
    assert out[0..end + |close|] == out[..end] + out[end..end + |close|] == goal + close;
    assert goal == [] + (if fmt then "{\n" else "{") + PrintedMembers(members, depth + 1, fmt);
    ClosedObject(goal, [], members, depth, fmt);
    assert [] + Printed(Object(members), depth, fmt) == Printed(Object(members), depth, fmt);
  }

  // The loop over the children that prints keys and values and adds up their lengths.
  method PrintMembers(item: Item, ghost members: seq<Member>, depth: nat, fmt: bool)
    returns (names: seq<array<char>>, entries: seq<array<char>>, len: nat)
    requires item.Is(Object(members)) && members != [] && Plain(Object(members))
    ensures |names| == |entries| == |members| && AllMembersPrinted(names, entries, members, depth, fmt)
    ensures fresh(names) && fresh(entries)
    ensures len >= |PrintedMembers(members, depth, fmt)| + 7 + (if fmt then depth else 0)
    decreases members, 2
  {
    hide Printed, PrintedMembers, Plain, Quoted, Key, MemberEnd, Item.Is, TextAt, AllMembersPrinted, RestMembers;
    FirstKid(item, Object(members));
    NonePrinted(members, depth, fmt);
    names, entries, len := [], [], 7 + (if fmt then depth else 0);
    var child := item.child;
    ghost var i := 0;
    while child != null
      invariant 0 <= i <= |members| == |item.kids| && child == Kid(item.kids, i)
      invariant |names| == |entries| == i && fresh(names) && fresh(entries)
      invariant AllMembersPrinted(names, entries, members, depth, fmt)
      invariant len + |RestMembers(members, i, depth, fmt)| >=
                |PrintedMembers(members, depth, fmt)| + 7 + (if fmt then depth else 0)
      decreases |members| - i
    {
      MemberIs(item, members, i);
      PlainMember(members, i);
      var str, ret, n := PrintOneMember(child, members[i], depth, fmt);
      MemberCost(members, i, depth, fmt);
      OneMorePrinted(names, entries, str, ret, members, depth, fmt);
      names, entries := names + [str], entries + [ret];
      len := len + n + 2 + (if fmt then 2 + depth else 0);
      i := i + 1;
      child := child.next;
    }
  }

  lemma NonePrinted(members: seq<Member>, depth: nat, fmt: bool)
    requires members != []
    ensures AllMembersPrinted([], [], members, depth, fmt)
    ensures RestMembers(members, 0, depth, fmt) == PrintedMembers(members, depth, fmt)
    ensures RestMembers(members, |members|, depth, fmt) == ""
  {
    hide PrintedMembers;
    assert members[0..] == members;
  }

  lemma OneMorePrinted(names: seq<array<char>>, entries: seq<array<char>>, name: array<char>, entry: array<char>,
                       members: seq<Member>, depth: nat, fmt: bool)
    requires |names| == |entries| < |members| && AllMembersPrinted(names, entries, members, depth, fmt)
    requires TextAt(name, 0, Quoted(members[|names|].name), name.Length)
    requires TextAt(entry, 0, Printed(members[|names|].value, depth, fmt), entry.Length)
    ensures AllMembersPrinted(names + [name], entries + [entry], members, depth, fmt)
  {
    hide TextAt, Quoted, Printed;
  }

  // What one member adds to the length is enough for it.
  lemma MemberCost(members: seq<Member>, i: nat, depth: nat, fmt: bool)
    requires i < |members|
    ensures |RestMembers(members, i, depth, fmt)| <=
              |Quoted(members[i].name)| + |Printed(members[i].value, depth, fmt)| + 2 + (if fmt then 2 + depth else 0)
              + |RestMembers(members, i + 1, depth, fmt)|
  {
    hide RestMembers, Printed, Quoted, Key, MemberEnd;
    RestMembersTurn(members, i, depth, fmt);
    MemberLength(members[i], i + 1 == |members|, depth, fmt);
  }

  lemma MemberLength(m: Member, last: bool, depth: nat, fmt: bool)
    ensures |Key(m.name, depth, fmt)| + |MemberEnd(last, fmt)| <= |Quoted(m.name)| + 2 + (if fmt then 2 + depth else 0)
  {
    hide Quoted;
  }

  // The key and the value of a member, and how long they are together.
  method PrintOneMember(item: Item, ghost m: Member, depth: nat, fmt: bool)
    returns (str: array<char>, ret: array<char>, n: nat)
    requires item.Is(m.value) && item.name == m.name && '\0' !in m.name && Plain(m.value)
    ensures fresh(str) && TextAt(str, 0, Quoted(m.name), str.Length)
    ensures fresh(ret) && TextAt(ret, 0, Printed(m.value, depth, fmt), ret.Length)
    ensures n == |Quoted(m.name)| + |Printed(m.value, depth, fmt)|
    decreases m.value, 3
  {
    hide Printed, Plain, Quoted, Item.Is;
    var ok;
    ok, str := PrintString(item.name, null);
    ret := Print(item, m.value, depth, fmt);
    QuotedNulFree(m.name);
    PrintedNulFree(m.value, depth, fmt);
    var nameLength := StrLen(str, 0, Quoted(m.name), str.Length);
    n := StrLen(ret, 0, Printed(m.value, depth, fmt), ret.Length);
    n := n + nameLength;
  }

  lemma FirstText(a: array<char>, text: string, cap: nat)
    requires TextAt(a, 0, text, cap)
    ensures |text| < cap <= a.Length && a[..|text|] == text
  {
    assert a[..|text|] == a[0..|text|];
  }

  // The loop that puts the members behind the brace.
  method ComposeMembers(out: array<char>, names: seq<array<char>>, entries: seq<array<char>>,
                        ghost members: seq<Member>, depth: nat, fmt: bool)
    returns (ptr: nat)
    requires members != [] && Plain(Object(members))
    requires |names| == |entries| == |members| && AllMembersPrinted(names, entries, members, depth, fmt)
    requires out !in names && out !in entries
    requires out.Length > |PrintedMembers(members, depth, fmt)| + 2
    modifies out
    ensures var goal := (if fmt then "{\n" else "{") + PrintedMembers(members, depth, fmt);
            ptr == |goal| && out[..ptr] == goal
  {
    hide Printed, PrintedMembers, Plain, Quoted, Key, MemberEnd, TextAt;
    ghost var goal := (if fmt then "{\n" else "{") + PrintedMembers(members, depth, fmt);
    StrCpy(out, 0, if fmt then "{\n" else "{", out.Length);
    ptr := if fmt then 2 else 1;
    var i := 0;
    assert members[0..] == members;
    FirstText(out, if fmt then "{\n" else "{", out.Length);
    while i < |entries|
      invariant 0 <= i <= |members| && 1 <= ptr
      invariant AllMembersPrinted(names, entries, members, depth, fmt)
      invariant ptr + |RestMembers(members, i, depth, fmt)| == |goal|
      invariant out[..ptr] + RestMembers(members, i, depth, fmt) == goal
    {
      ghost var m, before, left := members[i], out[..ptr], RestMembers(members, i + 1, depth, fmt);
      RestMembersTurn(members, i, depth, fmt);
      PlainMember(members, i);
      PrintedNulFree(m.value, depth, fmt);
      ptr := CopyMember(out, ptr, names[i], entries[i], m, Printed(m.value, depth, fmt), i + 1 == |entries|, depth,
                        fmt);
      Regroup3(before, Key(m.name, depth, fmt), Printed(m.value, depth, fmt), MemberEnd(i + 1 == |members|, fmt), left);
      i := i + 1;
    }
    assert out[..ptr] + "" == out[..ptr];
  }

  // One key with tabs and colon, its value, and what follows.
  method CopyMember(out: array<char>, ptr: nat, name: array<char>, entry: array<char>, ghost m: Member,
                    ghost text: string, last: bool, depth: nat, fmt: bool)
    returns (end: nat)
    requires '\0' !in m.name && TextAt(name, 0, Quoted(m.name), name.Length)
    requires '\0' !in text && TextAt(entry, 0, text, entry.Length) && out != entry && out != name
    requires ptr + |Key(m.name, depth, fmt)| + |text| + |MemberEnd(last, fmt)| < out.Length
    modifies out
    ensures var all := Key(m.name, depth, fmt) + text + MemberEnd(last, fmt);
            end == ptr + |all| && out[..end] == old(out[..ptr]) + all
  {
    hide Quoted, Key, MemberEnd, TextAt;
    ghost var before := out[..ptr];
    end := CopyKey(out, ptr, name, m.name, depth, fmt);
    end := CopyElem(out, end, entry, text, MemberEnd(last, fmt));
    Regroup4(before, Key(m.name, depth, fmt), text, MemberEnd(last, fmt));
  }

  lemma Regroup4(a: string, b: string, c: string, d: string)
    ensures (a + b) + (c + d) == a + (b + c + d)
  {
  }

  method CopyKey(out: array<char>, ptr: nat, name: array<char>, ghost text: string, depth: nat, fmt: bool)
    returns (end: nat)
    requires '\0' !in text && TextAt(name, 0, Quoted(text), name.Length) && out != name
    requires ptr + |Key(text, depth, fmt)| < out.Length
    modifies out
    ensures end == ptr + |Key(text, depth, fmt)| && out[..end] == old(out[..ptr]) + Key(text, depth, fmt)
  {
    hide Quoted;
    QuotedNulFree(text);
    var n := StrLen(name, 0, Quoted(text), name.Length);
    assert name[..n] == name[0..n];
    var key := (if fmt then Tabs(depth) else "") + name[..n] + (if fmt then ":\t" else ":");
    StrCpy(out, ptr, key, out.Length);
    end := ptr + |key|;
    assert out[..end] == out[..ptr] + out[ptr..end];
  }

  /** cJSON_Print or cJSON_PrintUnformatted, then cJSON_ParseWithOpts on the string: new nodes that stand
      for the same value. */
  method PrintThenParse(item: Item, ghost t: Json, fmt: bool) returns (copy: Item?)
    requires item.Is(t) && Plain(t)
    ensures copy != null && fresh(copy) && copy.Is(t)
  {
    hide Printed, Plain, Parsed, Item.Is;
    var a := Print(item, t, 0, fmt);
    ParseOfPrinted(t, fmt);
    PrintedNulFree(t, 0, fmt);
    var n := StrLen(a, 0, Printed(t, 0, fmt), a.Length);
    assert a[..n] == a[0..n];
    var end;
    ghost var t1;
    copy, end, t1 := ParseWithOpts(a[..n], true);
  }
}
