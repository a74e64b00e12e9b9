/** What is typed, and what the console makes of it, in numbers: every input is a sequence of commands with what was
    given up before them, and exactly these commands are received. */
module ConsoleInput {
  import opened Basics
  import opened Console

  /** The characters from the space to the tilde. */
  predicate Printable(s: seq<Byte>) {
    forall i :: 0 <= i < |s| ==> 32 <= s[i] <= 126
  }

  /** A line that is given up: at a character that is not printable and ends no line, or at 256 characters. */
  predicate GivenUp(s: seq<Byte>) {
    || (|s| == 256 && Printable(s))
    || (1 <= |s| <= 256 && Printable(s[..|s| - 1])
        && var last := s[|s| - 1]; !(32 <= last <= 126) && last != 10 && last != 13)
  }

  /** Lines that are given up, and then one that is not. */
  datatype Keys = Keys(givenUp: seq<seq<Byte>>, line: Line)

  /** A command and how it ends: with a newline, a carriage return, or both. */
  datatype Command = Command(keys: Keys, end: seq<Byte>)

  predicate KeysFit(k: Keys) {
    Printable(k.line) && |k.line| < 256 && forall s <- k.givenUp :: GivenUp(s)
  }

  function KeysBytes(k: Keys): seq<Byte>
    decreases |k.givenUp|
  {
    if k.givenUp == [] then k.line else k.givenUp[0] + KeysBytes(k.(givenUp := k.givenUp[1..]))
  }

  /** All commands, and the line that is not complete yet. */
  function Typed(commands: seq<Command>, last: Keys): seq<Byte>
    decreases |commands|
  {
    if commands == [] then KeysBytes(last)
    else KeysBytes(commands[0].keys) + (commands[0].end + Typed(commands[1..], last))
  }

  /** A carriage return alone is not followed by a newline. */
  predicate EndFits(end: seq<Byte>, rest: seq<Byte>) {
    end == [10] || end == [13, 10] || (end == [13] && !(rest != [] && rest[0] == 10))
  }

  predicate TypedFits(commands: seq<Command>, last: Keys)
    decreases |commands|
  {
    if commands == [] then KeysFit(last)
    else
      && KeysFit(commands[0].keys) && EndFits(commands[0].end, Typed(commands[1..], last))
      && TypedFits(commands[1..], last)
  }

  function CommandLines(commands: seq<Command>): seq<Line> {
    if commands == [] then [] else [commands[0].keys.line] + CommandLines(commands[1..])
  }

  // ---------- One line ----------

  lemma {:induction false} PrintableScan(partial: Line, s: seq<Byte>, rest: seq<Byte>)
    requires Printable(s) && |partial| + |s| <= 256
    ensures ScanLine(partial, s + rest) == ScanLine(partial + s, rest)
    decreases |s|
  {
    hide ScanLine;
    if s == [] {
      assert s + rest == rest && partial + s == partial;
    } else {
      ScanTurn(partial, s + rest);
      assert (s + rest)[1..] == s[1..] + rest;
      PrintableScan(partial + [s[0]], s[1..], rest);
      assert (partial + [s[0]]) + s[1..] == partial + s;
    }
  }

  lemma GivenUpScan(s: seq<Byte>, rest: seq<Byte>)
    requires GivenUp(s)
    ensures ScanLine([], s + rest) == ScanLine([], rest)
  {
    hide ScanLine;
    if |s| == 256 && Printable(s) {
      PrintableScan([], s, rest);
      ScanTurn([] + s, rest);
    } else {
      var front, last := s[..|s| - 1], s[|s| - 1];
      assert s + rest == front + ([last] + rest);
      PrintableScan([], front, [last] + rest);
      ScanTurn([] + front, [last] + rest);
      assert ([last] + rest)[1..] == rest;
    }
  }

  lemma {:induction false} KeysScan(k: Keys, rest: seq<Byte>)
    requires KeysFit(k)
    ensures ScanLine([], KeysBytes(k) + rest) == ScanLine(k.line, rest)
    decreases |k.givenUp|
  {
    hide ScanLine, GivenUp, Printable;
    if k.givenUp == [] {
      PrintableScan([], k.line, rest);
      assert [] + k.line == k.line;
    } else {
      var more := k.(givenUp := k.givenUp[1..]);
      assert k.givenUp[0] in k.givenUp && forall s <- more.givenUp :: s in k.givenUp;
      KeysScan(more, rest);
      GivenUpScan(k.givenUp[0], KeysBytes(more) + rest);
      assert KeysBytes(k) + rest == k.givenUp[0] + (KeysBytes(more) + rest);
    }
  }

  /** A command of fewer than 256 printable characters is received as it was typed. */
  lemma CommandScanned(k: Keys, end: Byte, rest: seq<Byte>)
    requires KeysFit(k) && (end == 10 || end == 13)
    ensures ScanLine([], KeysBytes(k) + ([end] + rest)) == Complete(k.line, end, rest)
  {
    hide ScanLine;
    KeysScan(k, [end] + rest);
    ScanTurn(k.line, [end] + rest);
    assert ([end] + rest)[1..] == rest;
  }

  // ---------- All lines ----------

  lemma LastKeys(k: Keys)
    requires KeysFit(k)
    ensures Lines([], KeysBytes(k)) == Input([], k.line)
  {
    hide ScanLine;
    KeysScan(k, []);
    ScanTurn(k.line, []);
    assert KeysBytes(k) + [] == KeysBytes(k);
  }

  lemma CommandEnds(k: Keys, end: seq<Byte>, rest: seq<Byte>)
    requires KeysFit(k) && EndFits(end, rest)
    ensures Lines([], KeysBytes(k) + (end + rest)) == Joined(Input([k.line], []), Lines([], rest))
  {
    hide ScanLine, Lines;
    if end == [13, 10] {
      assert end + rest == [13] + ([10] + rest);
      CommandScanned(k, 13, [10] + rest);
      assert ([10] + rest)[1..] == rest;
    } else {
      CommandScanned(k, end[0], rest);
    }
    LineFirst(KeysBytes(k) + (end + rest));
  }

  lemma LineFirst(data: seq<Byte>)
    requires ScanLine([], data).Complete?
    ensures var r := ScanLine([], data);
            Lines([], data) == Joined(Input([r.line], []), Lines([], AfterEnd(r.end, r.rest).1))
  {
    hide ScanLine;
  }

  /** What is typed is received, command by command. */
  lemma {:induction false} LinesTyped(commands: seq<Command>, last: Keys)
    requires TypedFits(commands, last)
    ensures Lines([], Typed(commands, last)) == Input(CommandLines(commands), last.line)
    decreases |commands|
  {
    hide Lines, KeysFit, EndFits;
    if commands == [] {
      LastKeys(last);
    } else {
      LinesTyped(commands[1..], last);
      CommandEnds(commands[0].keys, commands[0].end, Typed(commands[1..], last));
    }
  }

  // ---------- Every input was typed so ----------

  /** The keys up to the first end of a line, or to the end. */
  lemma {:induction false} KeysOf(partial: Line, data: seq<Byte>) returns (k: Keys, rest: seq<Byte>)
    requires Printable(partial) && |partial| < 256
    ensures KeysFit(k) && partial + data == KeysBytes(k) + rest && |rest| <= |data|
    ensures rest != [] ==> rest[0] == 10 || rest[0] == 13
    decreases |data|
  {
    if data == [] || data[0] == 10 || data[0] == 13 {
      k, rest := Keys([], partial), data;
    } else {
      var longer := partial + [data[0]];
      assert partial + data == longer + data[1..];
      if |longer| < 256 && Printable(longer) {
        k, rest := KeysOf(longer, data[1..]);
      } else {
        assert longer[..|longer| - 1] == partial;
        assert 32 <= data[0] <= 126 ==> Printable(longer);
        var more;
        more, rest := KeysOf([], data[1..]);
        k := KeysBefore(longer, more);
        assert [] + data[1..] == data[1..];
        assert partial + data == longer + (KeysBytes(more) + rest) == (longer + KeysBytes(more)) + rest;
      }
    }
  }

  lemma KeysBefore(s: seq<Byte>, more: Keys) returns (k: Keys)
    requires GivenUp(s) && KeysFit(more)
    ensures KeysFit(k) && KeysBytes(k) == s + KeysBytes(more)
  {
    hide GivenUp, Printable;
    k := Keys([s] + more.givenUp, more.line);
    assert k.givenUp[1..] == more.givenUp && k.(givenUp := k.givenUp[1..]) == more;
  }

  /** Whatever comes in are commands, with what was given up before them, and a line begun. */
  lemma {:induction false} EveryInput(data: seq<Byte>) returns (commands: seq<Command>, last: Keys)
    ensures TypedFits(commands, last) && data == Typed(commands, last)
    decreases |data|
  {
    hide KeysFit, GivenUp, Printable;
    NothingTyped();
    var k, rest := KeysOf([], data);
    assert [] + data == data;
    if rest == [] {
      commands, last := [], k;
      assert KeysBytes(k) + [] == KeysBytes(k);
    } else {
      var both := rest[0] == 13 && |rest| > 1 && rest[1] == 10;
      var end := if both then rest[..2] else rest[..1];
      var behind := rest[|end|..];
      assert rest == end + behind;
      var more;
      more, last := EveryInput(behind);
      commands := [Command(k, end)] + more;
      assert commands[1..] == more;
      assert EndFits(end, behind);
    }
  }

  lemma NothingTyped()
    ensures Printable([])
  {
  }

  /** Before a line begun is complete, it is part of what was typed. */
  lemma LinesFrom(partial: Line, data: seq<Byte>)
    requires Printable(partial) && |partial| < 256
    ensures Lines(partial, data) == Lines([], partial + data)
  {
    hide ScanLine;
    PrintableScan([], partial, data);
    assert [] + partial == partial;
  }

  /** An input makes exactly the commands that it was typed as. */
  lemma TypedExact(partial: Line, data: seq<Byte>, lines: seq<Line>, begun: Line)
    requires Printable(partial) && |partial| < 256
    ensures Lines(partial, data) == Input(lines, begun) <==>
            exists commands, last ::
              && TypedFits(commands, last) && partial + data == Typed(commands, last)
              && lines == CommandLines(commands) && begun == last.line
  {
    hide Lines, Printable, TypedFits, Typed, CommandLines;
    LinesFrom(partial, data);
    if Lines(partial, data) == Input(lines, begun) {
      var commands, last := EveryInput(partial + data);
      LinesTyped(commands, last);
    }
    if commands, last :| TypedFits(commands, last) && partial + data == Typed(commands, last)
                         && lines == CommandLines(commands) && begun == last.line {
      LinesTyped(commands, last);
    }
  }

  // ---------- The console ----------

  lemma BegunPrintable(c: Priv)
    requires c.Valid()
    ensures Printable(c.Begun()) && |c.Begun()| < 256
  {
    hide Priv.Owned, Priv.InOrder;
    c.RxInRange();
  }

  lemma NothingLeftOver(received: seq<Line>, begun: Line)
    requires |begun| < 256
    ensures Total(received, begun, []) == Input(received, begun)
  {
    NoMore(begun);
    assert received + [] == received;
  }

  /** One command, typed in one go. */
  method ReceiveCommand(c: Priv, ghost k: Keys, ghost end: Byte, ghost rest: seq<Byte>)
    requires c.Valid() && c.rxIdx < c.n && KeysFit(k) && (end == 10 || end == 13)
    requires c.Partial() == [] && c.Data() == KeysBytes(k) + ([end] + rest)
    modifies c, c.free, c.ready, c.buf[c.rxIdx]
    ensures c.Valid() && c.received == old(c.received) + [k.line] && c.Data() == AfterEnd(end, rest).1
  {
    hide Priv.Owned, Priv.InOrder, Priv.Receiving, ScanLine, KeysBytes, KeysFit, Priv.Partial;
    CommandScanned(k, end, rest);
    var complete, restart := c.ReceiveLine();
  }

  /** Every interleaving of interrupts and task steps: when all characters were looked at and none was lost or cut
      from its newline, the commands typed were received, each of them whole, and executed in their order. */
  method EnterCommands(c: Priv, events: seq<Event>, ghost commands: seq<Command>, ghost last: Keys)
    returns (ghost lost: seq<Byte>)
    requires c.Valid() && TypedFits(commands, last)
    requires c.Begun() + (c.Data() + Chars(events)) == Typed(commands, last)
    modifies c, c.free, c.ready, c.buf
    ensures c.Valid() && c.executed <= c.received && old(c.executed) <= c.executed
    ensures lost == [] && NoCut(old(c.Data()), events) && c.Data() == [] ==>
              c.received == old(c.received) + CommandLines(commands) && c.Begun() == last.line
  {
    hide Priv.Owned, Priv.InOrder, Priv.Receiving, Priv.Begun, Priv.Data, Lines, NoCut, Typed, TypedFits, CommandLines;
    ghost var r0, p0, input := c.received, c.Begun(), c.Data() + Chars(events);
    BegunPrintable(c);
    TypedExact(p0, input, CommandLines(commands), last.line);
    lost := Interleave(c, events);
    BegunPrintable(c);
    NothingLeftOver(c.received, c.Begun());
  }
}
