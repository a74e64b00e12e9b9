/** The command line buffers of src/console/console.c, passed between the receive interrupt and the console
    task. The interrupt handler is one step; the task is cut into the steps between which an interrupt
    can come. The source has two buffers; here there are n. */
module Console {
  import opened Basics

  const LINE_MAX_LEN := 256

  predicate IsPrint(c: Byte) {
    0x20 <= c < 0x7F
  }

  // ---------- The ring of buffers ----------

  /** The index i places behind head. */
  function Ahead(head: nat, i: nat, n: nat): (b: nat)
    requires head < n && i <= n
    ensures b < n
  {
    if head + i < n then head + i else head + i - n
  }

  /** How many places an index is behind head. */
  function Place(head: nat, b: nat, n: nat): (p: nat)
    requires head < n && b < n
    ensures p < n && Ahead(head, p, n) == b
  {
    if b >= head then b - head else b - head + n
  }

  lemma PlaceOfAhead(head: nat, i: nat, n: nat)
    requires head < n && i < n
    ensures Place(head, Ahead(head, i, n), n) == i
  {
  }

  lemma AheadTwice(head: nat, i: nat, k: nat, n: nat)
    requires head < n && i < n && i + k <= n
    ensures Ahead(Ahead(head, i, n), k, n) == Ahead(head, i + k, n)
  {
  }

  /** What the task is doing. */
  datatype Phase =
    | Waiting
    | Woken
    | Running(idx: nat)
    | Ran(idx: nat)

  type Line = seq<Byte>

  /** A complete line as a C string in a buffer. */
  ghost predicate Holds(a: array<Byte>, line: Line)
    reads a
  {
    && a.Length == LINE_MAX_LEN && |line| < LINE_MAX_LEN
    && (forall i :: 0 <= i < |line| ==> a[i] == line[i] && IsPrint(line[i]))
    && a[|line|] == 0
  }

  /** console_get_valid_buf_idx: the first valid index behind last, which becomes invalid. */
  method GetValid(bitmap: array<bool>, last: nat) returns (idx: nat)
    requires last < bitmap.Length
    modifies bitmap
    ensures var n := bitmap.Length;
            && (idx == n ==> bitmap[..] == old(bitmap[..]) && forall b :: 0 <= b < n ==> !bitmap[b])
            && (idx != n ==>
                 && idx < n && old(bitmap[idx])
                 && bitmap[..] == old(bitmap[..])[idx := false]
                 && exists k :: 1 <= k <= n && idx == Ahead(last, k, n) &&
                      forall j :: 1 <= j < k ==> !old(bitmap[Ahead(last, j, n)]))
  {
    var n := bitmap.Length;
    var loop := n;
    idx := last;
    while loop > 0
      invariant 0 <= loop <= n && idx == Ahead(last, n - loop, n)
      invariant bitmap[..] == old(bitmap[..])
      invariant forall j :: 1 <= j <= n - loop ==> !bitmap[Ahead(last, j, n)]
    {
      ghost var k := n - loop + 1;
      idx := if idx + 1 == n then 0 else idx + 1;
      if bitmap[idx] {
        bitmap[idx] := false;
        assert idx == Ahead(last, k, n);
        return;
      }
      loop := loop - 1;
    }
    forall b | 0 <= b < n
      ensures !bitmap[b]
    {
      var p := Place(last, b, n);
      assert b == Ahead(last, if p == 0 then n else p, n);
    }
    idx := n;
  }

  /** Every buffer has one owner: from head on, first the ready ones, then the one that receives, then the
      free ones, then the one the task executes, if there is one. */
  predicate Owns(free: seq<bool>, ready: seq<bool>, rxIdx: nat, head: nat, count: nat, busy: nat) {
    var n := |free|;
    && |ready| == n && head < n && busy <= 1 && count + busy <= n
    && (forall b :: 0 <= b < n ==> (ready[b] <==> Place(head, b, n) < count))
    && (forall b :: 0 <= b < n ==> (free[b] <==> count < Place(head, b, n) < n - busy))
    && rxIdx == (if count + busy < n then Ahead(head, count, n) else n)
  }

  lemma OwnsFacts(free: seq<bool>, ready: seq<bool>, rxIdx: nat, head: nat, count: nat, busy: nat)
    requires Owns(free, ready, rxIdx, head, count, busy)
    ensures head < |free| && count + busy <= |free| && rxIdx <= |free| && (rxIdx < |free| <==> count + busy < |free|)
  {
  }

  lemma AheadIsNext(head: nat, n: nat)
    requires head < n
    ensures Ahead(Ahead(head, 1, n), n - 1, n) == head
    ensures forall i :: 0 <= i < n - 1 ==> Ahead(Ahead(head, 1, n), i, n) == Ahead(head, i + 1, n)
  {
  }

  lemma PlaceNext(head: nat, b: nat, n: nat)
    requires head < n && b < n
    ensures Place(Ahead(head, 1, n), b, n) == (if Place(head, b, n) == 0 then n - 1 else Place(head, b, n) - 1)
  {
  }

  /** Taking the first ready buffer. */
  lemma OwnsTake(free: seq<bool>, ready: seq<bool>, rxIdx: nat, head: nat, count: nat)
    requires Owns(free, ready, rxIdx, head, count, 0) && count > 0
    ensures ready[head] && Owns(free, ready[head := false], rxIdx, Ahead(head, 1, |free|), count - 1, 1)
    ensures head == Ahead(Ahead(head, |free| - 1, |free|), 1, |free|)
  {
    var n := |free|;
    forall b | 0 <= b < n
      ensures Place(Ahead(head, 1, n), b, n) == (if Place(head, b, n) == 0 then n - 1 else Place(head, b, n) - 1)
    {
      PlaceNext(head, b, n);
    }
    assert Place(head, head, n) == 0;
  }

  /** Giving the executed buffer back: to the receiver if it has none. */
  lemma OwnsRelease(free: seq<bool>, ready: seq<bool>, rxIdx: nat, head: nat, count: nat, e: nat)
    requires Owns(free, ready, rxIdx, head, count, 1) && e == Ahead(head, |free| - 1, |free|)
    ensures if rxIdx == |free| then Owns(free, ready, e, head, count, 0)
            else Owns(free[e := true], ready, rxIdx, head, count, 0)
  {
    var n := |free|;
    PlaceOfAhead(head, n - 1, n);
  }

  /** A complete line: its buffer becomes ready, and the next free one, if any, receives. */
  lemma OwnsReceive(free: seq<bool>, ready: seq<bool>, rxIdx: nat, head: nat, count: nat, busy: nat)
    requires Owns(free, ready, rxIdx, head, count, busy) && rxIdx < |free|
    ensures var n := |free|;
            var next := Ahead(rxIdx, 1, n);
            if count + 1 + busy < n then
              free[next] && Owns(free[next := false], ready[rxIdx := true], next, head, count + 1, busy)
            else
              (forall b :: 0 <= b < n ==> !free[b]) && Owns(free, ready[rxIdx := true], n, head, count + 1, busy)
  {
    var n := |free|;
    PlaceOfAhead(head, count, n);
    if count + 1 + busy < n {
      AheadTwice(head, count, 1, n);
      PlaceOfAhead(head, count + 1, n);
    }
  }

  // ---------- Lines ----------

  const NEWLINE: Byte := 10
  const RETURN: Byte := 13

  datatype Scan = More(partial: Line) | Complete(line: Line, end: Byte, rest: seq<Byte>)

  /** What becomes of characters: a line grows with printable characters and starts again after any other
      character or when it is too long; a newline or carriage return completes it. */
  function ScanLine(partial: Line, data: seq<Byte>): (r: Scan)
    ensures r.Complete? ==> |r.rest| < |data|
    decreases |data|, |partial|
  {
    if |partial| >= LINE_MAX_LEN then ScanLine([], data)
    else if data == [] then More(partial)
    else if data[0] == NEWLINE || data[0] == RETURN then Complete(partial, data[0], data[1..])
    else if IsPrint(data[0]) then ScanLine(partial + [data[0]], data[1..])
    else ScanLine([], data[1..])
  }

  // One character.
  lemma ScanTurn(partial: Line, data: seq<Byte>)
    ensures |partial| >= LINE_MAX_LEN ==> ScanLine(partial, data) == ScanLine([], data)
    ensures |partial| < LINE_MAX_LEN && data == [] ==> ScanLine(partial, data) == More(partial)
    ensures |partial| < LINE_MAX_LEN && data != [] ==>
              ScanLine(partial, data) ==
                if data[0] == NEWLINE || data[0] == RETURN then Complete(partial, data[0], data[1..])
                else ScanLine(if IsPrint(data[0]) then partial + [data[0]] else [], data[1..])
  {
  }

  /** After a carriage return a newline is skipped, if it is there already; any other character that is
      there makes the handler go on. */
  function AfterEnd(end: Byte, rest: seq<Byte>): (bool, seq<Byte>) {
    if end == RETURN && rest != [] then
      if rest[0] == NEWLINE then (false, rest[1..]) else (true, rest)
    else
      (false, rest)
  }

  /** A carriage return and a newline end one line if they come together; if the newline comes in a later
      interrupt it ends another line, an empty one. */
  lemma SplitReturnNewline(partial: Line)
    requires |partial| < LINE_MAX_LEN
    ensures ScanLine(partial, [RETURN, NEWLINE]) == Complete(partial, RETURN, [NEWLINE])
    ensures AfterEnd(RETURN, [NEWLINE]) == (false, [])
    ensures ScanLine(partial, [RETURN]) == Complete(partial, RETURN, []) && AfterEnd(RETURN, []) == (false, [])
    ensures ScanLine([], [NEWLINE]) == Complete([], NEWLINE, [])
  {
    assert [RETURN, NEWLINE][1..] == [NEWLINE] && [NEWLINE][1..] == [] && [RETURN][1..] == [];
  }

  /** Characters that come in two interrupts are scanned like characters that come in one. */
  lemma {:induction false} ScanInPieces(partial: Line, a: seq<Byte>, b: seq<Byte>)
    ensures ScanLine(partial, a + b) ==
              match ScanLine(partial, a)
              case More(p) => ScanLine(p, b)
              case Complete(line, end, rest) => Complete(line, end, rest + b)
    decreases |a|, |partial|
  {
    if |partial| >= LINE_MAX_LEN {
      ScanInPieces([], a, b);
    } else if a == [] {
      assert a + b == b;
    } else {
      assert (a + b)[1..] == a[1..] + b;
      if IsPrint(a[0]) {
        ScanInPieces(partial + [a[0]], a[1..], b);
      } else if a[0] != NEWLINE && a[0] != RETURN {
        ScanInPieces([], a[1..], b);
      }
    }
  }

  // What a scan leaves is the end of the data, behind the character that ended the line.
  lemma {:induction false} ScanEnd(partial: Line, data: seq<Byte>)
    ensures match ScanLine(partial, data)
            case More(_) => !EndsInReturn(data)
            case Complete(_, end, rest) =>
              |rest| < |data| && (end == RETURN || end == NEWLINE) && data == data[..|data| - |rest| - 1] + [end] + rest
    decreases |data|, |partial|
  {
    ScanTurn(partial, data);
    if |partial| >= LINE_MAX_LEN {
      ScanEnd([], data);
    } else if data != [] {
      assert data == data[..0] + [data[0]] + data[1..];
      if data[0] != NEWLINE && data[0] != RETURN {
        ScanEnd(if IsPrint(data[0]) then partial + [data[0]] else [], data[1..]);
      }
    }
  }

  datatype Input = Input(lines: seq<Line>, partial: Line)

  /** The lines of a whole input, and the line that is not complete yet. */
  function Lines(partial: Line, data: seq<Byte>): (r: Input)
    decreases |data|
  {
    match ScanLine(partial, data)
    case More(p) => Input([], p)
    case Complete(line, end, rest) => Joined(Input([line], []), Lines([], AfterEnd(end, rest).1))
  }

  function Joined(first: Input, second: Input): Input {
    Input(first.lines + second.lines, second.partial)
  }

  predicate EndsInReturn(data: seq<Byte>) {
    data != [] && data[|data| - 1] == RETURN
  }

  predicate BeginsWithNewline(data: seq<Byte>) {
    data != [] && data[0] == NEWLINE
  }

  /** A carriage return and a newline are cut apart. */
  predicate CutApart(a: seq<Byte>, b: seq<Byte>) {
    EndsInReturn(a) && BeginsWithNewline(b)
  }

  /** Without the first line, where they were cut apart. */
  function Mended(r: Input, cut: bool): Input {
    if cut && r.lines != [] then Input(r.lines[1..], r.partial) else r
  }

  lemma JoinedTwice(a: Input, b: Input, c: Input)
    ensures Joined(Joined(a, b), c) == Joined(a, Joined(b, c))
  {
    assert (a.lines + b.lines) + c.lines == a.lines + (b.lines + c.lines);
  }

  lemma NewlineFirst(b: seq<Byte>)
    requires BeginsWithNewline(b)
    ensures Lines([], b) == Joined(Input([[]], []), Lines([], b[1..]))
  {
    ScanTurn([], b);
  }

  lemma NoMore(partial: Line)
    requires |partial| < LINE_MAX_LEN
    ensures Lines(partial, []) == Input([], partial)
  {
  }

  /** Characters that come in two interrupts make the same lines as characters that come in one; only where a
      carriage return and a newline are cut apart there is one more line, an empty one. */
  lemma {:induction false} LinesInPieces(partial: Line, a: seq<Byte>, b: seq<Byte>)
    ensures var first := Lines(partial, a);
            var second := Lines(first.partial, b);
            && Lines(partial, a + b) == Joined(first, Mended(second, CutApart(a, b)))
            && (CutApart(a, b) ==> first.partial == [] && second.lines != [] && second.lines[0] == [])
    decreases |a|
  {
    hide ScanLine, EndsInReturn;
    ScanInPieces(partial, a, b);
    ScanEnd(partial, a);
    match ScanLine(partial, a)
    case More(p) =>
    case Complete(line, end, rest) =>
      if rest == [] {
        LastLine(partial, a, b, line, end);
      } else {
        var r, cut := AfterEnd(end, rest).1, CutApart(a, b);
        assert AfterEnd(end, rest + b).1 == r + b;
        LinesInPieces([], r, b);
        SameEnd(a, end, rest);
        var first := Lines([], r);
        JoinedTwice(Input([line], []), first, Mended(Lines(first.partial, b), cut));
      }
  }

  // Behind a line, the data ends as it did.
  lemma SameEnd(a: seq<Byte>, end: Byte, rest: seq<Byte>)
    requires rest != [] && |rest| < |a| && a == a[..|a| - |rest| - 1] + [end] + rest
    ensures EndsInReturn(AfterEnd(end, rest).1) == EndsInReturn(a)
  {
    assert a[|a| - 1] == rest[|rest| - 1];
  }

  // The line ends with the last character.
  lemma LastLine(partial: Line, a: seq<Byte>, b: seq<Byte>, line: Line, end: Byte)
    requires ScanLine(partial, a) == Complete(line, end, []) && (end == RETURN || end == NEWLINE)
    requires a != [] && a == a[..|a| - 1] + [end] + []
    requires ScanLine(partial, a + b) == Complete(line, end, b)
    ensures Lines(partial, a) == Input([line], [])
    ensures Lines(partial, a + b) == Joined(Input([line], []), Mended(Lines([], b), CutApart(a, b)))
    ensures CutApart(a, b) ==> Lines([], b).lines != [] && Lines([], b).lines[0] == []
  {
    hide ScanLine;
    assert a[|a| - 1] == end;
    NoMore([]);
    assert [line] + [] == [line];
    if CutApart(a, b) {
      NewlineFirst(b);
      var after := Lines([], b[1..]);
      assert ([[]] + after.lines)[1..] == after.lines;
    }
  }

  /** So a cut makes no difference if and only if it does not come between a carriage return and its newline. */
  lemma CutExact(partial: Line, a: seq<Byte>, b: seq<Byte>)
    ensures var first := Lines(partial, a);
            var second := Lines(first.partial, b);
            var whole := Lines(partial, a + b);
            && (whole == Joined(first, second) <==> !CutApart(a, b))
            && |first.lines| + |second.lines| == |whole.lines| + (if CutApart(a, b) then 1 else 0)
  {
    hide Lines, CutApart;
    LinesInPieces(partial, a, b);
  }

  /** What one interrupt makes of its data with room for a number of lines: the lines, the line begun, the data left
      for the next interrupt and the data lost. */
  datatype Outcome = Outcome(lines: seq<Line>, partial: Line, left: seq<Byte>, lost: seq<Byte>)

  function Handle(room: nat, partial: Line, data: seq<Byte>): (r: Outcome)
    decreases |data|
  {
    if room == 0 then Outcome([], [], [], data)
    else
      match ScanLine(partial, data)
      case More(p) => Outcome([], p, [], [])
      case Complete(line, end, rest) =>
        var (restart, left) := AfterEnd(end, rest);
        if restart then After([line], Handle(room - 1, [], left)) else Outcome([line], [], left, [])
  }

  function After(lines: seq<Line>, r: Outcome): Outcome {
    Outcome(lines + r.lines, r.partial, r.left, r.lost)
  }

  /** If nothing is lost, the interrupt's lines and those of the data left are the lines of the data. */
  lemma {:induction false} HandleLines(room: nat, partial: Line, data: seq<Byte>)
    requires room == 0 ==> partial == []
    ensures var r := Handle(room, partial, data);
            r.lost == [] ==> Lines(partial, data) == Joined(Input(r.lines, []), Lines(r.partial, r.left))
    decreases |data|
  {
    hide ScanLine;
    if room == 0 {
      NoMore([]);
    } else {
      match ScanLine(partial, data)
      case More(p) =>
        ScanMore(partial, data);
        NoMore(p);
      case Complete(line, end, rest) =>
        var (restart, left) := AfterEnd(end, rest);
        if restart {
          HandleLines(room - 1, [], left);
          var r := Handle(room - 1, [], left);
          JoinedTwice(Input([line], []), Input(r.lines, []), Lines(r.partial, r.left));
        }
    }
  }

  lemma {:induction false} ScanMore(partial: Line, data: seq<Byte>)
    ensures ScanLine(partial, data).More? ==> |ScanLine(partial, data).partial| < LINE_MAX_LEN
    decreases |data|, |partial|
  {
    if |partial| >= LINE_MAX_LEN {
      ScanMore([], data);
    } else if data != [] {
      ScanMore(if IsPrint(data[0]) then partial + [data[0]] else [], data[1..]);
    }
  }

  /** A complete line is printable and fits a buffer with its terminator. */
  lemma {:induction false} LinesFit(partial: Line, data: seq<Byte>)
    requires forall c <- partial :: IsPrint(c)
    ensures match ScanLine(partial, data)
            case More(p) => |p| < LINE_MAX_LEN && forall c <- p :: IsPrint(c)
            case Complete(line, _, _) => |line| < LINE_MAX_LEN && forall c <- line :: IsPrint(c)
    decreases |data|, |partial|
  {
    if |partial| >= LINE_MAX_LEN {
      LinesFit([], data);
    } else if data != [] {
      if IsPrint(data[0]) {
        LinesFit(partial + [data[0]], data[1..]);
      } else if data[0] != NEWLINE && data[0] != RETURN {
        LinesFit([], data[1..]);
      }
    }
  }

  class Priv {
    const n: nat
    const buf: seq<array<Byte>>
    const free: array<bool>
    const ready: array<bool>
    var last: nat
    var rxIdx: nat
    var rxCnt: nat
    var sem: nat
    var phase: Phase

    /** g_console_rx_data: a character read too far, or -1; static data, so it starts with 0. */
    var saved: int

    /** What the UART has received and nobody read yet. */
    var fifo: seq<Byte>

    /** The next buffer to take, how many are ready, and all lines in the order they were received and
        executed. */
    ghost var head: nat
    ghost var count: nat
    ghost var received: seq<Line>
    ghost var executed: seq<Line>

    ghost function Busy(): nat
      reads this`phase
    {
      if phase.Running? || phase.Ran? then 1 else 0
    }

    /** Lines taken from the ready buffers. */
    ghost function Taken(): nat
      reads this`phase, this`executed
    {
      |executed| + (if phase.Running? then 1 else 0)
    }

    ghost predicate Owned()
      requires n == free.Length == ready.Length
      reads this`head, this`count, this`phase, this`last, this`rxIdx, this`sem, free, ready
    {
      && Owns(free[..], ready[..], rxIdx, head, count, Busy())
      && (Busy() == 1 ==> phase.idx == Ahead(head, n - 1, n))
      && (!phase.Running? ==> last == Ahead(head, n - 1, n))
      && sem + (if phase.Woken? then 1 else 0) == count
    }

    /** The ready buffers hold the lines received and not yet taken, in order. */
    ghost predicate InOrder()
      requires n == |buf|
      reads this`head, this`count, this`phase, this`received, this`executed, buf
    {
      && head < n && count <= n
      && |received| == Taken() + count
      && executed <= received
      && (forall i :: 0 <= i < count ==> Holds(buf[Ahead(head, i, n)], received[Taken() + i]))
      && (phase.Running? ==> phase.idx < n && Holds(buf[phase.idx], received[|executed|]))
    }

    /** The line being received. */
    ghost predicate Receiving()
      requires n == |buf|
      reads this`rxIdx, this`rxCnt, buf
    {
      && (rxIdx < n ==>
            && rxCnt < LINE_MAX_LEN && buf[rxIdx].Length == LINE_MAX_LEN
            && forall i :: 0 <= i < rxCnt ==> IsPrint(buf[rxIdx][i]))
    }

    ghost predicate Shape()
      reads this`saved
    {
      && 1 <= n == |buf| == free.Length == ready.Length && free != ready
      && (forall i :: 0 <= i < n ==> buf[i].Length == LINE_MAX_LEN)
      && (forall i, j :: 0 <= i < j < n ==> buf[i] != buf[j])
      && -1 <= saved < 256
    }

    ghost predicate Valid()
      reads this, free, ready, buf
    {
      Shape() && Owned() && InOrder() && Receiving()
    }

    /** console_start */
    constructor (n: nat)
      requires 1 <= n
      ensures Valid() && this.n == n && received == [] && executed == [] && fresh(free) && fresh(ready) && fresh(buf)
    {
      this.n := n;
      var bufs: seq<array<Byte>> := [];
      while |bufs| < n
        invariant |bufs| <= n && fresh(bufs)
        invariant forall i :: 0 <= i < |bufs| ==> bufs[i].Length == LINE_MAX_LEN
        invariant forall i, j :: 0 <= i < j < |bufs| ==> bufs[i] != bufs[j]
      {
        var b := new Byte[LINE_MAX_LEN](_ => 0);
        bufs := bufs + [b];
      }
      buf := bufs;
      free := new bool[n](i => i != 0);
      ready := new bool[n](_ => false);
      last, rxIdx, rxCnt, sem, phase, saved, fifo := n - 1, 0, 0, 0, Waiting, 0, [];
      head, count, received, executed := 0, 0, [], [];
    }

    // ---------- Steps of the task ----------

    /** OS_SemaphoreWait: it may also fail and be tried again. */
    method Wait()
      requires Valid() && phase.Waiting?
      modifies this`sem, this`phase
      ensures Valid() && (phase.Woken? || phase.Waiting?)
      ensures Begun() == old(Begun()) && Data() == old(Data())
    {
      var fails: bool := *;
      if sem > 0 && !fails {
        sem := sem - 1;
        phase := Woken;
      }
    }

    /** Takes the next command; there is one. */
    method Take()
      requires Valid() && phase.Woken?
      modifies this`phase, this`head, this`count, ready
      ensures Valid() && phase.Running?
      ensures Begun() == old(Begun()) && Data() == old(Data())
    {
      hide Owns, Holds, Place, InOrder;
      ghost var map0 := ready[..];
      OwnsTake(free[..], map0, rxIdx, head, count);
      OwnsFacts(free[..], map0, rxIdx, head, count, 0);
      var idx := GetValid(ready, last);
      assert Ahead(last, 1, n) == head && map0[head];
      AheadIsNext(head, n);
      StartLine(idx);
    }

    // The first ready line is the one that runs.
    method StartLine(idx: nat)
      requires Shape() && InOrder() && !phase.Running? && count > 0 && idx == head
      modifies this`phase, this`head, this`count
      ensures InOrder() && phase == Running(idx) && head == Ahead(old(head), 1, n) && count == old(count) - 1
    {
      hide Holds;
      ghost var head0, zero := head, 0;
      assert Holds(buf[Ahead(head, zero, n)], received[|executed| + zero]);
      phase := Running(idx);
      AheadIsNext(head, n);
      head, count := Ahead(head, 1, n), count - 1;
      forall i | 0 <= i < count
        ensures Holds(buf[Ahead(head, i, n)], received[Taken() + i])
      {
        var next := i + 1;
        assert Holds(buf[Ahead(head0, next, n)], received[|executed| + next]);
      }
    }

    /** Executes the command, and remembers its buffer; interrupts may come while it runs. */
    method Execute() returns (line: Line)
      requires Valid() && phase.Running?
      modifies this`phase, this`last, this`executed
      ensures Valid() && phase.Ran? && executed == old(executed) + [line]
      ensures Begun() == old(Begun()) && Data() == old(Data())
    {
      hide Owns, Place;
      var idx := phase.idx;
      var len := 0;
      while buf[idx][len] != 0
        invariant 0 <= len <= |received[|executed|]|
        decreases |received[|executed|]| - len
      {
        len := len + 1;
      }
      line := buf[idx][..len];
      assert line == received[|executed|];
      executed := executed + [line];
      last := idx;
      phase := Ran(idx);
    }

    /** The executed buffer goes back to the receiver or to the free ones. */
    method Release()
      requires Valid() && phase.Ran?
      modifies this`phase, this`rxIdx, this`rxCnt, free
      ensures Valid() && phase.Waiting?
      ensures Begun() == old(Begun()) && Data() == old(Data())
    {
      hide Owns, Holds, Place;
      OwnsRelease(free[..], ready[..], rxIdx, head, count, phase.idx);
      if rxIdx == n {
        rxIdx := phase.idx;
        rxCnt := 0;
      } else {
        free[phase.idx] := true;
      }
      phase := Waiting;
    }

    // ---------- The interrupt ----------

    /** The characters that console_get_rx_data will return. */
    function Data(): seq<Byte>
      requires -1 <= saved < 256
      reads this
    {
      if saved >= 0 then [saved] + fifo else fifo
    }

    /** The UART receives characters. */
    method Arrive(data: seq<Byte>)
      requires Valid()
      modifies this`fifo
      ensures Valid() && Data() == old(Data()) + data && Begun() == old(Begun()) && Room() == old(Room())
    {
      hide Owned, InOrder, Receiving;
      ghost var before := Data();
      fifo := fifo + data;
      assert Data() == before + data;
    }

    /** console_get_rx_data */
    method GetData() returns (data: Byte)
      requires -1 <= saved < 256 && Data() != []
      modifies this`saved, this`fifo
      ensures saved == -1 && [data] + Data() == old(Data())
    {
      if saved >= 0 {
        data := saved;
        saved := -1;
      } else {
        data := fifo[0];
        fifo := fifo[1..];
      }
    }

    /** console_rx_cmdline, with the terminator written before it: the line is ready for the task. */
    method RxCmdline(cnt: nat)
      requires Valid() && rxIdx < n && cnt < LINE_MAX_LEN
      requires forall i :: 0 <= i < cnt ==> IsPrint(buf[rxIdx][i])
      modifies this`rxIdx, this`rxCnt, this`sem, this`count, this`received, free, ready, buf[rxIdx]
      ensures Valid()
      ensures received == old(received) + [old(buf[rxIdx][..cnt])] && count == old(count) + 1 && rxCnt == 0
    {
      hide Owns, Place, Holds, Ahead, IsPrint;
      ghost var line := Terminate(cnt);
      RxPlace();
      OwnsFacts(free[..], ready[..], rxIdx, head, count, Busy());
      rxIdx := SwitchBuffer();
      rxCnt := 0;
      sem := sem + 1;
      QueueLine(line);
    }

    // The line is the last one ready.
    ghost method QueueLine(line: Line)
      requires Shape() && InOrder() && count < n && Holds(buf[Ahead(head, count, n)], line)
      modifies this`count, this`received
      ensures InOrder() && count == old(count) + 1 && received == old(received) + [line]
    {
      hide Holds, Ahead;
      received := received + [line];
      count := count + 1;
    }

    // The bitmaps at the end of a line.
    method SwitchBuffer() returns (next: nat)
      requires Shape() && Owns(free[..], ready[..], rxIdx, head, count, Busy()) && rxIdx < n
      modifies free, ready
      ensures Owns(free[..], ready[..], next, head, count + 1, Busy())
    {
      hide Owns, Place;
      ghost var free0, ready0 := free[..], ready[..];
      OwnsReceive(free0, ready0, rxIdx, head, count, Busy());
      ready[rxIdx] := true;
      assert ready[..] == ready0[rxIdx := true];
      next := GetValid(free, rxIdx);
    }

    // The terminator.
    method Terminate(cnt: nat) returns (ghost line: Line)
      requires Valid() && rxIdx < n && cnt < LINE_MAX_LEN
      requires forall i :: 0 <= i < cnt ==> IsPrint(buf[rxIdx][i])
      modifies buf[rxIdx]
      ensures Shape() && Owned() && InOrder()
      ensures line == old(buf[rxIdx][..cnt]) && Holds(buf[rxIdx], line)
    {
      hide Owns, Place;
      RxPlace();
      line := buf[rxIdx][..cnt];
      buf[rxIdx][cnt] := 0;
    }

    // The receiving buffer is none of the others.
    lemma RxPlace()
      requires Shape() && Owned() && rxIdx < n
      ensures rxIdx == Ahead(head, count, n) && count < n
      ensures forall i :: 0 <= i < count ==> Ahead(head, i, n) != rxIdx
      ensures Busy() == 1 ==> phase.idx != rxIdx
    {
      PlaceOfAhead(head, count, n);
      PlaceOfAhead(head, n - 1, n);
      forall i | 0 <= i < count
        ensures Ahead(head, i, n) != rxIdx
      {
        PlaceOfAhead(head, i, n);
      }
    }

    /** The part of the line being received that is in its buffer. */
    ghost function Partial(): Line
      requires rxIdx < n == |buf| && rxCnt <= buf[rxIdx].Length
      reads this, buf
    {
      buf[rxIdx][..rxCnt]
    }

    lemma PartialIs()
      requires rxIdx < n == |buf| && rxCnt <= buf[rxIdx].Length
      ensures Partial() == buf[rxIdx][..rxCnt]
    {
    }

    // The look at the character after a carriage return.
    method AfterReturn() returns (restart: bool)
      requires saved == -1
      modifies this`saved, this`fifo
      ensures -1 <= saved < 256 && (restart, Data()) == AfterEnd(RETURN, old(Data()))
    {
      restart := false;
      ghost var all := fifo;
      if fifo != [] {
        var data := fifo[0];
        fifo := fifo[1..];
        if data != NEWLINE {
          saved := data;
          restart := true;
          assert Data() == all;
        }
      }
    }

    // The end of the line.
    method EndLine(cnt: nat, data: Byte) returns (restart: bool)
      requires Valid() && rxIdx < n && cnt < LINE_MAX_LEN && saved == -1 && (data == NEWLINE || data == RETURN)
      requires forall i :: 0 <= i < cnt ==> IsPrint(buf[rxIdx][i])
      modifies this`rxIdx, this`rxCnt, this`sem, this`count, this`received, this`saved, this`fifo, free, ready
      modifies buf[rxIdx]
      ensures Valid()
      ensures received == old(received) + [old(buf[rxIdx][..cnt])] && count == old(count) + 1 && rxCnt == 0
      ensures (restart, Data()) == AfterEnd(data, old(Data()))
    {
      hide Owned, InOrder, Holds, IsPrint;
      restart := false;
      if data == RETURN {
        restart := AfterReturn();
      }
      RxCmdline(cnt);
    }

    // One more character of the line.
    method Store(cnt: nat, data: Byte)
      requires Valid() && rxIdx < n && cnt < LINE_MAX_LEN && IsPrint(data)
      requires forall i :: 0 <= i < cnt ==> IsPrint(buf[rxIdx][i])
      modifies buf[rxIdx]
      ensures Valid()
      ensures forall i :: 0 <= i < cnt + 1 ==> IsPrint(buf[rxIdx][i])
      ensures buf[rxIdx][..cnt + 1] == old(buf[rxIdx][..cnt]) + [data]
    {
      hide Owns, Place;
      RxPlace();
      ghost var before := buf[rxIdx][..cnt];
      buf[rxIdx][cnt] := data;
      assert buf[rxIdx][..cnt + 1] == before + [data];
    }

    /** Reads characters until a line is complete or there are no more. */
    method ReceiveLine() returns (complete: bool, restart: bool)
      requires Valid() && rxIdx < n
      modifies this`rxIdx, this`rxCnt, this`sem, this`count, this`received, this`saved, this`fifo, free, ready
      modifies buf[rxIdx]
      ensures Valid()
      ensures match ScanLine(old(Partial()), old(Data()))
              case More(p) =>
                && !complete && !restart && Data() == []
                && rxIdx == old(rxIdx) && Partial() == p && received == old(received) && count == old(count)
              case Complete(line, end, rest) =>
                && complete && received == old(received) + [line] && count == old(count) + 1 && rxCnt == 0
                && (restart, Data()) == AfterEnd(end, rest)
    {
      hide Owned, InOrder, Holds, ScanLine, Partial, IsPrint;
      ghost var whole := ScanLine(Partial(), Data());
      PartialIs();
      var cnt := rxCnt;
      while true
        invariant Valid() && rxIdx == old(rxIdx) && received == old(received) && count == old(count)
        invariant 0 <= cnt <= LINE_MAX_LEN
        invariant forall i :: 0 <= i < cnt ==> IsPrint(buf[rxIdx][i])
        invariant ScanLine(buf[rxIdx][..cnt], Data()) == whole
        decreases |Data()|, cnt
      {
        ScanTurn(buf[rxIdx][..cnt], Data());
        if cnt >= LINE_MAX_LEN {
          rxCnt, cnt := 0, 0;
          assert buf[rxIdx][..0] == [];
          continue;
        }
        if Data() == [] {
          rxCnt := cnt;
          PartialIs();
          return false, false;
        }
        var data := GetData();
        if data == NEWLINE || data == RETURN {
          restart := EndLine(cnt, data);
          return true, restart;
        }
        if IsPrint(data) {
          Store(cnt, data);
          cnt := cnt + 1;
        } else {
          rxCnt, cnt := 0, 0;
          assert buf[rxIdx][..0] == [];
        }
      }
    }

    lemma ExecutedReceived()
      requires Valid()
      ensures executed <= received
    {
    }

    lemma RxInRange()
      requires Valid()
      ensures rxIdx <= n && (rxIdx < n ==> rxCnt < LINE_MAX_LEN && buf[rxIdx].Length == LINE_MAX_LEN)
    {
      OwnsFacts(free[..], ready[..], rxIdx, head, count, Busy());
    }

    /** How many more lines can be received before the task gives a buffer back. */
    ghost function Room(): nat
      requires Valid()
      reads this, free, ready, buf
    {
      OwnsFacts(free[..], ready[..], rxIdx, head, count, Busy());
      n - count - Busy()
    }

    /** The line begun. */
    ghost function Begun(): Line
      requires Valid()
      reads this, free, ready, buf
    {
      if rxIdx < n then Partial() else []
    }

    lemma RoomIs()
      requires Valid()
      ensures rxIdx <= n && (rxIdx == n <==> Room() == 0)
      ensures rxIdx == n ==> Begun() == []
    {
      OwnsFacts(free[..], ready[..], rxIdx, head, count, Busy());
    }

    // One line, in terms of the outcome.
    method OneLine() returns (restart: bool)
      requires Valid() && rxIdx != n
      modifies this`rxIdx, this`rxCnt, this`sem, this`count, this`received, this`saved, this`fifo, free, ready, buf
      ensures Valid() && old(received) <= received && received[..|old(received)|] == old(received)
      ensures restart ==> |Data()| < |old(Data())|
      ensures var whole := Handle(old(Room()), old(Begun()), old(Data()));
              if restart then
                whole == After(received[|old(received)|..], Handle(Room(), Begun(), Data()))
              else
                whole == Outcome(received[|old(received)|..], Begun(), Data(), [])
    {
      hide Owned, InOrder, Holds, Receiving, ScanLine;
      RxInRange();
      RoomIs();
      var complete;
      complete, restart := ReceiveLine();
      RoomIs();
    }

    /** console_rx_callback: receives lines as long as characters tell it to go on; without a buffer it
        discards everything. */
    method RxCallback() returns (ghost lost: seq<Byte>)
      requires Valid()
      modifies this`rxIdx, this`rxCnt, this`sem, this`count, this`received, this`saved, this`fifo, free, ready, buf
      ensures Valid() && old(received) <= received
      ensures old(rxIdx) == n ==> Data() == [] && received == old(received)
      ensures Handle(old(Room()), old(Begun()), old(Data())) ==
                Outcome(received[|old(received)|..], Begun(), Data(), lost)
    {
      hide Owned, InOrder, Holds, Receiving, Handle, Partial, Begun, Room, Data;
      ghost var done: seq<Line>, whole := [], Handle(Room(), Begun(), Data());
      lost := [];
      while rxIdx != n
        invariant Valid() && old(received) <= received && received == old(received) + done
        invariant old(rxIdx) == n ==> rxIdx == n && received == old(received)
        invariant whole == After(done, Handle(Room(), Begun(), Data()))
        decreases |Data()|
      {
        ghost var before := received;
        var restart := OneLine();
        ghost var more := received[|before|..];
        done := done + more;
        assert received[|old(received)|..] == done;
        if !restart {
          return;
        }
      }
      RoomIs();
      assert received[|old(received)|..] == done && done + [] == done;
      Discarded(Data());
      lost := Discard();
    }

    // Without a buffer.
    method Discard() returns (ghost lost: seq<Byte>)
      requires Valid() && rxIdx == n
      modifies this`saved, this`fifo
      ensures Valid() && Data() == [] && lost == old(Data()) && Begun() == []
    {
      hide Owned, InOrder, Receiving;
      lost := Data();
      while Data() != []
        invariant Valid()
        decreases |Data()|
      {
        var data := GetData();
      }
    }
  }

  lemma Discarded(data: seq<Byte>)
    ensures Handle(0, [], data) == Outcome([], [], [], data)
  {
  }

  /** What happens: an interrupt with characters that the UART has received, or a step of the task. */
  datatype Event = Interrupt(data: seq<Byte>) | TaskStep

  /** All characters of the interrupts. */
  function Chars(events: seq<Event>): seq<Byte> {
    if events == [] then []
    else Chars(events[..|events| - 1]) + CharsOf(events[|events| - 1])
  }

  function CharsOf(event: Event): seq<Byte> {
    if event.Interrupt? then event.data else []
  }

  /** No interrupt cuts a carriage return and its newline apart. */
  predicate NoCut(before: seq<Byte>, events: seq<Event>) {
    forall i :: 0 <= i < |events| ==> !CutApart(before + Chars(events[..i]), CharsOf(events[i]))
  }

  // What is left of data ends as the data does.
  lemma {:induction false} LeftEnds(room: nat, partial: Line, data: seq<Byte>)
    ensures EndsInReturn(Handle(room, partial, data).left) ==> EndsInReturn(data)
    decreases |data|
  {
    hide ScanLine, EndsInReturn;
    NoReturn();
    if room > 0 {
      ScanEnd(partial, data);
      match ScanLine(partial, data)
      case More(p) =>
      case Complete(line, end, rest) =>
        var (restart, left) := AfterEnd(end, rest);
        if rest != [] {
          SameEnd(data, end, rest);
        }
        if restart {
          LeftEnds(room - 1, [], left);
        }
    }
  }

  lemma NoReturn()
    ensures !EndsInReturn([])
  {
  }

  /** The lines received, and those that the data not yet looked at will make. */
  function Total(received: seq<Line>, begun: Line, data: seq<Byte>): Input {
    Joined(Input(received, []), Lines(begun, data))
  }

  // An interrupt adds data and handles it.
  lemma TotalAfter(received: seq<Line>, begun: Line, data: seq<Byte>, room: nat)
    requires room == 0 ==> begun == []
    ensures var r := Handle(room, begun, data);
            r.lost == [] ==> Total(received + r.lines, r.partial, r.left) == Total(received, begun, data)
  {
    hide Handle, Lines;
    HandleLines(room, begun, data);
    var r := Handle(room, begun, data);
    JoinedTwice(Input(received, []), Input(r.lines, []), Lines(r.partial, r.left));
  }

  // The same more data behind two inputs with the same total.
  lemma TotalGrows(r0: seq<Line>, p0: Line, d0: seq<Byte>, r1: seq<Line>, p1: Line, d1: seq<Byte>, more: seq<Byte>)
    requires Total(r0, p0, d0) == Total(r1, p1, d1) && !CutApart(d0, more) && !CutApart(d1, more)
    ensures Total(r0, p0, d0 + more) == Total(r1, p1, d1 + more)
  {
    hide Lines, CutApart;
    LinesInPieces(p0, d0, more);
    LinesInPieces(p1, d1, more);
    var first0, first1 := Lines(p0, d0), Lines(p1, d1);
    JoinedTwice(Input(r0, []), first0, Lines(first0.partial, more));
    JoinedTwice(Input(r1, []), first1, Lines(first1.partial, more));
  }

  /** Every interleaving of interrupts and task steps: the buffers keep their owners, the commands executed are
      the first ones received, in the order received. If no character was lost for want of a buffer and no
      carriage return was cut from its newline, the lines received and those that the characters left will make
      are the lines of the whole input. */
  method Interleave(c: Priv, events: seq<Event>) returns (ghost lost: seq<Byte>)
    requires c.Valid()
    modifies c, c.free, c.ready, c.buf
    ensures c.Valid() && c.executed <= c.received
    ensures old(c.executed) <= c.executed && old(c.received) <= c.received
    ensures lost == [] && NoCut(old(c.Data()), events) ==>
              Total(c.received, c.Begun(), c.Data()) ==
              Total(old(c.received), old(c.Begun()), old(c.Data()) + Chars(events))
  {
    hide Priv.Owned, Priv.InOrder, Priv.Receiving, Total, CutApart, EndsInReturn, NoCut, Priv.Begun, Priv.Data;
    ghost var r0, p0, d0 := c.received, c.Begun(), c.Data();
    ghost var input := d0;
    lost := [];
    assert d0 + [] == d0;
    for i := 0 to |events|
      invariant c.Valid()
      invariant old(c.executed) <= c.executed && old(c.received) <= c.received
      invariant input == d0 + Chars(events[..i])
      invariant EndsInReturn(c.Data()) ==> EndsInReturn(input)
      invariant lost == [] && NoCut(d0, events) ==> Total(c.received, c.Begun(), c.Data()) == Total(r0, p0, input)
    {
      ghost var r1, p1, d1 := c.received, c.Begun(), c.Data();
      ghost var more := Happen(c, events[i]);
      NextChars(d0, events, i);
      OneMore(r0, p0, input, r1, p1, d1, CharsOf(events[i]), lost == [] && NoCut(d0, events));
      input := input + CharsOf(events[i]);
      lost := lost + more;
    }
    assert events[..|events|] == events;
    c.ExecutedReceived();
  }

  lemma NextChars(before: seq<Byte>, events: seq<Event>, i: nat)
    requires i < |events|
    ensures before + Chars(events[..i + 1]) == before + Chars(events[..i]) + CharsOf(events[i])
    ensures NoCut(before, events) ==> !CutApart(before + Chars(events[..i]), CharsOf(events[i]))
  {
    assert events[..i + 1][..i] == events[..i];
  }

  lemma OneMore(r0: seq<Line>, p0: Line, input: seq<Byte>, r1: seq<Line>, p1: Line, d1: seq<Byte>, more: seq<Byte>,
                same: bool)
    requires EndsInReturn(d1) ==> EndsInReturn(input)
    requires same ==> !CutApart(input, more) && Total(r1, p1, d1) == Total(r0, p0, input)
    ensures same ==> Total(r1, p1, d1 + more) == Total(r0, p0, input + more)
    ensures EndsInReturn(d1 + more) ==> EndsInReturn(input + more)
  {
    hide Total;
    if same {
      TotalGrows(r1, p1, d1, r0, p0, input, more);
    }
    if more == [] {
      assert d1 + more == d1 && input + more == input;
    } else {
      assert (d1 + more)[|d1 + more| - 1] == (input + more)[|input + more| - 1];
    }
  }

  // One event.
  method Happen(c: Priv, event: Event) returns (ghost lost: seq<Byte>)
    requires c.Valid()
    modifies c, c.free, c.ready, c.buf
    ensures c.Valid()
    ensures old(c.executed) <= c.executed && old(c.received) <= c.received
    ensures lost == [] ==>
              Total(c.received, c.Begun(), c.Data()) ==
              Total(old(c.received), old(c.Begun()), old(c.Data()) + CharsOf(event))
    ensures EndsInReturn(c.Data()) ==> EndsInReturn(old(c.Data()) + CharsOf(event))
  {
    hide Priv.Owned, Priv.InOrder, Priv.Receiving, Total, EndsInReturn, Handle, Priv.Begun;
    lost := [];
    if event.Interrupt? {
      ghost var r0, p0, d1, room := c.received, c.Begun(), c.Data() + event.data, c.Room();
      c.RoomIs();
      c.Arrive(event.data);
      lost := c.RxCallback();
      TotalAfter(r0, p0, d1, room);
      LeftEnds(room, p0, d1);
      assert c.received == r0 + c.received[|r0|..];
    } else {
      assert c.Data() + CharsOf(event) == c.Data();
      if c.phase.Waiting? {
        c.Wait();
      } else if c.phase.Woken? {
        c.Take();
      } else if c.phase.Running? {
        var line := c.Execute();
      } else {
        c.Release();
      }
    }
  }
}
