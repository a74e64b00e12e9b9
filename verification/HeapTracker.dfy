/** The heap tracker of src/libc/wrap_malloc.c (WRAP_MALLOC_MEM_TRACE): a table of live allocations with a
    search hint, and the wrappers of malloc, realloc and free that keep it. Pointers are numbers, NULL is 0. */
module HeapTracker {
  type Ptr = nat

  const MAX_CNT := 1024
  const SIZE_MOD := 0x1_0000_0000
  const MAGIC_LEN := 4

  datatype Entry = Entry(ptr: Ptr, size: nat)

  // ---------- The table as a plain list ----------

  /** Number of live entries. */
  function Count(es: seq<Entry>): nat {
    if es == [] then 0 else Count(es[1..]) + (if es[0].ptr != 0 then 1 else 0)
  }

  /** Sum of the sizes of the live entries. */
  function Sum(es: seq<Entry>): nat {
    if es == [] then 0 else Sum(es[1..]) + (if es[0].ptr != 0 then es[0].size else 0)
  }

  lemma {:induction false} CountUpdate(es: seq<Entry>, i: nat, e: Entry)
    requires i < |es|
    ensures Count(es[i := e]) == Count(es) - (if es[i].ptr != 0 then 1 else 0) + (if e.ptr != 0 then 1 else 0)
    decreases i
  {
    if i > 0 {
      assert es[i := e][1..] == es[1..][i - 1 := e];
      CountUpdate(es[1..], i - 1, e);
    } else {
      assert es[i := e][1..] == es[1..];
    }
  }

  lemma {:induction false} SumUpdate(es: seq<Entry>, i: nat, e: Entry)
    requires i < |es|
    ensures Sum(es[i := e]) == Sum(es) - (if es[i].ptr != 0 then es[i].size else 0) + (if e.ptr != 0 then e.size else 0)
    decreases i
  {
    if i > 0 {
      assert es[i := e][1..] == es[1..][i - 1 := e];
      SumUpdate(es[1..], i - 1, e);
    } else {
      assert es[i := e][1..] == es[1..];
    }
  }

  lemma {:induction false} EmptyTable(es: seq<Entry>)
    requires forall i :: 0 <= i < |es| ==> es[i].ptr == 0
    ensures Count(es) == 0 && Sum(es) == 0
    decreases es
  {
    if es != [] {
      EmptyTable(es[1..]);
    }
  }

  lemma {:induction false} CountFull(es: seq<Entry>)
    ensures Count(es) <= |es|
    ensures Count(es) == |es| <==> forall i :: 0 <= i < |es| ==> es[i].ptr != 0
    decreases es
  {
    if es != [] {
      CountFull(es[1..]);
      assert forall i :: 0 <= i < |es[1..]| ==> es[1..][i] == es[i + 1];
      if forall i :: 0 <= i < |es[1..]| ==> es[1..][i].ptr != 0 {
        assert forall i :: 1 <= i < |es| ==> es[i] == es[1..][i - 1];
      }
    }
  }

  /** The index of the first entry for a pointer; for 0, of the first free entry. The length if none. */
  function Find(es: seq<Entry>, p: Ptr): (i: nat)
    ensures i <= |es|
    ensures i < |es| ==> es[i].ptr == p
    ensures forall j :: 0 <= j < i ==> es[j].ptr != p
  {
    if es == [] || es[0].ptr == p then 0 else 1 + Find(es[1..], p)
  }

  lemma FindIs(es: seq<Entry>, p: Ptr, i: nat)
    requires i <= |es| && forall j :: 0 <= j < i ==> es[j].ptr != p
    requires i < |es| ==> es[i].ptr == p
    ensures Find(es, p) == i
  {
  }

  /** No pointer is listed twice. */
  predicate NoTwins(es: seq<Entry>) {
    forall i, j :: 0 <= i < j < |es| && es[i].ptr != 0 ==> es[i].ptr != es[j].ptr
  }

  /** The table lists live allocations with their sizes, and all of them but those in untracked. */
  predicate Lists(es: seq<Entry>, live: map<Ptr, nat>, untracked: set<Ptr>) {
    && NoTwins(es)
    && 0 !in live && untracked <= live.Keys
    && (forall i :: 0 <= i < |es| && es[i].ptr != 0 ==>
          es[i].ptr in live && es[i].ptr !in untracked && live[es[i].ptr] == es[i].size)
    && (forall p <- live :: p !in untracked ==> Find(es, p) < |es|)
  }

  class Tracker {
    const mem: array<Entry>
    var entryCnt: int
    var entryCntMax: int
    var emptyIdx: nat
    var sum: nat
    var sumMax: nat
    var reallocing: bool

    /** What is really allocated, and what the table missed because it was full. */
    ghost var live: map<Ptr, nat>
    ghost var untracked: set<Ptr>

    /** The counters and the hint agree with a plain scan of the table. */
    ghost predicate Valid()
      reads this, mem
    {
      && mem.Length == MAX_CNT && emptyIdx <= MAX_CNT
      && (forall j :: 0 <= j < emptyIdx ==> mem[j].ptr != 0)
      && entryCnt == Count(mem[..]) && entryCnt <= entryCntMax
      && sum == Sum(mem[..]) % SIZE_MOD
    }

    ghost predicate Tracks()
      reads this, mem
    {
      Valid() && Lists(mem[..], live, untracked)
    }

    lemma LiveFacts()
      requires Tracks()
      ensures 0 !in live && untracked <= live.Keys
    {
    }

    constructor ()
      ensures Tracks() && live == map[] && untracked == {} && !reallocing
    {
      mem := new Entry[MAX_CNT](_ => Entry(0, 0));
      entryCnt, entryCntMax, emptyIdx, sum, sumMax, reallocing := 0, 0, 0, 0, 0, false;
      live, untracked := map[], {};
      new;
      EmptyTable(mem[..]);
    }

    /** wrap_malloc_add_entry: the hinted search finds the lowest free entry, and fails exactly when the
        table is full. */
    method AddEntry(ptr: Ptr, size: nat) returns (ok: bool)
      requires Valid() && ptr != 0
      modifies this`entryCnt, this`entryCntMax, this`emptyIdx, this`sum, this`sumMax, mem
      ensures Valid()
      ensures ok <==> old(entryCnt) < MAX_CNT
      ensures var i := Find(old(mem[..]), 0);
              && (ok <==> i < MAX_CNT)
              && mem[..] == if ok then old(mem[..])[i := Entry(ptr, size)] else old(mem[..])
    {
      ghost var before := mem[..];
      CountFull(before);
      ok := false;
      var i := emptyIdx;
      while i < MAX_CNT
        invariant emptyIdx <= i <= MAX_CNT && mem[..] == before && !ok
        invariant forall j :: 0 <= j < i ==> mem[j].ptr != 0
      {
        if mem[i].ptr == 0 {
          FindIs(before, 0, i);
          CountUpdate(before, i, Entry(ptr, size));
          SumUpdate(before, i, Entry(ptr, size));
          mem[i] := Entry(ptr, size);
          entryCnt := entryCnt + 1;
          emptyIdx := i + 1;
          AddMod(Sum(before), size);
          sum := (sum + size) % SIZE_MOD;
          if sum > sumMax {
            sumMax := sum;
          }
          if entryCnt > entryCntMax {
            entryCntMax := entryCnt;
          }
          ok := true;
          assert mem[..] == before[i := Entry(ptr, size)];
          return;
        }
        i := i + 1;
      }
      FindIs(before, 0, MAX_CNT);
    }

    /** wrap_malloc_delete_entry: the size of the deleted entry, or -1. */
    method DeleteEntry(ptr: Ptr) returns (size: int)
      requires Valid() && ptr != 0
      modifies this`entryCnt, this`emptyIdx, this`sum, mem
      ensures Valid()
      ensures var i := Find(old(mem[..]), ptr);
              if i < MAX_CNT then
                size == old(mem[..])[i].size && mem[..] == old(mem[..])[i := Entry(0, 0)]
              else
                size == -1 && mem[..] == old(mem[..])
    {
      ghost var before := mem[..];
      var i := 0;
      while i < MAX_CNT
        invariant 0 <= i <= MAX_CNT && mem[..] == before
        invariant forall j :: 0 <= j < i ==> mem[j].ptr != ptr
      {
        if mem[i].ptr == ptr {
          FindIs(before, ptr, i);
          size := mem[i].size;
          CountUpdate(before, i, Entry(0, 0));
          SumUpdate(before, i, Entry(0, 0));
          SubMod(Sum(before), size);
          sum := (sum - size) % SIZE_MOD;
          mem[i] := Entry(0, 0);
          entryCnt := entryCnt - 1;
          if i < emptyIdx {
            emptyIdx := i;
          }
          assert mem[..] == before[i := Entry(0, 0)];
          return;
        }
        i := i + 1;
      }
      FindIs(before, ptr, MAX_CNT);
      size := -1;
    }

    /** wrap_malloc_update_entry: the entry of a moved or resized allocation. */
    method UpdateEntry(oldPtr: Ptr, newPtr: Ptr, newSize: nat) returns (oldSize: int)
      requires Valid() && oldPtr != 0 && newPtr != 0
      modifies this`sum, this`sumMax, mem
      ensures Valid()
      ensures var i := Find(old(mem[..]), oldPtr);
              if i < MAX_CNT then
                oldSize == old(mem[..])[i].size && mem[..] == old(mem[..])[i := Entry(newPtr, newSize)]
              else
                oldSize == -1 && mem[..] == old(mem[..])
    {
      ghost var before := mem[..];
      var i := 0;
      while i < MAX_CNT
        invariant 0 <= i <= MAX_CNT && mem[..] == before
        invariant forall j :: 0 <= j < i ==> mem[j].ptr != oldPtr
      {
        if mem[i].ptr == oldPtr {
          FindIs(before, oldPtr, i);
          oldSize := mem[i].size;
          CountUpdate(before, i, Entry(newPtr, newSize));
          SumUpdate(before, i, Entry(newPtr, newSize));
          AddMod(Sum(before), newSize - oldSize);
          sum := (sum - oldSize + newSize) % SIZE_MOD;
          mem[i] := Entry(newPtr, newSize);
          if sum > sumMax {
            sumMax := sum;
          }
          assert mem[..] == before[i := Entry(newPtr, newSize)];
          return;
        }
        i := i + 1;
      }
      FindIs(before, oldPtr, MAX_CNT);
      oldSize := -1;
    }

    /** __wrap__malloc_r; result is what the real allocator returns. Inside realloc it only passes on. */
    method Malloc(size: nat, result: Ptr) returns (ptr: Ptr)
      requires Tracks() && result !in live
      modifies this`entryCnt, this`entryCntMax, this`emptyIdx, this`sum, this`sumMax, this`live, this`untracked, mem
      ensures Tracks() && ptr == result
      ensures if reallocing || result == 0 then
                mem[..] == old(mem[..]) && live == old(live) && untracked == old(untracked) && entryCnt == old(entryCnt)
              else
                && live == old(live)[result := size]
                && untracked == old(untracked) + (if old(entryCnt) < MAX_CNT then {} else {result})
    {
      ptr := result;
      if !reallocing && ptr != 0 {
        Record(ptr, size);
      }
    }

    /** __wrap__free_r, of NULL or of something allocated. */
    method Free(ptr: Ptr)
      requires Tracks() && (ptr == 0 || ptr in live)
      modifies this`entryCnt, this`emptyIdx, this`sum, this`live, this`untracked, mem
      ensures Tracks()
      ensures if reallocing || ptr == 0 then
                mem[..] == old(mem[..]) && live == old(live) && untracked == old(untracked) && entryCnt == old(entryCnt)
              else
                live == old(live) - {ptr} && untracked == old(untracked) - {ptr}
    {
      if !reallocing && ptr != 0 {
        Forget(ptr);
      }
    }

    /** __wrap__realloc_r; result is what the real reallocation returns, which may itself go through the
        wrappers of malloc and free. What it returns for size 0 in place of something allocated is not listed. */
    method Realloc(ptr: Ptr, size: nat, result: Ptr) returns (newPtr: Ptr)
      requires Tracks() && !reallocing && (ptr == 0 || ptr in live)
      requires result == ptr || result !in live
      modifies this, mem
      ensures Tracks() && !reallocing && newPtr == result
      ensures live == if result != 0 then (old(live) - {ptr})[result := size]
                      else if ptr != 0 && size == 0 then old(live) - {ptr}
                      else old(live)
      ensures untracked <= old(untracked) + {result}
      ensures ptr != 0 && size == 0 ==> untracked == old(untracked) - {ptr} + (if result != 0 then {result} else {})
      ensures old(entryCnt) < MAX_CNT && ptr !in old(untracked) && !(ptr != 0 && size == 0 && result != 0) ==>
                untracked == old(untracked)
    {
      hide Lists;
      LiveFacts();
      reallocing := true;
      var nested: bool := *;
      if nested {
        var p := Malloc(size + MAGIC_LEN, if result == ptr then 0 else result);
        Free(ptr);
      }
      newPtr := result;
      if ptr == 0 {
        if newPtr != 0 {
          Record(newPtr, size);
        }
      } else if size == 0 {
        Forget(ptr);
        if newPtr != 0 {
          Miss(newPtr, size);
        }
      } else if newPtr != 0 {
        Move(ptr, newPtr, size);
      }
      reallocing := false;
    }

    // wrap_malloc_add_entry, and what becomes of the allocations.
    method Record(ptr: Ptr, size: nat)
      requires Tracks() && ptr != 0 && ptr !in live
      modifies this`entryCnt, this`entryCntMax, this`emptyIdx, this`sum, this`sumMax, this`live, this`untracked, mem
      ensures Tracks() && live == old(live)[ptr := size]
      ensures untracked == old(untracked) + (if old(entryCnt) < MAX_CNT then {} else {ptr})
    {
      hide Lists;
      ghost var before := mem[..];
      var ok := AddEntry(ptr, size);
      if ok {
        ListsAdded(before, live, untracked, Find(before, 0), ptr, size);
      } else {
        ListsMissed(before, live, untracked, ptr, size);
        untracked := untracked + {ptr};
      }
      live := live[ptr := size];
    }

    // An allocation that is not listed.
    ghost method Miss(ptr: Ptr, size: nat)
      requires Tracks() && ptr != 0 && ptr !in live
      modifies this`live, this`untracked
      ensures Tracks() && live == old(live)[ptr := size] && untracked == old(untracked) + {ptr}
    {
      hide Lists;
      ListsMissed(mem[..], live, untracked, ptr, size);
      untracked := untracked + {ptr};
      live := live[ptr := size];
    }

    // wrap_malloc_delete_entry, likewise.
    method Forget(ptr: Ptr)
      requires Tracks() && ptr != 0 && ptr in live
      modifies this`entryCnt, this`emptyIdx, this`sum, this`live, this`untracked, mem
      ensures Tracks() && live == old(live) - {ptr} && untracked == old(untracked) - {ptr}
    {
      hide Lists;
      ghost var before := mem[..];
      var size := DeleteEntry(ptr);
      ListsDeleted(before, live, untracked, ptr);
      live, untracked := live - {ptr}, untracked - {ptr};
    }

    // wrap_malloc_update_entry, likewise.
    method Move(ptr: Ptr, newPtr: Ptr, size: nat)
      requires Tracks() && ptr != 0 && ptr in live && newPtr != 0 && (newPtr == ptr || newPtr !in live)
      modifies this`sum, this`sumMax, this`live, this`untracked, mem
      ensures Tracks() && live == (old(live) - {ptr})[newPtr := size]
      ensures untracked == if ptr in old(untracked) then old(untracked) - {ptr} + {newPtr} else old(untracked)
    {
      hide Lists;
      ghost var before := mem[..];
      var oldSize := UpdateEntry(ptr, newPtr, size);
      ListsMoved(before, live, untracked, ptr, newPtr, size);
      if ptr in untracked {
        untracked := untracked - {ptr} + {newPtr};
      }
      live := (live - {ptr})[newPtr := size];
    }
  }

  // ---------- The table and what is allocated ----------

  lemma NoTwinsUpdate(es: seq<Entry>, i: nat, e: Entry)
    requires NoTwins(es) && i < |es|
    requires e.ptr == 0 || forall j :: 0 <= j < |es| && j != i ==> es[j].ptr != e.ptr
    ensures NoTwins(es[i := e])
  {
  }

  lemma FindPresent(es: seq<Entry>, p: Ptr, i: nat)
    requires i < |es| && es[i].ptr == p
    ensures Find(es, p) <= i
  {
  }

  lemma ListsAdded(es: seq<Entry>, live: map<Ptr, nat>, untracked: set<Ptr>, i: nat, p: Ptr, size: nat)
    requires Lists(es, live, untracked) && i < |es| && es[i].ptr == 0 && p != 0 && p !in live
    ensures Lists(es[i := Entry(p, size)], live[p := size], untracked)
  {
    hide NoTwins;
    var after := es[i := Entry(p, size)];
    NoTwinsUpdate(es, i, Entry(p, size));
    forall q | q in live[p := size] && q !in untracked
      ensures Find(after, q) < |after|
    {
      FindPresent(after, q, if q == p then i else Find(es, q));
    }
  }

  lemma ListsMissed(es: seq<Entry>, live: map<Ptr, nat>, untracked: set<Ptr>, p: Ptr, size: nat)
    requires Lists(es, live, untracked) && p != 0 && p !in live
    ensures Lists(es, live[p := size], untracked + {p})
  {
  }

  // A live pointer is listed at one place at most.
  lemma OnlyListing(es: seq<Entry>, live: map<Ptr, nat>, untracked: set<Ptr>, p: Ptr)
    requires Lists(es, live, untracked) && p in live
    ensures forall j :: 0 <= j < |es| && j != Find(es, p) ==> es[j].ptr != p
  {
  }

  lemma ListsDeleted(es: seq<Entry>, live: map<Ptr, nat>, untracked: set<Ptr>, p: Ptr)
    requires Lists(es, live, untracked) && p in live
    ensures var i := Find(es, p);
            Lists(if i < |es| then es[i := Entry(0, 0)] else es, live - {p}, untracked - {p})
  {
    hide NoTwins, Find;
    var i := Find(es, p);
    var after := if i < |es| then es[i := Entry(0, 0)] else es;
    OnlyListing(es, live, untracked, p);
    if i < |es| {
      NoTwinsUpdate(es, i, Entry(0, 0));
    }
    forall q | q in live - {p} && q !in untracked - {p}
      ensures Find(after, q) < |after|
    {
      FindPresent(after, q, Find(es, q));
    }
  }

  lemma ListsMoved(es: seq<Entry>, live: map<Ptr, nat>, untracked: set<Ptr>, p: Ptr, q: Ptr, size: nat)
    requires Lists(es, live, untracked) && p in live && q != 0 && (q == p || q !in live)
    ensures var i := Find(es, p);
            Lists(if i < |es| then es[i := Entry(q, size)] else es, (live - {p})[q := size],
                  if p in untracked then untracked - {p} + {q} else untracked)
    ensures p in untracked <==> Find(es, p) == |es|
  {
    hide NoTwins, Find;
    var i := Find(es, p);
    var after := if i < |es| then es[i := Entry(q, size)] else es;
    OnlyListing(es, live, untracked, p);
    if i < |es| {
      NoTwinsUpdate(es, i, Entry(q, size));
    }
    var missed := if p in untracked then untracked - {p} + {q} else untracked;
    forall x | x in (live - {p})[q := size] && x !in missed
      ensures Find(after, x) < |after|
    {
      FindPresent(after, x, if x == q then i else Find(es, x));
    }
  }

  lemma AddMod(a: int, b: int)
    ensures (a % SIZE_MOD + b) % SIZE_MOD == (a + b) % SIZE_MOD
  {
    var q := a / SIZE_MOD;
    assert a + b == SIZE_MOD * q + (a % SIZE_MOD + b);
    Residue(q, a % SIZE_MOD + b);
  }

  lemma SubMod(a: int, b: int)
    ensures (a % SIZE_MOD - b) % SIZE_MOD == (a - b) % SIZE_MOD
  {
    AddMod(a, -b);
  }

  lemma Residue(q: int, r: int)
    ensures (SIZE_MOD * q + r) % SIZE_MOD == r % SIZE_MOD
  {
    var q1, r1 := r / SIZE_MOD, r % SIZE_MOD;
    assert SIZE_MOD * q + r == SIZE_MOD * (q + q1) + r1;
  }

  // ---------- What the counters count ----------

  function Listed(es: seq<Entry>): set<Ptr> {
    if es == [] then {} else (if es[0].ptr != 0 then {es[0].ptr} else {}) + Listed(es[1..])
  }

  /** The sizes of allocations together. */
  ghost function Total(live: map<Ptr, nat>, ps: set<Ptr>): nat
    requires ps <= live.Keys
    decreases |ps|
  {
    if ps == {} then 0
    else
      var p :| p in ps;
      live[p] + Total(live, ps - {p})
  }

  lemma {:induction false} TotalAny(live: map<Ptr, nat>, ps: set<Ptr>, q: Ptr)
    requires ps <= live.Keys && q in ps
    ensures Total(live, ps) == live[q] + Total(live, ps - {q})
    decreases |ps|
  {
    var p :| p in ps && Total(live, ps) == live[p] + Total(live, ps - {p});
    if p != q {
      TotalAny(live, ps - {p}, q);
      TotalAny(live, ps - {q}, p);
      assert ps - {p} - {q} == ps - {q} - {p};
    }
  }

  lemma {:induction false} ListedIs(es: seq<Entry>, p: Ptr)
    ensures p in Listed(es) <==> exists i :: 0 <= i < |es| && es[i].ptr == p && p != 0
  {
    if es != [] {
      ListedIs(es[1..], p);
      if i :| 0 <= i < |es| && es[i].ptr == p && p != 0 {
        assert i > 0 ==> es[1..][i - 1] == es[i];
      }
    }
  }

  /** In a table without twins that has the sizes of allocations, each of those listed counts once. */
  lemma {:induction false} ListedCounts(es: seq<Entry>, live: map<Ptr, nat>)
    requires NoTwins(es) && forall i :: 0 <= i < |es| && es[i].ptr != 0 ==>
              es[i].ptr in live && live[es[i].ptr] == es[i].size
    ensures Listed(es) <= live.Keys && Count(es) == |Listed(es)| && Sum(es) == Total(live, Listed(es))
    decreases |es|
  {
    if es != [] {
      var p, rest := es[0].ptr, Listed(es[1..]);
      assert forall i :: 0 <= i < |es| - 1 ==> es[1..][i] == es[i + 1];
      ListedCounts(es[1..], live);
      ListedIs(es[1..], p);
      if p != 0 {
        assert p !in rest;
        TotalAny(live, rest + {p}, p);
        assert rest + {p} - {p} == rest && {p} + rest == rest + {p};
      }
    }
  }

  lemma ListedLive(es: seq<Entry>, live: map<Ptr, nat>, untracked: set<Ptr>)
    requires Lists(es, live, untracked)
    ensures Listed(es) == live.Keys - untracked
  {
    forall p
      ensures p in Listed(es) <==> p in live.Keys - untracked
    {
      ListedIs(es, p);
      if p in live.Keys - untracked {
        assert es[Find(es, p)].ptr == p;
      }
    }
  }

  /** While the table tracks the allocations, the counters are the number of those that it knows and, modulo 2^32, their
      sizes together. */
  lemma CountersExact(t: Tracker)
    requires t.Tracks()
    ensures t.untracked <= t.live.Keys && t.entryCnt == |t.live.Keys - t.untracked|
    ensures t.sum == Total(t.live, t.live.Keys - t.untracked) % 0x1_0000_0000
  {
    ListedLive(t.mem[..], t.live, t.untracked);
    ListedCounts(t.mem[..], t.live);
  }
}
