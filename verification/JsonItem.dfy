/** struct cJSON of include/cjson/cJSON.h: nodes linked to their neighbours and to their first child, and the tree of
    values that they stand for. */
module JsonItem {
  import opened JsonText

  /** The type field. */
  datatype Kind = Invalid | IsNull | IsFalse | IsTrue | IsNumber | IsString | IsArray | IsObject

  /** The node at an index, or NULL. */
  ghost function Kid(kids: seq<Item>, i: int): Item? {
    if 0 <= i < |kids| then kids[i] else null
  }

  class Item {
    var next: Item?
    var prev: Item?
    var child: Item?
    var kind: Kind
    var mantissa: int
    var exponent: int
    var valueString: string
    var name: string

    /** The children in order, and all nodes below this one. */
    ghost var kids: seq<Item>
    ghost var below: set<Item>

    /** cJSON_New_Item */
    constructor ()
      ensures next == null && prev == null && child == null && kind == Invalid && kids == [] && below == {}
    {
      next, prev, child, kind, mantissa, exponent, valueString, name := null, null, null, Invalid, 0, 0, "", "";
      kids, below := [], {};
    }

    /** child, next and prev link the children in both directions. */
    ghost predicate Linked()
      reads this`child, this`kids, kids`next, kids`prev
    {
      && child == Kid(kids, 0)
      && (forall i {:trigger kids[i].prev} :: 0 <= i < |kids| ==> kids[i].prev == Kid(kids, i - 1))
      && (forall i {:trigger kids[i].next} :: 0 <= i < |kids| ==> kids[i].next == Kid(kids, i + 1))
    }

    /** This node stands for a value. Its own neighbours and its name are not part of that. */
    ghost predicate Is(t: Json)
      reads this`kind, this`mantissa, this`exponent, this`valueString, this`child, this`kids, this`below, below
      decreases t
    {
      && this !in below && (forall i :: 0 <= i < |kids| ==> kids[i] in below)
      && (forall i :: 0 <= i < |kids| ==> kids[i].below <= below)
      && match t
      case Null => kind.IsNull?
      case False => kind.IsFalse?
      case True => kind.IsTrue?
      case Number(m, e) => kind.IsNumber? && mantissa == m && exponent == e
      case String(s) => kind.IsString? && valueString == s
      case Array(elems) =>
        && kind.IsArray? && Linked() && |kids| == |elems|
        && forall i :: 0 <= i < |elems| ==> kids[i].Is(elems[i])
      case Object(members) =>
        && kind.IsObject? && Linked() && |kids| == |members|
        && forall i :: 0 <= i < |members| ==> kids[i].name == members[i].name && kids[i].Is(members[i].value)
    }

    /** Just allocated. */
    ghost predicate Blank()
      reads this`child, this`kids, this`below, this`next
    {
      child == null && kids == [] && below == {} && next == null
    }

    ghost predicate Shape()
      reads this`child, this`kids, this`below, kids`below, kids`next, kids`prev
    {
      Separate() && Linked()
    }

    /** The nodes below are distinct from this one and from each other. */
    ghost predicate Separate()
      reads this`kids, this`below, kids`below
    {
      && this !in below && (forall i :: 0 <= i < |kids| ==> kids[i] in below)
      && (forall i :: 0 <= i < |kids| ==> kids[i].below <= below)
      && (forall i, j :: 0 <= i < j < |kids| ==> kids[i] != kids[j])
      && (forall i, j :: 0 <= i < |kids| && 0 <= j < |kids| ==> kids[i] !in kids[j].below)
    }

    /** The first children stand for these values. */
    ghost predicate FirstAre(values: seq<Json>)
      requires |values| <= |kids|
      requires (forall i :: 0 <= i < |kids| ==> kids[i] in below)
      requires (forall i :: 0 <= i < |kids| ==> kids[i].below <= below)
      reads this`kids, this`below, below
    {
      forall i :: 0 <= i < |values| ==> kids[i].Is(values[i])
    }

    /** While children are appended: those before the last one stand for values, the last one is blank. */
    ghost predicate Growing(values: seq<Json>)
      reads this`child, this`kids, this`below, below, kids
    {
      Shape() && |kids| == |values| + 1 && FirstAre(values) && kids[|values|].Blank()
    }

    /** All children stand for values. */
    ghost predicate Filled(values: seq<Json>)
      reads this`child, this`kids, this`below, below, kids
    {
      Shape() && |kids| == |values| > 0 && FirstAre(values)
    }

    /** The first child. */
    method AddFirst() returns (c: Item)
      requires child == null && kids == []
      modifies this`child, this`kids, this`below
      ensures Growing([]) && kids == [c] && fresh(c) && below == {c}
    {
      c := new Item();
      child := c;
      kids, below := [c], {c};
    }

    // A new last child.
    method Link(last: Item) returns (c: Item)
      requires Shape() && kids != [] && last == kids[|kids| - 1]
      modifies this`kids, this`below, last`next
      ensures Shape() && fresh(c) && kids == old(kids) + [c] && below == old(below) + {c} && c.Blank()
    {
      hide Linked;
      c := new Item();
      LinkNodes(last, c);
      below := below + {c};
    }

    // Its links.
    method LinkNodes(last: Item, c: Item)
      requires Linked() && kids != [] && last == kids[|kids| - 1] && c !in kids && c != this && c.next == null
      requires forall i, j :: 0 <= i < j < |kids| ==> kids[i] != kids[j]
      modifies this`kids, last`next, c`prev
      ensures Linked() && kids == old(kids) + [c] && c.next == null
    {
      ghost var k := kids;
      last.next := c;
      c.prev := last;
      kids := k + [c];
      forall i | 0 <= i < |kids|
        ensures kids[i].prev == Kid(kids, i - 1) && kids[i].next == Kid(kids, i + 1)
      {
        if i < |k| {
          assert kids[i] == k[i] && k[i] in k;
          assert old(k[i].prev) == Kid(k, i - 1) && old(k[i].next) == Kid(k, i + 1);
        }
      }
    }

    /** A new last child, linked to the one before it. */
    method AddNext(last: Item, ghost values: seq<Json>) returns (c: Item)
      requires Filled(values) && last == kids[|kids| - 1]
      modifies this`kids, this`below, last`next
      ensures Growing(values) && fresh(c) && kids == old(kids) + [c] && below == old(below) + {c}
    {
      hide Is, Linked;
      ghost var k := kids;
      c := Link(last);
      forall i | 0 <= i < |values|
        ensures kids[i].Is(values[i])
      {
        assert kids[i] == k[i] && old(k[i].Is(values[i]));
        assert k[i].below == old(k[i].below) && this !in k[i].below && last !in k[i].below;
      }
    }

    lemma EmptyIs()
      requires Blank() && this !in below
      ensures kind.IsArray? ==> Is(Array([]))
      ensures kind.IsObject? ==> Is(Object([]))
    {
    }

    lemma FilledIs(values: seq<Json>)
      requires Filled(values)
      ensures kind.IsArray? ==> Is(Array(values))
    {
    }
  }
}
