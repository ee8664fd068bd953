/** The nodes of cJSON.h: a value is a node with its kind, and the elements of lists and objects are chained below it. */
module JsonItem {
  import opened JsonText

  datatype Kind = IsFalse | IsTrue | IsNull | IsNumber | IsString | IsArray | IsObject

  class Item {
    var next: Item?
    var prev: Item?
    var child: Item?
    var kind: Kind
    var valuestring: Text
    var valueint: int
    var name: Text

    constructor ()
      ensures next == null && prev == null && child == null
    {
      next, prev, child := null, null, null;
      kind, valuestring, valueint, name := IsFalse, [], 0, [];
    }
  }

  /** The nodes of a value: its own and those of its elements, in order. */
  datatype Shape = Shape(item: Item, kids: seq<Shape>)

  /** The elements are chained below the node, both ways; their nodes are in `below`. */
  ghost predicate Chained(item: Item, kids: seq<Shape>, below: set<Item>)
    reads item`child, below
  {
    && item.child == (if kids == [] then null else kids[0].item)
    && (forall k {:trigger kids[k]} :: 0 <= k < |kids| ==>
          && kids[k].item in below
          && kids[k].item.next == (if k + 1 < |kids| then kids[k + 1].item else null)
          && kids[k].item.prev == (if k > 0 then kids[k - 1].item else null))
  }

  /** The nodes represent the value; all but the first one are in `below`. */
  ghost predicate Linked(t: Shape, v: Value, below: set<Item>)
    reads t.item`child, t.item`kind, t.item`valuestring, t.item`valueint, below
    decreases v, 0
  {
    match v
    case Null => t.item.kind == IsNull
    case False => t.item.kind == IsFalse
    case True => t.item.kind == IsTrue
    case Num(n) => t.item.kind == IsNumber && t.item.valueint == n
    case Str(s) => t.item.kind == IsString && t.item.valuestring == s
    case Arr(items) =>
      && t.item.kind == IsArray && |t.kids| == |items| && Chained(t.item, t.kids, below)
      && (forall k {:trigger LinkedKid(t, k, items[k], below)} :: 0 <= k < |items| ==> LinkedKid(t, k, items[k], below))
    case Obj(fields) =>
      && t.item.kind == IsObject && |t.kids| == |fields| && Chained(t.item, t.kids, below)
      && (forall k {:trigger LinkedKid(t, k, fields[k].value, below)} :: 0 <= k < |fields| ==>
            LinkedKid(t, k, fields[k].value, below) && t.kids[k].item.name == fields[k].name)
  }

  ghost predicate LinkedKid(t: Shape, k: nat, v: Value, below: set<Item>)
    requires k < |t.kids|
    reads below
    decreases v, 1
  {
    t.kids[k].item in below && Linked(t.kids[k], v, below)
  }

  lemma {:induction false} LinkedMore(t: Shape, v: Value, below: set<Item>, below': set<Item>)
    requires Linked(t, v, below) && below <= below'
    ensures Linked(t, v, below')
    decreases v
  {
    if v.Arr? {
      forall k | 0 <= k < |v.items|
        ensures LinkedKid(t, k, v.items[k], below')
      {
        assert LinkedKid(t, k, v.items[k], below);
        LinkedMore(t.kids[k], v.items[k], below, below');
      }
    }
    if v.Obj? {
      forall k | 0 <= k < |v.fields|
        ensures LinkedKid(t, k, v.fields[k].value, below') && t.kids[k].item.name == v.fields[k].name
      {
        assert LinkedKid(t, k, v.fields[k].value, below);
        LinkedMore(t.kids[k], v.fields[k].value, below, below');
      }
    }
  }
}
