/** The reading half of cJSON.c: the parser walks over the text, decodes strings into buffers it has measured, and builds
    the nodes of the value. */
module JsonParse {
  import opened JsonText
  import opened JsonUnicode
  import opened JsonItem
  import opened JsonPrint
  import opened JsonRoundTrip
  import opened JsonAccept

  /** How a parsing routine ends: behind what it read, at an error, or with a text the model leaves open. */
  datatype Status = Done(next: nat) | Error(ep: nat) | Unclear

  ghost predicate Tells<T>(r: Status, o: Outcome<T>) {
    match o
    case Ok(_, next) => r == Done(next)
    case Failed(ep) => r == Error(ep)
    case Outside => r == Unclear
  }

  method SkipBlanks(s: Text, i: nat) returns (j: nat)
    ensures j == Skip(s, i)
  {
    j := i;
    while j < |s| && 0 < s[j] <= 32
      invariant Skip(s, i) == Skip(s, j)
      decreases |s| - j
    {
      j := j + 1;
    }
  }

  // ----- Numbers -----

  method ParseDigits(s: Text, i: nat) returns (n: nat, num: nat)
    requires IsDigit(At(s, i))
    ensures (n, num) == ReadDigits(s, i, 0)
  {
    n, num := 0, i;
    while IsDigit(At(s, num))
      invariant ReadDigits(s, i, 0) == ReadDigits(s, num, n)
      decreases |s| - num
    {
      n, num := n * 10 + (At(s, num) - 0x30) as int, num + 1;
    }
  }

  method ParseNumber(s: Text, i: nat) returns (r: Status, value: int)
    requires i < |s| && (s[i] == MINUS || IsDigit(s[i]))
    ensures Tells(r, ReadNumber(s, i)) && (r.Done? ==> value == ReadNumber(s, i).value)
  {
    var sign, num := 1, i;
    var n: nat := 0;
    if At(s, num) == MINUS {
      sign, num := -1, num + 1;
    }
    if At(s, num) == 0x30 {
      num := num + 1;
    }
    if 0x31 <= At(s, num) <= 0x39 {
      n, num := ParseDigits(s, num);
    }
    if At(s, num) == DOT && IsDigit(At(s, num + 1)) {
      return Unclear, 0;
    }
    if At(s, num) == 0x65 || At(s, num) == 0x45 {
      return Unclear, 0;
    }
    if !(INT_MIN <= sign * n <= INT_MAX) {
      return Unclear, 0;
    }
    return Done(num), sign * n;
  }

  // ----- Strings -----

  // The first pass: how long the string is, roughly.
  method CountString(s: Text, i: nat) returns (len: nat)
    ensures len == Counted(s, i).0
  {
    var ptr := i;
    len := 0;
    while At(s, ptr) != QUOTE && At(s, ptr) != 0
      invariant Counted(s, i).0 == len + Counted(s, ptr).0
      decreases |s| - ptr
    {
      len := len + 1;
      if At(s, ptr) == BACKSLASH {
        ptr := ptr + 1;
      }
      ptr := ptr + 1;
    }
  }

  // The bytes of a character, as they come off it six bits at a time.
  function Rest(u: bv32): bv32 {
    u >> 6
  }

  function Mark(len: int): bv32 {
    if len == 2 then 0xC0 else if len == 3 then 0xE0 else if len == 4 then 0xF0 else 0x00
  }

  function Lead(u: bv32, mark: bv32): Byte {
    ((u | mark) & 0xFF) as bv8
  }

  function Size(u: bv32): int {
    if u < 0x80 then 1 else if u < 0x800 then 2 else if u < 0x10000 then 3 else 4
  }

  lemma Bytes(u: bv32)
    requires u < 0x200000
    ensures |Encode(u)| == Size(u) && 1 <= Size(u) <= 4
    ensures Size(u) == 1 ==> Encode(u) == [Lead(u, Mark(1))]
    ensures Size(u) == 2 ==> Encode(u) == [Lead(Rest(u), Mark(2)), Trail(u)]
    ensures Size(u) == 3 ==> Encode(u) == [Lead(Rest(Rest(u)), Mark(3)), Trail(Rest(u)), Trail(u)]
    ensures Size(u) == 4 ==> Encode(u) == [Lead(Rest(Rest(Rest(u))), Mark(4)), Trail(Rest(Rest(u))), Trail(Rest(u)), Trail(u)]
  {
    assert Rest(Rest(u)) == u >> 12 && Rest(Rest(Rest(u))) == u >> 18;
  }

  method WriteTrail(out: array<Byte>, n: nat, uc: bv32) returns (n': nat, uc': bv32)
    requires 0 < n <= out.Length
    modifies out
    ensures n' == n - 1 && uc' == Rest(uc) && out[n'] == Trail(uc)
    ensures forall k {:trigger out[k]} :: 0 <= k < out.Length && k != n' ==> out[k] == old(out[k])
  {
    n' := n - 1;
    out[n'] := ((uc | 0x80) & 0xBF) as bv8;
    uc' := uc >> 6;
  }

  /** Writes a character in UTF-8, from its last byte to its first one. */
  method WriteUtf8(out: array<Byte>, n: nat, u: bv32) returns (n': nat)
    requires u < 0x200000 && n + |Encode(u)| <= out.Length
    modifies out
    ensures n' == n + |Encode(u)| && out[..n'] == old(out[..n]) + Encode(u)
  {
    hide *;
    Bytes(u);
    var uc, len := u, Size(u);
    n' := n + len;
    if len >= 4 {
      n', uc := WriteTrail(out, n', uc);
    }
    if len >= 3 {
      n', uc := WriteTrail(out, n', uc);
    }
    if len >= 2 {
      n', uc := WriteTrail(out, n', uc);
    }
    n' := n' - 1;
    out[n'] := Lead(uc, Mark(len));
    n' := n' + len;
    assert out[..n'] == out[..n] + out[n..n'];
  }

  // What an escape with a character number stands for.
  method DecodeUnicode(s: Text, i: nat, out: array<Byte>, n: nat) returns (n': nat, ptr: nat, cut: bool)
    requires i + 1 < |s| && (ReadUnicode(s, i).Piece? ==> n + |ReadUnicode(s, i).bytes| <= out.Length)
    modifies out
    ensures cut <==> ReadUnicode(s, i).Cut?
    ensures !cut ==> ptr == ReadUnicode(s, i).next && n' == n + |ReadUnicode(s, i).bytes|
    ensures !cut ==> n' <= out.Length && out[..n'] == old(out[..n]) + ReadUnicode(s, i).bytes
  {
    hide Hex4;
    hide HexValue;
    hide IsHex;
    hide Encode;
    hide IsHigh;
    hide IsLow;
    hide Joined;
    n', ptr, cut := n, i + 1, false;
    if !HasHex4(s, ptr + 1) {
      cut := true;
      return;
    }
    var uc := Hex4(s, ptr + 1);
    ptr := ptr + 4;
    if IsLow(uc) || uc == 0 {
      ptr := ptr + 1;
      return;
    }
    if IsHigh(uc) {
      if At(s, ptr + 1) != BACKSLASH || At(s, ptr + 2) != 0x75 {
        ptr := ptr + 1;
        return;
      }
      if !HasHex4(s, ptr + 3) {
        cut := true;
        return;
      }
      var uc2 := Hex4(s, ptr + 3);
      ptr := ptr + 6;
      if !IsLow(uc2) {
        ptr := ptr + 1;
        return;
      }
      JoinedFits(uc, uc2);
      uc := Joined(uc, uc2);
    } else {
      Hex4Fits(s, i + 2);
    }
    n' := WriteUtf8(out, n', uc);
    ptr := ptr + 1;
  }

  lemma Hex4Fits(s: Text, i: nat)
    requires HasHex4(s, i)
    ensures Hex4(s, i) < 0x200000
  {
    HexFits(At(s, i));
    HexFits(At(s, i + 1));
    HexFits(At(s, i + 2));
    HexFits(At(s, i + 3));
    hide HexValue;
    hide IsHex;
  }

  lemma HexFits(c: Byte)
    requires IsHex(c)
    ensures HexValue(c) < 16
  {
  }

  method DecodeEscape(s: Text, i: nat, out: array<Byte>, n: nat) returns (n': nat, ptr: nat, cut: bool)
    requires i < |s| && (ReadEscape(s, i).Piece? ==> n + |ReadEscape(s, i).bytes| <= out.Length)
    modifies out
    ensures cut <==> ReadEscape(s, i).Cut?
    ensures !cut ==> ptr == ReadEscape(s, i).next && n' == n + |ReadEscape(s, i).bytes|
    ensures !cut ==> n' <= out.Length && out[..n'] == old(out[..n]) + ReadEscape(s, i).bytes
  {
    hide ReadUnicode;
    n', ptr, cut := n, i + 1, false;
    var e := At(s, ptr);
    if e == 0 {
      cut := true;
    } else if e == 0x75 {
      n', ptr, cut := DecodeUnicode(s, i, out, n);
    } else {
      if e == 0x62 {
        out[n'] := 0x08;
      } else if e == 0x66 {
        out[n'] := 0x0C;
      } else if e == 0x6E {
        out[n'] := 0x0A;
      } else if e == 0x72 {
        out[n'] := 0x0D;
      } else if e == 0x74 {
        out[n'] := 0x09;
      } else {
        out[n'] := e;
      }
      n', ptr := n' + 1, ptr + 1;
    }
  }

  // `b` is decoded, the rest from `ptr` on is not; both passes agree on the rest.
  ghost predicate Decoding(s: Text, i: nat, ptr: nat, b: Text) {
    && (ReadChars(s, i).Cut? <==> ReadChars(s, ptr).Cut?)
    && Counted(s, i).0 >= |b| + Counted(s, ptr).0
    && (ReadChars(s, i).Piece? ==>
          ReadChars(s, i).bytes == b + ReadChars(s, ptr).bytes && ReadChars(s, i).next == ReadChars(s, ptr).next)
  }

  lemma DecodeStart(s: Text, i: nat)
    ensures Decoding(s, i, i, [])
  {
  }

  lemma DecodePlain(s: Text, i: nat, ptr: nat, b: Text)
    requires Decoding(s, i, ptr, b) && At(s, ptr) != QUOTE && At(s, ptr) != 0 && At(s, ptr) != BACKSLASH
    ensures Decoding(s, i, ptr + 1, b + [At(s, ptr)])
    ensures |b| < Counted(s, i).0
  {
    var rest := ReadChars(s, ptr + 1);
    if rest.Piece? {
      assert b + ([At(s, ptr)] + rest.bytes) == b + [At(s, ptr)] + rest.bytes;
    }
  }

  lemma DecodeEscaped(s: Text, i: nat, ptr: nat, b: Text)
    requires Decoding(s, i, ptr, b) && At(s, ptr) == BACKSLASH
    ensures ReadEscape(s, ptr).Cut? ==> ReadChars(s, i).Cut?
    ensures ReadEscape(s, ptr).Piece? ==> Decoding(s, i, ReadEscape(s, ptr).next, b + ReadEscape(s, ptr).bytes)
    ensures ReadEscape(s, ptr).Piece? ==> |b| + |ReadEscape(s, ptr).bytes| <= Counted(s, i).0
  {
    hide ReadEscape;
    var p := ReadEscape(s, ptr);
    if p.Piece? {
      CountEscape(s, ptr);
      hide Counted;
      var rest := ReadChars(s, p.next);
      if rest.Piece? {
        assert b + (p.bytes + rest.bytes) == b + p.bytes + rest.bytes;
      }
    }
  }

  // The second pass: decodes into the buffer that the first pass has measured.
  method DecodeString(s: Text, i: nat, out: array<Byte>) returns (n: nat, ptr: nat, cut: bool)
    requires out.Length == Counted(s, i).0 + 1
    modifies out
    ensures cut <==> ReadChars(s, i).Cut?
    ensures !cut ==> n == |ReadChars(s, i).bytes| && ptr == ReadChars(s, i).next && n < out.Length && out[..n] == ReadChars(s, i).bytes
  {
    hide *;
    n, ptr, cut := 0, i, false;
    DecodeStart(s, i);
    assert out[..0] == [];
    while At(s, ptr) != QUOTE && At(s, ptr) != 0
      invariant 0 <= n <= out.Length && Decoding(s, i, ptr, out[..n])
      decreases |s| - ptr
    {
      if At(s, ptr) != BACKSLASH {
        DecodePlain(s, i, ptr, out[..n]);
        InText(s, ptr);
        ghost var b := out[..n];
        out[n] := At(s, ptr);
        assert out[..n + 1] == b + [At(s, ptr)];
        n, ptr := n + 1, ptr + 1;
      } else {
        InText(s, ptr);
        DecodeEscaped(s, i, ptr, out[..n]);
        n, ptr, cut := DecodeEscape(s, ptr, out, n);
        if cut {
          return;
        }
      }
    }
    DecodeEnd(s, i, ptr, out[..n]);
  }

  lemma InText(s: Text, i: nat)
    requires At(s, i) != 0
    ensures i < |s|
  {
  }

  lemma DecodeEnd(s: Text, i: nat, ptr: nat, b: Text)
    requires Decoding(s, i, ptr, b) && (At(s, ptr) == QUOTE || At(s, ptr) == 0)
    ensures ReadChars(s, i) == Piece(b, ptr) && |b| <= Counted(s, i).0
  {
  }

  method ParseString(item: Item, s: Text, i: nat) returns (r: Status)
    modifies item`kind, item`valuestring
    ensures Tells(r, ReadString(s, i))
    ensures r.Done? ==> item.kind == IsString && item.valuestring == ReadString(s, i).value
  {
    hide ReadChars;
    if At(s, i) != QUOTE {
      return Error(i);
    }
    var len := CountString(s, i + 1);
    var out := new Byte[len + 1];
    var n, ptr, cut := DecodeString(s, i + 1, out);
    if cut {
      return Unclear;
    }
    out[n] := 0;
    if At(s, ptr) == QUOTE {
      ptr := ptr + 1;
    }
    item.valuestring := out[..n];
    item.kind := IsString;
    return Done(ptr);
  }

  // ----- Lists and objects: the texts -----

  // The rest of a list, from the place behind an element on.
  function ListRest(s: Text, i: nat): Outcome<seq<Value>> {
    if At(s, i) == CLOSE_LIST then Ok([], i + 1) else if At(s, i) == COMMA then ReadItems(s, i + 1) else Failed(i)
  }

  function After<T>(vs: seq<T>, o: Outcome<seq<T>>): Outcome<seq<T>> {
    if o.Ok? then Ok(vs + o.value, o.next) else o
  }

  lemma AfterNothing<T>(o: Outcome<seq<T>>)
    ensures o == After([], o)
  {
    if o.Ok? {
      assert [] + o.value == o.value;
    }
  }

  lemma AfterTwice<T>(vs: seq<T>, v: T, o: Outcome<seq<T>>)
    ensures After(vs, After([v], o)) == After(vs + [v], o)
  {
    if o.Ok? {
      assert vs + ([v] + o.value) == vs + [v] + o.value;
    }
  }

  lemma ItemAndRest(s: Text, i: nat)
    ensures match Read(s, Skip(s, i))
      case Ok(v, next) => ReadItems(s, i) == After([v], ListRest(s, Skip(s, next)))
      case Failed(ep) => ReadItems(s, i) == Failed(ep)
      case Outside => ReadItems(s, i) == Outside
  {
    hide Skip;
    hide Read;
    if Read(s, Skip(s, i)).Ok? {
      assert [Read(s, Skip(s, i)).value] + [] == [Read(s, Skip(s, i)).value];
    }
  }

  lemma OneItem(s: Text, i: nat, vs: seq<Value>, o: Outcome<seq<Value>>)
    requires o == After(vs, ReadItems(s, i))
    ensures match Read(s, Skip(s, i))
      case Ok(v, next) => o == After(vs + [v], ListRest(s, Skip(s, next)))
      case Failed(ep) => o == Failed(ep)
      case Outside => o == Outside
  {
    hide Skip;
    hide Read;
    hide ReadItems;
    hide ListRest;
    ItemAndRest(s, i);
    if Read(s, Skip(s, i)).Ok? {
      AfterTwice(vs, Read(s, Skip(s, i)).value, ListRest(s, Skip(s, Read(s, Skip(s, i)).next)));
    }
  }

  function ObjectRest(s: Text, i: nat): Outcome<seq<Field>> {
    if At(s, i) == CLOSE_OBJECT then Ok([], i + 1) else if At(s, i) == COMMA then ReadFields(s, i + 1) else Failed(i)
  }

  lemma FieldAndRest(s: Text, i: nat)
    ensures match ReadField(s, i)
      case Ok(f, next) => ReadFields(s, i) == After([f], ObjectRest(s, Skip(s, next)))
      case Failed(ep) => ReadFields(s, i) == Failed(ep)
      case Outside => ReadFields(s, i) == Outside
  {
    hide Skip;
    hide ReadField;
    if ReadField(s, i).Ok? {
      assert [ReadField(s, i).value] + [] == [ReadField(s, i).value];
    }
  }

  lemma OneField(s: Text, i: nat, fs: seq<Field>, o: Outcome<seq<Field>>)
    requires o == After(fs, ReadFields(s, i))
    ensures match ReadField(s, i)
      case Ok(f, next) => o == After(fs + [f], ObjectRest(s, Skip(s, next)))
      case Failed(ep) => o == Failed(ep)
      case Outside => o == Outside
  {
    hide Skip;
    hide ReadField;
    hide ReadFields;
    hide ObjectRest;
    FieldAndRest(s, i);
    if ReadField(s, i).Ok? {
      AfterTwice(fs, ReadField(s, i).value, ObjectRest(s, Skip(s, ReadField(s, i).next)));
    }
  }

  // ----- Lists and objects: the nodes -----

  /** The elements so far are a chain of nodes, up to `end`; their own elements are in `below`, all are in `nodes`. */
  ghost predicate Row(item: Item, ks: seq<Shape>, below: set<Item>, nodes: set<Item>, end: Item?)
    reads item`child, nodes`next, nodes`prev
  {
    && |ks| > 0 && item.child == ks[0].item && below <= nodes && item !in nodes
    && (forall k {:trigger ks[k]} :: 0 <= k < |ks| ==>
          && ks[k].item in nodes && ks[k].item !in below
          && ks[k].item.next == (if k + 1 < |ks| then ks[k + 1].item else end)
          && ks[k].item.prev == (if k > 0 then ks[k - 1].item else null))
    && (forall j, k {:trigger ks[j], ks[k]} :: 0 <= j < k < |ks| ==> ks[j].item != ks[k].item)
  }

  /** And each of them represents its value. */
  ghost predicate Each(ks: seq<Shape>, vs: seq<Value>, below: set<Item>, nodes: set<Item>)
    reads nodes`kind, nodes`child, nodes`valuestring, nodes`valueint, below
  {
    |ks| == |vs| && forall k {:trigger ks[k]} :: 0 <= k < |ks| ==> ks[k].item in nodes && Linked(ks[k], vs[k], below)
  }

  lemma ListLinked(item: Item, ks: seq<Shape>, vs: seq<Value>, below: set<Item>, nodes: set<Item>)
    requires Row(item, ks, below, nodes, null) && Each(ks, vs, below, nodes) && item.kind == IsArray
    ensures Linked(Shape(item, ks), Arr(vs), nodes)
  {
    var t := Shape(item, ks);
    forall k | 0 <= k < |vs|
      ensures LinkedKid(t, k, vs[k], nodes)
    {
      LinkedMore(ks[k], vs[k], below, nodes);
    }
  }

  lemma ObjectLinked(item: Item, ks: seq<Shape>, fs: seq<Field>, below: set<Item>, nodes: set<Item>)
    requires Row(item, ks, below, nodes, null) && Each(ks, Values(fs), below, nodes) && Named(ks, fs, nodes) && item.kind == IsObject
    ensures Linked(Shape(item, ks), Obj(fs), nodes)
  {
    var t := Shape(item, ks);
    forall k | 0 <= k < |fs|
      ensures LinkedKid(t, k, fs[k].value, nodes) && t.kids[k].item.name == fs[k].name
    {
      LinkedMore(ks[k], Values(fs)[k], below, nodes);
    }
  }

  function Values(fs: seq<Field>): (vs: seq<Value>)
    ensures |vs| == |fs| && forall k {:trigger vs[k]} :: 0 <= k < |fs| ==> vs[k] == fs[k].value
  {
    seq(|fs|, k requires 0 <= k < |fs| => fs[k].value)
  }

  ghost predicate Named(ks: seq<Shape>, fs: seq<Field>, nodes: set<Item>)
    reads nodes`name
  {
    |ks| == |fs| && forall k {:trigger ks[k]} :: 0 <= k < |ks| ==> ks[k].item in nodes && ks[k].item.name == fs[k].name
  }

  lemma FirstOf(item: Item, child: Item, t: Shape, v: Value, b: set<Item>)
    requires item.child == child && t.item == child && Linked(t, v, b) && child !in b && item !in b && item != child
    requires child.next == null && child.prev == null
    ensures Row(item, [t], b, b + {child}, null) && Each([t], [v], b, b + {child})
  {
  }

  // Appends a node to the chain, before it is filled in.
  method Link(item: Item, child: Item, newItem: Item, ghost ks: seq<Shape>, ghost below: set<Item>, ghost nodes: set<Item>)
    requires Row(item, ks, below, nodes, null) && child == ks[|ks| - 1].item && newItem !in nodes && newItem != item
    modifies child`next, newItem`prev
    ensures Row(item, ks, below, nodes, newItem) && newItem.prev == child
  {
    child.next := newItem;
    newItem.prev := child;
  }

  lemma RowGrown(item: Item, ks: seq<Shape>, below: set<Item>, nodes: set<Item>, newItem: Item, t: Shape, b: set<Item>)
    requires Row(item, ks, below, nodes, newItem) && newItem.prev == ks[|ks| - 1].item && newItem.next == null
    requires newItem !in nodes && newItem != item && newItem !in b && b !! nodes && item !in b && t.item == newItem
    ensures Row(item, ks + [t], below + b, nodes + b + {newItem}, null)
  {
    var ks' := ks + [t];
    forall k | 0 <= k < |ks'|
      ensures ks'[k].item in nodes + {newItem} && (k < |ks| <==> ks'[k].item in nodes) && ks'[k].item !in below + b
    {
      assert k < |ks| ==> ks'[k] == ks[k];
    }
  }

  lemma EachGrown(ks: seq<Shape>, vs: seq<Value>, below: set<Item>, nodes: set<Item>, newItem: Item, t: Shape, v: Value, b: set<Item>)
    requires Each(ks, vs, below, nodes) && t.item == newItem && Linked(t, v, b)
    ensures Each(ks + [t], vs + [v], below + b, nodes + b + {newItem})
  {
    hide Linked;
    var ks', vs', below' := ks + [t], vs + [v], below + b;
    forall k | 0 <= k < |ks'|
      ensures Linked(ks'[k], vs'[k], below')
    {
      if k < |ks| {
        LinkedMore(ks[k], vs[k], below, below');
      } else {
        LinkedMore(t, v, b, below');
      }
    }
  }

  lemma Grown(item: Item, ks: seq<Shape>, vs: seq<Value>, below: set<Item>, nodes: set<Item>, newItem: Item, t: Shape, v: Value, b: set<Item>)
    requires Row(item, ks, below, nodes, newItem) && Each(ks, vs, below, nodes)
    requires newItem.prev == ks[|ks| - 1].item && newItem.next == null
    requires newItem !in nodes && newItem != item && newItem !in b && b !! nodes && item !in b
    requires t.item == newItem && Linked(t, v, b)
    ensures Row(item, ks + [t], below + b, nodes + b + {newItem}, null)
    ensures Each(ks + [t], vs + [v], below + b, nodes + b + {newItem})
  {
    hide Linked;
    hide Each;
    RowGrown(item, ks, below, nodes, newItem, t, b);
    EachGrown(ks, vs, below, nodes, newItem, t, v, b);
  }

  // ----- Values -----

  method ParseValue(item: Item, s: Text, i: nat) returns (r: Status, ghost t: Shape, ghost below: set<Item>)
    requires item.child == null
    modifies item`kind, item`valuestring, item`valueint, item`child
    ensures Tells(r, Read(s, i))
    ensures fresh(below) && item !in below
    ensures r.Done? ==> t.item == item && Linked(t, Read(s, i).value, below)
    decreases |s| - i, 2
  {
    t, below := Shape(item, []), {};
    if Begins(s, i, NULL_TEXT) {
      item.kind := IsNull;
      return Done(i + 4), t, below;
    }
    if Begins(s, i, FALSE_TEXT) {
      item.kind := IsFalse;
      return Done(i + 5), t, below;
    }
    if Begins(s, i, TRUE_TEXT) {
      item.kind := IsTrue;
      item.valueint := 1;
      return Done(i + 4), t, below;
    }
    hide Begins;
    hide Skip;
    if At(s, i) == QUOTE {
      r := ParseString(item, s, i);
      return;
    }
    if At(s, i) == MINUS || IsDigit(At(s, i)) {
      var value;
      r, value := ParseNumber(s, i);
      if r.Done? {
        item.valueint := value;
        item.kind := IsNumber;
      }
      return;
    }
    if At(s, i) == OPEN_LIST {
      r, t, below := ParseArray(item, s, i);
      return;
    }
    if At(s, i) == OPEN_OBJECT {
      r, t, below := ParseObject(item, s, i);
      return;
    }
    return Error(i), t, below;
  }

  method ParseArray(item: Item, s: Text, i: nat) returns (r: Status, ghost t: Shape, ghost below: set<Item>)
    requires At(s, i) == OPEN_LIST && item.child == null
    modifies item`kind, item`child
    ensures Tells(r, Read(s, i))
    ensures fresh(below) && item !in below
    ensures r.Done? ==> t.item == item && Linked(t, Read(s, i).value, below)
    decreases |s| - i, 1
  {
    hide Skip;
    hide ReadItems;
    NotAWord(s, i);
    t, below := Shape(item, []), {};
    item.kind := IsArray;
    var value := SkipBlanks(s, i + 1);
    if At(s, value) == CLOSE_LIST {
      return Done(value + 1), t, below;
    }
    ghost var ks, vs, b;
    r, ks, vs, b, below := ParseItems(item, s, value);
    if r.Done? {
      t := Shape(item, ks);
      ListLinked(item, ks, vs, b, below);
    }
  }

  lemma NotAWord(s: Text, i: nat)
    requires At(s, i) == OPEN_LIST || At(s, i) == OPEN_OBJECT
    ensures !Begins(s, i, NULL_TEXT) && !Begins(s, i, FALSE_TEXT) && !Begins(s, i, TRUE_TEXT)
  {
    assert i + 4 <= |s| ==> s[i..i + 4][0] == s[i];
    assert i + 5 <= |s| ==> s[i..i + 5][0] == s[i];
  }

  // One element, with the white space around it.
  method ParseItem(child: Item, s: Text, i: nat) returns (r: Status, ghost t: Shape, ghost v: Value, ghost b: set<Item>)
    requires child.child == null
    modifies child`kind, child`valuestring, child`valueint, child`child
    ensures fresh(b) && child !in b
    ensures match Read(s, Skip(s, i))
      case Ok(x, next) => r == Done(Skip(s, next)) && v == x && t.item == child && Linked(t, v, b) && i < next <= |s|
      case Failed(ep) => r == Error(ep)
      case Outside => r == Unclear
    decreases |s| - i, 3
  {
    hide Read;
    hide Linked;
    var j := SkipBlanks(s, i);
    r, t, b := ParseValue(child, s, j);
    v := Null;
    if r.Done? {
      v := Read(s, j).value;
      var k := SkipBlanks(s, r.next);
      r := Done(k);
    }
  }

  method ParseItems(item: Item, s: Text, i: nat)
    returns (r: Status, ghost ks: seq<Shape>, ghost vs: seq<Value>, ghost below: set<Item>, ghost nodes: set<Item>)
    requires item.child == null
    modifies item`child
    ensures Tells(r, ReadItems(s, i))
    ensures fresh(nodes) && item !in nodes
    ensures r.Done? ==> vs == ReadItems(s, i).value && Row(item, ks, below, nodes, null) && Each(ks, vs, below, nodes)
    decreases |s| - i, 4
  {
    hide Read;
    hide ReadItems;
    hide Skip;
    hide Linked;
    hide Row;
    hide Each;
    ghost var o := ReadItems(s, i);
    ks, vs, below, nodes := [], [], {}, {};
    var child := new Item();
    item.child := child;
    AfterNothing(o);
    OneItem(s, i, [], o);
    ghost var t, v, b;
    r, t, v, b := ParseItem(child, s, i);
    if !r.Done? {
      return;
    }
    FirstOf(item, child, t, v, b);
    assert [] + [v] == [v];
    ks, vs, below, nodes := [t], [v], b, b + {child};
    var value := r.next;
    while At(s, value) == COMMA
      invariant fresh(nodes) && item !in nodes && child in nodes && i < value <= |s| && o == After(vs, ListRest(s, value))
      invariant Row(item, ks, below, nodes, null) && Each(ks, vs, below, nodes) && |ks| > 0 && child == ks[|ks| - 1].item
      decreases |s| - value
    {
      child, r, ks, vs, below, nodes := AddItem(item, child, s, value, ks, vs, below, nodes, o);
      if !r.Done? {
        return;
      }
      value := r.next;
    }
    if At(s, value) == CLOSE_LIST {
      r := Done(value + 1);
    } else {
      r := Error(value);
    }
  }

  // Behind a comma: the next element.
  method AddItem(item: Item, child: Item, s: Text, value: nat, ghost ks: seq<Shape>, ghost vs: seq<Value>, ghost below: set<Item>, ghost nodes: set<Item>,
                 ghost o: Outcome<seq<Value>>)
    returns (newItem: Item, r: Status, ghost ks': seq<Shape>, ghost vs': seq<Value>, ghost below': set<Item>, ghost nodes': set<Item>)
    requires At(s, value) == COMMA && o == After(vs, ListRest(s, value)) && value < |s|
    requires Row(item, ks, below, nodes, null) && Each(ks, vs, below, nodes) && |ks| > 0 && child == ks[|ks| - 1].item
    modifies child`next
    ensures fresh(nodes' - nodes) && item !in nodes' && (r.Error? ==> o == Failed(r.ep)) && (r.Unclear? ==> o == Outside)
    ensures r.Done? ==> value < r.next <= |s| && o == After(vs', ListRest(s, r.next))
    ensures r.Done? ==> Row(item, ks', below', nodes', null) && Each(ks', vs', below', nodes')
    ensures r.Done? ==> newItem in nodes' && |ks'| > 0 && newItem == ks'[|ks'| - 1].item
    decreases |s| - value, 0
  {
    hide Read;
    hide ReadItems;
    hide Skip;
    hide Linked;
    hide Each;
    newItem := new Item();
    Link(item, child, newItem, ks, below, nodes);
    OneItem(s, value + 1, vs, o);
    ghost var t, v, b;
    r, t, v, b := ParseItem(newItem, s, value + 1);
    ks', vs', below', nodes' := ks, vs, below, nodes;
    if r.Done? {
      Grown(item, ks, vs, below, nodes, newItem, t, v, b);
      ks', vs', below', nodes' := ks + [t], vs + [v], below + b, nodes + b + {newItem};
    }
  }

  // One name and value, with the white space around them.
  method ParseField(child: Item, s: Text, i: nat) returns (r: Status, ghost t: Shape, ghost f: Field, ghost b: set<Item>)
    requires child.child == null
    modifies child`kind, child`valuestring, child`valueint, child`child, child`name
    ensures fresh(b) && child !in b
    ensures match ReadField(s, i)
      case Ok(x, next) => r == Done(Skip(s, next)) && f == x && t.item == child && Linked(t, f.value, b) && child.name == f.name && i < next <= |s|
      case Failed(ep) => r == Error(ep)
      case Outside => r == Unclear
    decreases |s| - i, 4
  {
    hide Read;
    hide ReadString;
    hide Skip;
    hide Linked;
    t, f, b := Shape(child, []), Field([], Null), {};
    var j := SkipBlanks(s, i);
    r := ParseString(child, s, j);
    if !r.Done? {
      return;
    }
    var value := SkipBlanks(s, r.next);
    child.name := child.valuestring;
    child.valuestring := [];
    if At(s, value) != COLON {
      r := Error(value);
      return;
    }
    ghost var v;
    r, t, v, b := ParseItem(child, s, value + 1);
    f := Field(child.name, v);
  }

  method ParseObject(item: Item, s: Text, i: nat) returns (r: Status, ghost t: Shape, ghost below: set<Item>)
    requires At(s, i) == OPEN_OBJECT && item.child == null
    modifies item`kind, item`child
    ensures Tells(r, Read(s, i))
    ensures fresh(below) && item !in below
    ensures r.Done? ==> t.item == item && Linked(t, Read(s, i).value, below)
    decreases |s| - i, 1
  {
    hide Skip;
    hide ReadFields;
    NotAWord(s, i);
    t, below := Shape(item, []), {};
    item.kind := IsObject;
    var value := SkipBlanks(s, i + 1);
    if At(s, value) == CLOSE_OBJECT {
      return Done(value + 1), t, below;
    }
    ghost var ks, fs, b;
    r, ks, fs, b, below := ParseFields(item, s, value);
    if r.Done? {
      t := Shape(item, ks);
      ObjectLinked(item, ks, fs, b, below);
    }
  }

  method ParseFields(item: Item, s: Text, i: nat)
    returns (r: Status, ghost ks: seq<Shape>, ghost fs: seq<Field>, ghost below: set<Item>, ghost nodes: set<Item>)
    requires item.child == null
    modifies item`child
    ensures Tells(r, ReadFields(s, i))
    ensures fresh(nodes) && item !in nodes
    ensures r.Done? ==> fs == ReadFields(s, i).value && Row(item, ks, below, nodes, null) && Each(ks, Values(fs), below, nodes)
    ensures r.Done? ==> Named(ks, fs, nodes)
    decreases |s| - i, 5
  {
    hide ReadField;
    hide ReadFields;
    hide Skip;
    hide Linked;
    hide Row;
    hide Each;
    hide Named;
    hide Values;
    ghost var o := ReadFields(s, i);
    ks, fs, below, nodes := [], [], {}, {};
    var child := new Item();
    item.child := child;
    AfterNothing(o);
    OneField(s, i, [], o);
    ghost var t, f, b;
    r, t, f, b := ParseField(child, s, i);
    if !r.Done? {
      return;
    }
    FirstOf(item, child, t, f.value, b);
    FirstNamed(child, t, f, b);
    assert [] + [f] == [f];
    ks, fs, below, nodes := [t], [f], b, b + {child};
    var value := r.next;
    while At(s, value) == COMMA
      invariant fresh(nodes) && item !in nodes && child in nodes && i < value <= |s| && o == After(fs, ObjectRest(s, value))
      invariant Row(item, ks, below, nodes, null) && Each(ks, Values(fs), below, nodes) && |ks| > 0 && child == ks[|ks| - 1].item
      invariant Named(ks, fs, nodes)
      decreases |s| - value
    {
      child, r, ks, fs, below, nodes := AddField(item, child, s, value, ks, fs, below, nodes, o);
      if !r.Done? {
        return;
      }
      value := r.next;
    }
    if At(s, value) == CLOSE_OBJECT {
      r := Done(value + 1);
    } else {
      r := Error(value);
    }
  }

  // Behind a comma: the next field.
  method AddField(item: Item, child: Item, s: Text, value: nat, ghost ks: seq<Shape>, ghost fs: seq<Field>, ghost below: set<Item>, ghost nodes: set<Item>,
                  ghost o: Outcome<seq<Field>>)
    returns (newItem: Item, r: Status, ghost ks': seq<Shape>, ghost fs': seq<Field>, ghost below': set<Item>, ghost nodes': set<Item>)
    requires At(s, value) == COMMA && o == After(fs, ObjectRest(s, value)) && value < |s|
    requires Row(item, ks, below, nodes, null) && Each(ks, Values(fs), below, nodes) && |ks| > 0 && child == ks[|ks| - 1].item
    requires Named(ks, fs, nodes)
    modifies child`next
    ensures fresh(nodes' - nodes) && item !in nodes' && (r.Error? ==> o == Failed(r.ep)) && (r.Unclear? ==> o == Outside)
    ensures r.Done? ==> value < r.next <= |s| && o == After(fs', ObjectRest(s, r.next))
    ensures r.Done? ==> Row(item, ks', below', nodes', null) && Each(ks', Values(fs'), below', nodes') && Named(ks', fs', nodes')
    ensures r.Done? ==> newItem in nodes' && |ks'| > 0 && newItem == ks'[|ks'| - 1].item
    decreases |s| - value, 0
  {
    hide ReadField;
    hide ReadFields;
    hide Skip;
    hide Linked;
    hide Each;
    hide Named;
    hide Values;
    hide Row;
    RowApart(item, ks, below, nodes);
    newItem := new Item();
    Link(item, child, newItem, ks, below, nodes);
    OneField(s, value + 1, fs, o);
    ghost var t, f, b;
    r, t, f, b := ParseField(newItem, s, value + 1);
    ks', fs', below', nodes' := ks, fs, below, nodes;
    if r.Done? {
      Grown(item, ks, Values(fs), below, nodes, newItem, t, f.value, b);
      GrownNames(ks, fs, nodes, newItem, t, f, b);
      ks', fs', below', nodes' := ks + [t], fs + [f], below + b, nodes + b + {newItem};
      RowApart(item, ks', below', nodes');
    }
  }

  lemma RowApart(item: Item, ks: seq<Shape>, below: set<Item>, nodes: set<Item>)
    requires Row(item, ks, below, nodes, null)
    ensures item !in nodes && |ks| > 0 && ks[|ks| - 1].item in nodes
  {
  }

  lemma FirstNamed(child: Item, t: Shape, f: Field, b: set<Item>)
    requires t.item == child && child.name == f.name
    ensures Named([t], [f], b + {child}) && Values([f]) == [f.value]
  {
  }

  lemma GrownNames(ks: seq<Shape>, fs: seq<Field>, nodes: set<Item>, newItem: Item, t: Shape, f: Field, b: set<Item>)
    requires Named(ks, fs, nodes) && t.item == newItem && newItem.name == f.name
    ensures Named(ks + [t], fs + [f], nodes + b + {newItem}) && Values(fs + [f]) == Values(fs) + [f.value]
  {
  }

  // ----- The whole -----

  /** The tree that a text stands for, or none. */
  method Parse(s: Text) returns (c: Item?, r: Status, ghost t: Shape, ghost below: set<Item>)
    ensures Tells(r, Read(s, Skip(s, 0))) && (c != null <==> r.Done?)
    ensures c != null ==> t.item == c && Linked(t, Read(s, Skip(s, 0)).value, below) && fresh(below) && fresh(c)
    ensures Judged(s, Skip(s, 0), Read(s, Skip(s, 0)))
  {
    hide Read;
    hide Linked;
    c := new Item();
    var i := SkipBlanks(s, 0);
    r, t, below := ParseValue(c, s, i);
    if !r.Done? {
      c := null;
    }
    EveryOutcome(s, i);
  }

  /** The way round, on the nodes themselves: what is printed is read back as a tree of the same value, to its end. */
  method PrintAndParse(item: Item, fmt: bool, ghost t: Shape, ghost v: Value, ghost below: set<Item>)
    returns (c: Item, ghost t': Shape, ghost below': set<Item>)
    requires Linked(t, v, below) && t.item == item && Proper(v)
    ensures t'.item == c && Linked(t', v, below') && fresh(c)
  {
    hide *;
    var out := PrintValue(item, 0, fmt, t, v, below);
    var n := StrLen(out, Print(v, 0, fmt));
    HoldsText(out, Print(v, 0, fmt));
    RoundTrip(v, fmt);
    var r, copy;
    copy, r, t', below' := Parse(out[..n]);
    TellsDone(r, Read(out[..n], Skip(out[..n], 0)));
    c := copy;
  }

  lemma HoldsText(a: array<Byte>, t: Text)
    requires Holds(a, t)
    ensures |t| <= a.Length && a[..|t|] == t
  {
  }

  lemma TellsDone<T>(r: Status, o: Outcome<T>)
    requires Tells(r, o) && o.Ok?
    ensures r == Done(o.next)
  {
  }
}
