/** Circular doubly linked lists and their merge sort, which moves nodes and never copies data. */
module ListSort {
  import opened Order
  import opened StableOrder

  class Node<T> {
    var prev: Node<T>
    var next: Node<T>
    const data: T

    constructor (data: T)
      ensures this.data == data && next == this && prev == this
    {
      this.data, prev, next := data, this, this;
    }
  }

  // ----- Chains and circles -----

  ghost function Nodes<T>(a: seq<Node<T>>): set<Node<T>> {
    set n | n in a
  }

  ghost predicate Step<T>(s: seq<Node<T>>, k: int)
    requires 0 <= k < |s| - 1
    reads s[k], s[k + 1]
  {
    s[k].next == s[k + 1] && s[k + 1].prev == s[k]
  }

  /** Neighbours in `s` are linked both ways. */
  ghost predicate Chain<T>(s: seq<Node<T>>)
    reads Nodes(s)
  {
    forall k {:trigger Step(s, k)} :: 0 <= k < |s| - 1 ==> Step(s, k)
  }

  ghost predicate Distinct<T>(s: seq<T>) {
    forall i, j :: 0 <= i < j < |s| ==> s[i] != s[j]
  }

  ghost predicate Circle<T>(s: seq<Node<T>>)
    reads Nodes(s)
  {
    && |s| > 0 && Distinct(s) && Chain(s) && s[|s| - 1].next == s[0] && s[0].prev == s[|s| - 1]
  }

  /** The order of nodes is that of their data. */
  ghost function ByData<T>(cmp: (T, T) -> int): (Node<T>, Node<T>) -> int {
    (a: Node<T>, b: Node<T>) => cmp(a.data, b.data)
  }

  /** Where the nodes of a merge stand: merged ones counted from the front, the others from the end of their list. */
  ghost predicate Placed<T>(place: map<Node<T>, int>, m: seq<Node<T>>, u: seq<Node<T>>, v: seq<Node<T>>, head: Node<T>,
                            tu: int) {
    && 1 <= tu <= 2 && head in place && place[head] == -1
    && (forall k {:trigger m[k]} :: 0 <= k < |m| ==> m[k] in place && place[m[k]] == 3 * k)
    && (forall k {:trigger u[k]} :: 0 <= k < |u| ==> u[k] in place && place[u[k]] == 3 * (|u| - k) + tu)
    && (forall k {:trigger v[k]} :: 0 <= k < |v| ==> v[k] in place && place[v[k]] == 3 * (|v| - k) + 3 - tu)
  }

  /** The state of a merge: `m` is linked up behind the head, `u` and `v` end at it. */
  ghost predicate Merging<T>(m: seq<Node<T>>, u: seq<Node<T>>, v: seq<Node<T>>, head: Node<T>, p: Node<T>)
    reads Nodes(m), Nodes(u), Nodes(v), head
  {
    && Chain(m) && Chain(u) && Chain(v)
    && (u != [] ==> u[|u| - 1].next == head) && (v != [] ==> v[|v| - 1].next == head)
    && (m != [] ==> head.next == m[0] && m[0].prev == head)
    && p == if m == [] then head else m[|m| - 1]
  }

  /** The first node of `u` is linked behind the merged ones. */
  method Append<T>(p: Node<T>, x: Node<T>, head: Node<T>, ghost m: seq<Node<T>>, ghost u: seq<Node<T>>,
                   ghost v: seq<Node<T>>, ghost place: map<Node<T>, int>, ghost tu: int)
    returns (ghost place': map<Node<T>, int>)
    requires Merging(m, u, v, head, p) && Placed(place, m, u, v, head, tu) && u != [] && x == u[0]
    modifies p`next, x`prev
    ensures Merging(m + [x], u[1..], v, head, x) && Placed(place', m + [x], u[1..], v, head, tu)
    ensures x.next == old(x.next) && place'.Keys == place.Keys
  {
    p.next := x;
    x.prev := p;
    place' := place[x := 3 * |m|];
    ghost var m', u' := m + [x], u[1..];
    forall k | 0 <= k < |m'| - 1
      ensures Step(m', k)
    {
      assert k < |m| - 1 ==> old(Step(m, k));
    }
    forall k | 0 <= k < |u'| - 1
      ensures Step(u', k)
    {
      assert old(Step(u, k + 1));
    }
    forall k | 0 <= k < |v| - 1
      ensures Step(v, k)
    {
      assert old(Step(v, k));
    }
  }

  lemma Placing<T>(a: seq<Node<T>>, b: seq<Node<T>>, head: Node<T>) returns (place: map<Node<T>, int>)
    requires Distinct(a) && Distinct(b) && head !in a && head !in b && forall k :: 0 <= k < |a| ==> a[k] !in b
    ensures Placed(place, [], a, b, head, 1) && place.Keys == Nodes(a) + Nodes(b) + {head}
  {
    var pa := Counted(a, 1);
    var pb := Counted(b, 2);
    place := pa + pb[head := -1];
  }

  lemma {:induction false} Counted<T>(a: seq<Node<T>>, t: int) returns (place: map<Node<T>, int>)
    requires Distinct(a)
    ensures place.Keys == Nodes(a)
    ensures forall k {:trigger a[k]} :: 0 <= k < |a| ==> place[a[k]] == 3 * (|a| - k) + t
  {
    if a == [] {
      place := map[];
    } else {
      place := Counted(a[1..], t);
      assert forall k :: 1 <= k < |a| ==> a[k] == a[1..][k - 1];
      place := place[a[0] := 3 * |a| + t];
    }
  }

  /** What is left of one list is linked behind the merged nodes, and the circle is closed. */
  method Close<T>(p: Node<T>, y: Node<T>, ylast: Node<T>, head: Node<T>, ghost m: seq<Node<T>>, ghost v: seq<Node<T>>,
                  ghost place: map<Node<T>, int>, ghost tu: int)
    requires Merging(m, [], v, head, p) && Placed(place, m, [], v, head, tu) && m != [] && v != []
    requires y == v[0] && ylast == v[|v| - 1]
    modifies p`next, y`prev, ylast`next, head.next`prev
    ensures Circle(m + v) && head.next == (m + v)[0] && head.next == old(head.next)
  {
    ghost var c := m + v;
    p.next := y;
    y.prev := p;
    ylast.next := head.next;
    head.next.prev := ylast;
    forall k | 0 <= k < |c| - 1
      ensures Step(c, k)
    {
      assert k < |m| - 1 ==> old(Step(m, k));
      assert k >= |m| ==> old(Step(v, k - |m|));
    }
    forall i, j | 0 <= i < j < |c|
      ensures c[i] != c[j]
    {
      assert c[i] == (if i < |m| then m[i] else v[i - |m|]) && c[j] == (if j < |m| then m[j] else v[j - |m|]);
    }
  }

  ghost function Front<T>(u: seq<Node<T>>, head: Node<T>): Node<T> {
    if u == [] then head else u[0]
  }

  /** Both circles are opened and end at the head. */
  method Open<T>(x: Node<T>, y: Node<T>, head: Node<T>, ghost a: seq<Node<T>>, ghost b: seq<Node<T>>)
    requires Circle(a) && Circle(b) && a[0] == x && b[0] == y && (forall k :: 0 <= k < |a| ==> a[k] !in b)
    requires head !in a && head !in b
    modifies x.prev`next, y.prev`next
    ensures Merging([], a, b, head, head) && x.prev == a[|a| - 1] && y.prev == b[|b| - 1]
  {
    x.prev.next := head;
    y.prev.next := head;
    forall k | 0 <= k < |a| - 1
      ensures Step(a, k)
    {
      assert old(Step(a, k));
    }
    forall k | 0 <= k < |b| - 1
      ensures Step(b, k)
    {
      assert old(Step(b, k));
    }
  }

  ghost predicate State<T>(p: Node<T>, x: Node<T>, y: Node<T>, xlast: Node<T>, ylast: Node<T>, head: Node<T>,
                           m: seq<Node<T>>, u: seq<Node<T>>, v: seq<Node<T>>, place: map<Node<T>, int>)
    reads Nodes(m), Nodes(u), Nodes(v), head
  {
    && Merging(m, u, v, head, p) && Placed(place, m, u, v, head, 1) && x == Front(u, head) && y == Front(v, head)
    && EndsWith(u, xlast) && EndsWith(v, ylast)
  }

  /** One round: the smaller front, of equivalent ones that of the first list, is linked up. */
  method MergeOne<T>(p0: Node<T>, x0: Node<T>, y0: Node<T>, head: Node<T>, cmp: (T, T) -> int, ghost xlast: Node<T>,
                     ghost ylast: Node<T>, ghost m0: seq<Node<T>>, ghost u0: seq<Node<T>>, ghost v0: seq<Node<T>>,
                     ghost place0: map<Node<T>, int>)
    returns (p: Node<T>, x: Node<T>, y: Node<T>, ghost m: seq<Node<T>>, ghost u: seq<Node<T>>, ghost v: seq<Node<T>>,
             ghost place: map<Node<T>, int>)
    requires State(p0, x0, y0, xlast, ylast, head, m0, u0, v0, place0) && u0 != [] && v0 != []
    modifies p0`next, x0`prev, y0`prev
    ensures State(p, x, y, xlast, ylast, head, m, u, v, place) && place.Keys == place0.Keys && (u == [] ==> v != [])
    ensures |m| == |m0| + 1 && |m| + |u| + |v| == |m0| + |u0| + |v0| && |u| <= |u0| && |v| <= |v0|
    ensures m + Merge(ByData(cmp), u, v) == m0 + Merge(ByData(cmp), u0, v0)
  {
    hide Merging, Placed, EndsWith, Merge;
    MergeStep(cmp, m0, u0, v0);
    TailEnds(u0, xlast);
    TailEnds(v0, ylast);
    p, x, y, m, u, v := p0, x0, y0, m0, u0, v0;
    if cmp(x.data, y.data) <= 0 {
      NextIs(m, u, v, head, p);
      place := Append(p, x, head, m, u, v, place0, 1);
      m, u := m + [x], u[1..];
      p := x;
      x := x.next;
    } else {
      Flip(place0, m, u, v, head, p, 1);
      NextIs(m, v, u, head, p);
      place := Append(p, y, head, m, v, u, place0, 2);
      Flip(place, m + [y], v[1..], u, head, y, 2);
      m, v := m + [y], v[1..];
      p := y;
      y := y.next;
    }
  }

  /** The stable merge of two circles of nodes. */
  method MergeList<T>(x0: Node<T>, y0: Node<T>, cmp: (T, T) -> int, ghost a: seq<Node<T>>, ghost b: seq<Node<T>>)
    returns (first: Node<T>, ghost r: seq<Node<T>>)
    requires Circle(a) && Circle(b) && a[0] == x0 && b[0] == y0 && forall k :: 0 <= k < |a| ==> a[k] !in b
    modifies Nodes(a) + Nodes(b)
    ensures Circle(r) && r[0] == first && r == Merge(ByData(cmp), a, b)
  {
    hide Chain, Merge, Circle, Distinct, Placed, Merging, EndsWith, Front;
    var x, y := x0, y0;
    Ends(a);
    Ends(b);
    var head := new Node<T>(x.data);
    var p, xlast, ylast := head, x.prev, y.prev;
    ghost var m: seq<Node<T>>, u, v := [], a, b;
    ghost var place := Placing(a, b, head);
    Open(x, y, head, a, b);
    Whole(a, head);
    Whole(b, head);
    while x != head && y != head
      invariant State(p, x, y, xlast, ylast, head, m, u, v, place) && (u == [] ==> v != [])
      invariant |m| + |u| + |v| == |a| + |b| && |u| <= |a| && |v| <= |b|
      invariant place.Keys <= Nodes(a) + Nodes(b) + {head}
      invariant m + Merge(ByData(cmp), u, v) == Merge(ByData(cmp), a, b)
      decreases |u| + |v|
    {
      Done(m, u, v, head, p, place);
      p, x, y, m, u, v, place := MergeOne(p, x, y, head, cmp, xlast, ylast, m, u, v, place);
    }
    Done(m, u, v, head, p, place);
    MergeEnd(cmp, m, u, v);
    if x == head {
      TailEnds(v, ylast);
      Close(p, y, ylast, head, m, v, place, 1);
      r := m + v;
    } else {
      TailEnds(u, xlast);
      Flip(place, m, u, v, head, p, 1);
      Close(p, x, xlast, head, m, u, place, 2);
      r := m + u;
    }
    first := head.next;
  }

  lemma Ends<T>(a: seq<Node<T>>)
    requires Circle(a)
    ensures |a| > 0 && a[0].prev == a[|a| - 1] && Distinct(a) && a[0].prev in Nodes(a)
  {
  }

  ghost predicate EndsWith<T>(u: seq<T>, e: T) {
    u != [] ==> u[|u| - 1] == e
  }

  lemma Whole<T>(a: seq<Node<T>>, head: Node<T>)
    requires |a| > 0
    ensures Front(a, head) == a[0] && EndsWith(a, a[|a| - 1])
  {
  }

  lemma TailEnds<T>(u: seq<T>, e: T)
    requires EndsWith(u, e) && u != []
    ensures EndsWith(u[1..], e) && u[|u| - 1] == e
  {
  }

  /** A list whose front is the head is used up. */
  lemma Done<T>(m: seq<Node<T>>, u: seq<Node<T>>, v: seq<Node<T>>, head: Node<T>, p: Node<T>, place: map<Node<T>, int>)
    requires Placed(place, m, u, v, head, 1) && Merging(m, u, v, head, p)
    ensures (Front(u, head) == head <==> u == []) && (Front(v, head) == head <==> v == [])
    ensures (u != [] ==> Front(u, head) == u[0]) && (v != [] ==> Front(v, head) == v[0])
    ensures p in place && (u != [] ==> u[0] in place && u[|u| - 1] in place) && (v != [] ==> v[0] in place && v[|v| - 1] in place)
    ensures m != [] ==> head.next in place && head.next == m[0]
  {
  }

  /** The two lists change their roles. */
  lemma Flip<T>(place: map<Node<T>, int>, m: seq<Node<T>>, u: seq<Node<T>>, v: seq<Node<T>>, head: Node<T>, p: Node<T>,
                t: int)
    requires Placed(place, m, u, v, head, t) && Merging(m, u, v, head, p)
    ensures Placed(place, m, v, u, head, 3 - t) && Merging(m, v, u, head, p)
  {
  }

  lemma NextIs<T>(m: seq<Node<T>>, u: seq<Node<T>>, v: seq<Node<T>>, head: Node<T>, p: Node<T>)
    requires Merging(m, u, v, head, p) && u != []
    ensures u[0].next == Front(u[1..], head) && Front(u, head) == u[0]
  {
    if |u| > 1 {
      assert Step(u, 0);
    }
  }

  lemma MergeStep<T>(cmp: (T, T) -> int, m: seq<Node<T>>, u: seq<Node<T>>, v: seq<Node<T>>)
    requires u != [] && v != []
    ensures m + Merge(ByData(cmp), u, v) ==
            if cmp(u[0].data, v[0].data) <= 0 then (m + [u[0]]) + Merge(ByData(cmp), u[1..], v)
            else (m + [v[0]]) + Merge(ByData(cmp), u, v[1..])
  {
  }

  lemma MergeEnd<T>(cmp: (T, T) -> int, m: seq<Node<T>>, u: seq<Node<T>>, v: seq<Node<T>>)
    requires u == [] || v == []
    ensures m + Merge(ByData(cmp), u, v) == m + (if u == [] then v else u)
  {
  }

  // ----- The sort -----

  /** What the merge sort computes: the first half takes the odd element. */
  ghost function SortedBy<T>(le: (T, T) -> int, s: seq<T>): (r: seq<T>)
    ensures |r| == |s|
    decreases |s|
  {
    if |s| <= 1 then s
    else var h := (|s| + 1) / 2; Merge(le, SortedBy(le, s[..h]), SortedBy(le, s[h..]))
  }

  lemma SortedUnfold<T>(le: (T, T) -> int, s: seq<T>, h: nat)
    requires |s| > 1 && h == (|s| + 1) / 2
    ensures SortedBy(le, s) == Merge(le, SortedBy(le, s[..h]), SortedBy(le, s[h..]))
  {
  }

  lemma {:induction false} SortedMembers<T>(le: (T, T) -> int, s: seq<T>)
    ensures multiset(SortedBy(le, s)) == multiset(s)
    decreases |s|
  {
    if |s| > 1 {
      hide Merge;
      var h := (|s| + 1) / 2;
      var a, b := s[..h], s[h..];
      SortedMembers(le, a);
      SortedMembers(le, b);
      assert s == a + b;
      SortedUnfold(le, s, h);
      MergeMembers(le, SortedBy(le, a), SortedBy(le, b));
    }
  }

  lemma SameNodes<T>(s: seq<Node<T>>, r: seq<Node<T>>)
    requires multiset(s) == multiset(r)
    ensures Nodes(s) == Nodes(r)
  {
    forall n
      ensures n in s <==> n in r
    {
      assert n in multiset(s) <==> n in multiset(r);
    }
  }

  lemma Follows<T>(s: seq<Node<T>>, k: nat)
    requires Circle(s) && k < |s|
    ensures s[k].next == (if k + 1 < |s| then s[k + 1] else s[0]) && (s[k] == s[0] <==> k == 0)
    ensures s[k].prev == if k > 0 then s[k - 1] else s[|s| - 1]
  {
    assert k + 1 < |s| ==> Step(s, k);
    assert k > 0 ==> Step(s, k - 1);
  }

  /** One circle becomes two. */
  method Split<T>(first: Node<T>, x: Node<T>, ghost s: seq<Node<T>>, ghost h: nat)
    requires Circle(s) && 0 < h < |s| && first == s[0] && x == s[h]
    modifies Nodes(s)
    ensures Circle(s[..h]) && Circle(s[h..])
  {
    Follows(s, 0);
    Follows(s, h);
    var tmp := x.prev;
    x.prev.next := first;
    x.prev := first.prev;
    x.prev.next := x;
    first.prev := tmp;
    ghost var a, b := s[..h], s[h..];
    forall k | 0 <= k < |a| - 1
      ensures Step(a, k)
    {
      assert old(Step(s, k));
    }
    forall k | 0 <= k < |b| - 1
      ensures Step(b, k)
    {
      assert old(Step(s, h + k));
    }
  }

  /** The second pointer runs twice as fast. */
  method FindMiddle<T>(first: Node<T>, ghost s: seq<Node<T>>) returns (x: Node<T>)
    requires Circle(s) && |s| > 1 && first == s[0]
    ensures x == s[(|s| + 1) / 2]
  {
    hide Circle;
    Ends(s);
    Follows(s, 0);
    x := first;
    var y := first;
    var again := true;
    ghost var k := 0;
    while again
      invariant again ==> 2 * k < |s| && x == s[k] && y == s[2 * k]
      invariant !again ==> k == (|s| + 1) / 2 && x == s[k]
      invariant 0 <= k
      decreases |s| - k, again
    {
      Follows(s, k);
      Follows(s, 2 * k);
      if 2 * k + 1 < |s| {
        Follows(s, 2 * k + 1);
      }
      x := x.next;
      y := y.next;
      if y != first {
        y := y.next;
      }
      k := k + 1;
      again := y != first;
      if 2 * k < |s| {
        Follows(s, 2 * k);
      }
    }
  }

  method MergeSort<T>(first: Node<T>, cmp: (T, T) -> int, ghost s: seq<Node<T>>)
    returns (first': Node<T>, ghost r: seq<Node<T>>)
    requires Circle(s) && first == s[0]
    modifies Nodes(s)
    ensures Circle(r) && first' == r[0] && r == SortedBy(ByData(cmp), s)
    decreases |s|
  {
    hide Chain, Circle, SortedBy;
    Ends(s);
    Follows(s, 0);
    if |s| > 1 {
      Follows(s, 1);
    }
    SortedCases(ByData(cmp), s);
    if first.next == first {
      return first, s;
    }
    var x := FindMiddle(first, s);
    ghost var h := (|s| + 1) / 2;
    Halves(s, h);
    Split(first, x, s, h);
    var p, q;
    ghost var a, b;
    SortedMembers(ByData(cmp), s[..h]);
    SortedMembers(ByData(cmp), s[h..]);
    SameNodes(s[..h], SortedBy(ByData(cmp), s[..h]));
    SameNodes(s[h..], SortedBy(ByData(cmp), s[h..]));
    p, a := MergeSort(first, cmp, s[..h]);
    q, b := MergeSort(x, cmp, s[h..]);
    Apart(a, b);
    first', r := MergeList(p, q, cmp, a, b);
  }

  lemma SortedCases<T>(le: (T, T) -> int, s: seq<T>)
    ensures |s| <= 1 ==> SortedBy(le, s) == s
    ensures |s| > 1 ==> var h := (|s| + 1) / 2; SortedBy(le, s) == Merge(le, SortedBy(le, s[..h]), SortedBy(le, s[h..]))
  {
  }

  lemma Halves<T>(s: seq<Node<T>>, h: nat)
    requires Circle(s) && h <= |s|
    ensures Nodes(s[..h]) !! Nodes(s[h..]) && Nodes(s[..h]) + Nodes(s[h..]) <= Nodes(s)
  {
  }

  lemma Apart<T>(a: seq<Node<T>>, b: seq<Node<T>>)
    requires Nodes(a) !! Nodes(b)
    ensures forall k :: 0 <= k < |a| ==> a[k] !in b
  {
    forall k | 0 <= k < |a|
      ensures a[k] !in b
    {
      assert a[k] in Nodes(a);
    }
  }

  // ----- The result of the sort -----

  /** `x` belongs before `y`: by its data, or, when they are equivalent, by its place in the list as it was. */
  ghost predicate Before<T>(cmp: (T, T) -> int, at: map<Node<T>, int>, x: Node<T>, y: Node<T>) {
    x in at && y in at && (cmp(x.data, y.data) < 0 || (cmp(x.data, y.data) == 0 && at[x] < at[y]))
  }

  ghost predicate InOrder<T>(cmp: (T, T) -> int, at: map<Node<T>, int>, s: seq<Node<T>>) {
    forall i, j {:trigger Before(cmp, at, s[i], s[j])} :: 0 <= i < j < |s| ==> Before(cmp, at, s[i], s[j])
  }

  /** Everything in `u` stood before everything in `v`. */
  ghost predicate Earlier<T>(at: map<Node<T>, int>, u: seq<Node<T>>, v: seq<Node<T>>) {
    forall x, y :: x in u && y in v ==> x in at && y in at && at[x] < at[y]
  }

  lemma OrderedFront<T>(cmp: (T, T) -> int, at: map<Node<T>, int>, x: Node<T>, s: seq<Node<T>>)
    requires InOrder(cmp, at, s) && forall y :: y in s ==> Before(cmp, at, x, y)
    ensures InOrder(cmp, at, [x] + s)
  {
    var r := [x] + s;
    forall i, j | 0 <= i < j < |r|
      ensures Before(cmp, at, r[i], r[j])
    {
      assert r[j] == s[j - 1];
      assert i > 0 ==> r[i] == s[i - 1] && Before(cmp, at, s[i - 1], s[j - 1]);
    }
  }

  lemma OrderedTail<T>(cmp: (T, T) -> int, at: map<Node<T>, int>, s: seq<Node<T>>)
    requires InOrder(cmp, at, s) && s != []
    ensures InOrder(cmp, at, s[1..]) && forall y :: y in s[1..] ==> Before(cmp, at, s[0], y)
  {
    forall y | y in s[1..]
      ensures Before(cmp, at, s[0], y)
    {
      var j :| 0 <= j < |s[1..]| && s[1..][j] == y;
      assert Before(cmp, at, s[0], s[j + 1]);
    }
    forall i, j | 0 <= i < j < |s[1..]|
      ensures Before(cmp, at, s[1..][i], s[1..][j])
    {
      assert Before(cmp, at, s[i + 1], s[j + 1]);
    }
  }

  lemma InMerge<T>(cmp: (T, T) -> int, u: seq<Node<T>>, v: seq<Node<T>>, y: Node<T>)
    ensures y in Merge(ByData(cmp), u, v) <==> y in u || y in v
  {
    MergeMembers(ByData(cmp), u, v);
    assert y in multiset(Merge(ByData(cmp), u, v)) <==> y in multiset(u) || y in multiset(v);
  }

  lemma {:induction false} MergeInOrder<T(!new)>(cmp: (T, T) -> int, at: map<Node<T>, int>, u: seq<Node<T>>, v: seq<Node<T>>)
    requires TotalPreorder(cmp) && InOrder(cmp, at, u) && InOrder(cmp, at, v) && Earlier(at, u, v)
    ensures InOrder(cmp, at, Merge(ByData(cmp), u, v))
    decreases |u| + |v|
  {
    hide InOrder;
    if u != [] && v != [] {
      OrderedTail(cmp, at, u);
      OrderedTail(cmp, at, v);
      assert u == [u[0]] + u[1..] && v == [v[0]] + v[1..];
      assert u[0] in u && v[0] in v && at[u[0]] < at[v[0]];
      if cmp(u[0].data, v[0].data) <= 0 {
        MergeInOrder(cmp, at, u[1..], v);
        forall y | y in v
          ensures Before(cmp, at, u[0], y)
        {
          if y != v[0] {
            assert y in v[1..];
            assert Before(cmp, at, v[0], y);
            Transitive(cmp, u[0].data, v[0].data, y.data);
          }
        }
        forall y | y in Merge(ByData(cmp), u[1..], v)
          ensures Before(cmp, at, u[0], y)
        {
          InMerge(cmp, u[1..], v, y);
        }
        OrderedFront(cmp, at, u[0], Merge(ByData(cmp), u[1..], v));
      } else {
        MergeInOrder(cmp, at, u, v[1..]);
        forall y | y in u
          ensures Before(cmp, at, v[0], y)
        {
          if y != u[0] {
            assert y in u[1..];
            assert Before(cmp, at, u[0], y);
            Transitive(cmp, v[0].data, u[0].data, y.data);
          }
        }
        forall y | y in Merge(ByData(cmp), u, v[1..])
          ensures Before(cmp, at, v[0], y)
        {
          InMerge(cmp, u, v[1..], y);
        }
        OrderedFront(cmp, at, v[0], Merge(ByData(cmp), u, v[1..]));
      }
    }
  }

  /** The sort has every node once, in order of the data, equivalent nodes in their old order. */
  lemma {:induction false} SortIsStable<T(!new)>(cmp: (T, T) -> int, at: map<Node<T>, int>, s: seq<Node<T>>, lo: int)
    requires TotalPreorder(cmp) && forall k :: 0 <= k < |s| ==> s[k] in at && at[s[k]] == lo + k
    ensures multiset(SortedBy(ByData(cmp), s)) == multiset(s) && InOrder(cmp, at, SortedBy(ByData(cmp), s))
    decreases |s|
  {
    hide SortedBy, Merge;
    SortedMembers(ByData(cmp), s);
    SortedCases(ByData(cmp), s);
    if |s| > 1 {
      var h := (|s| + 1) / 2;
      hide InOrder;
      SortIsStable(cmp, at, s[..h], lo);
      SortIsStable(cmp, at, s[h..], lo + h);
      var u, v := SortedBy(ByData(cmp), s[..h]), SortedBy(ByData(cmp), s[h..]);
      forall x, y | x in u && y in v
        ensures x in at && y in at && at[x] < at[y]
      {
        assert x in multiset(u) && y in multiset(v);
        assert x in s[..h] && y in s[h..];
      }
      MergeInOrder(cmp, at, u, v);
    }
  }

  // ----- Lists with their sentinel -----

  /** The nodes leave the sentinel and form a circle of their own. */
  method Detach<T>(self: Node<T>, ghost s: seq<Node<T>>)
    requires Circle([self] + s) && s != []
    modifies Nodes(s)
    ensures Circle(s) && self.next == s[0]
  {
    ghost var l := [self] + s;
    Follows(l, 0);
    Follows(l, |s|);
    Inner(self, s);
    var first, last := self.next, self.prev;
    first.prev := last;
    last.next := first;
    forall k | 0 <= k < |s| - 1
      ensures Step(s, k)
    {
      assert old(Step(l, k + 1));
    }
  }

  lemma Inner<T>(self: Node<T>, s: seq<Node<T>>)
    requires Distinct([self] + s)
    ensures Distinct(s) && self !in s
  {
    var l := [self] + s;
    forall i, j | 0 <= i < j < |s|
      ensures s[i] != s[j]
    {
      assert l[i + 1] == s[i] && l[j + 1] == s[j];
    }
    forall k | 0 <= k < |s|
      ensures s[k] != l[0]
    {
      assert l[k + 1] == s[k];
    }
  }

  lemma Outer<T>(self: Node<T>, s: seq<Node<T>>)
    requires Distinct(s) && self !in s
    ensures Distinct([self] + s)
  {
    var l := [self] + s;
    forall i, j | 0 <= i < j < |l|
      ensures l[i] != l[j]
    {
      assert l[j] == s[j - 1] && (i > 0 ==> l[i] == s[i - 1]);
    }
  }

  /** A circle of nodes is put behind the sentinel. */
  method Attach<T>(self: Node<T>, first: Node<T>, ghost r: seq<Node<T>>)
    requires Circle(r) && first == r[0] && self !in r
    modifies Nodes(r), self
    ensures Circle([self] + r)
  {
    ghost var l := [self] + r;
    Outer(self, r);
    Ends(r);
    var last := first.prev;
    self.next := first;
    first.prev := self;
    last.next := self;
    self.prev := last;
    forall k | 0 <= k < |l| - 1
      ensures Step(l, k)
    {
      assert k > 0 ==> old(Step(r, k - 1));
    }
  }

  /** `sort`: the list behind the sentinel holds the same nodes, stably sorted. */
  method Sort<T>(self: Node<T>, cmp: (T, T) -> int, ghost s: seq<Node<T>>) returns (ghost r: seq<Node<T>>)
    requires Circle([self] + s)
    modifies self, Nodes(s)
    ensures Circle([self] + r) && r == SortedBy(ByData(cmp), s)
  {
    hide Circle, Chain, SortedBy;
    Ends([self] + s);
    Follows([self] + s, 0);
    if s != [] {
      Follows([self] + s, 1);
    }
    SortedCases(ByData(cmp), s);
    if self.next == self {
      return s;
    }
    Inner(self, s);
    SortedMembers(ByData(cmp), s);
    SameNodes(s, SortedBy(ByData(cmp), s));
    Detach(self, s);
    var first;
    first, r := MergeSort(self.next, cmp, s);
    assert self !in Nodes(s) && Nodes(r) == Nodes(s);
    Attach(self, first, r);
  }

  /** The element of a circle at index `k`, which may be one past the end. */
  ghost function At<T>(l: seq<T>, k: nat): T
    requires 0 < |l| && k <= |l|
  {
    if k < |l| then l[k] else l[0]
  }

  /** The link between index `k - 1` and index `k`, which may be one past the end. */
  ghost predicate JointAt<T>(l: seq<Node<T>>, k: nat)
    requires 0 < k <= |l|
    reads l[k - 1], At(l, k)
  {
    l[k - 1].next == At(l, k) && At(l, k).prev == l[k - 1]
  }

  lemma Joint<T>(l: seq<Node<T>>, k: nat)
    requires Circle(l) && 0 < k <= |l|
    ensures Distinct(l) && forall j {:trigger JointAt(l, j)} :: 0 < j <= |l| ==> JointAt(l, j)
    ensures l[k - 1].next == At(l, k) && At(l, k).prev == l[k - 1]
  {
    forall j | 0 < j <= |l|
      ensures JointAt(l, j)
    {
      assert j < |l| ==> Step(l, j - 1);
    }
    assert JointAt(l, k);
  }

  lemma Closed<T>(l: seq<Node<T>>)
    requires |l| > 0 && Distinct(l) && forall j {:trigger JointAt(l, j)} :: 0 < j <= |l| ==> JointAt(l, j)
    ensures Circle(l)
  {
    forall k | 0 <= k < |l| - 1
      ensures Step(l, k)
    {
      assert JointAt(l, k + 1);
    }
    assert JointAt(l, |l|);
  }

  /** Labels that tell the nodes of two lists apart. */
  ghost predicate Labelled<T>(a: seq<Node<T>>, b: seq<Node<T>>, tag: map<Node<T>, int>) {
    && (forall k {:trigger a[k]} :: 0 <= k < |a| ==> a[k] in tag && tag[a[k]] == k)
    && (forall k {:trigger b[k]} :: 0 <= k < |b| ==> b[k] in tag && tag[b[k]] == -1 - k)
  }

  lemma Labels<T>(a: seq<Node<T>>, b: seq<Node<T>>) returns (tag: map<Node<T>, int>)
    requires Circle(a) && Circle(b) && Nodes(a) !! Nodes(b)
    ensures Labelled(a, b, tag)
  {
    var pa := Counted(a, 0);
    var pb := Counted(b, 0);
    tag := map n | n in pa.Keys + pb.Keys :: if n in pa then |a| - pa[n] / 3 else -1 - (|b| - pb[n] / 3);
    forall k | 0 <= k < |b|
      ensures b[k] !in pa
    {
      assert b[k] in Nodes(b);
    }
  }

  lemma Indices<T>(a: seq<Node<T>>, i: nat, b: seq<Node<T>>, from: nat, to: nat, tag: map<Node<T>, int>)
    requires Labelled(a, b, tag) && 0 < i <= |a| && 0 < from <= to <= |b|
    ensures At(a, i) in tag && tag[At(a, i)] == (if i < |a| then i else 0)
    ensures At(b, to) in tag && tag[At(b, to)] == -1 - (if to < |b| then to else 0)
    ensures from < |b| ==> At(b, from) == b[from]
    ensures from == to ==> At(b, from) == At(b, to)
    ensures At(a, i) in Nodes(a) && At(b, to) in Nodes(b) && At(b, from) in Nodes(b)
  {
  }

  /** Joints of the first list other than that at `i`, and of the second other than those at `from` and `to`, share no
      node with the fields that a splice writes. */
  lemma OtherJoint<T>(a: seq<Node<T>>, i: nat, b: seq<Node<T>>, from: nat, to: nat, tag: map<Node<T>, int>, k: nat)
    requires Labelled(a, b, tag) && 0 < i <= |a| && 0 < from < to <= |b|
    ensures 0 < k <= |a| && k != i ==>
              && a[k - 1] != a[i - 1] && a[k - 1] != b[from - 1] && a[k - 1] != b[to - 1]
              && At(a, k) != At(a, i) && At(a, k) != At(b, from) && At(a, k) != At(b, to)
    ensures 0 < k <= |b| && k != from && k != to ==>
              && b[k - 1] != a[i - 1] && b[k - 1] != b[from - 1] && b[k - 1] != b[to - 1]
              && At(b, k) != At(a, i) && At(b, k) != At(b, from) && At(b, k) != At(b, to)
    ensures a[i - 1] != b[from - 1] && a[i - 1] != b[to - 1] && b[from - 1] != b[to - 1]
    ensures At(a, i) != At(b, from) && At(a, i) != At(b, to) && At(b, from) != At(b, to)
  {
  }

  /** The nodes around index `k` after a splice. */
  lemma SplicedAt<T>(a: seq<T>, i: nat, b: seq<T>, from: nat, to: nat, k: nat)
    requires 0 < i <= |a| && 0 < from < to <= |b| && 0 < k <= |a| + (to - from)
    ensures var a', n := a[..i] + b[from..to] + a[i..], to - from;
            && a'[k - 1] == (if k - 1 < i then a[k - 1] else if k - 1 < i + n then b[from + k - 1 - i] else a[k - 1 - n])
            && At(a', k) == (if k < i then a[k] else if k < i + n then b[from + k - i] else At(a, k - n))
    ensures k < i ==> At(a, k) == a[k]
    ensures i <= k < i + (to - from) ==> At(b, from + k - i) == b[from + k - i]
  {
  }

  lemma CutAt<T>(b: seq<T>, from: nat, to: nat, k: nat)
    requires 0 < from < to <= |b| && 0 < k <= |b| - (to - from)
    ensures var b', n := b[..from] + b[to..], to - from;
            && b'[k - 1] == (if k - 1 < from then b[k - 1] else b[k - 1 + n])
            && At(b', k) == (if k < from then b[k] else At(b, k + n))
    ensures k < from ==> At(b, k) == b[k]
  {
  }

  /** `splice` between two lists: the nodes `from <= k < to` of the second circle go in front of node `i` of the first. */
  method Splice<T>(pos: Node<T>, first: Node<T>, last: Node<T>, ghost a: seq<Node<T>>, ghost i: nat, ghost b: seq<Node<T>>,
                   ghost from: nat, ghost to: nat)
    requires Circle(a) && Circle(b) && Nodes(a) !! Nodes(b) && 0 < i <= |a| && 0 < from <= to <= |b|
    requires pos == At(a, i) && first == At(b, from) && last == At(b, to)
    modifies Nodes(a), Nodes(b)
    ensures Circle(a[..i] + b[from..to] + a[i..]) && Circle(b[..from] + b[to..])
  {
    hide Circle, Distinct, At;
    ghost var a', b' := a[..i] + b[from..to] + a[i..], b[..from] + b[to..];
    ghost var tag := Labels(a, b);
    Indices(a, i, b, from, to, tag);
    Joint(a, i);
    Joint(b, from);
    Joint(b, to);
    if first == last || pos == last {
      Unspliced(a, i, b, from, to);
      return;
    }
    SpliceLinks(pos, first, last, a, i, b, from, to, tag);
    SplicedDistinct(a, i, b, from, to);
    Closed(a');
    Closed(b');
  }

  /** The six assignments: three nodes get a new successor, three a new predecessor. */
  method Cross<T>(pos: Node<T>, first: Node<T>, last: Node<T>)
    requires pos != first && pos != last && first != last
    requires pos.prev != first.prev && pos.prev != last.prev && first.prev != last.prev
    modifies pos, first, last, pos.prev, first.prev, last.prev
    ensures old(pos.prev).next == first && old(first.prev).next == last && old(last.prev).next == pos
    ensures pos.prev == old(last.prev) && first.prev == old(pos.prev) && last.prev == old(first.prev)
    ensures forall n: Node<T> {:trigger n.next} :: old(allocated(n)) ==>
              n.next == old(n.next) || n in {old(pos.prev), old(first.prev), old(last.prev)}
    ensures forall n: Node<T> {:trigger n.prev} :: old(allocated(n)) ==>
              n.prev == old(n.prev) || n in {pos, first, last}
  {
    pos.prev.next := first;
    var tmp := first.prev;
    first.prev := pos.prev;
    tmp.next := last;
    pos.prev := last.prev;
    last.prev.next := pos;
    last.prev := tmp;
  }

  method SpliceLinks<T>(pos: Node<T>, first: Node<T>, last: Node<T>, ghost a: seq<Node<T>>, ghost i: nat,
                        ghost b: seq<Node<T>>, ghost from: nat, ghost to: nat, ghost tag: map<Node<T>, int>)
    requires Labelled(a, b, tag) && 0 < i <= |a| && 0 < from < to <= |b|
    requires pos == At(a, i) && first == At(b, from) && last == At(b, to)
    requires forall j {:trigger JointAt(a, j)} :: 0 < j <= |a| ==> JointAt(a, j)
    requires forall j {:trigger JointAt(b, j)} :: 0 < j <= |b| ==> JointAt(b, j)
    modifies Nodes(a), Nodes(b)
    ensures var a' := a[..i] + b[from..to] + a[i..]; forall j {:trigger JointAt(a', j)} :: 0 < j <= |a'| ==> JointAt(a', j)
    ensures var b' := b[..from] + b[to..]; forall j {:trigger JointAt(b', j)} :: 0 < j <= |b'| ==> JointAt(b', j)
  {
    hide At, Labelled;
    ghost var a', b' := a[..i] + b[from..to] + a[i..], b[..from] + b[to..];
    Indices(a, i, b, from, to, tag);
    assert JointAt(a, i) && JointAt(b, from) && JointAt(b, to);
    OtherJoint(a, i, b, from, to, tag, i);
    Cross(pos, first, last);
    forall k | 0 < k <= |a'|
      ensures JointAt(a', k)
    {
      SplicedAt(a, i, b, from, to, k);
      OtherJoint(a, i, b, from, to, tag, if k < i then k else if k > i + (to - from) then k - (to - from) else from + k - i);
      if k < i || k > i + (to - from) {
        assert old(JointAt(a, if k < i then k else k - (to - from)));
      } else if i < k < i + (to - from) {
        assert old(JointAt(b, from + k - i));
      }
    }
    forall k | 0 < k <= |b'|
      ensures JointAt(b', k)
    {
      CutAt(b, from, to, k);
      OtherJoint(a, i, b, from, to, tag, if k < from then k else k + (to - from));
      if k != from {
        assert old(JointAt(b, if k < from then k else k + (to - from)));
      }
    }
  }

  /** An empty range changes nothing. */
  lemma Unspliced<T>(a: seq<Node<T>>, i: nat, b: seq<Node<T>>, from: nat, to: nat)
    requires Circle(a) && Circle(b) && Nodes(a) !! Nodes(b) && 0 < i <= |a| && 0 < from <= to <= |b|
    requires At(b, from) == At(b, to) || At(a, i) == At(b, to)
    ensures Circle(a[..i] + b[from..to] + a[i..]) && Circle(b[..from] + b[to..])
  {
    assert At(a, i) in Nodes(a) && At(b, to) in Nodes(b);
    assert from == to;
    assert a[..i] + b[from..to] + a[i..] == a && b[..from] + b[to..] == b;
  }

  lemma SplicedDistinct<T>(a: seq<Node<T>>, i: nat, b: seq<Node<T>>, from: nat, to: nat)
    requires Distinct(a) && Distinct(b) && Nodes(a) !! Nodes(b) && i <= |a| && from <= to <= |b|
    ensures Distinct(a[..i] + b[from..to] + a[i..]) && Distinct(b[..from] + b[to..])
  {
    var a', b', n := a[..i] + b[from..to] + a[i..], b[..from] + b[to..], to - from;
    forall p, q | 0 <= p < q < |a'|
      ensures a'[p] != a'[q]
    {
      assert a'[p] == if p < i then a[p] else if p < i + n then b[from + p - i] else a[p - n];
      assert a'[q] == if q < i then a[q] else if q < i + n then b[from + q - i] else a[q - n];
      assert forall k :: 0 <= k < |a| ==> a[k] in Nodes(a);
      assert forall k :: 0 <= k < |b| ==> b[k] in Nodes(b);
    }
  }

  /** `c` with the stretches `p <= k < q` and `q <= k < r` exchanged. */
  ghost function Exchanged<T>(c: seq<T>, p: nat, q: nat, r: nat): (d: seq<T>)
    requires p <= q <= r <= |c|
    ensures |d| == |c|
  {
    c[..p] + c[q..r] + c[p..q] + c[r..]
  }

  /** What a splice within one list makes of it: the stretch `from <= k < to` goes in front of index `i` outside of it. */
  ghost function Relocated<T>(c: seq<T>, i: nat, from: nat, to: nat): seq<T>
    requires i <= |c| && from <= to <= |c| && (i < from || to <= i)
  {
    if i < from then Exchanged(c, i, from, to) else Exchanged(c, from, to, i)
  }

  /** Where the node at index `k` was before the exchange. */
  function Origin(p: nat, q: nat, r: nat, k: nat): nat
    requires p <= q <= r
  {
    if k < p || r <= k then k else if k < p + (r - q) then k + (q - p) else k - (r - q)
  }

  lemma ExchangedAt<T>(c: seq<T>, p: nat, q: nat, r: nat, k: nat)
    requires 0 < p < q < r <= |c| && 0 < k <= |c|
    ensures var d, o := Exchanged(c, p, q, r), Origin(p, q, r, k);
            && o <= |c| && d[k - 1] == c[Origin(p, q, r, k - 1)] && At(d, k) == At(c, o)
            && (k != p && k != p + (r - q) && k != r ==> o > 0 && o != p && o != q && o != r && d[k - 1] == c[o - 1])
  {
    hide Exchanged;
    ExchangedIndex(c, p, q, r, k - 1);
    ExchangedIndex(c, p, q, r, if k < |c| then k else 0);
  }

  lemma ExchangedIndex<T>(c: seq<T>, p: nat, q: nat, r: nat, k: nat)
    requires p <= q <= r <= |c| && k < |c|
    ensures Origin(p, q, r, k) < |c| && Exchanged(c, p, q, r)[k] == c[Origin(p, q, r, k)]
  {
  }

  /** Every node of a circle has one index. */
  ghost predicate Tagged<T>(c: seq<Node<T>>, tag: map<Node<T>, int>) {
    forall k {:trigger c[k]} :: 0 <= k < |c| ==> c[k] in tag && tag[c[k]] == k
  }

  lemma Tags<T>(c: seq<Node<T>>) returns (tag: map<Node<T>, int>)
    requires Circle(c)
    ensures Tagged(c, tag)
  {
    var pc := Counted(c, 0);
    tag := map n | n in pc :: |c| - pc[n] / 3;
  }

  /** Joints of the circle other than those at `p`, `q` and `r` share no node with the fields that are written. */
  lemma FarJoint<T>(c: seq<Node<T>>, p: nat, q: nat, r: nat, tag: map<Node<T>, int>, k: nat)
    requires Tagged(c, tag) && 0 < p < q < r <= |c| && 0 < k <= |c| && k != p && k != q && k != r
    ensures c[k - 1] !in {c[p - 1], c[q - 1], c[r - 1]} && At(c, k) !in {At(c, p), At(c, q), At(c, r)}
  {
  }

  lemma ThreeNodes<T>(c: seq<Node<T>>, p: nat, q: nat, r: nat, tag: map<Node<T>, int>)
    requires Tagged(c, tag) && 0 < p < q < r <= |c|
    ensures c[p - 1] != c[q - 1] && c[p - 1] != c[r - 1] && c[q - 1] != c[r - 1]
    ensures At(c, p) != At(c, q) && At(c, p) != At(c, r) && At(c, q) != At(c, r)
    ensures At(c, p) in Nodes(c) && At(c, q) in Nodes(c) && At(c, r) in Nodes(c)
  {
  }

  lemma ExchangedDistinct<T>(c: seq<Node<T>>, p: nat, q: nat, r: nat, tag: map<Node<T>, int>)
    requires Tagged(c, tag) && p <= q <= r <= |c|
    ensures Distinct(Exchanged(c, p, q, r)) && Nodes(Exchanged(c, p, q, r)) == Nodes(c)
  {
    var d := Exchanged(c, p, q, r);
    assert forall k {:trigger d[k]} :: 0 <= k < |d| ==> d[k] == c[Origin(p, q, r, k)];
    forall k | 0 <= k < |c|
      ensures c[k] in d
    {
      assert d[if k < p || r <= k then k else if k < q then k + (r - q) else k - (q - p)] == c[k];
    }
  }

  /** The six assignments of a splice, when all three places are in one circle. */
  method CrossWithin<T>(pos: Node<T>, first: Node<T>, last: Node<T>, ghost c: seq<Node<T>>, ghost p: nat, ghost q: nat,
                        ghost r: nat, ghost tag: map<Node<T>, int>)
    requires Tagged(c, tag) && 0 < p < q < r <= |c|
    requires (pos == At(c, p) && first == At(c, q) && last == At(c, r)) || (first == At(c, p) && last == At(c, q) && pos == At(c, r))
    requires forall j {:trigger JointAt(c, j)} :: 0 < j <= |c| ==> JointAt(c, j)
    modifies Nodes(c)
    ensures var d := Exchanged(c, p, q, r); forall j {:trigger JointAt(d, j)} :: 0 < j <= |d| ==> JointAt(d, j)
  {
    hide At, Tagged, Exchanged, Origin, Nodes;
    ghost var d := Exchanged(c, p, q, r);
    assert JointAt(c, p) && JointAt(c, q) && JointAt(c, r);
    ThreeNodes(c, p, q, r, tag);
    InNodes(c, p, q, r);
    Cross(pos, first, last);
    forall k | 0 < k <= |d|
      ensures JointAt(d, k)
    {
      ExchangedAt(c, p, q, r, k);
      OriginCases(p, q, r);
      if k != p && k != p + (r - q) && k != r {
        FarJoint(c, p, q, r, tag, Origin(p, q, r, k));
        assert old(JointAt(c, Origin(p, q, r, k)));
      }
    }
  }

  lemma OriginCases(p: nat, q: nat, r: nat)
    requires 0 < p < q < r
    ensures Origin(p, q, r, p - 1) == p - 1 && Origin(p, q, r, p) == q
    ensures Origin(p, q, r, p + (r - q) - 1) == r - 1 && Origin(p, q, r, p + (r - q)) == p
    ensures Origin(p, q, r, r - 1) == q - 1 && Origin(p, q, r, r) == r
  {
  }

  lemma InNodes<T>(c: seq<Node<T>>, p: nat, q: nat, r: nat)
    requires 0 < p < q < r <= |c|
    ensures c[p - 1] in Nodes(c) && c[q - 1] in Nodes(c) && c[r - 1] in Nodes(c)
  {
  }

  /** `splice` within one list, to a place outside of the stretch. */
  method SpliceWithin<T>(pos: Node<T>, first: Node<T>, last: Node<T>, ghost c: seq<Node<T>>, ghost i: nat, ghost from: nat, ghost to: nat)
    requires Circle(c) && 0 < i <= |c| && 0 < from <= to <= |c| && (i < from || to <= i)
    requires pos == At(c, i) && first == At(c, from) && last == At(c, to)
    modifies Nodes(c)
    ensures Circle(Relocated(c, i, from, to))
  {
    hide Circle, Distinct, Tagged;
    ghost var tag := Tags(c);
    Joint(c, i);
    NothingMoved(c, i, from, to, tag);
    if first == last || pos == last {
      return;
    }
    ghost var p, q, r := if i < from then i else from, if i < from then from else to, if i < from then to else i;
    CrossWithin(pos, first, last, c, p, q, r, tag);
    ExchangedDistinct(c, p, q, r, tag);
    Closed(Exchanged(c, p, q, r));
  }

  /** The guard is met just when there is nothing to move. */
  lemma NothingMoved<T>(c: seq<Node<T>>, i: nat, from: nat, to: nat, tag: map<Node<T>, int>)
    requires Tagged(c, tag) && 0 < i <= |c| && 0 < from <= to <= |c| && (i < from || to <= i)
    ensures At(c, from) == At(c, to) || At(c, i) == At(c, to) <==> from == to || i == to
    ensures from == to || i == to ==> Relocated(c, i, from, to) == c
  {
    hide Exchanged;
    TagAt(c, tag, from);
    TagAt(c, tag, to);
    TagAt(c, tag, i);
    if i < from {
      NoExchange(c, i, from, to);
    } else {
      NoExchange(c, from, to, i);
    }
  }

  lemma TagAt<T>(c: seq<Node<T>>, tag: map<Node<T>, int>, k: nat)
    requires Tagged(c, tag) && 0 < k <= |c|
    ensures At(c, k) in tag && tag[At(c, k)] == if k < |c| then k else 0
  {
  }

  lemma NoExchange<T>(c: seq<T>, p: nat, q: nat, r: nat)
    requires p <= q <= r <= |c|
    ensures p == q || q == r ==> Exchanged(c, p, q, r) == c
  {
  }

  /** `merge`: the second list becomes empty, its nodes are merged into the first.  The same list may be given twice. */
  method MergeInto<T>(self: Node<T>, x: Node<T>, cmp: (T, T) -> int, ghost s: seq<Node<T>>, ghost t: seq<Node<T>>)
    returns (ghost r: seq<Node<T>>)
    requires Circle([self] + s) && Circle([x] + t)
    requires if self == x then s == t else forall n :: n in [self] + s ==> n !in [x] + t
    modifies self, x, Nodes(s), Nodes(t)
    ensures Circle([self] + r) && r == if self == x then s else Merge(ByData(cmp), s, t)
    ensures self != x ==> Circle([x])
  {
    hide Circle, Chain, Merge;
    Starts(self, s);
    Starts(x, t);
    MergeEmpty(cmp, s, t);
    if self == x || x.next == x {
      return s;
    }
    Kept(self, s, x, t);
    if self.next == self {
      assert [self][..1] + ([x] + t)[1..|t| + 1] + [self][1..] == [self] + t;
      assert ([x] + t)[..1] + ([x] + t)[|t| + 1..] == [x];
      Splice(self, x.next, x, [self], 1, [x] + t, 1, |t| + 1);
      return t;
    }
    Inner(self, s);
    Inner(x, t);
    Detach(self, s);
    Detach(x, t);
    var first;
    Apart(s, t);
    first, r := MergeList(self.next, x.next, cmp, s, t);
    MergedNodes(cmp, s, t);
    assert self !in Nodes(r);
    Attach(self, first, r);
    assert Nodes([self] + r) == {self} + Nodes(r);
    x.next := x;
    x.prev := x;
    Alone(x);
  }

  lemma Alone<T>(x: Node<T>)
    requires x.next == x && x.prev == x
    ensures Circle([x])
  {
  }

  /** A list is empty exactly when its sentinel follows itself. */
  lemma Starts<T>(self: Node<T>, s: seq<Node<T>>)
    requires Circle([self] + s)
    ensures self.next == self <==> s == []
    ensures s != [] ==> self.next == s[0]
    ensures s == [] ==> [self] + s == [self]
    ensures Distinct([self] + s)
  {
    Follows([self] + s, 0);
    if s != [] {
      Follows([self] + s, 1);
    }
  }

  /** Two lists with no node in common. */
  lemma Kept<T>(self: Node<T>, s: seq<Node<T>>, x: Node<T>, t: seq<Node<T>>)
    requires forall n :: n in [self] + s ==> n !in [x] + t
    ensures Nodes([self] + s) == {self} + Nodes(s) && Nodes([x] + t) == {x} + Nodes(t)
    ensures Nodes([self] + s) !! Nodes([x] + t) && Nodes(s) !! Nodes(t) && self != x && self !in t && x !in s
  {
    assert self in [self] + s && x in [x] + t;
    forall n | n in s
      ensures n in [self] + s
    {
    }
    forall n | n in t
      ensures n in [x] + t
    {
    }
  }

  lemma MergeEmpty<T>(cmp: (T, T) -> int, s: seq<Node<T>>, t: seq<Node<T>>)
    ensures Merge(ByData(cmp), s, []) == s && Merge(ByData(cmp), [], t) == t
  {
  }

  lemma MergedNodes<T>(cmp: (T, T) -> int, s: seq<Node<T>>, t: seq<Node<T>>)
    ensures Nodes(Merge(ByData(cmp), s, t)) == Nodes(s) + Nodes(t)
  {
    MergeMembers(ByData(cmp), s, t);
    assert multiset(Merge(ByData(cmp), s, t)) == multiset(s + t);
    SameNodes(Merge(ByData(cmp), s, t), s + t);
    assert Nodes(s + t) == Nodes(s) + Nodes(t);
  }

  // ----- Reversing and exchanging -----

  ghost function Reversed<T>(s: seq<T>): (r: seq<T>)
    ensures |r| == |s| && forall k {:trigger r[k]} :: 0 <= k < |s| ==> r[k] == s[|s| - 1 - k]
  {
    seq(|s|, k requires 0 <= k < |s| => s[|s| - 1 - k])
  }

  /** The nodes before index `k` have exchanged their links, those from `k` on have not. */
  ghost predicate Half<T>(l: seq<Node<T>>, before: seq<Node<T>>, k: int)
    requires |before| == |l| > 0
    reads Nodes(l)
  {
    forall j {:trigger l[j]} {:trigger before[j]} :: 0 <= j < |l| ==>
      if j < k then l[j].prev == At(l, j + 1) && l[j].next == before[j]
      else l[j].next == At(l, j + 1) && l[j].prev == before[j]
  }

  method TurnOne<T>(p: Node<T>, ghost l: seq<Node<T>>, ghost before: seq<Node<T>>, ghost k: nat)
    returns (next: Node<T>)
    requires Distinct(l) && |before| == |l| && k < |l| && p == l[k] && Half(l, before, k)
    modifies p
    ensures Half(l, before, k + 1) && next == At(l, k + 1) && (next == l[0] <==> k + 1 == |l|)
  {
    hide Distinct, At;
    Others(l, k);
    var tmp := p.next;
    p.next := p.prev;
    p.prev := tmp;
    next := tmp;
  }

  /** `reverse`: every node on the way round exchanges its links. */
  method Reverse<T>(self: Node<T>, ghost s: seq<Node<T>>)
    requires Circle([self] + s)
    modifies self, Nodes(s)
    ensures Circle([self] + Reversed(s))
  {
    hide Circle, Distinct, Reversed, Half;
    ghost var l := [self] + s;
    Joint(l, |l|);
    ghost var before := Prevs(l);
    Untouched(l, before);
    var p := self;
    var again := true;
    ghost var k := 0;
    while again
      invariant 0 <= k <= |l| && p == At(l, k) && (again <==> k < |l|) && Half(l, before, k)
      decreases |l| - k
    {
      p := TurnOne(p, l, before, k);
      k := k + 1;
      again := p != self;
    }
    Turned(self, s, before);
  }

  lemma Untouched<T>(l: seq<Node<T>>, before: seq<Node<T>>)
    requires Circle(l) && before == Prevs(l)
    ensures Half(l, before, 0)
  {
  }

  lemma FollowsAll<T>(l: seq<Node<T>>)
    requires Circle(l)
    ensures forall k {:trigger l[k]} :: 0 <= k < |l| ==>
              l[k].prev == (if k > 0 then l[k - 1] else l[|l| - 1]) && l[k].next == At(l, k + 1)
  {
    forall k | 0 <= k < |l|
      ensures l[k].prev == (if k > 0 then l[k - 1] else l[|l| - 1]) && l[k].next == At(l, k + 1)
    {
      Follows(l, k);
    }
  }

  ghost function Prevs<T>(l: seq<Node<T>>): (r: seq<Node<T>>)
    requires Circle(l)
    reads Nodes(l)
    ensures |r| == |l| && forall k {:trigger r[k]} :: 0 <= k < |l| ==> r[k] == (if k > 0 then l[k - 1] else l[|l| - 1])
    ensures forall k {:trigger l[k]} :: 0 <= k < |l| ==> l[k].prev == r[k] && l[k].next == At(l, k + 1)
  {
    FollowsAll(l);
    seq(|l|, k requires 0 <= k < |l| => if k > 0 then l[k - 1] else l[|l| - 1])
  }

  lemma Others<T>(l: seq<Node<T>>, k: nat)
    requires Distinct(l) && k < |l|
    ensures At(l, k) == l[k] && (At(l, k + 1) == l[0] <==> k + 1 == |l|)
    ensures forall j {:trigger l[j]} :: 0 <= j < |l| && j != k ==> l[j] != l[k]
  {
  }

  lemma Turned<T>(self: Node<T>, s: seq<Node<T>>, before: seq<Node<T>>)
    requires Distinct([self] + s) && |before| == |s| + 1 && Half([self] + s, before, |s| + 1)
    requires forall j {:trigger before[j]} :: 0 <= j <= |s| ==> before[j] == ([self] + s)[if j > 0 then j - 1 else |s|]
    ensures Circle([self] + Reversed(s))
  {
    var l, r, n := [self] + s, [self] + Reversed(s), |s| + 1;
    forall j | 0 < j <= n
      ensures JointAt(r, j)
    {
      TurnedAt(self, s, j - 1);
      TurnedAt(self, s, if j < n then j else 0);
    }
    TurnedDistinct(self, s);
    Closed(r);
  }

  lemma TurnedAt<T>(self: T, s: seq<T>, k: nat)
    requires k <= |s|
    ensures ([self] + Reversed(s))[k] == if k == 0 then ([self] + s)[0] else ([self] + s)[|s| + 1 - k]
  {
  }

  lemma TurnedDistinct<T>(self: T, s: seq<T>)
    requires Distinct([self] + s)
    ensures Distinct([self] + Reversed(s))
  {
    var r := [self] + Reversed(s);
    forall i, j | 0 <= i < j < |r|
      ensures r[i] != r[j]
    {
      TurnedAt(self, s, i);
      TurnedAt(self, s, j);
    }
  }

  /** `swap` of two lists, neither of them empty. */
  method Swap<T>(self: Node<T>, x: Node<T>, ghost s: seq<Node<T>>, ghost t: seq<Node<T>>)
    requires Circle([self] + s) && Circle([x] + t) && s != [] && t != []
    requires forall n :: n in [self] + s ==> n !in [x] + t
    modifies self, x, Nodes(s), Nodes(t)
    ensures Circle([self] + t) && Circle([x] + s)
  {
    hide Circle, Distinct, Chain;
    Starts(self, s);
    Starts(x, t);
    Inner(self, s);
    Inner(x, t);
    Kept(self, s, x, t);
    ghost var l, m := [self] + s, [x] + t;
    Follows(l, 0);
    Follows(m, 0);

    Joint(l, 1);
    Joint(m, 1);
    self.next.prev := x;
    self.prev.next := x;
    x.next.prev := self;
    x.prev.next := self;
    var next, prev := self.next, self.prev;
    self.next := x.next;
    self.prev := x.prev;
    x.next := next;
    x.prev := prev;
    Outer(self, t);
    Outer(x, s);
    ghost var l', m' := [self] + t, [x] + s;
    forall j | 0 < j <= |l'|
      ensures JointAt(l', j)
    {
      assert 1 < j < |l'| ==> old(JointAt(m, j));
    }
    forall j | 0 < j <= |m'|
      ensures JointAt(m', j)
    {
      assert 1 < j < |m'| ==> old(JointAt(l, j));
    }
    Closed(l');
    Closed(m');
  }
}
