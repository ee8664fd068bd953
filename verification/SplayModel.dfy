/** The splay tree of libevent/tree.h seen from outside the heap: the links of all nodes at one
    moment as a map, and what every step of the top-down splay keeps. */
module SplayModel {

  class Node<K> {
    var left: Node?<K>
    var right: Node?<K>
    const key: K

    constructor (k: K)
      ensures left == null && right == null && key == k
    {
      left, right, key := null, null, k;
    }
  }

  /** The links of a node, its position `at` in the sequence, and the positions its subtree lies between. */
  datatype Cell<!K> = Cell(l: Node?<K>, r: Node?<K>, lo: int, at: int, hi: int)

  type Store<!K> = map<Node<K>, Cell<K>>

  // ----- A tree -----

  ghost predicate LeftOK<K>(m: Store<K>, n: Node<K>)
    requires n in m
  {
    if m[n].l == null then m[n].lo + 1 == m[n].at else m[n].l in m && m[m[n].l].lo == m[n].lo && m[m[n].l].hi == m[n].at
  }

  ghost predicate RightOK<K>(m: Store<K>, n: Node<K>)
    requires n in m
  {
    if m[n].r == null then m[n].at + 1 == m[n].hi else m[n].r in m && m[m[n].r].lo == m[n].at && m[m[n].r].hi == m[n].hi
  }

  ghost predicate NodeOK<K>(m: Store<K>, n: Node<K>) {
    n in m && -1 <= m[n].lo < m[n].at < m[n].hi && LeftOK(m, n) && RightOK(m, n)
  }

  /** A tree at `root` of `size` nodes. */
  ghost predicate Shape<K>(m: Store<K>, root: Node?<K>, size: int) {
    && (if root == null then size == 0 else root in m && m[root].lo == -1 && m[root].hi == size)
    && (forall n {:trigger NodeOK(m, n)} :: n in m ==> NodeOK(m, n))
  }

  // ----- The sequence -----

  ghost predicate Listed<K>(m: Store<K>, ord: seq<Node<K>>, n: Node<K>) {
    n in m && 0 <= m[n].at < |ord| && ord[m[n].at] == n
  }

  /** `ord` lists the nodes by position. */
  ghost predicate InOrder<K>(m: Store<K>, ord: seq<Node<K>>) {
    && (forall i {:trigger ord[i]} :: 0 <= i < |ord| ==> ord[i] in m && m[ord[i]].at == i)
    && (forall n {:trigger Listed(m, ord, n)} :: n in m ==> Listed(m, ord, n))
  }

  /** The same nodes at the same positions. */
  ghost predicate SameOrder<K>(m: Store<K>, m': Store<K>) {
    m'.Keys == m.Keys && (forall n {:trigger m'[n]} :: n in m ==> m'[n].at == m[n].at)
  }

  lemma SameOrderKept<K>(m: Store<K>, m': Store<K>, ord: seq<Node<K>>)
    requires InOrder(m, ord) && SameOrder(m, m')
    ensures InOrder(m', ord)
  {
    forall n | n in m'
      ensures Listed(m', ord, n)
    {
      assert Listed(m, ord, n);
    }
  }

  lemma {:induction false} Within<K>(m: Store<K>, ord: seq<Node<K>>, n: Node<K>)
    requires InOrder(m, ord) && n in m && forall k {:trigger NodeOK(m, k)} :: k in m ==> NodeOK(m, k)
    ensures m[n].hi <= |ord|
    decreases m[n].hi - m[n].lo
  {
    assert NodeOK(m, n) && Listed(m, ord, n);
    if m[n].r != null {
      Within(m, ord, m[n].r);
    }
  }

  // ----- The traversal -----

  /** The nodes met when the links are followed from left to right. */
  ghost function Traversal<K>(m: Store<K>, n: Node?<K>): seq<Node<K>>
    requires n == null || n in m
    requires forall k {:trigger NodeOK(m, k)} :: k in m ==> NodeOK(m, k)
    decreases if n == null then 0 else m[n].hi - m[n].lo
  {
    if n == null then []
    else
      assert NodeOK(m, n) && (m[n].l != null ==> NodeOK(m, m[n].l)) && (m[n].r != null ==> NodeOK(m, m[n].r));
      Traversal(m, m[n].l) + [n] + Traversal(m, m[n].r)
  }

  lemma {:induction false} SubtreeIsStretch<K>(m: Store<K>, ord: seq<Node<K>>, n: Node<K>)
    requires InOrder(m, ord) && n in m && forall k {:trigger NodeOK(m, k)} :: k in m ==> NodeOK(m, k)
    ensures -1 <= m[n].lo < m[n].hi <= |ord|
    ensures Traversal(m, n) == ord[m[n].lo + 1..m[n].hi]
    decreases m[n].hi - m[n].lo
  {
    assert NodeOK(m, n) && Listed(m, ord, n);
    Within(m, ord, n);
    var c := m[n];
    if c.l != null {
      SubtreeIsStretch(m, ord, c.l);
    }
    if c.r != null {
      SubtreeIsStretch(m, ord, c.r);
    }
    assert ord[c.lo + 1..c.at] + [ord[c.at]] + ord[c.at + 1..c.hi] == ord[c.lo + 1..c.hi];
  }

  /** The sequence that the operations speak of is the one that the links give. */
  lemma TraversalIsOrder<K>(m: Store<K>, root: Node?<K>, ord: seq<Node<K>>)
    requires Shape(m, root, |ord|) && InOrder(m, ord)
    ensures Traversal(m, root) == ord
  {
    if root != null {
      SubtreeIsStretch(m, ord, root);
    }
  }

  // ----- In the middle of a splay -----

  /** What has been split off so far: the nodes before `a` form the left tree, whose last node is `left`; those from `b` on
      form the right tree, whose first node is `right`.  When a tree is empty, both its ends are the auxiliary node. */
  datatype Phase<!K> = Phase(a: int, b: int, left: Node<K>, right: Node<K>, lroot: Node?<K>, rroot: Node?<K>)

  // The left tree ends with a hole below `left`.  Of the subtrees around the hole only a bound beyond `b` is known.
  ghost predicate BeforeOK<K>(m: Store<K>, f: Phase<K>, n: Node<K>)
    requires n in m
  {
    && LeftOK(m, n) && (m[n].hi < f.a || f.b <= m[n].hi)
    && (if n == f.left then m[n].at == f.a - 1 && f.b <= m[n].hi
        else if m[n].hi < f.a then RightOK(m, n)
        else m[n].r != null && m[n].r in m && m[m[n].r].lo == m[n].at && m[m[n].r].at < f.a && f.b <= m[m[n].r].hi)
  }

  ghost predicate BehindOK<K>(m: Store<K>, f: Phase<K>, n: Node<K>)
    requires n in m
  {
    && RightOK(m, n) && (m[n].lo < f.a || f.b <= m[n].lo)
    && (if n == f.right then m[n].at == f.b && m[n].lo < f.a
        else if f.b <= m[n].lo then LeftOK(m, n)
        else m[n].l != null && m[n].l in m && m[m[n].l].hi == m[n].at && f.b <= m[m[n].l].at && m[m[n].l].lo < f.a)
  }

  ghost predicate PlaceOK<K>(m: Store<K>, f: Phase<K>, n: Node<K>) {
    && n in m && -1 <= m[n].lo < m[n].at < m[n].hi
    && (m[n].at < f.a ==> BeforeOK(m, f, n))
    && (f.a <= m[n].at < f.b ==> f.a - 1 <= m[n].lo && m[n].hi <= f.b && LeftOK(m, n) && RightOK(m, n))
    && (f.b <= m[n].at ==> BehindOK(m, f, n))
  }

  ghost predicate Ends<K>(m: Store<K>, f: Phase<K>, aux: Node<K>, size: int) {
    && 0 <= f.a < f.b <= size && aux !in m
    && (f.a == 0 ==> f.left == aux)
    && (f.a > 0 ==> f.left in m && m[f.left].at == f.a - 1)
    && (f.a > 0 ==> f.lroot != null && f.lroot in m && m[f.lroot].lo == -1 && m[f.lroot].at < f.a && f.b <= m[f.lroot].hi)
    && (f.b == size ==> f.right == aux)
    && (f.b < size ==> f.right in m && m[f.right].at == f.b)
    && (f.b < size ==> f.rroot != null && f.rroot in m && m[f.rroot].hi == size && f.b <= m[f.rroot].at && m[f.rroot].lo < f.a)
  }

  /** The tree in the middle, at `root`, holds the nodes from `a` to `b`. */
  ghost predicate Split<K>(m: Store<K>, f: Phase<K>, aux: Node<K>, root: Node<K>, size: int) {
    && Ends(m, f, aux, size)
    && root in m && m[root].lo == f.a - 1 && m[root].hi == f.b
    && (forall n {:trigger PlaceOK(m, f, n)} :: n in m ==> PlaceOK(m, f, n))
  }

  lemma SplitStart<K>(m: Store<K>, aux: Node<K>, root: Node<K>, size: int) returns (f: Phase<K>)
    requires Shape(m, root, size) && aux !in m
    requires forall n {:trigger m[n]} :: n in m ==> 0 <= m[n].at < size && m[n].hi <= size
    ensures f == Phase(0, size, aux, aux, null, null) && Split(m, f, aux, root, size)
  {
    f := Phase(0, size, aux, aux, null, null);
    assert NodeOK(m, root);
    forall n | n in m
      ensures PlaceOK(m, f, n)
    {
      assert NodeOK(m, n);
    }
  }

  // ----- The steps -----

  // All nodes but `x` and `y` are as they were; these two keep their positions.
  ghost predicate SameBut<K>(m: Store<K>, m': Store<K>, x: Node<K>, y: Node<K>) {
    && m'.Keys == m.Keys && x in m && y in m && m'[x].at == m[x].at && m'[y].at == m[y].at
    && (forall n {:trigger m'[n]} :: n in m && n != x && n != y ==> m'[n] == m[n])
  }

  /** `x`, the root, and its left child `y` have changed places. */
  ghost predicate TurnedRight<K>(m: Store<K>, m': Store<K>, x: Node<K>, y: Node<K>) {
    && SameBut(m, m', x, y) && x != y
    && m'[x].l == m[y].r && m'[x].r == m[x].r && m'[x].lo == m[y].at && m'[x].hi == m[x].hi
    && m'[y].l == m[y].l && m'[y].r == x && m'[y].lo == m[y].lo && m'[y].hi == m[x].hi
  }

  ghost predicate TurnedLeft<K>(m: Store<K>, m': Store<K>, x: Node<K>, y: Node<K>) {
    && SameBut(m, m', x, y) && x != y
    && m'[x].r == m[y].l && m'[x].l == m[x].l && m'[x].hi == m[y].at && m'[x].lo == m[x].lo
    && m'[y].r == m[y].r && m'[y].l == x && m'[y].hi == m[y].hi && m'[y].lo == m[x].lo
  }

  lemma TurnRight<K>(m: Store<K>, f: Phase<K>, aux: Node<K>, x: Node<K>, y: Node<K>, size: int) returns (m': Store<K>)
    requires Split(m, f, aux, x, size) && m[x].l == y
    ensures TurnedRight(m, m', x, y)
  {
    assert PlaceOK(m, f, x);
    m' := m[x := m[x].(l := m[y].r, lo := m[y].at)][y := m[y].(r := x, hi := m[x].hi)];
  }

  lemma TurnLeft<K>(m: Store<K>, f: Phase<K>, aux: Node<K>, x: Node<K>, y: Node<K>, size: int) returns (m': Store<K>)
    requires Split(m, f, aux, x, size) && m[x].r == y
    ensures TurnedLeft(m, m', x, y)
  {
    assert PlaceOK(m, f, x);
    m' := m[x := m[x].(r := m[y].l, hi := m[y].at)][y := m[y].(l := x, lo := m[x].lo)];
  }

  lemma TurnRightKeeps<K>(m: Store<K>, m': Store<K>, ord: seq<Node<K>>, f: Phase<K>, aux: Node<K>, x: Node<K>, y: Node<K>, size: int)
    requires Split(m, f, aux, x, size) && InOrder(m, ord) && m[x].l == y && TurnedRight(m, m', x, y)
    ensures Split(m', f, aux, y, size) && InOrder(m', ord)
  {
    forall n | n in m'
      ensures PlaceOK(m', f, n)
    {
      TurnRightPlace(m, m', ord, f, aux, x, y, size, n);
    }
    assert PlaceOK(m, f, x) && PlaceOK(m, f, y);
    SameOrderKept(m, m', ord);
  }

  lemma TurnRightPlace<K>(m: Store<K>, m': Store<K>, ord: seq<Node<K>>, f: Phase<K>, aux: Node<K>, x: Node<K>, y: Node<K>, size: int,
                          n: Node<K>)
    requires Split(m, f, aux, x, size) && InOrder(m, ord) && m[x].l == y && TurnedRight(m, m', x, y) && n in m
    ensures PlaceOK(m', f, n)
  {
    assert PlaceOK(m, f, x) && PlaceOK(m, f, y) && Listed(m, ord, x);
    assert PlaceOK(m, f, n) && Listed(m, ord, n);
  }

  lemma TurnLeftKeeps<K>(m: Store<K>, m': Store<K>, ord: seq<Node<K>>, f: Phase<K>, aux: Node<K>, x: Node<K>, y: Node<K>, size: int)
    requires Split(m, f, aux, x, size) && InOrder(m, ord) && m[x].r == y && TurnedLeft(m, m', x, y)
    ensures Split(m', f, aux, y, size) && InOrder(m', ord)
  {
    forall n | n in m'
      ensures PlaceOK(m', f, n)
    {
      TurnLeftPlace(m, m', ord, f, aux, x, y, size, n);
    }
    assert PlaceOK(m, f, x) && PlaceOK(m, f, y);
    SameOrderKept(m, m', ord);
  }

  lemma TurnLeftPlace<K>(m: Store<K>, m': Store<K>, ord: seq<Node<K>>, f: Phase<K>, aux: Node<K>, x: Node<K>, y: Node<K>, size: int,
                          n: Node<K>)
    requires Split(m, f, aux, x, size) && InOrder(m, ord) && m[x].r == y && TurnedLeft(m, m', x, y) && n in m
    ensures PlaceOK(m', f, n)
  {
    assert PlaceOK(m, f, x) && PlaceOK(m, f, y) && Listed(m, ord, x);
    assert PlaceOK(m, f, n) && Listed(m, ord, n);
  }

  /** The nodes on one side of `x` have their whole subtrees there. */
  lemma {:induction false} OneSideOf<K>(m: Store<K>, ord: seq<Node<K>>, a: int, b: int, x: Node<K>, n: Node<K>)
    requires InOrder(m, ord) && x in m && n in m && m[x].lo < m[n].at < m[x].hi && n != x
    requires a - 1 <= m[x].lo && m[x].hi <= b
    requires forall k {:trigger NodeOK(m, k)} :: k in m && a - 1 <= m[k].lo && m[k].hi <= b ==> NodeOK(m, k)
    ensures m[n].at < m[x].at ==> m[x].lo <= m[n].lo && m[n].hi <= m[x].at
    ensures m[n].at >= m[x].at ==> m[x].at <= m[n].lo && m[n].hi <= m[x].hi
    decreases m[x].hi - m[x].lo
  {
    assert NodeOK(m, x) && Listed(m, ord, x) && Listed(m, ord, n);
    var y := if m[n].at < m[x].at then m[x].l else m[x].r;
    assert NodeOK(m, y);
    if y != n {
      OneSideOf(m, ord, a, b, y, n);
    }
  }

  lemma OneSide<K>(m: Store<K>, ord: seq<Node<K>>, f: Phase<K>, x: Node<K>, n: Node<K>)
    requires InOrder(m, ord) && x in m && n in m && f.a <= m[x].at < f.b && m[x].lo < m[n].at < m[x].hi && n != x
    requires forall k {:trigger PlaceOK(m, f, k)} :: k in m ==> PlaceOK(m, f, k)
    ensures m[n].at < m[x].at ==> m[x].lo <= m[n].lo && m[n].hi <= m[x].at
    ensures m[n].at >= m[x].at ==> m[x].at <= m[n].lo && m[n].hi <= m[x].hi
  {
    forall k | k in m && f.a - 1 <= m[k].lo && m[k].hi <= f.b
      ensures NodeOK(m, k)
    {
      assert PlaceOK(m, f, k);
    }
    assert PlaceOK(m, f, x);
    OneSideOf(m, ord, f.a, f.b, x, n);
  }

  /** The same in a whole tree, where `x` is the root. */
  lemma OneSideOfRoot<K>(m: Store<K>, ord: seq<Node<K>>, x: Node<K>, n: Node<K>)
    requires InOrder(m, ord) && Shape(m, x, |ord|) && n in m && n != x
    ensures m[n].at < m[x].at ==> m[n].hi <= m[x].at
    ensures m[n].at >= m[x].at ==> m[x].at <= m[n].lo
  {
    assert Listed(m, ord, n);
    OneSideOf(m, ord, 0, |ord|, x, n);
  }

  // Only a link of `p`, when it is a node at all, may have changed.
  ghost predicate SameButOne<K>(m: Store<K>, m': Store<K>, p: Node<K>) {
    && m'.Keys == m.Keys
    && (forall n {:trigger m'[n]} :: n in m && n != p ==> m'[n] == m[n])
    && (p in m ==> m'[p].lo == m[p].lo && m'[p].at == m[p].at && m'[p].hi == m[p].hi)
  }

  /** `x`, the root, has become the first node of the right tree. */
  ghost predicate LinkedLeft<K>(m: Store<K>, m': Store<K>, f: Phase<K>, f': Phase<K>, aux: Node<K>, x: Node<K>) {
    && SameButOne(m, m', f.right) && x in m
    && (f.right in m ==> m'[f.right].l == x && m'[f.right].r == m[f.right].r)
    && f' == Phase(f.a, m[x].at, f.left, x, f.lroot, if f.right == aux then x else f.rroot)
  }

  ghost predicate LinkedRight<K>(m: Store<K>, m': Store<K>, f: Phase<K>, f': Phase<K>, aux: Node<K>, x: Node<K>) {
    && SameButOne(m, m', f.left) && x in m
    && (f.left in m ==> m'[f.left].r == x && m'[f.left].l == m[f.left].l)
    && f' == Phase(m[x].at + 1, f.b, x, f.right, if f.left == aux then x else f.lroot, f.rroot)
  }

  lemma LinkLeft<K>(m: Store<K>, f: Phase<K>, aux: Node<K>, x: Node<K>) returns (m': Store<K>, f': Phase<K>)
    requires x in m
    ensures LinkedLeft(m, m', f, f', aux, x)
  {
    m' := if f.right in m then m[f.right := m[f.right].(l := x)] else m;
    f' := Phase(f.a, m[x].at, f.left, x, f.lroot, if f.right == aux then x else f.rroot);
  }

  lemma LinkRight<K>(m: Store<K>, f: Phase<K>, aux: Node<K>, x: Node<K>) returns (m': Store<K>, f': Phase<K>)
    requires x in m
    ensures LinkedRight(m, m', f, f', aux, x)
  {
    m' := if f.left in m then m[f.left := m[f.left].(r := x)] else m;
    f' := Phase(m[x].at + 1, f.b, x, f.right, if f.left == aux then x else f.lroot, f.rroot);
  }

  lemma LinkLeftNode<K>(m: Store<K>, m': Store<K>, ord: seq<Node<K>>, f: Phase<K>, f': Phase<K>, aux: Node<K>, x: Node<K>, y: Node<K>, size: int, n: Node<K>)
    requires Split(m, f, aux, x, size) && InOrder(m, ord) && m[x].l == y && LinkedLeft(m, m', f, f', aux, x) && n in m
    ensures PlaceOK(m', f', n)
  {
    assert PlaceOK(m, f, x) && PlaceOK(m, f, y) && PlaceOK(m, f, n) && Listed(m, ord, n) && Listed(m, ord, x);
    if f.a <= m[n].at < f.b && n != x {
      OneSide(m, ord, f, x, n);
    }
  }

  lemma LinkLeftKeeps<K>(m: Store<K>, m': Store<K>, ord: seq<Node<K>>, f: Phase<K>, f': Phase<K>, aux: Node<K>, x: Node<K>, y: Node<K>, size: int)
    requires Split(m, f, aux, x, size) && InOrder(m, ord) && m[x].l == y && LinkedLeft(m, m', f, f', aux, x)
    ensures Split(m', f', aux, y, size) && InOrder(m', ord) && f.a <= m[x].at < f.b
  {
    assert PlaceOK(m, f, x) && PlaceOK(m, f, y);
    forall n | n in m'
      ensures PlaceOK(m', f', n)
    {
      LinkLeftNode(m, m', ord, f, f', aux, x, y, size, n);
    }
    SameOrderKept(m, m', ord);
  }

  lemma LinkRightNode<K>(m: Store<K>, m': Store<K>, ord: seq<Node<K>>, f: Phase<K>, f': Phase<K>, aux: Node<K>, x: Node<K>, y: Node<K>, size: int, n: Node<K>)
    requires Split(m, f, aux, x, size) && InOrder(m, ord) && m[x].r == y && LinkedRight(m, m', f, f', aux, x) && n in m
    ensures PlaceOK(m', f', n)
  {
    assert PlaceOK(m, f, x) && PlaceOK(m, f, y) && PlaceOK(m, f, n) && Listed(m, ord, n) && Listed(m, ord, x);
    if f.a <= m[n].at < f.b && n != x {
      OneSide(m, ord, f, x, n);
    }
  }

  lemma LinkRightKeeps<K>(m: Store<K>, m': Store<K>, ord: seq<Node<K>>, f: Phase<K>, f': Phase<K>, aux: Node<K>, x: Node<K>, y: Node<K>, size: int)
    requires Split(m, f, aux, x, size) && InOrder(m, ord) && m[x].r == y && LinkedRight(m, m', f, f', aux, x)
    ensures Split(m', f', aux, y, size) && InOrder(m', ord) && f.a <= m[x].at < f.b
  {
    assert PlaceOK(m, f, x) && PlaceOK(m, f, y);
    forall n | n in m'
      ensures PlaceOK(m', f', n)
    {
      LinkRightNode(m, m', ord, f, f', aux, x, y, size, n);
    }
    SameOrderKept(m, m', ord);
  }

  // ----- Putting the trees together -----

  /** The two trees have become the subtrees of the root, which left its own subtrees to their ends. */
  ghost predicate Assembled<K>(m: Store<K>, m': Store<K>, f: Phase<K>, aux: Node<K>, x: Node<K>, size: int) {
    && SameOrder(m, m') && x in m
    && (forall n {:trigger m'[n]} :: n in m && n != x ==>
          && m'[n].l == (if n == f.right then m[x].r else m[n].l)
          && m'[n].r == (if n == f.left then m[x].l else m[n].r)
          && m'[n].lo == (if m[n].at > m[x].at && m[n].lo < m[x].at then m[x].at else m[n].lo)
          && m'[n].hi == (if m[n].at < m[x].at && m[n].hi > m[x].at then m[x].at else m[n].hi))
    && m'[x].l == (if f.left == aux then m[x].l else f.lroot)
    && m'[x].r == (if f.right == aux then m[x].r else f.rroot)
    && m'[x].lo == -1 && m'[x].hi == size
  }

  lemma EndsApart<K>(m: Store<K>, f: Phase<K>, aux: Node<K>, x: Node<K>, size: int)
    requires Split(m, f, aux, x, size)
    ensures aux !in m && f.a <= m[x].at < f.b && f.left != x && f.right != x && (f.left == f.right ==> f.left == aux)
    ensures f.left in m.Keys + {aux} && f.right in m.Keys + {aux}
    ensures (f.left == aux <==> f.a == 0) && (f.right == aux <==> f.b == size)
  {
    assert PlaceOK(m, f, x);
  }

  lemma Assemble<K>(m: Store<K>, f: Phase<K>, aux: Node<K>, x: Node<K>, size: int) returns (m': Store<K>)
    requires x in m
    ensures Assembled(m, m', f, aux, x, size)
  {
    m' := map n | n in m :: Cell(
      if n == x then (if f.left == aux then m[x].l else f.lroot) else if n == f.right then m[x].r else m[n].l,
      if n == x then (if f.right == aux then m[x].r else f.rroot) else if n == f.left then m[x].l else m[n].r,
      if n == x then -1 else if m[n].at > m[x].at && m[n].lo < m[x].at then m[x].at else m[n].lo,
      m[n].at,
      if n == x then size else if m[n].at < m[x].at && m[n].hi > m[x].at then m[x].at else m[n].hi);
  }

  lemma AssembledRoot<K>(m: Store<K>, m': Store<K>, f: Phase<K>, aux: Node<K>, x: Node<K>, size: int)
    requires Split(m, f, aux, x, size) && Assembled(m, m', f, aux, x, size)
    ensures NodeOK(m', x)
  {
    assert PlaceOK(m, f, x);
    assert m[x].l != null ==> PlaceOK(m, f, m[x].l);
    assert m[x].r != null ==> PlaceOK(m, f, m[x].r);
  }

  lemma AssembledBefore<K>(m: Store<K>, m': Store<K>, ord: seq<Node<K>>, f: Phase<K>, aux: Node<K>, x: Node<K>, size: int, n: Node<K>)
    requires Split(m, f, aux, x, size) && InOrder(m, ord) && Assembled(m, m', f, aux, x, size) && n in m && m[n].at < m[x].at
    ensures NodeOK(m', n)
  {
    assert PlaceOK(m, f, x) && PlaceOK(m, f, n);
    if f.a <= m[n].at {
      OneSide(m, ord, f, x, n);
    }
    assert m[n].l != null ==> PlaceOK(m, f, m[n].l);
    if n == f.left {
      assert m[x].l != null ==> PlaceOK(m, f, m[x].l);
    } else {
      assert m[n].r != null ==> PlaceOK(m, f, m[n].r);
    }
  }

  lemma AssembledBehind<K>(m: Store<K>, m': Store<K>, ord: seq<Node<K>>, f: Phase<K>, aux: Node<K>, x: Node<K>, size: int, n: Node<K>)
    requires Split(m, f, aux, x, size) && InOrder(m, ord) && Assembled(m, m', f, aux, x, size) && n in m && m[n].at > m[x].at
    ensures NodeOK(m', n)
  {
    assert PlaceOK(m, f, x) && PlaceOK(m, f, n);
    if m[n].at < f.b {
      OneSide(m, ord, f, x, n);
    }
    assert m[n].r != null ==> PlaceOK(m, f, m[n].r);
    if n == f.right {
      assert m[x].r != null ==> PlaceOK(m, f, m[x].r);
    } else {
      assert m[n].l != null ==> PlaceOK(m, f, m[n].l);
    }
  }

  lemma AssembleKeeps<K>(m: Store<K>, m': Store<K>, ord: seq<Node<K>>, f: Phase<K>, aux: Node<K>, x: Node<K>, size: int)
    requires Split(m, f, aux, x, size) && InOrder(m, ord) && Assembled(m, m', f, aux, x, size)
    ensures Shape(m', x, size) && InOrder(m', ord)
  {
    hide Split;
    hide NodeOK;
    forall n | n in m'
      ensures NodeOK(m', n)
    {
      assert Listed(m, ord, n) && Listed(m, ord, x);
      if n == x {
        AssembledRoot(m, m', f, aux, x, size);
      } else if m[n].at < m[x].at {
        AssembledBefore(m, m', ord, f, aux, x, size, n);
      } else {
        AssembledBehind(m, m', ord, f, aux, x, size, n);
      }
    }
    SameOrderKept(m, m', ord);
  }

  // ----- Insertion -----

  /** `z` has become the root at position `p`; the old root `x` is its right child (when `before`) or its left child. */
  ghost predicate Inserted<K>(m: Store<K>, m': Store<K>, x: Node<K>, z: Node<K>, p: int, before: bool, size: int) {
    && m'.Keys == m.Keys + {z} && x in m && z !in m && p == (if before then m[x].at else m[x].at + 1)
    && (forall n {:trigger m'[n]} :: n in m && n != x ==>
          m'[n] == if m[n].at < p then m[n] else Cell(m[n].l, m[n].r, m[n].lo + 1, m[n].at + 1, m[n].hi + 1))
    && m'[x] == (if before then Cell(null, m[x].r, p, p + 1, size + 1) else Cell(m[x].l, null, -1, p - 1, p))
    && m'[z] == (if before then Cell(m[x].l, x, -1, p, size + 1) else Cell(x, m[x].r, -1, p, size + 1))
  }

  lemma Insert<K>(m: Store<K>, x: Node<K>, z: Node<K>, before: bool, size: int) returns (m': Store<K>, p: int)
    requires x in m && z !in m
    ensures Inserted(m, m', x, z, p, before, size)
  {
    p := if before then m[x].at else m[x].at + 1;
    m' := map n | n in m.Keys + {z} ::
      if n == z then if before then Cell(m[x].l, x, -1, p, size + 1) else Cell(x, m[x].r, -1, p, size + 1)
      else if n == x then if before then Cell(null, m[x].r, p, p + 1, size + 1) else Cell(m[x].l, null, -1, p - 1, p)
      else if m[n].at < p then m[n] else Cell(m[n].l, m[n].r, m[n].lo + 1, m[n].at + 1, m[n].hi + 1);
  }

  lemma InsertedNode<K>(m: Store<K>, m': Store<K>, ord: seq<Node<K>>, x: Node<K>, z: Node<K>, p: int, before: bool, n: Node<K>)
    requires Shape(m, x, |ord|) && InOrder(m, ord) && Inserted(m, m', x, z, p, before, |ord|) && n in m'
    ensures NodeOK(m', n)
  {
    if n != z && n != x {
      InsertedOther(m, m', ord, x, z, p, before, n);
    } else {
      assert NodeOK(m, x);
      assert m[x].l != null ==> NodeOK(m, m[x].l);
      assert m[x].r != null ==> NodeOK(m, m[x].r);
    }
  }

  lemma InsertedOther<K>(m: Store<K>, m': Store<K>, ord: seq<Node<K>>, x: Node<K>, z: Node<K>, p: int, before: bool, n: Node<K>)
    requires Shape(m, x, |ord|) && InOrder(m, ord) && Inserted(m, m', x, z, p, before, |ord|) && n in m && n != x
    ensures NodeOK(m', n)
  {
    assert NodeOK(m, x) && NodeOK(m, n);
    OneSideOfRoot(m, ord, x, n);
    assert m[n].l != null ==> NodeOK(m, m[n].l);
    assert m[n].r != null ==> NodeOK(m, m[n].r);
  }

  // The sequence, when `z` has come in at `p` and those behind have moved up.
  lemma InsertedOrder<K>(m: Store<K>, m': Store<K>, ord: seq<Node<K>>, z: Node<K>, p: int) returns (ord': seq<Node<K>>)
    requires InOrder(m, ord) && 0 <= p <= |ord| && z !in m && m'.Keys == m.Keys + {z} && m'[z].at == p
    requires forall n {:trigger m'[n]} :: n in m ==> m'[n].at == if m[n].at < p then m[n].at else m[n].at + 1
    ensures ord' == ord[..p] + [z] + ord[p..] && InOrder(m', ord')
  {
    ord' := ord[..p] + [z] + ord[p..];
    forall n | n in m'
      ensures Listed(m', ord', n)
    {
      assert n != z ==> Listed(m, ord, n);
    }
    forall i | 0 <= i < |ord'|
      ensures ord'[i] in m' && m'[ord'[i]].at == i
    {
      assert i < p ==> ord'[i] == ord[i];
      assert i > p ==> ord'[i] == ord[i - 1];
    }
  }

  lemma InsertKeeps<K>(m: Store<K>, m': Store<K>, ord: seq<Node<K>>, x: Node<K>, z: Node<K>, p: int, before: bool) returns (ord': seq<Node<K>>)
    requires Shape(m, x, |ord|) && InOrder(m, ord) && Inserted(m, m', x, z, p, before, |ord|)
    ensures 0 <= p <= |ord| && ord' == ord[..p] + [z] + ord[p..]
    ensures Shape(m', z, |ord'|) && InOrder(m', ord')
  {
    hide NodeOK;
    assert Listed(m, ord, x);
    forall n | n in m'
      ensures NodeOK(m', n)
    {
      InsertedNode(m, m', ord, x, z, p, before, n);
    }
    ord' := InsertedOrder(m, m', ord, z, p);
  }

  // ----- Removal -----

  /** The left subtree of the root `x`, on its own. */
  ghost function Front<K>(m: Store<K>, p: int): (m': Store<K>)
    ensures m'.Keys <= m.Keys && forall n {:trigger n in m'} :: n in m ==> (n in m' <==> m[n].at < p)
    ensures forall n {:trigger m'[n]} :: n in m' ==> m'[n] == m[n]
  {
    map n | n in m && m[n].at < p :: m[n]
  }

  lemma FrontKeeps<K>(m: Store<K>, m': Store<K>, ord: seq<Node<K>>, x: Node<K>)
    requires Shape(m, x, |ord|) && InOrder(m, ord) && m' == Front(m, m[x].at)
    ensures 0 <= m[x].at < |ord| && Shape(m', m[x].l, m[x].at) && InOrder(m', ord[..m[x].at])
  {
    assert NodeOK(m, x) && Listed(m, ord, x);
    var p := m[x].at;
    assert m[x].l != null ==> NodeOK(m, m[x].l);
    forall n | n in m'
      ensures NodeOK(m', n) && Listed(m', ord[..p], n)
    {
      assert NodeOK(m, n) && Listed(m, ord, n);
      OneSideOfRoot(m, ord, x, n);
      assert m[n].l != null ==> NodeOK(m, m[n].l);
      assert m[n].r != null ==> NodeOK(m, m[n].r);
    }
  }

  /** The root `x` is gone: what was behind it has moved up by one and hangs below `y`, the last node of the front part
      (or is the whole tree, when there is no front part). */
  ghost predicate Joined<K>(m: Store<K>, front: Store<K>, m': Store<K>, x: Node<K>, y: Node?<K>, size: int) {
    && x in m && m'.Keys == m.Keys - {x}
    && (forall n {:trigger m'[n]} :: n in front && n != y ==> n in m' && m'[n] == front[n])
    && (forall n {:trigger m'[n]} :: n in m' && n !in front ==> m'[n] == Cell(m[n].l, m[n].r, m[n].lo - 1, m[n].at - 1, m[n].hi - 1))
    && (y != null ==> y in front && y in m' && m'[y] == Cell(front[y].l, m[x].r, front[y].lo, front[y].at, size - 1))
  }

  lemma Join<K>(m: Store<K>, front: Store<K>, x: Node<K>, y: Node?<K>, size: int) returns (m': Store<K>)
    requires x in m && front.Keys <= m.Keys - {x} && (y != null ==> y in front)
    ensures Joined(m, front, m', x, y, size)
  {
    m' := map n | n in m.Keys - {x} ::
      if y != null && n == y then Cell(front[y].l, m[x].r, front[y].lo, front[y].at, size - 1)
      else if n in front then front[n]
      else Cell(m[n].l, m[n].r, m[n].lo - 1, m[n].at - 1, m[n].hi - 1);
  }

  lemma JoinedFront<K>(m: Store<K>, front: Store<K>, m': Store<K>, ord: seq<Node<K>>, x: Node<K>, y: Node?<K>, n: Node<K>)
    requires Shape(m, x, |ord|) && InOrder(m, ord) && Joined(m, front, m', x, y, |ord|) && n in front && 0 <= m[x].at <= |ord|
    requires Shape(front, y, m[x].at) && InOrder(front, ord[..m[x].at]) && (y != null ==> front[y].r == null)
    requires front.Keys == Front(m, m[x].at).Keys
    ensures NodeOK(m', n)
  {
    assert NodeOK(m, x) && NodeOK(front, n) && Listed(front, ord[..m[x].at], n);
    assert y != null ==> NodeOK(front, y);
    assert front[n].l != null ==> NodeOK(front, front[n].l);
    if n == y {
      assert m[x].r != null ==> NodeOK(m, m[x].r);
    } else {
      assert front[n].r != null ==> NodeOK(front, front[n].r);
    }
  }

  lemma JoinedBack<K>(m: Store<K>, front: Store<K>, m': Store<K>, ord: seq<Node<K>>, x: Node<K>, y: Node?<K>, n: Node<K>)
    requires Shape(m, x, |ord|) && InOrder(m, ord) && Joined(m, front, m', x, y, |ord|) && n in m' && n !in front
    requires front.Keys == Front(m, m[x].at).Keys && (y != null ==> y in front)
    ensures NodeOK(m', n)
  {
    assert NodeOK(m, n) && Listed(m, ord, n) && Listed(m, ord, x);
    OneSideOfRoot(m, ord, x, n);
    assert m[n].l != null ==> NodeOK(m, m[n].l);
    assert m[n].r != null ==> NodeOK(m, m[n].r);
  }

  // The sequence, when `x` is gone and those behind it have moved up.
  lemma RemovedOrder<K>(m: Store<K>, m': Store<K>, ord: seq<Node<K>>, x: Node<K>)
    requires InOrder(m, ord) && x in m && 0 <= m[x].at < |ord| && m'.Keys == m.Keys - {x}
    requires forall n {:trigger m'[n]} :: n in m' ==> m'[n].at == if m[n].at < m[x].at then m[n].at else m[n].at - 1
    ensures InOrder(m', ord[..m[x].at] + ord[m[x].at + 1..])
  {
    var p := m[x].at;
    var ord' := ord[..p] + ord[p + 1..];
    assert Listed(m, ord, x);
    forall n | n in m'
      ensures Listed(m', ord', n)
    {
      assert Listed(m, ord, n);
    }
    forall i | 0 <= i < |ord'|
      ensures ord'[i] in m' && m'[ord'[i]].at == i
    {
      assert ord'[i] == ord[if i < p then i else i + 1];
    }
  }

  lemma JoinKeeps<K>(m: Store<K>, front: Store<K>, m': Store<K>, ord: seq<Node<K>>, x: Node<K>, y: Node?<K>)
    requires Shape(m, x, |ord|) && InOrder(m, ord) && Joined(m, front, m', x, y, |ord|) && 0 <= m[x].at < |ord|
    requires Shape(front, y, m[x].at) && InOrder(front, ord[..m[x].at]) && (y != null ==> front[y].r == null)
    requires front.Keys == Front(m, m[x].at).Keys
    ensures Shape(m', if y != null then y else m[x].r, |ord| - 1) && InOrder(m', ord[..m[x].at] + ord[m[x].at + 1..])
  {
    hide NodeOK;
    forall n | n in m'
      ensures NodeOK(m', n)
    {
      if n in front {
        JoinedFront(m, front, m', ord, x, y, n);
      } else {
        JoinedBack(m, front, m', ord, x, y, n);
      }
    }
    JoinedRoot(m, front, m', ord, x, y);
    forall n | n in m'
      ensures m'[n].at == if m[n].at < m[x].at then m[n].at else m[n].at - 1
    {
      if n in front {
        assert Listed(front, ord[..m[x].at], n) && Listed(m, ord, n);
        assert ord[..m[x].at][front[n].at] == ord[front[n].at];
      }
    }
    RemovedOrder(m, m', ord, x);
  }

  lemma JoinedRoot<K>(m: Store<K>, front: Store<K>, m': Store<K>, ord: seq<Node<K>>, x: Node<K>, y: Node?<K>)
    requires Shape(m, x, |ord|) && Joined(m, front, m', x, y, |ord|) && Shape(front, y, m[x].at)
    requires front.Keys == Front(m, m[x].at).Keys
    ensures var r := if y != null then y else m[x].r;
      if r == null then |ord| == 1 else r in m' && m'[r].lo == -1 && m'[r].hi == |ord| - 1
  {
    assert NodeOK(m, x);
    assert m[x].r != null ==> NodeOK(m, m[x].r);
  }
}
