/** The red-black tree of cstl/rbtree.h, seen from outside the heap: the links and colours of all
    nodes at one moment as two maps, what makes them a balanced search tree, and the lemmas
    saying which local changes keep it one. */
module RBModel {
  import opened Order
  import opened Powers

  datatype Color = Red | Black | Head
  datatype Side = L | R

  function Other(s: Side): Side { if s.L? then R else L }

  class Node<K> {
    var left: Node<K>
    var right: Node<K>
    var parent: Node<K>
    var color: Color
    const key: K

    constructor (k: K, c: Color, nil: Node<K>)
      ensures left == right == parent == nil && color == c && key == k
    {
      left, right, parent := nil, nil, nil;
      color, key := c, k;
    }

    /** The static sentinel: a black node that is its own neighbour. */
    constructor Sentinel(k: K)
      ensures left == right == parent == this && color == Black && key == k
    {
      left, right, parent := this, this, this;
      color, key := Black, k;
    }
  }

  /** The links of a node, and where it belongs: the node stands at position `at` of the in-order
      sequence, and its subtree fills the positions strictly between `lo` and `hi`. */
  datatype Cell<K> = Cell(l: Node<K>, r: Node<K>, p: Node<K>, lo: int, at: int, hi: int) {
    function Kid(s: Side): Node<K> { if s.L? then l else r }
    function Bound(s: Side): int { if s.L? then lo else hi }
  }

  /** A node's colour, and the number of black nodes on a way down from it, itself included. */
  datatype Paint = Paint(color: Color, bh: nat)
  type Store<K> = map<Node<K>, Cell<K>>
  type Paints<K> = map<Node<K>, Paint>

  /** The two nodes that never change: the header above the root, and the shared sentinel. */
  datatype View<K> = View(head: Node<K>, nil: Node<K>)

  // ----- Links -----

  ghost predicate Slot<K>(v: View<K>, m: Store<K>, c: Node<K>, p: Node<K>, lo: int, hi: int) {
    if hi == lo + 1 then c == v.nil
    else lo + 1 < hi && c in m && c != v.head && m[c].p == p && m[c].lo == lo && m[c].hi == hi
  }

  ghost predicate NodeOK<K>(v: View<K>, m: Store<K>, n: Node<K>) {
    && n in m && v.head in m
    && var c := m[n];
    && -1 <= c.lo < c.at < c.hi <= m[v.head].hi
    && Slot(v, m, c.l, n, c.lo, c.at)
    && Slot(v, m, c.r, n, c.at, c.hi)
    && c.p in m && (m[c.p].l == n || m[c.p].r == n)
  }

  ghost predicate Shape<K>(v: View<K>, m: Store<K>) {
    && v.head in m && v.nil !in m
    && m[v.head].l == m[v.head].p == v.nil && m[v.head].at == -1 < m[v.head].hi
    && Slot(v, m, m[v.head].r, v.head, -1, m[v.head].hi)
    && (forall n {:trigger NodeOK(v, m, n)} :: n in m && n != v.head ==> NodeOK(v, m, n))
  }

  ghost predicate Rotated<K>(v: View<K>, m: Store<K>, s: Side, x: Node<K>, n: Node<K>, p: Node<K>, sub: Node<K>, m': Store<K>) {
    var o := Other(s);
    && m'.Keys == m.Keys
    && x in m && n in m && p in m && x != n && p != x && p != n
    && sub != x && sub != n && sub != p && sub != v.head && x != v.head && n != v.head
    && m[x].Kid(s) == n && m[x].p == p && m[n].Kid(o) == sub
    && m'[x].Kid(s) == sub && m'[x].Kid(o) == m[x].Kid(o) && m'[x].p == n
    && m'[x].Bound(s) == m[n].at == m'[n].at && m'[x].Bound(o) == m'[n].Bound(o) == m[x].Bound(o) && m'[x].at == m[x].at
    && m'[n].Kid(o) == x && m'[n].Kid(s) == m[n].Kid(s) && m'[n].p == p && m'[n].Bound(s) == m[n].Bound(s)
    && (sub != v.nil ==> sub in m && m'[sub].p == x && m'[sub].l == m[sub].l && m'[sub].r == m[sub].r
                         && m'[sub].lo == m[sub].lo && m'[sub].at == m[sub].at && m'[sub].hi == m[sub].hi)
    && m'[p].l == (if m[p].l == x then n else m[p].l) && m'[p].r == (if m[p].l == x then m[p].r else n)
    && m'[p].p == m[p].p && m'[p].lo == m[p].lo && m'[p].at == m[p].at && m'[p].hi == m[p].hi
    && forall k {:trigger m'[k]} :: k in m && k != x && k != n && k != p && k != sub ==> m'[k] == m[k]
  }
  /** The same nodes in the same in-order sequence. */
  ghost predicate SameOrder<K>(v: View<K>, m: Store<K>, m': Store<K>) {
    && m'.Keys == m.Keys && v.head in m && m'[v.head].hi == m[v.head].hi
    && forall k {:trigger m'[k]} :: k in m ==> m'[k].at == m[k].at
  }

  lemma SameOrderTrans<K>(v: View<K>, a: Store<K>, b: Store<K>, c: Store<K>)
    requires SameOrder(v, a, b) && SameOrder(v, b, c)
    ensures SameOrder(v, a, c)
  {
    forall k | k in a
      ensures c[k].at == a[k].at
    {
      assert b[k].at == a[k].at;
    }
  }

  /** What a rotation relies on: the nodes it relinks are different nodes. */
  lemma RotateDistinct<K>(v: View<K>, m: Store<K>, s: Side, x: Node<K>)
    requires Shape(v, m) && x in m && x != v.head && m[x].Kid(s) != v.nil
    ensures m[x].Kid(s) in m && m[x].p in m
    ensures var n, p := m[x].Kid(s), m[x].p;
      var sub := m[n].Kid(Other(s));
      && x != n && p != x && p != n && n != v.head
      && sub != x && sub != n && sub != p && sub != v.head && (sub != v.nil ==> sub in m)
      && (m[p].r == x <==> m[p].l != x)
  {
    assert NodeOK(v, m, x) && NodeOK(v, m, m[x].Kid(s));
    assert m[x].p != v.head ==> NodeOK(v, m, m[x].p);
  }

  /** Every node with a child on side `s` can be turned below it. */
  lemma Rotation<K>(v: View<K>, m: Store<K>, s: Side, x: Node<K>) returns (m': Store<K>)
    requires Shape(v, m) && x in m && x != v.head && m[x].Kid(s) != v.nil
    ensures m[x].Kid(s) in m
    ensures var n := m[x].Kid(s); Rotated(v, m, s, x, n, m[x].p, m[n].Kid(Other(s)), m')
  {
    RotateDistinct(v, m, s, x);
    var n, p := m[x].Kid(s), m[x].p;
    var sub := m[n].Kid(Other(s));
    m' := map k | k in m ::
      if k == x then if s.L? then m[x].(l := sub, p := n, lo := m[n].at) else m[x].(r := sub, p := n, hi := m[n].at)
      else if k == n then if s.L? then m[n].(r := x, p := p, hi := m[x].hi) else m[n].(l := x, p := p, lo := m[x].lo)
      else if k == sub then m[k].(p := x)
      else if k == p then if m[p].l == x then m[p].(l := n) else m[p].(r := n)
      else m[k];
  }

  lemma RotatedThree<K>(v: View<K>, m: Store<K>, s: Side, x: Node<K>, n: Node<K>, p: Node<K>, sub: Node<K>, m': Store<K>)
    requires Shape(v, m) && Rotated(v, m, s, x, n, p, sub, m')
    ensures NodeOK(v, m', x) && NodeOK(v, m', n) && (p != v.head ==> NodeOK(v, m', p))
  {
    assert NodeOK(v, m, x) && NodeOK(v, m, n) && (p != v.head ==> NodeOK(v, m, p));
  }

  lemma RotatedRest<K>(v: View<K>, m: Store<K>, s: Side, x: Node<K>, n: Node<K>, p: Node<K>, sub: Node<K>, m': Store<K>, k: Node<K>)
    requires Shape(v, m) && Rotated(v, m, s, x, n, p, sub, m') && k in m && k != x && k != n && k != p && k != v.head
    ensures NodeOK(v, m', k)
  {
    assert NodeOK(v, m, x) && NodeOK(v, m, n) && NodeOK(v, m, k);
  }

  lemma RotatedShape<K>(v: View<K>, m: Store<K>, s: Side, x: Node<K>, n: Node<K>, p: Node<K>, sub: Node<K>, m': Store<K>)
    requires Shape(v, m) && Rotated(v, m, s, x, n, p, sub, m')
    ensures Shape(v, m')
  {
    RotatedThree(v, m, s, x, n, p, sub, m');
    forall k | k in m' && k != v.head && k != x && k != n && k != p
      ensures NodeOK(v, m', k)
    {
      RotatedRest(v, m, s, x, n, p, sub, m', k);
    }
    assert NodeOK(v, m, x) && NodeOK(v, m, n);
  }

  datatype Debt<K> = NoDebt | Debt(p: Node<K>, s: Side)

  ghost function Col<K>(w: Paints<K>, c: Node<K>): Color { if c in w then w[c].color else Black }
  ghost function Bh<K>(w: Paints<K>, c: Node<K>): nat { if c in w then w[c].bh else 0 }
  ghost function Due<K>(d: Debt<K>, n: Node<K>, s: Side): nat { if d == Debt(n, s) then 1 else 0 }
  ghost function One(c: Color): nat { if c.Black? then 1 else 0 }

  ghost predicate RedOK<K>(m: Store<K>, w: Paints<K>, n: Node<K>) {
    n in m && n in w && (w[n].color == Red ==> m[n].p in w && w[m[n].p].color == Black)
  }

  ghost predicate BlackOn<K>(m: Store<K>, w: Paints<K>, n: Node<K>, s: Side, d: Debt<K>)
    requires n in m && n in w
  {
    w[n].bh == Bh(w, m[n].Kid(s)) + Due(d, n, s) + One(w[n].color)
  }

  ghost predicate BlackOK<K>(m: Store<K>, w: Paints<K>, n: Node<K>, d: Debt<K>) {
    && n in m && n in w && w[n].color != Head
    && BlackOn(m, w, n, L, d) && BlackOn(m, w, n, R, d)
  }

  ghost predicate Balanced<K>(v: View<K>, m: Store<K>, w: Paints<K>, red: Node<K>, d: Debt<K>) {
    && w.Keys == m.Keys && v.head in w && w[v.head].color == Head
    && (forall n {:trigger RedOK(m, w, n)} :: n in m && n != v.head && n != red ==> RedOK(m, w, n))
    && (forall n {:trigger BlackOK(m, w, n, d)} :: n in m && n != v.head ==> BlackOK(m, w, n, d))
  }

  /** No node but `a`, `b` and `c` looks different. */
  ghost predicate SameBut<K>(w: Paints<K>, w': Paints<K>, a: Node<K>, b: Node<K>, c: Node<K>) {
    && w'.Keys == w.Keys && a in w && b in w && c in w
    && forall k {:trigger w'[k]} :: k in w && k != a && k != b && k != c ==> w'[k] == w[k]
  }

  /** The parent, grandparent and uncle of a red node that may have a red parent. */
  lemma RedKin<K>(v: View<K>, m: Store<K>, w: Paints<K>, n: Node<K>)
    requires Shape(v, m) && Balanced(v, m, w, n, NoDebt) && n in m && n != v.head && w[n].color == Red
    ensures m[n].p in m && (m[m[n].p].l == n || m[m[n].p].r == n)
    ensures w[m[n].p].color == Head <==> m[n].p == v.head
    ensures w[m[n].p].color == Red ==>
      var p := m[n].p; var g := m[p].p;
      && p != n && g in m && g != v.head && w[g].color == Black
      && (m[g].l == p || m[g].r == p)
      && -1 <= m[g].lo <= m[p].lo && m[p].hi <= m[g].hi <= m[v.head].hi && m[n].hi - m[n].lo < m[g].hi - m[g].lo
      && NilOrPainted(v, w, m[g].l) && NilOrPainted(v, w, m[g].r)
  {
    assert NodeOK(v, m, n);
    var p := m[n].p;
    if p != v.head {
      assert NodeOK(v, m, p) && BlackOK(m, w, p, NoDebt);
      if w[p].color == Red {
        assert RedOK(m, w, p);
        var g := m[p].p;
        assert NodeOK(v, m, g);
        assert m[g].l != v.nil ==> BlackOK(m, w, m[g].l, NoDebt);
        assert m[g].r != v.nil ==> BlackOK(m, w, m[g].r, NoDebt);
      }
    }
  }

  /** Insertion, red uncle: the grandparent's blackness moves down to parent and uncle. */
  lemma InsertUncleBlack<K>(v: View<K>, m: Store<K>, w: Paints<K>, s: Side, n: Node<K>, p: Node<K>, g: Node<K>, u: Node<K>, w': Paints<K>, k: Node<K>)
    requires Shape(v, m) && Balanced(v, m, w, n, NoDebt)
    requires n in m && n != v.head && m[n].p == p && p in m && w[p].color == Red && p != v.head
    requires m[p].p == g && g in m && g != v.head
    requires m[g].Kid(s) == p && m[g].Kid(Other(s)) == u && u in m && w[u].color == Red
    requires SameBut(w, w', g, p, u) && w'[g] == Paint(Red, w[g].bh)
    requires w'[p] == Paint(Black, w[p].bh + 1) && w'[u] == Paint(Black, w[u].bh + 1)
    requires k in m && k != v.head
    ensures BlackOK(m, w', k, NoDebt)
  {
    assert NodeOK(v, m, g) && NodeOK(v, m, p) && NodeOK(v, m, u) && NodeOK(v, m, k);
    assert RedOK(m, w, u) && p != n && RedOK(m, w, p);
    assert BlackOK(m, w, k, NoDebt);
  }

  lemma InsertUncleRed<K>(v: View<K>, m: Store<K>, w: Paints<K>, s: Side, n: Node<K>, p: Node<K>, g: Node<K>, u: Node<K>, w': Paints<K>, k: Node<K>)
    requires Shape(v, m) && Balanced(v, m, w, n, NoDebt)
    requires n in m && n != v.head && m[n].p == p && p in m && w[p].color == Red && p != v.head
    requires m[p].p == g && g in m && g != v.head
    requires m[g].Kid(s) == p && m[g].Kid(Other(s)) == u && u in m && w[u].color == Red
    requires SameBut(w, w', g, p, u) && w'[g] == Paint(Red, w[g].bh)
    requires w'[p] == Paint(Black, w[p].bh + 1) && w'[u] == Paint(Black, w[u].bh + 1)
    requires k in m && k != v.head && k != g
    ensures RedOK(m, w', k)
  {
    assert NodeOK(v, m, g) && NodeOK(v, m, n) && NodeOK(v, m, k);
    assert k != n ==> RedOK(m, w, k);
  }

  lemma InsertUncle<K>(v: View<K>, m: Store<K>, w: Paints<K>, s: Side, n: Node<K>, p: Node<K>, g: Node<K>, u: Node<K>, w': Paints<K>)
    requires Shape(v, m) && Balanced(v, m, w, n, NoDebt)
    requires n in m && n != v.head && m[n].p == p && p in m && w[p].color == Red && p != v.head
    requires m[p].p == g && g in m && g != v.head
    requires m[g].Kid(s) == p && m[g].Kid(Other(s)) == u && u in m && w[u].color == Red
    requires SameBut(w, w', g, p, u) && w'[g] == Paint(Red, w[g].bh)
    requires w'[p] == Paint(Black, w[p].bh + 1) && w'[u] == Paint(Black, w[u].bh + 1)
    ensures Balanced(v, m, w', g, NoDebt)
  {
    forall k | k in m && k != v.head
      ensures BlackOK(m, w', k, NoDebt) && (k != g ==> RedOK(m, w', k))
    {
      InsertUncleBlack(v, m, w, s, n, p, g, u, w', k);
      if k != g {
        InsertUncleRed(v, m, w, s, n, p, g, u, w', k);
      }
    }
  }

  /** Insertion, the two red nodes lie on different sides: a rotation puts them on one. */
  lemma InsertBend<K>(v: View<K>, m: Store<K>, w: Paints<K>, s: Side, n: Node<K>, p: Node<K>, g: Node<K>, sub: Node<K>, m': Store<K>)
    requires Shape(v, m) && Balanced(v, m, w, n, NoDebt)
    requires Rotated(v, m, s, p, n, g, sub, m')
    requires w[n].color == Red && w[p].color == Red && g != v.head
    ensures Balanced(v, m', w, p, NoDebt)
  {
    forall k | k in m' && k != v.head
      ensures BlackOK(m', w, k, NoDebt) && (k != p ==> RedOK(m', w, k))
    {
      BendBlack(v, m, w, s, n, p, g, sub, m', k);
      if k != p {
        BendRed(v, m, w, s, n, p, g, sub, m', k);
      }
    }
  }

  lemma BendBlack<K>(v: View<K>, m: Store<K>, w: Paints<K>, s: Side, n: Node<K>, p: Node<K>, g: Node<K>, sub: Node<K>, m': Store<K>, k: Node<K>)
    requires Shape(v, m) && Balanced(v, m, w, n, NoDebt)
    requires Rotated(v, m, s, p, n, g, sub, m')
    requires w[n].color == Red && w[p].color == Red && g != v.head && k in m && k != v.head
    ensures BlackOK(m', w, k, NoDebt)
  {
    assert BlackOK(m, w, n, NoDebt) && BlackOK(m, w, p, NoDebt) && BlackOK(m, w, k, NoDebt);
    assert NodeOK(v, m, n) && NodeOK(v, m, p);
  }

  lemma BendRed<K>(v: View<K>, m: Store<K>, w: Paints<K>, s: Side, n: Node<K>, p: Node<K>, g: Node<K>, sub: Node<K>, m': Store<K>, k: Node<K>)
    requires Shape(v, m) && Balanced(v, m, w, n, NoDebt)
    requires Rotated(v, m, s, p, n, g, sub, m')
    requires w[n].color == Red && w[p].color == Red && g != v.head && k in m && k != v.head && k != p
    ensures RedOK(m', w, k)
  {
    assert RedOK(m, w, p) && (k != n ==> RedOK(m, w, k));
    assert NodeOK(v, m, n) && NodeOK(v, m, p) && NodeOK(v, m, g) && NodeOK(v, m, k);
  }

  lemma Bend<K>(v: View<K>, m: Store<K>, w: Paints<K>, s: Side, n: Node<K>, p: Node<K>, g: Node<K>, sub: Node<K>, m': Store<K>)
    requires Shape(v, m) && Balanced(v, m, w, n, NoDebt)
    requires Rotated(v, m, s, p, n, g, sub, m')
    requires w[n].color == Red && w[p].color == Red && g != v.head
    ensures Shape(v, m') && Balanced(v, m', w, p, NoDebt) && SameOrder(v, m, m')
  {
    InsertBend(v, m, w, s, n, p, g, sub, m');
    RotatedShape(v, m, s, p, n, g, sub, m');
  }

  /** Turning a red node `n` above its black parent `x`, with their colours exchanged, moves no
      black height, wherever else in the tree one is owed: at the two nodes, and at any other. */
  lemma TurnRedNear<K>(v: View<K>, m: Store<K>, w: Paints<K>, s: Side, x: Node<K>, n: Node<K>, p: Node<K>, sub: Node<K>,
                        m': Store<K>, w': Paints<K>, red: Node<K>, d: Debt<K>)
    requires Shape(v, m) && Balanced(v, m, w, red, d) && Rotated(v, m, s, x, n, p, sub, m')
    requires w[x].color == Black && w[n].color == Red && SameBut(w, w', x, n, n) && w'[x] == w[n] && w'[n] == w[x]
    requires d.Debt? ==> d.p != n && d != Debt(x, s)
    ensures BlackOK(m', w', x, d) && BlackOK(m', w', n, d)
  {
    assert NodeOK(v, m, x) && NodeOK(v, m, n);
    assert BlackOK(m, w, x, d) && BlackOK(m, w, n, d);
  }

  lemma TurnRedFar<K>(v: View<K>, m: Store<K>, w: Paints<K>, s: Side, x: Node<K>, n: Node<K>, p: Node<K>, sub: Node<K>,
                        m': Store<K>, w': Paints<K>, red: Node<K>, d: Debt<K>, k: Node<K>)
    requires Shape(v, m) && Balanced(v, m, w, red, d) && Rotated(v, m, s, x, n, p, sub, m')
    requires w[x].color == Black && w[n].color == Red && SameBut(w, w', x, n, n) && w'[x] == w[n] && w'[n] == w[x]
    requires d.Debt? ==> d.p != n && d != Debt(x, s)
    requires k in m && k != v.head && k != x && k != n
    ensures BlackOK(m', w', k, d)
  {
    assert NodeOK(v, m, x) && NodeOK(v, m, n) && NodeOK(v, m, k);
    assert BlackOK(m, w, k, d);
  }

  /** The same turn leaves no new red node under a red one if the other child of `x` is black;
      a red child of `n` on the outer side, if there was one, is resolved. */
  lemma TurnRedRed<K>(v: View<K>, m: Store<K>, w: Paints<K>, s: Side, x: Node<K>, n: Node<K>, p: Node<K>, sub: Node<K>,
                      m': Store<K>, w': Paints<K>, red: Node<K>, d: Debt<K>, k: Node<K>)
    requires Shape(v, m) && Balanced(v, m, w, red, d) && Rotated(v, m, s, x, n, p, sub, m')
    requires w[x].color == Black && w[n].color == Red && SameBut(w, w', x, n, n) && w'[x] == w[n] && w'[n] == w[x]
    requires Col(w, m[x].Kid(Other(s))) == Black
    requires red == v.nil || red == m[n].Kid(s)
    requires k in m && k != v.head
    ensures RedOK(m', w', k)
  {
    assert NodeOK(v, m, x) && NodeOK(v, m, n) && NodeOK(v, m, k);
    assert k != red ==> RedOK(m, w, k);
  }

  lemma TurnRed<K>(v: View<K>, m: Store<K>, w: Paints<K>, s: Side, x: Node<K>, n: Node<K>, p: Node<K>, sub: Node<K>,
                   m': Store<K>, w': Paints<K>, red: Node<K>, d: Debt<K>)
    requires Shape(v, m) && Balanced(v, m, w, red, d) && Rotated(v, m, s, x, n, p, sub, m')
    requires w[x].color == Black && w[n].color == Red && SameBut(w, w', x, n, n) && w'[x] == w[n] && w'[n] == w[x]
    requires Col(w, m[x].Kid(Other(s))) == Black
    requires red == v.nil || red == m[n].Kid(s)
    requires d.Debt? ==> d.p != n && d != Debt(x, s)
    ensures Balanced(v, m', w', v.nil, d)
  {
    TurnRedNear(v, m, w, s, x, n, p, sub, m', w', red, d);
    forall k | k in m' && k != v.head
      ensures BlackOK(m', w', k, d) && RedOK(m', w', k)
    {
      if k != x && k != n {
        TurnRedFar(v, m, w, s, x, n, p, sub, m', w', red, d, k);
      }
      TurnRedRed(v, m, w, s, x, n, p, sub, m', w', red, d, k);
    }
  }

  lemma Turn<K>(v: View<K>, m: Store<K>, w: Paints<K>, s: Side, x: Node<K>, n: Node<K>, p: Node<K>, sub: Node<K>,
                m': Store<K>, w': Paints<K>, red: Node<K>, d: Debt<K>)
    requires Shape(v, m) && Balanced(v, m, w, red, d) && Rotated(v, m, s, x, n, p, sub, m')
    requires w[x].color == Black && w[n].color == Red && SameBut(w, w', x, n, n) && w'[x] == w[n] && w'[n] == w[x]
    requires Col(w, m[x].Kid(Other(s))) == Black
    requires red == v.nil || red == m[n].Kid(s)
    requires d.Debt? ==> d.p != n && d != Debt(x, s)
    ensures Shape(v, m') && Balanced(v, m', w', v.nil, d) && SameOrder(v, m, m')
  {
    TurnRed(v, m, w, s, x, n, p, sub, m', w', red, d);
    RotatedShape(v, m, s, x, n, p, sub, m');
  }

  /** The side of its parent on which a node hangs. */
  ghost function SideOf<K>(m: Store<K>, n: Node<K>): Side
    requires n in m && m[n].p in m
  {
    if m[m[n].p].l == n then L else R
  }

  ghost predicate NilOrPainted<K>(v: View<K>, w: Paints<K>, c: Node<K>) {
    c == v.nil || (c in w && c != v.head && w[c].color != Head)
  }

  /** A node that owes a black node on one side has a sibling subtree on the other. */
  lemma EraseKin<K>(v: View<K>, m: Store<K>, w: Paints<K>, p: Node<K>, s: Side)
    requires Shape(v, m) && Balanced(v, m, w, v.nil, Debt(p, s)) && p in m && p != v.head
    ensures m[p].p in m && (m[m[p].p].l == p || m[m[p].p].r == p) && w[p].color != Head
    ensures var n, b := m[p].Kid(s), m[p].Kid(Other(s));
      && b in m && m[b].p == p && b != v.head && b != p && b != n && w[b].bh > 0 && w[b].color != Head
      && n != p && (m[p].l == n <==> s == L)
      && NilOrPainted(v, w, m[b].l) && NilOrPainted(v, w, m[b].r)
      && m[b].l != p && m[b].r != p && m[b].l != b && m[b].r != b
  {
    assert NodeOK(v, m, p) && BlackOK(m, w, p, Debt(p, s));
    var b := m[p].Kid(Other(s));
    assert NodeOK(v, m, b) && BlackOK(m, w, b, Debt(p, s));
    assert m[b].l != v.nil ==> NodeOK(v, m, m[b].l) && BlackOK(m, w, m[b].l, Debt(p, s));
    assert m[b].r != v.nil ==> NodeOK(v, m, m[b].r) && BlackOK(m, w, m[b].r, Debt(p, s));
  }

  /** A red sibling has two black children, and a black parent. */
  lemma RedSibling<K>(v: View<K>, m: Store<K>, w: Paints<K>, p: Node<K>, s: Side)
    requires Shape(v, m) && Balanced(v, m, w, v.nil, Debt(p, s)) && p in m && p != v.head
    requires Col(w, m[p].Kid(Other(s))) == Red
    ensures var b := m[p].Kid(Other(s));
      && b in m && b != p && w[p].color == Black && m[b].Kid(s) in m && w[m[b].Kid(s)].color == Black
      && m[p].Kid(s) != b && m[p].Kid(s) != p && m[b].Kid(s) != m[p].Kid(s)
  {
    assert NodeOK(v, m, p) && BlackOK(m, w, p, Debt(p, s));
    var b := m[p].Kid(Other(s));
    assert NodeOK(v, m, b) && RedOK(m, w, b) && BlackOK(m, w, b, Debt(p, s));
    var c := m[b].Kid(s);
    assert NodeOK(v, m, c) && RedOK(m, w, c) && BlackOK(m, w, c, Debt(p, s));
  }

  /** Erasure, black sibling with black children: the sibling turns red, and the missing black node
      is taken from the parent if that is red, else it is owed one level up. */
  lemma EraseSiblingNear<K>(m: Store<K>, w: Paints<K>, s: Side, p: Node<K>, b: Node<K>, w': Paints<K>, d: Debt<K>)
    requires BlackOK(m, w, p, Debt(p, s)) && BlackOK(m, w, b, Debt(p, s)) && m[p].Kid(Other(s)) == b
    requires b != p && m[b].l != p && m[b].r != p && m[b].l != b && m[b].r != b
    requires m[p].Kid(s) != p && m[p].Kid(s) != b && m[p].p != p && m[p].p != b && m[p].p in m
    requires w[b].color == Black && w[b].bh > 0 && SameBut(w, w', b, p, p)
    requires w'[b] == Paint(Red, w[b].bh - 1) && w'[p] == Paint(Black, w[b].bh)
    requires d == if w[p].color == Red then NoDebt else Debt(m[p].p, SideOf(m, p))
    ensures BlackOK(m, w', p, d) && BlackOK(m, w', b, d)
  {
  }

  lemma EraseSiblingFar<K>(m: Store<K>, w: Paints<K>, s: Side, p: Node<K>, b: Node<K>, w': Paints<K>, d: Debt<K>, k: Node<K>)
    requires BlackOK(m, w, p, Debt(p, s)) && BlackOK(m, w, b, Debt(p, s)) && BlackOK(m, w, k, Debt(p, s))
    requires m[p].Kid(Other(s)) == b && w[b].color == Black && k != p && k != b && m[k].l != b && m[k].r != b
    requires m[k].l == p || m[k].r == p ==> k == m[p].p && SideOf(m, p) == if m[k].l == p then L else R
    requires m[p].p in m && (m[m[p].p].l == p || m[m[p].p].r == p) && !(m[k].l == p && m[k].r == p)
    requires w[b].bh > 0 && SameBut(w, w', b, p, p) && w'[p] == Paint(Black, w[b].bh)
    requires d == if w[p].color == Red then NoDebt else Debt(m[p].p, SideOf(m, p))
    ensures BlackOK(m, w', k, d)
  {
  }

  lemma EraseSiblingBlack<K>(v: View<K>, m: Store<K>, w: Paints<K>, s: Side, p: Node<K>, b: Node<K>, w': Paints<K>, d: Debt<K>, k: Node<K>)
    requires Shape(v, m) && Balanced(v, m, w, v.nil, Debt(p, s)) && p in m && p != v.head
    requires m[p].Kid(Other(s)) == b && b in m && w[b].color == Black && m[p].p in m
    requires Col(w, m[b].l) == Col(w, m[b].r) == Black && Col(w, m[p].Kid(s)) == Black
    requires w[b].bh > 0 && SameBut(w, w', b, p, p) && w'[b] == Paint(Red, w[b].bh - 1) && w'[p] == Paint(Black, w[b].bh)
    requires d == if w[p].color == Red then NoDebt else Debt(m[p].p, SideOf(m, p))
    requires k in m && k != v.head
    ensures BlackOK(m, w', k, d)
  {
    assert BlackOK(m, w, p, Debt(p, s)) && BlackOK(m, w, b, Debt(p, s)) && BlackOK(m, w, k, Debt(p, s));
    hide BlackOK;
    assert NodeOK(v, m, p) && NodeOK(v, m, b) && NodeOK(v, m, k);
    if k == p || k == b {
      EraseSiblingNear(m, w, s, p, b, w', d);
    } else {
      EraseSiblingFar(m, w, s, p, b, w', d, k);
    }
  }

  lemma EraseSibling<K>(v: View<K>, m: Store<K>, w: Paints<K>, s: Side, p: Node<K>, b: Node<K>, w': Paints<K>, d: Debt<K>)
    requires Shape(v, m) && Balanced(v, m, w, v.nil, Debt(p, s)) && p in m && p != v.head
    requires m[p].Kid(Other(s)) == b && b in m && w[b].color == Black && m[p].p in m
    requires Col(w, m[b].l) == Col(w, m[b].r) == Black && Col(w, m[p].Kid(s)) == Black
    requires w[b].bh > 0 && SameBut(w, w', b, p, p) && w'[b] == Paint(Red, w[b].bh - 1) && w'[p] == Paint(Black, w[b].bh)
    requires d == if w[p].color == Red then NoDebt else Debt(m[p].p, SideOf(m, p))
    ensures Balanced(v, m, w', v.nil, d)
  {
    assert NodeOK(v, m, p);
    forall k | k in m && k != v.head
      ensures BlackOK(m, w', k, d) && RedOK(m, w', k)
    {
      EraseSiblingBlack(v, m, w, s, p, b, w', d, k);
      assert NodeOK(v, m, k) && RedOK(m, w, k);
    }
  }

  /** Erasure, black sibling `b` whose outer child is red: one rotation pays the debt. */
  lemma EraseOuterNear<K>(v: View<K>, m: Store<K>, w: Paints<K>, s: Side, p: Node<K>, b: Node<K>, gp: Node<K>, sub: Node<K>, f: Node<K>,
                          m': Store<K>, w': Paints<K>)
    requires Shape(v, m) && Balanced(v, m, w, v.nil, Debt(p, s)) && Rotated(v, m, Other(s), p, b, gp, sub, m')
    requires w[b].color == Black && f == m[b].Kid(Other(s)) && f in m && w[f].color == Red
    requires SameBut(w, w', p, b, f) && w'[f] == Paint(Black, w[f].bh + 1) && w'[p] == w[b] && w'[b] == w[p]
    ensures BlackOK(m', w', p, NoDebt) && BlackOK(m', w', b, NoDebt) && BlackOK(m', w', f, NoDebt)
  {
    hide Shape, Balanced, BlackOK, Rotated;
    OuterKin(v, m, w, s, p, b, gp, sub, f, m');
    OuterPaints(m, w, s, p, b, sub, f, m', w');
  }

  /** The nodes near to the rotation: which children they have before and afterwards. */
  ghost predicate OuterLinks<K>(m: Store<K>, s: Side, p: Node<K>, b: Node<K>, sub: Node<K>, f: Node<K>, m': Store<K>) {
    && p in m && b in m && f in m && p in m' && b in m' && f in m' && p != b && p != f && b != f
    && m[p].Kid(Other(s)) == b && m[b].Kid(s) == sub && m[b].Kid(Other(s)) == f
    && m'[p].Kid(s) == m[p].Kid(s) && m'[p].Kid(Other(s)) == sub && m'[b].Kid(s) == p && m'[b].Kid(Other(s)) == f
    && m'[f].l == m[f].l && m'[f].r == m[f].r && sub != p && sub != b && sub != f
    && m[p].Kid(s) != p && m[p].Kid(s) != b && m[p].Kid(s) != f
    && m[f].l != p && m[f].l != b && m[f].l != f && m[f].r != p && m[f].r != b && m[f].r != f
  }

  lemma OuterKin<K>(v: View<K>, m: Store<K>, w: Paints<K>, s: Side, p: Node<K>, b: Node<K>, gp: Node<K>, sub: Node<K>, f: Node<K>,
                    m': Store<K>)
    requires Shape(v, m) && Balanced(v, m, w, v.nil, Debt(p, s)) && Rotated(v, m, Other(s), p, b, gp, sub, m')
    requires f == m[b].Kid(Other(s)) && f in m
    ensures OuterLinks(m, s, p, b, sub, f, m')
    ensures BlackOK(m, w, p, Debt(p, s)) && BlackOK(m, w, b, Debt(p, s)) && BlackOK(m, w, f, Debt(p, s))
  {
    assert NodeOK(v, m, p) && NodeOK(v, m, b) && NodeOK(v, m, f);
    assert BlackOK(m, w, p, Debt(p, s)) && BlackOK(m, w, b, Debt(p, s)) && BlackOK(m, w, f, Debt(p, s));
  }

  lemma OuterPaints<K>(m: Store<K>, w: Paints<K>, s: Side, p: Node<K>, b: Node<K>, sub: Node<K>, f: Node<K>, m': Store<K>, w': Paints<K>)
    requires OuterLinks(m, s, p, b, sub, f, m')
    requires BlackOK(m, w, p, Debt(p, s)) && BlackOK(m, w, b, Debt(p, s)) && BlackOK(m, w, f, Debt(p, s))
    requires w[b].color == Black && w[f].color == Red
    requires SameBut(w, w', p, b, f) && w'[f] == Paint(Black, w[f].bh + 1) && w'[p] == w[b] && w'[b] == w[p]
    ensures BlackOK(m', w', p, NoDebt) && BlackOK(m', w', b, NoDebt) && BlackOK(m', w', f, NoDebt)
  {
  }

  lemma EraseOuterFar<K>(v: View<K>, m: Store<K>, w: Paints<K>, s: Side, p: Node<K>, b: Node<K>, gp: Node<K>, sub: Node<K>, f: Node<K>,
                          m': Store<K>, w': Paints<K>, k: Node<K>)
    requires Shape(v, m) && Balanced(v, m, w, v.nil, Debt(p, s)) && Rotated(v, m, Other(s), p, b, gp, sub, m')
    requires w[b].color == Black && f == m[b].Kid(Other(s)) && f in m && w[f].color == Red
    requires SameBut(w, w', p, b, f) && w'[f] == Paint(Black, w[f].bh + 1) && w'[p] == w[b] && w'[b] == w[p]
    requires k in m && k != v.head && k != p && k != b && k != f
    ensures BlackOK(m', w', k, NoDebt)
  {
    hide BlackOK;
    assert BlackOK(m, w, k, Debt(p, s)) && BlackOK(m, w, p, Debt(p, s)) && BlackOK(m, w, b, Debt(p, s));
    assert NodeOK(v, m, p) && NodeOK(v, m, b) && NodeOK(v, m, f) && NodeOK(v, m, k);
    TurnedFar(m, w, s, p, b, f, m', w', k);
  }

  /** A node elsewhere has the same children as before, or the upper node of the rotation for the lower one, in its colour
      and of its height. */
  lemma TurnedFar<K>(m: Store<K>, w: Paints<K>, s: Side, p: Node<K>, b: Node<K>, f: Node<K>, m': Store<K>, w': Paints<K>, k: Node<K>)
    requires BlackOK(m, w, k, Debt(p, s)) && k in m' && k != p && k != b && k != f
    requires m[k].l != b && m[k].r != b && m[k].l != f && m[k].r != f
    requires (m'[k].l == m[k].l && m[k].l != p) || (m[k].l == p && m'[k].l == b)
    requires (m'[k].r == m[k].r && m[k].r != p) || (m[k].r == p && m'[k].r == b)
    requires SameBut(w, w', p, b, f) && w'[b] == w[p]
    ensures BlackOK(m', w', k, NoDebt)
  {
  }

  lemma EraseOuterRed<K>(v: View<K>, m: Store<K>, w: Paints<K>, s: Side, p: Node<K>, b: Node<K>, gp: Node<K>, sub: Node<K>, f: Node<K>,
                         m': Store<K>, w': Paints<K>, k: Node<K>)
    requires Shape(v, m) && Balanced(v, m, w, v.nil, Debt(p, s)) && Rotated(v, m, Other(s), p, b, gp, sub, m')
    requires w[b].color == Black && f == m[b].Kid(Other(s)) && f in m && w[f].color == Red
    requires SameBut(w, w', p, b, f) && w'[f] == Paint(Black, w[f].bh + 1) && w'[p] == w[b] && w'[b] == w[p]
    requires k in m && k != v.head
    ensures RedOK(m', w', k)
  {
    assert NodeOK(v, m, p) && NodeOK(v, m, b) && NodeOK(v, m, f) && NodeOK(v, m, k);
    assert RedOK(m, w, p) && RedOK(m, w, k);
  }

  lemma EraseOuter<K>(v: View<K>, m: Store<K>, w: Paints<K>, s: Side, p: Node<K>, b: Node<K>, gp: Node<K>, sub: Node<K>, f: Node<K>,
                      m': Store<K>, w': Paints<K>)
    requires Shape(v, m) && Balanced(v, m, w, v.nil, Debt(p, s)) && Rotated(v, m, Other(s), p, b, gp, sub, m')
    requires w[b].color == Black && f == m[b].Kid(Other(s)) && f in m && w[f].color == Red
    requires SameBut(w, w', p, b, f) && w'[f] == Paint(Black, w[f].bh + 1) && w'[p] == w[b] && w'[b] == w[p]
    ensures Balanced(v, m', w', v.nil, NoDebt)
  {
    EraseOuterNear(v, m, w, s, p, b, gp, sub, f, m', w');
    forall k | k in m' && k != v.head
      ensures BlackOK(m', w', k, NoDebt) && RedOK(m', w', k)
    {
      if k != p && k != b && k != f {
        EraseOuterFar(v, m, w, s, p, b, gp, sub, f, m', w', k);
      }
      EraseOuterRed(v, m, w, s, p, b, gp, sub, f, m', w', k);
    }
  }

  lemma Outer<K>(v: View<K>, m: Store<K>, w: Paints<K>, s: Side, p: Node<K>, b: Node<K>, gp: Node<K>, sub: Node<K>, f: Node<K>,
                 m': Store<K>, w': Paints<K>)
    requires Shape(v, m) && Balanced(v, m, w, v.nil, Debt(p, s)) && Rotated(v, m, Other(s), p, b, gp, sub, m')
    requires w[b].color == Black && f == m[b].Kid(Other(s)) && f in m && w[f].color == Red
    requires SameBut(w, w', p, b, f) && w'[f] == Paint(Black, w[f].bh + 1) && w'[p] == w[b] && w'[b] == w[p]
    ensures Shape(v, m') && Balanced(v, m', w', v.nil, NoDebt) && SameOrder(v, m, m')
  {
    EraseOuter(v, m, w, s, p, b, gp, sub, f, m', w');
    RotatedShape(v, m, Other(s), p, b, gp, sub, m');
  }

  /** Blackening a red node pays a debt on its slot, and is free at the root. */
  lemma Blacken<K>(v: View<K>, m: Store<K>, w: Paints<K>, n: Node<K>, red: Node<K>, d: Debt<K>, w': Paints<K>)
    requires Shape(v, m) && Balanced(v, m, w, red, d) && n in m && n != v.head && m[n].p in m
    requires w[n].color == Red && (red == v.nil || red == n)
    requires d == (if m[n].p == v.head then NoDebt else Debt(m[n].p, SideOf(m, n)))
    requires SameBut(w, w', n, n, n) && w'[n] == Paint(Black, w[n].bh + 1)
    ensures Balanced(v, m, w', v.nil, NoDebt)
  {
    assert NodeOK(v, m, n);
    forall k | k in m && k != v.head
      ensures BlackOK(m, w', k, NoDebt)
    {
      assert NodeOK(v, m, k) && BlackOK(m, w, k, d);
    }
    forall k | k in m && k != v.head
      ensures RedOK(m, w', k)
    {
      assert NodeOK(v, m, k);
      assert k != n ==> RedOK(m, w, k);
    }
  }

  lemma PayRed<K>(v: View<K>, m: Store<K>, w: Paints<K>, n: Node<K>, q: Node<K>, s: Side, w': Paints<K>)
    requires Shape(v, m) && Balanced(v, m, w, n, Debt(q, s)) && q in m && m[q].Kid(s) == n && n in m && w[n].color == Red
    requires SameBut(w, w', n, n, n) && w'[n] == Paint(Black, w[n].bh + 1)
    ensures Balanced(v, m, w', v.nil, NoDebt)
  {
    assert q != v.head ==> NodeOK(v, m, q);
    if q == v.head {
      DebtAtRoot(v, m, w, n, s);
    }
    Blacken(v, m, w, n, n, if q == v.head then NoDebt else Debt(q, s), w');
  }

  /** Where a black node is owed: above the root, or under a parent with a wider subtree. */
  lemma OwingKin<K>(v: View<K>, m: Store<K>, w: Paints<K>, red: Node<K>, q: Node<K>, s: Side)
    requires Shape(v, m) && Balanced(v, m, w, red, Debt(q, s)) && q in m
    ensures var n := m[q].Kid(s);
      && NilOrPainted(v, w, n)
      && (n == v.nil || (n in m && n != v.head && m[n].p == q && -1 <= m[n].lo < m[n].hi <= m[v.head].hi))
      && (w[q].color == Head <==> q == v.head)
      && (q != v.head ==> -1 <= m[q].lo && m[q].hi <= m[v.head].hi && m[q].hi > m[q].lo + 1)
      && (q != v.head && n != v.nil ==> m[q].hi - m[q].lo > m[n].hi - m[n].lo)
  {
    assert q != v.head ==> NodeOK(v, m, q) && BlackOK(m, w, q, Debt(q, s));
    var n := m[q].Kid(s);
    assert n != v.nil ==> NodeOK(v, m, n) && BlackOK(m, w, n, Debt(q, s));
  }

  /** Above the root nobody counts black nodes. */
  lemma DebtAtRoot<K>(v: View<K>, m: Store<K>, w: Paints<K>, red: Node<K>, s: Side)
    requires Balanced(v, m, w, red, Debt(v.head, s))
    ensures Balanced(v, m, w, red, NoDebt)
  {
    forall k | k in m && k != v.head
      ensures BlackOK(m, w, k, NoDebt)
    {
      assert BlackOK(m, w, k, Debt(v.head, s));
    }
    forall k | k in m && k != v.head && k != red
      ensures RedOK(m, w, k)
    {
    }
  }

  lemma Resolved<K>(v: View<K>, m: Store<K>, w: Paints<K>, n: Node<K>)
    requires Balanced(v, m, w, n, NoDebt) && RedOK(m, w, n)
    ensures Balanced(v, m, w, v.nil, NoDebt)
  {
  }

  // ----- Exchanging two nodes -----

  function Swap<T(==)>(s: T, t: T, y: T): T { if y == s then t else if y == t then s else y }

  /** `y` takes the place of `o` under `p`, with the children `l` and `r`. */
  ghost predicate Placed<K>(v: View<K>, m: Store<K>, y: Node<K>, o: Node<K>, p: Node<K>, l: Node<K>, r: Node<K>, m': Store<K>) {
    && m'.Keys == m.Keys && y in m && p in m && (l == v.nil || l in m) && (r == v.nil || r in m)
    && y != p && y != l && y != r && p != l && p != r
    && m'[y].l == l && m'[y].r == r && m'[y].p == p
    && m'[p].l == (if m[p].l == o then y else m[p].l)
    && m'[p].r == (if m[p].l == o then m[p].r else y)
    && m'[p].p == m[p].p
    && forall k {:trigger m'[k]} :: k in m && k != y && k != p ==>
      m'[k].l == m[k].l && m'[k].r == m[k].r && m'[k].p == if k == l || k == r then y else m[k].p
  }

  lemma Placing<K>(v: View<K>, m: Store<K>, y: Node<K>, o: Node<K>, p: Node<K>, l: Node<K>, r: Node<K>) returns (m': Store<K>)
    requires y in m && p in m && (l == v.nil || l in m) && (r == v.nil || r in m)
    requires y != p && y != l && y != r && p != l && p != r
    ensures Placed(v, m, y, o, p, l, r, m')
  {
    m' := map k | k in m ::
      if k == y then m[k].(l := l, r := r, p := p)
      else if k == p then if m[p].l == o then m[p].(l := y) else m[p].(r := y)
      else if k == l || k == r then m[k].(p := y)
      else m[k];
  }

  /** A node, its parent and its children are different nodes. */
  lemma Apart<K>(v: View<K>, m: Store<K>, n: Node<K>)
    requires Shape(v, m) && n in m && n != v.head
    ensures m[n].p in m && m[n].p != n && m[n].l != n && m[n].r != n && m[n].p != m[n].l && m[n].p != m[n].r
    ensures (m[n].l == v.nil || (m[n].l in m && m[m[n].l].p == n)) && (m[n].r == v.nil || (m[n].r in m && m[m[n].r].p == n))
    ensures m[n].l == m[n].r ==> m[n].l == v.nil
    ensures m[m[n].p].l == n || m[m[n].p].r == n
  {
    assert NodeOK(v, m, n);
    assert m[n].l != v.nil ==> NodeOK(v, m, m[n].l);
    assert m[n].r != v.nil ==> NodeOK(v, m, m[n].r);
  }

  /** The tree with the names of `s` and `t` exchanged. */
  ghost predicate RenamedAt<K>(m: Store<K>, s: Node<K>, t: Node<K>, m': Store<K>, k: Node<K>) {
    && k in m && Swap(s, t, k) in m && k in m'
    && var c := m[Swap(s, t, k)];
    m'[k].l == Swap(s, t, c.l) && m'[k].r == Swap(s, t, c.r) && m'[k].p == Swap(s, t, c.p)
  }

  ghost predicate Strangers<K>(m: Store<K>, s: Node<K>, t: Node<K>) {
    s in m && t in m && s != t && m[s].p != t && m[t].p != s && m[s].p != m[t].p
  }

  lemma PlacedEnds<K>(v: View<K>, m: Store<K>, s: Node<K>, t: Node<K>, m1: Store<K>, m2: Store<K>)
    requires Shape(v, m) && Strangers(m, s, t) && s != v.head && t != v.head
    requires Placed(v, m, t, s, m[s].p, m[s].l, m[s].r, m1)
    requires Placed(v, m1, s, t, m[t].p, m[t].l, m[t].r, m2)
    ensures RenamedAt(m, s, t, m2, s) && RenamedAt(m, s, t, m2, t)
  {
    assert NodeOK(v, m, s) && NodeOK(v, m, t);
  }

  lemma PlacedKids<K>(v: View<K>, m: Store<K>, s: Node<K>, t: Node<K>, m1: Store<K>, m2: Store<K>, k: Node<K>)
    requires Shape(v, m) && Strangers(m, s, t) && s != v.head && t != v.head
    requires Placed(v, m, t, s, m[s].p, m[s].l, m[s].r, m1)
    requires Placed(v, m1, s, t, m[t].p, m[t].l, m[t].r, m2)
    requires k in m && k != s && k != t
    ensures m2[k].l == Swap(s, t, m[k].l) && m2[k].r == Swap(s, t, m[k].r)
  {
    assert NodeOK(v, m, s) && NodeOK(v, m, t) && (k != v.head ==> NodeOK(v, m, k));
  }

  lemma KidsOf<K>(v: View<K>, m: Store<K>, s: Node<K>, k: Node<K>)
    requires Shape(v, m) && s in m && s != v.head && k in m
    ensures m[k].p == s <==> k == m[s].l || k == m[s].r
  {
    assert NodeOK(v, m, s) && (k != v.head ==> NodeOK(v, m, k));
  }

  lemma PlacedParents<K>(v: View<K>, m: Store<K>, s: Node<K>, t: Node<K>, m1: Store<K>, m2: Store<K>, k: Node<K>)
    requires Shape(v, m) && Strangers(m, s, t) && s != v.head && t != v.head
    requires Placed(v, m, t, s, m[s].p, m[s].l, m[s].r, m1)
    requires Placed(v, m1, s, t, m[t].p, m[t].l, m[t].r, m2)
    requires k in m && k != s && k != t
    ensures m2[k].p == Swap(s, t, m[k].p)
  {
    hide Shape, NodeOK;
    KidsOf(v, m, s, k);
    KidsOf(v, m, t, k);
  }

  lemma PlacedTwice<K>(v: View<K>, m: Store<K>, s: Node<K>, t: Node<K>, m1: Store<K>, m2: Store<K>, k: Node<K>)
    requires Shape(v, m) && Strangers(m, s, t) && s != v.head && t != v.head
    requires Placed(v, m, t, s, m[s].p, m[s].l, m[s].r, m1)
    requires Placed(v, m1, s, t, m[t].p, m[t].l, m[t].r, m2)
    requires k in m
    ensures RenamedAt(m, s, t, m2, k)
  {
    PlacedEnds(v, m, s, t, m1, m2);
    if k != s && k != t {
      PlacedKids(v, m, s, t, m1, m2, k);
      PlacedParents(v, m, s, t, m1, m2, k);
    }
  }

  /** A node `p` and its child `c` on side `s`, exchanged in the same two steps. */
  lemma PlacedChildEnds<K>(v: View<K>, m: Store<K>, s: Side, p: Node<K>, c: Node<K>, m1: Store<K>, m2: Store<K>)
    requires Shape(v, m) && p in m && c in m && p != v.head && m[p].Kid(s) == c
    requires s.L? ==> Placed(v, m, c, p, m[p].p, p, m[p].r, m1)
    requires s.R? ==> Placed(v, m, c, p, m[p].p, m[p].l, p, m1)
    requires Placed(v, m1, p, p, c, m[c].l, m[c].r, m2)
    ensures RenamedAt(m, p, c, m2, p) && RenamedAt(m, p, c, m2, c)
  {
    assert NodeOK(v, m, p) && NodeOK(v, m, c);
  }

  lemma PlacedChildKids<K>(v: View<K>, m: Store<K>, s: Side, p: Node<K>, c: Node<K>, m1: Store<K>, m2: Store<K>, k: Node<K>)
    requires Shape(v, m) && p in m && c in m && p != v.head && m[p].Kid(s) == c
    requires s.L? ==> Placed(v, m, c, p, m[p].p, p, m[p].r, m1)
    requires s.R? ==> Placed(v, m, c, p, m[p].p, m[p].l, p, m1)
    requires Placed(v, m1, p, p, c, m[c].l, m[c].r, m2)
    requires k in m && k != p && k != c
    ensures m2[k].l == Swap(p, c, m[k].l) && m2[k].r == Swap(p, c, m[k].r)
  {
    assert NodeOK(v, m, p) && NodeOK(v, m, c) && (k != v.head ==> NodeOK(v, m, k));
  }

  lemma PlacedChildParents<K>(v: View<K>, m: Store<K>, s: Side, p: Node<K>, c: Node<K>, m1: Store<K>, m2: Store<K>, k: Node<K>)
    requires Shape(v, m) && p in m && c in m && p != v.head && m[p].Kid(s) == c
    requires s.L? ==> Placed(v, m, c, p, m[p].p, p, m[p].r, m1)
    requires s.R? ==> Placed(v, m, c, p, m[p].p, m[p].l, p, m1)
    requires Placed(v, m1, p, p, c, m[c].l, m[c].r, m2)
    requires k in m && k != p && k != c
    ensures m2[k].p == Swap(p, c, m[k].p)
  {
    assert NodeOK(v, m, p) && NodeOK(v, m, c) && (k != v.head ==> NodeOK(v, m, k));
  }

  lemma PlacedChild<K>(v: View<K>, m: Store<K>, s: Side, p: Node<K>, c: Node<K>, m1: Store<K>, m2: Store<K>, k: Node<K>)
    requires Shape(v, m) && p in m && c in m && p != v.head && m[p].Kid(s) == c
    requires s.L? ==> Placed(v, m, c, p, m[p].p, p, m[p].r, m1)
    requires s.R? ==> Placed(v, m, c, p, m[p].p, m[p].l, p, m1)
    requires Placed(v, m1, p, p, c, m[c].l, m[c].r, m2)
    requires k in m
    ensures RenamedAt(m, p, c, m2, k)
  {
    if k == p || k == c {
      PlacedChildEnds(v, m, s, p, c, m1, m2);
    } else {
      PlacedChildKids(v, m, s, p, c, m1, m2, k);
      PlacedChildParents(v, m, s, p, c, m1, m2, k);
    }
  }

  ghost predicate Renamed<K>(m: Store<K>, s: Node<K>, t: Node<K>, m': Store<K>) {
    && m'.Keys == m.Keys && s in m && t in m
    && (forall k {:trigger RenamedAt(m, s, t, m', k)} :: k in m ==> RenamedAt(m, s, t, m', k))
    && (forall k {:trigger m'[k]} :: k in m ==>
      var c := m[Swap(s, t, k)]; m'[k].lo == c.lo && m'[k].at == c.at && m'[k].hi == c.hi)
  }

  lemma Renaming<K>(m: Store<K>, s: Node<K>, t: Node<K>, m2: Store<K>) returns (m': Store<K>)
    requires s in m && t in m && m2.Keys == m.Keys
    requires forall k {:trigger RenamedAt(m, s, t, m2, k)} :: k in m ==> RenamedAt(m, s, t, m2, k)
    ensures Renamed(m, s, t, m')
    ensures forall k {:trigger m'[k]} :: k in m ==> m'[k].l == m2[k].l && m'[k].r == m2[k].r && m'[k].p == m2[k].p
  {
    m' := map k | k in m :: var c := m[Swap(s, t, k)]; m2[k].(lo := c.lo, at := c.at, hi := c.hi);
    forall k | k in m
      ensures RenamedAt(m, s, t, m', k)
    {
      assert RenamedAt(m, s, t, m2, k);
    }
  }

  lemma RenamedOrder<K>(v: View<K>, m: Store<K>, s: Node<K>, t: Node<K>, m': Store<K>, ord: seq<Node<K>>)
    requires InOrder(v, m, ord) && Renamed(m, s, t, m') && s != v.head && t != v.head
    ensures Listed(m, ord, s) && Listed(m, ord, t) && InOrder(v, m', ord[m[s].at := t][m[t].at := s])
  {
    assert Listed(m, ord, s) && Listed(m, ord, t);
    var ord' := ord[m[s].at := t][m[t].at := s];
    forall k | k in m' && k != v.head
      ensures Listed(m', ord', k)
    {
      assert Listed(m, ord, Swap(s, t, k)) && Listed(m, ord, k);
    }
  }

  lemma SwapCommutes<T>(s: T, t: T, y: T)
    ensures Swap(s, t, y) == Swap(t, s, y)
  {
  }

  lemma SwapSymmetric<K>(m: Store<K>, s: Node<K>, t: Node<K>, m': Store<K>)
    requires Renamed(m, t, s, m')
    ensures Renamed(m, s, t, m')
  {
    forall k | k in m
      ensures RenamedAt(m, s, t, m', k)
      ensures var c := m[Swap(s, t, k)]; m'[k].lo == c.lo && m'[k].at == c.at && m'[k].hi == c.hi
    {
      assert RenamedAt(m, t, s, m', k);
      SwapCommutes(s, t, k);
      var c := m[Swap(s, t, k)];
      SwapCommutes(s, t, c.l);
      SwapCommutes(s, t, c.r);
      SwapCommutes(s, t, c.p);
    }
  }

  lemma RenamedRoot<K>(v: View<K>, m: Store<K>, s: Node<K>, t: Node<K>, m': Store<K>)
    requires Shape(v, m) && Renamed(m, s, t, m') && s != v.head && t != v.head
    ensures m'[v.head].l == m'[v.head].p == v.nil && m'[v.head].at == -1 && m'[v.head].hi == m[v.head].hi
    ensures Slot(v, m', m'[v.head].r, v.head, -1, m'[v.head].hi)
  {
    assert RenamedAt(m, s, t, m', v.head);
    var r := m[v.head].r;
    assert r != v.nil ==> RenamedAt(m, s, t, m', Swap(s, t, r));
  }

  lemma RenamedShape<K>(v: View<K>, m: Store<K>, s: Node<K>, t: Node<K>, m': Store<K>)
    requires Shape(v, m) && Renamed(m, s, t, m') && s != v.head && t != v.head
    ensures Shape(v, m')
  {
    RenamedRoot(v, m, s, t, m');
    forall k | k in m' && k != v.head
      ensures NodeOK(v, m', k)
    {
      RenamedNode(v, m, s, t, m', k);
    }
  }

  lemma RenamedNode<K>(v: View<K>, m: Store<K>, s: Node<K>, t: Node<K>, m': Store<K>, k: Node<K>)
    requires Shape(v, m) && Renamed(m, s, t, m') && s != v.head && t != v.head
    requires k in m && k != v.head
    ensures NodeOK(v, m', k)
  {
    var j := Swap(s, t, k);
    var c := m[j];
    assert NodeOK(v, m, j);
    assert RenamedAt(m, s, t, m', k);
    assert RenamedAt(m, s, t, m', Swap(s, t, c.p));
    assert c.l != v.nil ==> RenamedAt(m, s, t, m', Swap(s, t, c.l));
    assert c.r != v.nil ==> RenamedAt(m, s, t, m', Swap(s, t, c.r));
  }

  lemma RenamedBalanced<K>(v: View<K>, m: Store<K>, w: Paints<K>, s: Node<K>, t: Node<K>, m': Store<K>, w': Paints<K>)
    requires Shape(v, m) && Balanced(v, m, w, v.nil, NoDebt) && Renamed(m, s, t, m') && s != v.head && t != v.head
    requires SameBut(w, w', s, t, t) && w'[s] == w[t] && w'[t] == w[s]
    ensures Balanced(v, m', w', v.nil, NoDebt)
  {
    forall k | k in m' && k != v.head
      ensures RedOK(m', w', k) && BlackOK(m', w', k, NoDebt)
    {
      var j := Swap(s, t, k);
      assert NodeOK(v, m, j) && RedOK(m, w, j) && BlackOK(m, w, j, NoDebt);
      assert RenamedAt(m, s, t, m', k);
    }
  }

  // ----- The in-order sequence -----

  ghost predicate Listed<K>(m: Store<K>, ord: seq<Node<K>>, n: Node<K>) {
    n in m && 0 <= m[n].at < |ord| && ord[m[n].at] == n
  }

  ghost predicate InOrder<K>(v: View<K>, m: Store<K>, ord: seq<Node<K>>) {
    && v.head in m && |ord| == m[v.head].hi
    && (forall i {:trigger ord[i]} :: 0 <= i < |ord| ==> ord[i] in m && ord[i] != v.head && m[ord[i]].at == i)
    && (forall n {:trigger Listed(m, ord, n)} :: n in m && n != v.head ==> Listed(m, ord, n))
  }

  lemma SameOrderKept<K>(v: View<K>, m: Store<K>, m': Store<K>, ord: seq<Node<K>>)
    requires InOrder(v, m, ord) && SameOrder(v, m, m')
    ensures InOrder(v, m', ord)
  {
    forall n | n in m' && n != v.head
      ensures Listed(m', ord, n)
    {
      assert Listed(m, ord, n);
    }
  }

  /** Of two neighbours in the sequence, one is below the other: they cannot both have an empty slot
      towards each other. */
  lemma {:induction false} GapOwner<K>(v: View<K>, m: Store<K>, ord: seq<Node<K>>, n: Node<K>, g: int)
    requires Shape(v, m) && InOrder(v, m, ord) && n in m && n != v.head
    requires m[n].lo < g <= m[n].hi && 1 <= g < |ord| && -1 <= m[n].lo && m[n].hi <= |ord|
    requires m[n].lo == -1 || m[ord[m[n].lo]].hi >= m[n].hi
    requires m[n].hi == |ord| || m[ord[m[n].hi]].lo <= m[n].lo
    ensures m[ord[g - 1]].hi != g || m[ord[g]].lo != g - 1
    decreases m[n].hi - m[n].lo
  {
    assert NodeOK(v, m, n) && Listed(m, ord, n);
    if g <= m[n].at && m[n].l != v.nil {
      GapOwner(v, m, ord, m[n].l, g);
    } else if g > m[n].at && m[n].r != v.nil {
      GapOwner(v, m, ord, m[n].r, g);
    }
  }

  function Up(pos: int, i: int): int { if i >= pos then i + 1 else i }

  /** A leaf `z` hung on the empty slot of `q` on side `s`, at position `pos` of the sequence. */
  ghost predicate Attached<K>(v: View<K>, m: Store<K>, q: Node<K>, s: Side, z: Node<K>, pos: int, m': Store<K>) {
    && q in m && m[q].Kid(s) == v.nil && pos == (if s.L? then m[q].at else m[q].at + 1) && (q == v.head ==> s.R?)
    && z !in m && z != v.nil && m'.Keys == m.Keys + {z}
    && m'[z] == Cell(v.nil, v.nil, q, pos - 1, pos, pos + 1)
    && (forall k {:trigger m'[k]} :: k in m ==>
      && m'[k].l == (if k == q && s.L? then z else m[k].l)
      && m'[k].r == (if k == q && s.R? then z else m[k].r)
      && m'[k].p == m[k].p && m'[k].lo == Up(pos, m[k].lo) && m'[k].at == Up(pos, m[k].at) && m'[k].hi == Up(pos, m[k].hi))
  }

  lemma Attaching<K>(v: View<K>, m: Store<K>, q: Node<K>, s: Side, z: Node<K>) returns (m': Store<K>)
    requires q in m && m[q].Kid(s) == v.nil && (q == v.head ==> s.R?) && z !in m && z != v.nil
    ensures Attached(v, m, q, s, z, if s.L? then m[q].at else m[q].at + 1, m') && m'.Keys == m.Keys + {z}
  {
    var pos := if s.L? then m[q].at else m[q].at + 1;
    m' := map k | k in m.Keys + {z} ::
      if k == z then Cell(v.nil, v.nil, q, pos - 1, pos, pos + 1)
      else Cell(if k == q && s.L? then z else m[k].l, if k == q && s.R? then z else m[k].r, m[k].p,
                Up(pos, m[k].lo), Up(pos, m[k].at), Up(pos, m[k].hi));
  }

  lemma AttachedLinks<K>(v: View<K>, m: Store<K>, q: Node<K>, s: Side, z: Node<K>, pos: int, m': Store<K>, k: Node<K>)
    requires Attached(v, m, q, s, z, pos, m') && k in m'
    ensures if k == z then m'[k].l == m'[k].r == v.nil && m'[k].p == q
            else k in m && m'[k].l == (if k == q && s.L? then z else m[k].l)
                 && m'[k].r == (if k == q && s.R? then z else m[k].r) && m'[k].p == m[k].p
  {
  }

  lemma AttachedNode<K>(v: View<K>, m: Store<K>, ord: seq<Node<K>>, q: Node<K>, s: Side, z: Node<K>, pos: int, m': Store<K>, k: Node<K>)
    requires Shape(v, m) && InOrder(v, m, ord) && Attached(v, m, q, s, z, pos, m') && k in m && k != v.head
    requires 1 <= pos < |ord| ==> m[ord[pos - 1]].hi != pos || m[ord[pos]].lo != pos - 1
    ensures NodeOK(v, m', k)
  {
    assert NodeOK(v, m, k) && Listed(m, ord, k);
    assert q != v.head ==> NodeOK(v, m, q) && Listed(m, ord, q);
  }

  lemma AttachedPlace<K>(v: View<K>, m: Store<K>, ord: seq<Node<K>>, q: Node<K>, s: Side)
    requires Shape(v, m) && InOrder(v, m, ord) && q in m && m[q].Kid(s) == v.nil && (q == v.head ==> s.R?)
    ensures var pos := if s.L? then m[q].at else m[q].at + 1;
      && 0 <= pos <= |ord|
      && (1 <= pos < |ord| ==> m[ord[pos - 1]].hi != pos || m[ord[pos]].lo != pos - 1)
  {
    if q != v.head {
      assert NodeOK(v, m, q) && Listed(m, ord, q);
    }
    var pos := if s.L? then m[q].at else m[q].at + 1;
    if 1 <= pos < |ord| {
      GapOwner(v, m, ord, m[v.head].r, pos);
    }
  }

  lemma AttachedShape<K>(v: View<K>, m: Store<K>, ord: seq<Node<K>>, q: Node<K>, s: Side, z: Node<K>, pos: int, m': Store<K>)
    requires Shape(v, m) && InOrder(v, m, ord) && Attached(v, m, q, s, z, pos, m')
    ensures Shape(v, m')
  {
    AttachedPlace(v, m, ord, q, s);
    assert q != v.head ==> NodeOK(v, m, q);
    forall k | k in m && k != v.head
      ensures NodeOK(v, m', k)
    {
      AttachedNode(v, m, ord, q, s, z, pos, m', k);
    }
  }

  lemma AttachedOrder<K>(v: View<K>, m: Store<K>, ord: seq<Node<K>>, q: Node<K>, s: Side, z: Node<K>, pos: int, m': Store<K>)
    requires Shape(v, m) && InOrder(v, m, ord) && Attached(v, m, q, s, z, pos, m')
    ensures 0 <= pos <= |ord| && InOrder(v, m', ord[..pos] + [z] + ord[pos..])
  {
    AttachedPlace(v, m, ord, q, s);
    var ord' := ord[..pos] + [z] + ord[pos..];
    forall k | k in m' && k != v.head
      ensures Listed(m', ord', k)
    {
      assert k != z ==> Listed(m, ord, k);
    }
    forall i | 0 <= i < |ord'|
      ensures ord'[i] in m' && ord'[i] != v.head && m'[ord'[i]].at == i
    {
      assert i != pos ==> ord'[i] == ord[if i < pos then i else i - 1];
    }
  }

  /** A red leaf upsets nothing but, perhaps, its red parent. */
  lemma AttachedBalanced<K>(v: View<K>, m: Store<K>, w: Paints<K>, q: Node<K>, s: Side, z: Node<K>, pos: int, m': Store<K>, w': Paints<K>)
    requires Shape(v, m) && Balanced(v, m, w, v.nil, NoDebt) && Attached(v, m, q, s, z, pos, m')
    requires w' == w[z := Paint(Red, 0)] || (q == v.head && w' == w[z := Paint(Black, 1)])
    ensures Balanced(v, m', w', if w'[z].color == Red then z else v.nil, NoDebt)
  {
    forall k | k in m' && k != v.head
      ensures BlackOK(m', w', k, NoDebt) && (k != z ==> RedOK(m', w', k))
    {
      if k != z {
        assert NodeOK(v, m, k) && BlackOK(m, w, k, NoDebt) && RedOK(m, w, k);
      }
    }
  }

  lemma AttachedAll<K>(v: View<K>, m: Store<K>, w: Paints<K>, ord: seq<Node<K>>, q: Node<K>, s: Side, z: Node<K>, pos: int,
                       m': Store<K>, w': Paints<K>)
    requires Shape(v, m) && Balanced(v, m, w, v.nil, NoDebt) && InOrder(v, m, ord) && Attached(v, m, q, s, z, pos, m')
    requires w' == w[z := Paint(Red, 0)] || (q == v.head && w' == w[z := Paint(Black, 1)])
    ensures Shape(v, m') && Balanced(v, m', w', if w'[z].color == Red then z else v.nil, NoDebt)
    ensures 0 <= pos <= |ord| && InOrder(v, m', ord[..pos] + [z] + ord[pos..])
  {
    AttachedShape(v, m, ord, q, s, z, pos, m');
    AttachedOrder(v, m, ord, q, s, z, pos, m');
    AttachedBalanced(v, m, w, q, s, z, pos, m', w');
  }

  function Down(pos: int, i: int): int { if i > pos then i - 1 else i }

  /** The node `n`, with at most one child `c`, taken out and replaced by that child. */
  ghost predicate Unlinked<K>(v: View<K>, m: Store<K>, n: Node<K>, c: Node<K>, m': Store<K>) {
    && n in m && n != v.head && ((m[n].l == v.nil && m[n].r == c) || (m[n].r == v.nil && m[n].l == c))
    && m'.Keys == m.Keys - {n}
    && forall k {:trigger m'[k]} :: k in m && k != n ==>
      && m'[k].l == (if m[k].l == n then c else m[k].l)
      && m'[k].r == (if m[k].r == n then c else m[k].r)
      && m'[k].p == (if k == c then m[n].p else m[k].p)
      && m'[k].lo == (if m[k].lo >= m[n].at then m[k].lo - 1 else m[k].lo)
      && m'[k].at == Down(m[n].at, m[k].at) && m'[k].hi == Down(m[n].at, m[k].hi)
  }

  lemma Unlinking<K>(v: View<K>, m: Store<K>, n: Node<K>, c: Node<K>) returns (m': Store<K>)
    requires n in m && n != v.head && ((m[n].l == v.nil && m[n].r == c) || (m[n].r == v.nil && m[n].l == c))
    ensures Unlinked(v, m, n, c, m')
  {
    m' := map k | k in m.Keys - {n} ::
      Cell(if m[k].l == n then c else m[k].l, if m[k].r == n then c else m[k].r, if k == c then m[n].p else m[k].p,
           if m[k].lo >= m[n].at then m[k].lo - 1 else m[k].lo, Down(m[n].at, m[k].at), Down(m[n].at, m[k].hi));
  }

  lemma UnlinkedFields<K>(v: View<K>, m: Store<K>, n: Node<K>, c: Node<K>, m': Store<K>, k: Node<K>)
    requires Shape(v, m) && Unlinked(v, m, n, c, m') && k in m && k != n
    ensures m[n].p in m
    ensures m'[k].l == (if k == m[n].p && m[k].l == n then c else m[k].l)
    ensures m'[k].r == (if k == m[n].p && m[k].l != n then c else m[k].r)
    ensures m'[k].p == (if k == c then m[n].p else m[k].p)
  {
    assert NodeOK(v, m, n) && (k != v.head ==> NodeOK(v, m, k));
  }

  lemma UnlinkedNode<K>(v: View<K>, m: Store<K>, n: Node<K>, c: Node<K>, m': Store<K>, ord: seq<Node<K>>, k: Node<K>)
    requires Shape(v, m) && Unlinked(v, m, n, c, m')
    requires InOrder(v, m, ord) && k in m && k != n && k != v.head
    ensures NodeOK(v, m', k)
  {
    assert NodeOK(v, m, n) && NodeOK(v, m, k) && Listed(m, ord, n) && Listed(m, ord, k);
    assert m[k].l != v.nil ==> NodeOK(v, m, m[k].l) && Listed(m, ord, m[k].l);
    assert m[k].r != v.nil ==> NodeOK(v, m, m[k].r) && Listed(m, ord, m[k].r);
  }

  lemma UnlinkedShape<K>(v: View<K>, m: Store<K>, n: Node<K>, c: Node<K>, m': Store<K>, ord: seq<Node<K>>)
    requires Shape(v, m) && Unlinked(v, m, n, c, m')
    requires InOrder(v, m, ord)
    ensures Shape(v, m')
  {
    assert NodeOK(v, m, n) && Listed(m, ord, n);
    assert NodeOK(v, m, m[v.head].r) && Listed(m, ord, m[v.head].r);
    forall k | k in m' && k != v.head
      ensures NodeOK(v, m', k)
    {
      UnlinkedNode(v, m, n, c, m', ord, k);
    }
  }

  lemma UnlinkedOrder<K>(v: View<K>, m: Store<K>, n: Node<K>, c: Node<K>, m': Store<K>, ord: seq<Node<K>>)
    requires Shape(v, m) && Unlinked(v, m, n, c, m')
    requires InOrder(v, m, ord)
    ensures var i := m[n].at; 0 <= i < |ord| && InOrder(v, m', ord[..i] + ord[i + 1..])
  {
    assert NodeOK(v, m, n) && Listed(m, ord, n);
    var i := m[n].at;
    var ord' := ord[..i] + ord[i + 1..];
    forall k | k in m' && k != v.head
      ensures Listed(m', ord', k)
    {
      assert Listed(m, ord, k);
    }
    forall j | 0 <= j < |ord'|
      ensures ord'[j] in m' && ord'[j] != v.head && m'[ord'[j]].at == j
    {
      assert ord'[j] == ord[if j < i then j else j + 1];
    }
  }

  /** A black node taken out is owed at its slot; its child, if it has one, is red. */
  lemma UnlinkedBalanced<K>(v: View<K>, m: Store<K>, n: Node<K>, c: Node<K>, m': Store<K>, w: Paints<K>, w': Paints<K>)
    requires Shape(v, m) && Unlinked(v, m, n, c, m')
    requires Balanced(v, m, w, v.nil, NoDebt) && w' == w - {n}
    ensures m[n].p in m
    ensures w[n].color == Red ==> c == v.nil
    ensures Balanced(v, m', w', c, if w[n].color == Red then NoDebt else Debt(m[n].p, SideOf(m, n)))
    ensures c != v.nil ==> c in w' && w'[c].color == Red
  {
    assert NodeOK(v, m, n) && BlackOK(m, w, n, NoDebt);
    assert c != v.nil ==> NodeOK(v, m, c) && BlackOK(m, w, c, NoDebt) && RedOK(m, w, c);
    var d := if w[n].color == Red then NoDebt else Debt(m[n].p, SideOf(m, n));
    forall k | k in m' && k != v.head
      ensures BlackOK(m', w', k, d) && (k != c ==> RedOK(m', w', k))
    {
      assert NodeOK(v, m, k) && BlackOK(m, w, k, NoDebt) && RedOK(m, w, k);
      assert m[k].p == n ==> k == c;
    }
  }

  lemma UnlinkedAll<K>(v: View<K>, m: Store<K>, w: Paints<K>, ord: seq<Node<K>>, n: Node<K>, c: Node<K>, m': Store<K>, w': Paints<K>)
    requires Shape(v, m) && Balanced(v, m, w, v.nil, NoDebt) && InOrder(v, m, ord) && Unlinked(v, m, n, c, m')
    requires w' == w - {n}
    ensures m[n].p in m && m[n].p != n && 0 <= m[n].at < |ord|
    ensures Shape(v, m') && InOrder(v, m', ord[..m[n].at] + ord[m[n].at + 1..])
    ensures w[n].color == Red ==> c == v.nil
    ensures c != v.nil ==> c in w' && w'[c].color == Red
    ensures Balanced(v, m', w', c, if w[n].color == Red then NoDebt else Debt(m[n].p, SideOf(m, n)))
    ensures m[n].p in m' && m'[m[n].p].Kid(SideOf(m, n)) == c
    ensures w[n].color != Head
  {
    UnlinkedShape(v, m, n, c, m', ord);
    UnlinkedOrder(v, m, n, c, m', ord);
    UnlinkedBalanced(v, m, n, c, m', w, w');
    Apart(v, m, n);
    assert BlackOK(m, w, n, NoDebt);
  }

  /** The rightmost node of the left subtree is the predecessor; exchanged with it, the node to erase
      has no right child, and the sequence without that node is the same. */
  lemma Predecessor<K>(v: View<K>, m: Store<K>, ord: seq<Node<K>>, n: Node<K>, x: Node<K>, m': Store<K>)
    requires Shape(v, m) && InOrder(v, m, ord) && n in m && n != v.head && m[n].r != v.nil
    requires x in m && x != v.head && m[x].hi == m[n].at && m[x].r == v.nil && m[x].at < m[n].at
    requires Renamed(m, x, n, m')
    ensures m'[n].r == v.nil
    ensures 0 < m[n].at < |ord| && m'[n].at == m[n].at - 1
    ensures var ord' := ord[m[x].at := n][m[n].at := x]; var i := m[n].at - 1;
      ord'[..i] + ord'[i + 1..] == ord[..i + 1] + ord[i + 2..]
  {
    assert NodeOK(v, m, n) && NodeOK(v, m, x) && Listed(m, ord, n) && Listed(m, ord, x);
    assert RenamedAt(m, x, n, m', n);
    var i := m[x].at;
    var ord' := ord[i := n][i + 1 := x];
    assert ord'[..i] == ord[..i] && ord'[i + 1..] == [x] + ord[i + 2..] && ord[..i + 1] == ord[..i] + [x];
  }

  lemma PredecessorKin<K>(v: View<K>, m: Store<K>, n: Node<K>, x: Node<K>)
    requires Shape(v, m) && n in m && n != v.head && x in m && x != v.head && m[x].hi == m[n].at && m[x].at < m[n].at
    ensures x != n && m[x].p != m[n].p
  {
    assert NodeOK(v, m, n) && NodeOK(v, m, x);
    assert m[n].p != v.head ==> NodeOK(v, m, m[n].p);
  }

  lemma PredecessorAll<K>(v: View<K>, m: Store<K>, w: Paints<K>, ord: seq<Node<K>>, n: Node<K>, x: Node<K>, m': Store<K>, w': Paints<K>)
    returns (ord': seq<Node<K>>)
    requires Shape(v, m) && Balanced(v, m, w, v.nil, NoDebt) && InOrder(v, m, ord) && n in m && n != v.head && m[n].r != v.nil
    requires x in m && x != v.head && m[x].hi == m[n].at && m[x].r == v.nil && m[x].at < m[n].at
    requires Renamed(m, n, x, m') && SameBut(w, w', n, x, x) && w'[n] == w[x] && w'[x] == w[n]
    ensures Shape(v, m') && Balanced(v, m', w', v.nil, NoDebt) && InOrder(v, m', ord') && m'[n].r == v.nil
    ensures var i := m'[n].at; 0 <= i && i + 1 == m[n].at < |ord| == |ord'| && ord'[..i] + ord'[i + 1..] == ord[..i + 1] + ord[i + 2..]
  {
    SwapSymmetric(m, x, n, m');
    RenamedShape(v, m, x, n, m');
    RenamedBalanced(v, m, w, x, n, m', w');
    RenamedOrder(v, m, x, n, m', ord);
    Predecessor(v, m, ord, n, x, m');
    ord' := ord[m[x].at := n][m[n].at := x];
  }

  // ----- Keys -----

  ghost predicate SortedBy<K(!new)>(cmp: (K, K) -> int, ord: seq<Node<K>>) {
    forall i, j {:trigger ord[i], ord[j]} :: 0 <= i < j < |ord| ==> cmp(ord[i].key, ord[j].key) <= 0
  }

  /** Every key before `pos` is at most `k` (or below it, when `strict`), every key from `pos` on is above it
      (or at least `k`). */
  ghost predicate Splits<K(!new)>(cmp: (K, K) -> int, ord: seq<Node<K>>, k: K, pos: int, strict: bool) {
    && 0 <= pos <= |ord|
    && (forall i {:trigger ord[i]} :: 0 <= i < pos ==> if strict then cmp(ord[i].key, k) < 0 else cmp(ord[i].key, k) <= 0)
    && (forall i {:trigger ord[i]} :: pos <= i < |ord| ==> if strict then cmp(k, ord[i].key) <= 0 else cmp(k, ord[i].key) < 0)
  }

  /** In a sorted sequence it is enough to look at the two neighbours of the split. */
  lemma SplitHere<K(!new)>(cmp: (K, K) -> int, ord: seq<Node<K>>, k: K, pos: int, strict: bool)
    requires TotalPreorder(cmp) && SortedBy(cmp, ord) && 0 <= pos <= |ord|
    requires pos > 0 ==> if strict then cmp(ord[pos - 1].key, k) < 0 else cmp(ord[pos - 1].key, k) <= 0
    requires pos < |ord| ==> if strict then cmp(k, ord[pos].key) <= 0 else cmp(k, ord[pos].key) < 0
    ensures Splits(cmp, ord, k, pos, strict)
  {
    forall i | 0 <= i < pos
      ensures if strict then cmp(ord[i].key, k) < 0 else cmp(ord[i].key, k) <= 0
    {
      if i < pos - 1 {
        Transitive(cmp, ord[i].key, ord[pos - 1].key, k);
      }
    }
    forall i | pos <= i < |ord|
      ensures if strict then cmp(k, ord[i].key) <= 0 else cmp(k, ord[i].key) < 0
    {
      if i > pos {
        Transitive(cmp, k, ord[pos].key, ord[i].key);
      }
    }
  }

  lemma SortedInsert<K(!new)>(cmp: (K, K) -> int, ord: seq<Node<K>>, z: Node<K>, pos: int)
    requires TotalPreorder(cmp) && SortedBy(cmp, ord) && Splits(cmp, ord, z.key, pos, false)
    ensures SortedBy(cmp, ord[..pos] + [z] + ord[pos..])
  {
    var ord' := ord[..pos] + [z] + ord[pos..];
    forall i, j | 0 <= i < j < |ord'|
      ensures cmp(ord'[i].key, ord'[j].key) <= 0
    {
      assert i != pos ==> ord'[i] == ord[if i < pos then i else i - 1];
      assert j != pos ==> ord'[j] == ord[if j < pos then j else j - 1];
    }
  }

  lemma SortedErase<K(!new)>(cmp: (K, K) -> int, ord: seq<Node<K>>, i: int)
    requires SortedBy(cmp, ord) && 0 <= i < |ord|
    ensures SortedBy(cmp, ord[..i] + ord[i + 1..])
  {
  }

  /** Only the header is coloured as one. */
  lemma RootColour<K>(v: View<K>, m: Store<K>, w: Paints<K>, n: Node<K>)
    requires Shape(v, m) && Balanced(v, m, w, v.nil, NoDebt) && n in m && n != v.head
    ensures m[n].p in m && (w[m[n].p].color == Head <==> m[n].p == v.head)
    ensures m[n].p == v.head ==> m[v.head].r == n && m[n].lo == -1 && m[n].hi == m[v.head].hi
  {
    assert NodeOK(v, m, n);
    assert m[n].p != v.head ==> BlackOK(m, w, m[n].p, NoDebt);
  }

  /** `t` is `s` without the `n` elements from `i` on. */
  ghost predicate Cut<T>(s: seq<T>, i: int, n: int, t: seq<T>) {
    && 0 <= i <= i + n <= |s| == |t| + n
    && (forall k {:trigger t[k]} :: 0 <= k < |t| ==> t[k] == if k < i then s[k] else s[k + n])
  }

  lemma CutNothing<T>(ord: seq<T>, i: int)
    requires 0 <= i <= |ord|
    ensures Cut(ord, i, 0, ord)
  {
  }

  lemma CutNext<T>(s: seq<T>, i: int, n: int, t: seq<T>, t': seq<T>)
    requires Cut(s, i, n, t) && i < |t| && t' == t[..i] + t[i + 1..]
    ensures Cut(s, i, n + 1, t') && |t'| == |t| - 1
    ensures forall k {:trigger t'[k]} :: i <= k < |t'| ==> t'[k] == t[k + 1]
  {
  }

  /** The keys equivalent to `k` are exactly those between its two bounds. */
  lemma EqualRange<K(!new)>(cmp: (K, K) -> int, ord: seq<Node<K>>, k: K, i: int, j: int)
    requires TotalPreorder(cmp) && Splits(cmp, ord, k, i, true) && Splits(cmp, ord, k, j, false)
    ensures i <= j
    ensures forall x {:trigger ord[x]} :: 0 <= x < |ord| ==> (cmp(k, ord[x].key) == 0 <==> i <= x < j)
  {
    if j < |ord| {
      assert cmp(k, ord[j].key) < 0;
    }
  }

  // ----- Finding a place -----

  /** The keys at the edges of the subtree at `n` lie on the two sides of `k`. */
  ghost predicate Brackets<K(!new)>(cmp: (K, K) -> int, ord: seq<Node<K>>, lo: int, hi: int, k: K, strict: bool) {
    && -1 <= lo < hi <= |ord|
    && (lo >= 0 ==> if strict then cmp(ord[lo].key, k) < 0 else cmp(ord[lo].key, k) <= 0)
    && (hi < |ord| ==> if strict then cmp(k, ord[hi].key) <= 0 else cmp(k, ord[hi].key) < 0)
  }

  /** Whether a search for `k` goes left at a node with key `x`. */
  predicate GoesLeft<K>(cmp: (K, K) -> int, k: K, x: K, strict: bool) {
    if strict then cmp(k, x) <= 0 else cmp(k, x) < 0
  }

  /** One step of a search down the tree. */
  lemma SearchStep<K(!new)>(v: View<K>, m: Store<K>, cmp: (K, K) -> int, ord: seq<Node<K>>, n: Node<K>, k: K, strict: bool)
    requires TotalPreorder(cmp) && Shape(v, m) && InOrder(v, m, ord) && n in m && n != v.head
    requires Brackets(cmp, ord, m[n].lo, m[n].hi, k, strict)
    ensures var left := GoesLeft(cmp, k, n.key, strict);
      var c := if left then m[n].l else m[n].r;
      var lo, hi := if left then m[n].lo else m[n].at, if left then m[n].at else m[n].hi;
      && Brackets(cmp, ord, lo, hi, k, strict) && m[n].at < |ord| && 0 <= m[n].at && ord[m[n].at] == n
      && (if c == v.nil then hi == lo + 1 else c in m && c != v.head && m[c].lo == lo && m[c].hi == hi && hi - lo < m[n].hi - m[n].lo)
  {
    assert NodeOK(v, m, n) && Listed(m, ord, n);
  }

  // ----- What the places mean -----

  /** In-order traversal by the links alone. */
  ghost function Walk<K>(v: View<K>, m: Store<K>, n: Node<K>): seq<Node<K>>
    requires Shape(v, m) && (n == v.nil || (n in m && n != v.head))
    decreases if n in m then m[n].hi - m[n].lo else 0
  {
    if n == v.nil then []
    else
      assert NodeOK(v, m, n) && (m[n].l != v.nil ==> NodeOK(v, m, m[n].l)) && (m[n].r != v.nil ==> NodeOK(v, m, m[n].r));
      Walk(v, m, m[n].l) + [n] + Walk(v, m, m[n].r)
  }

  lemma {:induction false} WalkIsOrder<K>(v: View<K>, m: Store<K>, ord: seq<Node<K>>, n: Node<K>)
    requires Shape(v, m) && InOrder(v, m, ord) && n in m && n != v.head
    ensures -1 <= m[n].lo < m[n].hi <= |ord|
    ensures Walk(v, m, n) == ord[m[n].lo + 1..m[n].hi]
    decreases m[n].hi - m[n].lo
  {
    assert NodeOK(v, m, n) && Listed(m, ord, n);
    var c := m[n];
    if c.l != v.nil {
      WalkIsOrder(v, m, ord, c.l);
    }
    if c.r != v.nil {
      WalkIsOrder(v, m, ord, c.r);
    }
    assert ord[c.lo + 1..c.at] + [ord[c.at]] + ord[c.at + 1..c.hi] == ord[c.lo + 1..c.hi];
  }

  lemma {:induction false} TraversalIsOrder<K>(v: View<K>, m: Store<K>, ord: seq<Node<K>>)
    requires Shape(v, m) && InOrder(v, m, ord)
    ensures Walk(v, m, m[v.head].r) == ord
  {
    if m[v.head].r != v.nil {
      WalkIsOrder(v, m, ord, m[v.head].r);
    }
  }

  ghost function Height<K>(v: View<K>, m: Store<K>, n: Node<K>): nat
    requires Shape(v, m) && (n == v.nil || (n in m && n != v.head))
    decreases if n in m then m[n].hi - m[n].lo else 0
  {
    if n == v.nil then 0
    else
      assert NodeOK(v, m, n) && (m[n].l != v.nil ==> NodeOK(v, m, m[n].l)) && (m[n].r != v.nil ==> NodeOK(v, m, m[n].r));
      var a, b := Height(v, m, m[n].l), Height(v, m, m[n].r);
      1 + if a > b then a else b
  }

  /** A subtree is at most twice as high as it has black nodes on a way down, and has at least
      2^bh - 1 nodes. */
  lemma {:induction false} HeightOf<K>(v: View<K>, m: Store<K>, w: Paints<K>, n: Node<K>)
    requires Shape(v, m) && Balanced(v, m, w, v.nil, NoDebt) && n in m && n != v.head
    ensures Height(v, m, n) <= 2 * w[n].bh + (if w[n].color == Red then 1 else 0)
    ensures m[n].hi - m[n].lo >= Pow2(w[n].bh)
    decreases m[n].hi - m[n].lo
  {
    assert NodeOK(v, m, n) && BlackOK(m, w, n, NoDebt);
    if m[n].l != v.nil {
      HeightOf(v, m, w, m[n].l);
      assert RedOK(m, w, m[n].l);
    }
    if m[n].r != v.nil {
      HeightOf(v, m, w, m[n].r);
      assert RedOK(m, w, m[n].r);
    }
  }

  lemma {:induction false} Pow2Double(a: nat)
    ensures Pow2(2 * a) == Pow2(a) * Pow2(a)
  {
    if a > 0 {
      Pow2Double(a - 1);
      assert Pow2(2 * a) == 2 * (2 * Pow2(2 * (a - 1)));
    }
  }

  lemma SquareMonotone(a: nat, b: nat)
    requires a <= b
    ensures a * a <= b * b
  {
    assert a * a <= a * b <= b * b;
  }

  /** The height of a tree of n nodes is at most 2 log2(n + 1). */
  lemma {:induction false} HeightBound<K>(v: View<K>, m: Store<K>, w: Paints<K>, ord: seq<Node<K>>)
    requires Shape(v, m) && Balanced(v, m, w, v.nil, NoDebt) && InOrder(v, m, ord)
    ensures Pow2(Height(v, m, m[v.head].r)) <= (|ord| + 1) * (|ord| + 1)
  {
    var root := m[v.head].r;
    if root != v.nil {
      assert NodeOK(v, m, root) && RedOK(m, w, root);
      HeightOf(v, m, w, root);
      var b := w[root].bh;
      Pow2Monotone(Height(v, m, root), 2 * b);
      Pow2Double(b);
      SquareMonotone(Pow2(b), |ord| + 1);
    }
  }

  /** The number of black nodes on the way from `n` down along `path`. */
  ghost function Blacks<K>(m: Store<K>, w: Paints<K>, n: Node<K>, path: seq<Side>): nat {
    if n !in m || n !in w then 0
    else One(w[n].color) + if path == [] then 0 else Blacks(m, w, m[n].Kid(path[0]), path[1..])
  }

  ghost predicate ReachesNil<K>(v: View<K>, m: Store<K>, n: Node<K>, path: seq<Side>) {
    n == v.nil || (n in m && path != [] && ReachesNil(v, m, m[n].Kid(path[0]), path[1..]))
  }

  /** Every way from a node down to the sentinel meets the same number of black nodes. */
  lemma {:induction false} EqualBlackHeights<K>(v: View<K>, m: Store<K>, w: Paints<K>, n: Node<K>, path: seq<Side>)
    requires Shape(v, m) && Balanced(v, m, w, v.nil, NoDebt) && (n == v.nil || (n in m && n != v.head))
    requires ReachesNil(v, m, n, path)
    ensures Blacks(m, w, n, path) == Bh(w, n)
  {
    if n != v.nil {
      assert NodeOK(v, m, n) && BlackOK(m, w, n, NoDebt);
      EqualBlackHeights(v, m, w, m[n].Kid(path[0]), path[1..]);
    }
  }
}
