/** The red-black tree of cstl/rbtree.h on heap nodes. */
module RBTree {
  import opened Order
  import opened RBModel

  class Tree<K(!new)> {
    const cmp: (K, K) -> int
    const head: Node<K>
    const nil: Node<K>

    // The tree as the model sees it; Tied says that the heap agrees.
    ghost var m: Store<K>
    ghost var w: Paints<K>
    ghost var order: seq<Node<K>>

    ghost function V(): View<K> { View(head, nil) }

    ghost predicate TiedAt(n: Node<K>)
      requires n in m && n in w
      reads `m, `w, n
    {
      m[n].l == n.left && m[n].r == n.right && m[n].p == n.parent && w[n].color == n.color
    }

    ghost predicate Tied()
      reads `m, `w, m.Keys, nil
    {
      && m.Keys == w.Keys && head in m
      && (forall n {:trigger TiedAt(n)} :: n in m ==> TiedAt(n))
      && nil !in m && nil.left == nil.right == nil.parent == nil && nil.color == Black
    }

    ghost predicate Sound(red: Node<K>, d: Debt<K>)
      reads `m, `w, m.Keys, nil
    {
      Tied() && Shape(V(), m) && Balanced(V(), m, w, red, d)
    }

    /** An empty tree; `nil` is the sentinel all trees share, `k` the unused key of the header. */
    constructor (cmp: (K, K) -> int, nil: Node<K>, k: K)
      requires nil.left == nil.right == nil.parent == nil && nil.color == Black
      ensures this.cmp == cmp && this.nil == nil && order == [] && fresh(m.Keys)
      ensures TotalPreorder(cmp) ==> Valid()
    {
      this.cmp, this.nil := cmp, nil;
      var h := new Node<K>(k, Head, nil);
      head := h;
      order := [];
      m, w := map[h := Cell(nil, nil, nil, -1, -1, 0)], map[h := Paint(Head, 0)];
    }

    /** What a rotation of `x` below `n`, between the parent `p` and the inner subtree `sub`, writes. */
    twostate predicate Relinked(ns: set<Node<K>>, s: Side, x: Node<K>, n: Node<K>, p: Node<K>, sub: Node<K>)
      reads ns, x, n, p, sub
    {
      && (forall k :: k in ns ==> k.color == old(k.color))
      && (forall k :: k in ns && k != x && k != n && k != p ==>
        k.left == old(k.left) && k.right == old(k.right) && k.parent == if k == sub then x else old(k.parent))
      && x.parent == n && n.parent == p && p.parent == old(p.parent)
      && p.left == (if old(p.left) == x then n else old(p.left))
      && p.right == (if old(p.left) == x then old(p.right) else n)
      && (if s.L? then x.left == sub && n.right == x && x.right == old(x.right) && n.left == old(n.left)
          else x.right == sub && n.left == x && x.left == old(x.left) && n.right == old(n.right))
    }

    method RelinkRight(ghost ns: set<Node<K>>, x: Node<K>)
      requires {x, x.left, x.parent} <= ns && x.left != x && x.parent != x && x.parent != x.left
      requires x.left.right !in {x, x.left, x.parent} && nil !in ns
      requires x.left.right == nil || x.left.right in ns
      modifies ns
      ensures Relinked(ns, L, x, old(x.left), old(x.parent), old(x.left.right))
    {
      var p := x.parent;
      var n := x.left;
      x.left := n.right;
      if n.right != nil {
        n.right.parent := x;
      }
      n.right := x;
      x.parent := n;
      if p.left == x {
        p.left := n;
      } else {
        p.right := n;
      }
      n.parent := p;
    }

    method RelinkLeft(ghost ns: set<Node<K>>, x: Node<K>)
      requires {x, x.right, x.parent} <= ns && x.right != x && x.parent != x && x.parent != x.right
      requires x.right.left !in {x, x.right, x.parent} && nil !in ns
      requires x.right.left == nil || x.right.left in ns
      modifies ns
      ensures Relinked(ns, R, x, old(x.right), old(x.parent), old(x.right.left))
    {
      var p := x.parent;
      var n := x.right;
      x.right := n.left;
      if n.left != nil {
        n.left.parent := x;
      }
      n.left := x;
      x.parent := n;
      if p.left == x {
        p.left := n;
      } else {
        p.right := n;
      }
      n.parent := p;
    }

    method RotateRight(x: Node<K>)
      requires Tied() && Shape(V(), m) && x in m && x != head && m[x].l != nil
      modifies this`m, m.Keys
      ensures Tied() && old(m)[x].l in old(m)
      ensures var n := old(m)[x].l; Rotated(V(), old(m), L, x, n, old(m)[x].p, old(m)[n].r, m)
    {
      hide Shape;
      assert TiedAt(x);
      ghost var n, p := x.left, x.parent;
      RotateDistinct(V(), m, L, x);
      assert TiedAt(n);
      ghost var sub := n.right;
      RelinkRight(m.Keys, x);
      m := Rotation(V(), m, L, x);
      forall k | k in m
        ensures TiedAt(k)
      {
        assert old(TiedAt(k));
      }
    }

    method RotateLeft(x: Node<K>)
      requires Tied() && Shape(V(), m) && x in m && x != head && m[x].r != nil
      modifies this`m, m.Keys
      ensures Tied() && old(m)[x].r in old(m)
      ensures var n := old(m)[x].r; Rotated(V(), old(m), R, x, n, old(m)[x].p, old(m)[n].l, m)
    {
      hide Shape;
      assert TiedAt(x);
      ghost var n, p := x.right, x.parent;
      RotateDistinct(V(), m, R, x);
      assert TiedAt(n);
      ghost var sub := n.left;
      RelinkLeft(m.Keys, x);
      m := Rotation(V(), m, R, x);
      forall k | k in m
        ensures TiedAt(k)
      {
        assert old(TiedAt(k));
      }
    }

    method SetColor(n: Node<K>, c: Color, ghost bh: nat)
      requires Tied() && n in m && c != Head
      modifies this`w, n`color
      ensures Tied() && w == old(w)[n := Paint(c, bh)]
    {
      n.color := c;
      w := w[n := Paint(c, bh)];
      forall k | k in m
        ensures TiedAt(k)
      {
        assert old(TiedAt(k));
      }
    }

    // ----- Insertion -----

    method SetColors(a: Node<K>, c: Color, ghost i: nat, b: Node<K>, d: Color, ghost j: nat)
      requires Tied() && a in m && b in m && a != b && c != Head && d != Head
      modifies this`w, a`color, b`color
      ensures Tied() && SameBut(old(w), w, a, b, b) && w[a] == Paint(c, i) && w[b] == Paint(d, j)
    {
      SetColor(a, c, i);
      SetColor(b, d, j);
    }

    // Case 3 of balance_for_insert: the uncle is red.
    method PushUp(n: Node<K>, p: Node<K>, g: Node<K>, u: Node<K>)
      requires Sound(n, NoDebt)
      requires n in m && p in m && g in m && u in m && n != head && p != head && g != head
      requires m[n].p == p && m[p].p == g && w[p].color == w[u].color == Red
      requires (m[g].l == p && m[g].r == u) || (m[g].r == p && m[g].l == u)
      modifies this`w, g`color, p`color, u`color
      ensures Sound(g, NoDebt) && w[g].color == Red
    {
      hide Balanced;
      ghost var w0 := w;
      assert NodeOK(V(), m, g) && NodeOK(V(), m, p);
      SetColor(g, Red, w[g].bh);
      SetColors(p, Black, w[p].bh + 1, u, Black, w[u].bh + 1);
      InsertUncle(V(), m, w0, if m[g].l == p then L else R, n, p, g, u, w);
    }

    // Case 4: a red node and its red parent on different sides; the node rises above its parent.
    method Straighten(n: Node<K>, p: Node<K>, g: Node<K>)
      requires Sound(n, NoDebt)
      requires n in m && p in m && g in m && n != head && p != head && g != head
      requires m[n].p == p && m[p].p == g && w[n].color == w[p].color == Red
      requires (m[g].l == p && m[p].r == n) || (m[g].r == p && m[p].l == n)
      modifies this`m, m.Keys
      ensures Sound(p, NoDebt) && SameOrder(V(), old(m), m)
      ensures m[p].p == n && m[n].p == g
      ensures if old(m)[g].l == p then m[g].l == n && m[n].l == p && m[g].r == old(m)[g].r
              else m[g].r == n && m[n].r == p && m[g].l == old(m)[g].l
    {
      assert TiedAt(g) && NodeOK(V(), m, g);
      ghost var m0 := m;
      if g.left == p {
        RotateLeft(p);
        Bend(V(), m0, w, R, n, p, g, m0[n].l, m);
      } else {
        RotateRight(p);
        Bend(V(), m0, w, L, n, p, g, m0[n].r, m);
      }
    }

    // Case 5: a red node and its red parent on one side; the grandparent goes below the parent.
    method TurnForInsert(n: Node<K>, p: Node<K>, g: Node<K>)
      requires Sound(n, NoDebt)
      requires n in m && p in m && g in m && n != head && p != head && g != head && n != p
      requires m[n].p == p && m[p].p == g && w[n].color == w[p].color == Red
      requires || (m[g].l == p && m[p].l == n && Col(w, m[g].r) == Black)
               || (m[g].r == p && m[p].r == n && Col(w, m[g].l) == Black)
      modifies this`m, this`w, m.Keys
      ensures Sound(nil, NoDebt) && SameOrder(V(), old(m), m)
    {
      assert TiedAt(g);
      ghost var m0, w0 := m, w;
      ghost var s := if g.left == p then L else R;
      assert RedOK(m, w, p);
      if g.left == p {
        RotateRight(g);
      } else {
        RotateLeft(g);
      }
      SetColors(p, Black, w[g].bh, g, Red, w[p].bh);
      Turn(V(), m0, w0, s, g, p, m0[g].p, m0[p].Kid(Other(s)), m, w, n, NoDebt);
    }

    // Case 1: the node is the root.
    method BlackenRoot(n: Node<K>)
      requires Sound(n, NoDebt) && n in m && n != head && w[n].color == Red && m[n].p == head
      modifies this`w, n`color
      ensures Sound(nil, NoDebt)
    {
      ghost var w0 := w;
      SetColor(n, Black, w[n].bh + 1);
      Blacken(V(), m, w0, n, n, NoDebt, w);
    }

    // Cases 4 and 5: the uncle is black.
    method TurnBlackUncle(n0: Node<K>, p0: Node<K>, g: Node<K>)
      requires Sound(n0, NoDebt)
      requires n0 in m && p0 in m && g in m && n0 != head && p0 != head && g != head && n0 != p0
      requires m[n0].p == p0 && m[p0].p == g && w[n0].color == w[p0].color == Red
      requires (m[g].l == p0 && Col(w, m[g].r) == Black) || (m[g].r == p0 && Col(w, m[g].l) == Black)
      requires m[p0].l == n0 || m[p0].r == n0
      modifies this`m, this`w, m.Keys
      ensures Sound(nil, NoDebt) && SameOrder(V(), old(m), m)
    {
      var n, p := n0, p0;
      assert TiedAt(g) && TiedAt(p) && NodeOK(V(), m, g);
      if (g.left == p && p.right == n) || (g.right == p && p.left == n) {
        Straighten(n, p, g);
        n, p := p, n;
      }
      TurnForInsert(n, p, g);
    }

    method BalanceForInsert(node: Node<K>)
      requires Sound(node, NoDebt) && node in m && node != head && w[node].color == Red
      modifies this`m, this`w, m.Keys
      ensures Sound(nil, NoDebt) && SameOrder(V(), old(m), m)
    {
      var n := node;
      while true
        invariant Sound(n, NoDebt) && n in m && n != head && w[n].color == Red
        invariant m == old(m)
        decreases m[head].hi + 1 - (m[n].hi - m[n].lo)
      {
        RedKin(V(), m, w, n);
        assert TiedAt(n) && TiedAt(m[n].p);
        var p := n.parent;
        if p.color == Head {
          BlackenRoot(n);
          return;
        }
        if p.color == Black {
          Resolved(V(), m, w, n);
          return;
        }
        assert TiedAt(m[p].p);
        var g := p.parent;
        var u := if g.left == p then g.right else g.left;
        assert u == nil || TiedAt(u);
        if u.color == Red {
          PushUp(n, p, g, u);
          n := g;
        } else {
          TurnBlackUncle(n, p, g);
          return;
        }
      }
    }

    // ----- Erasure -----

    // Case 2 of balance_for_erase: the sibling `b` is red.
    method TurnRedSibling(n: Node<K>, p: Node<K>, b: Node<K>, ghost s: Side) returns (b': Node<K>)
      requires Sound(nil, Debt(p, s)) && p in m && p != head && m[p].Kid(s) == n && m[p].Kid(Other(s)) == b
      requires Col(w, n) == Black && b in m && w[b].color == Red && (m[p].l == n <==> s == L)
      modifies this`m, this`w, m.Keys
      ensures Sound(nil, Debt(p, s)) && SameOrder(V(), old(m), m)
      ensures p in m && m[p].Kid(s) == n && m[p].Kid(Other(s)) == b' && b' in m && w[b'].color == Black
      ensures w[p].color == Red && Col(w, n) == Black
    {
      ghost var m0, w0 := m, w;
      RedSibling(V(), m, w, p, s);
      assert TiedAt(p);
      SetColors(p, Red, w[b].bh, b, Black, w[p].bh);
      if p.left == n {
        RotateLeft(p);
        assert TiedAt(p);
        b' := p.right;
      } else {
        RotateRight(p);
        assert TiedAt(p);
        b' := p.left;
      }
      Turn(V(), m0, w0, Other(s), p, b, m0[p].p, m0[b].Kid(s), m, w, nil, Debt(p, s));
    }

    // Cases 3 and 4: the sibling `b` is black, and so are its children.
    method PaintSibling(p: Node<K>, b: Node<K>, ghost s: Side) returns (done: bool)
      requires Sound(nil, Debt(p, s)) && p in m && p != head && m[p].Kid(Other(s)) == b
      requires b in m && w[b].color == Black && Col(w, m[b].l) == Col(w, m[b].r) == Black && Col(w, m[p].Kid(s)) == Black
      modifies this`w, m.Keys
      ensures done == (old(w)[p].color == Red) && p in w && w[p].color == Black
      ensures m[p].p in m && Sound(nil, if done then NoDebt else Debt(m[p].p, SideOf(m, p)))
    {
      ghost var w0 := w;
      EraseKin(V(), m, w, p, s);
      assert TiedAt(p);
      done := p.color == Red;
      SetColors(b, Red, w[b].bh - 1, p, Black, w[b].bh);
      EraseSibling(V(), m, w0, s, p, b, w, if done then NoDebt else Debt(m[p].p, SideOf(m, p)));
    }

    // Case 5: the inner child `c` of the black sibling `b` is red, the outer one black.
    method TurnInner(n: Node<K>, p: Node<K>, b: Node<K>, c: Node<K>, ghost s: Side)
      requires Sound(nil, Debt(p, s)) && p in m && p != head && m[p].Kid(s) == n && m[p].Kid(Other(s)) == b && b in m
      requires w[b].color == Black && m[b].Kid(s) == c && Col(w, c) == Red && Col(w, m[b].Kid(Other(s))) == Black
      modifies this`m, this`w, m.Keys
      ensures Sound(nil, Debt(p, s)) && SameOrder(V(), old(m), m)
      ensures m[p].Kid(s) == n && m[p].Kid(Other(s)) == c && c in m && b in m && m[c].Kid(Other(s)) == b
      ensures w[c].color == Black && w[b].color == Red && w[p].color == old(w)[p].color
    {
      ghost var m0, w0 := m, w;
      EraseKin(V(), m, w, p, s);
      assert TiedAt(p);
      SetColors(c, Black, w[b].bh, b, Red, w[c].bh);
      if p.left == n {
        RotateRight(b);
      } else {
        RotateLeft(b);
      }
      Turn(V(), m0, w0, s, b, c, p, m0[c].Kid(Other(s)), m, w, nil, Debt(p, s));
    }

    // Case 6: the outer child `f` of the black sibling `b` is red.
    method TurnOuter(n: Node<K>, p: Node<K>, b: Node<K>, f: Node<K>, ghost s: Side)
      requires Sound(nil, Debt(p, s)) && p in m && p != head && m[p].Kid(s) == n && m[p].Kid(Other(s)) == b && b in m
      requires w[b].color == Black && m[b].Kid(Other(s)) == f && Col(w, f) == Red
      modifies this`m, this`w, m.Keys
      ensures Sound(nil, NoDebt) && SameOrder(V(), old(m), m)
    {
      hide Shape, Balanced;
      ghost var m0, w0 := m, w;
      EraseKin(V(), m, w, p, s);
      assert TiedAt(p) && TiedAt(b);
      SetColor(f, Black, w[f].bh + 1);
      if p.left == n {
        RotateLeft(p);
      } else {
        RotateRight(p);
      }
      assert TiedAt(p) && TiedAt(b);
      var c := p.color;
      SetColors(p, b.color, w[b].bh, b, c, w[p].bh);
      Outer(V(), m0, w0, s, p, b, m0[p].p, m0[b].Kid(s), f, m, w);
    }

    // Cases 5 and 6: the sibling `b0` is black and has a red child.
    method TurnNephew(n: Node<K>, p: Node<K>, b0: Node<K>, ghost s: Side)
      requires Sound(nil, Debt(p, s)) && p in m && p != head && m[p].Kid(s) == n && m[p].Kid(Other(s)) == b0 && b0 in m
      requires w[b0].color == Black && (Col(w, m[b0].l) == Red || Col(w, m[b0].r) == Red)
      modifies this`m, this`w, m.Keys
      ensures Sound(nil, NoDebt) && SameOrder(V(), old(m), m)
    {
      EraseKin(V(), m, w, p, s);
      var b := b0;
      assert TiedAt(p) && TiedAt(b) && (m[b].l == nil || TiedAt(m[b].l)) && (m[b].r == nil || TiedAt(m[b].r));
      var bl, br := b.left, b.right;
      var left := p.left == n;
      if left && bl.color == Red && br.color == Black {
        TurnInner(n, p, b, bl, s);
        br, b := b, bl;
      } else if !left && bl.color == Black && br.color == Red {
        TurnInner(n, p, b, br, s);
        bl, b := b, br;
      }
      TurnOuter(n, p, b, if left then br else bl, s);
    }

    // Cases 3 to 6: the sibling `b` is black.
    method RepairBlackSibling(n: Node<K>, p: Node<K>, b: Node<K>, ghost s: Side) returns (done: bool)
      requires Sound(nil, Debt(p, s)) && p in m && p != head && m[p].Kid(s) == n && Col(w, n) == Black
      requires m[p].Kid(Other(s)) == b && b in m && w[b].color == Black
      modifies this`m, this`w, m.Keys
      ensures SameOrder(V(), old(m), m)
      ensures done ==> Sound(nil, NoDebt)
      ensures !done ==> m == old(m) && p in w && w[p].color == Black && old(w)[p].color != Red
                        && m[p].p in m && Sound(nil, Debt(m[p].p, SideOf(m, p)))
    {
      EraseKin(V(), m, w, p, s);
      assert TiedAt(b) && (m[b].l == nil || TiedAt(m[b].l)) && (m[b].r == nil || TiedAt(m[b].r));
      if b.left.color == Black && b.right.color == Black {
        done := PaintSibling(p, b, s);
      } else {
        TurnNephew(n, p, b, s);
        done := true;
      }
    }

    // One round of balance_for_erase at a node that is not the root.
    method EraseStep(n: Node<K>, p: Node<K>, ghost s: Side) returns (done: bool)
      requires Sound(nil, Debt(p, s)) && p in m && p != head && m[p].Kid(s) == n && Col(w, n) == Black
      modifies this`m, this`w, m.Keys
      ensures done ==> Sound(nil, NoDebt) && SameOrder(V(), old(m), m)
      ensures !done ==> m == old(m) && p in w && w[p].color == Black && m[p].p in m && Sound(nil, Debt(m[p].p, SideOf(m, p)))
    {
      EraseKin(V(), m, w, p, s);
      assert TiedAt(p);
      var b := if p.left == n then p.right else p.left;
      assert TiedAt(b);
      if b.color == Red {
        b := TurnRedSibling(n, p, b, s);
        ghost var m1 := m;
        done := RepairBlackSibling(n, p, b, s);
        SameOrderTrans(V(), old(m), m1, m);
      } else {
        done := RepairBlackSibling(n, p, b, s);
      }
    }

    method BalanceForErase(n0: Node<K>, pOfN: Node?<K>, ghost q0: Node<K>, ghost s0: Side)
      requires Sound(if Col(w, n0) == Red then n0 else nil, Debt(q0, s0)) && q0 in m && m[q0].Kid(s0) == n0
      requires n0 == nil ==> pOfN == q0 && q0 != head
      modifies this`m, this`w, m.Keys
      ensures Sound(nil, NoDebt) && SameOrder(V(), old(m), m)
    {
      var n := n0;
      OwingKin(V(), m, w, if Col(w, n0) == Red then n0 else nil, q0, s0);
      assert n == nil || TiedAt(n);
      if n.color == Red {
        ghost var w0 := w;
        SetColor(n, Black, w[n].bh + 1);
        PayRed(V(), m, w0, n, q0, s0, w);
        return;
      }
      ghost var q, s := q0, s0;
      while true
        invariant Sound(nil, Debt(q, s)) && q in m && m[q].Kid(s) == n && Col(w, n) == Black
        invariant if n == nil then pOfN == q && q != head else n in m
        invariant m == old(m)
        decreases m[head].hi + 1 - if n == nil then 0 else m[n].hi - m[n].lo
      {
        OwingKin(V(), m, w, nil, q, s);
        assert n == nil || (TiedAt(n) && TiedAt(m[n].p));
        if n.parent.color == Head {
          DebtAtRoot(V(), m, w, nil, s);
          return;
        }
        var p := if n == nil then pOfN else n.parent;
        EraseKin(V(), m, w, p, s);
        assert TiedAt(p);
        var done := EraseStep(n, p, s);
        if done {
          return;
        }
        n := p;
        q, s := m[p].p, SideOf(m, p);
      }
    }

    // ----- Exchanging two nodes -----

    method PutFields(ghost ns: set<Node<K>>, y: Node<K>, o: Node<K>, p: Node<K>, l: Node<K>, r: Node<K>)
      requires nil !in ns && {y, p} <= ns && (l == nil || l in ns) && (r == nil || r in ns)
      requires y != p && y != l && y != r && p != l && p != r
      modifies ns
      ensures forall k :: k in ns ==> k.color == old(k.color)
      ensures forall k :: k in ns && k != y && k != p ==> k.left == old(k.left) && k.right == old(k.right)
      ensures forall k :: k in ns && k != y && k != l && k != r ==> k.parent == old(k.parent)
      ensures y.parent == p && y.left == l && y.right == r && (l != nil ==> l.parent == y) && (r != nil ==> r.parent == y)
      ensures p.left == (if old(p.left) == o then y else old(p.left))
      ensures p.right == (if old(p.left) == o then old(p.right) else y)
    {
      if p.left == o {
        p.left := y;
      } else {
        p.right := y;
      }
      y.parent := p;
      y.left := l;
      if l != nil {
        l.parent := y;
      }
      y.right := r;
      if r != nil {
        r.parent := y;
      }
    }

    // `y` takes the place of `o` under `p`, with the children `l` and `r`.
    method Put(y: Node<K>, o: Node<K>, p: Node<K>, l: Node<K>, r: Node<K>)
      requires Tied() && y in m && p in m && (l == nil || l in m) && (r == nil || r in m)
      requires y != p && y != l && y != r && p != l && p != r
      modifies this`m, m.Keys
      ensures Tied() && Placed(V(), old(m), y, o, p, l, r, m)
    {
      ghost var m0 := m;
      assert TiedAt(p);
      PutFields(m.Keys, y, o, p, l, r);
      m := Placing(V(), m, y, o, p, l, r);
      forall k | k in m
        ensures TiedAt(k)
      {
        assert old(TiedAt(k));
      }
    }

    method SwapParentChild(p: Node<K>, c: Node<K>)
      requires Tied() && Shape(V(), m) && p in m && c in m && p != head && m[c].p == p && c != head
      modifies this`m, m.Keys
      ensures Tied() && Renamed(old(m), p, c, m)
    {
      ghost var m0 := m;
      assert TiedAt(p) && TiedAt(c);
      Apart(V(), m, p);
      Apart(V(), m, c);
      ghost var s := if p.left == c then L else R;
      var cl, cr := c.left, c.right;
      if p.left == c {
        Put(c, p, p.parent, p, p.right);
      } else {
        Put(c, p, p.parent, p.left, p);
      }
      ghost var m1 := m;
      Put(p, p, c, cl, cr);
      forall k | k in m0
        ensures RenamedAt(m0, p, c, m, k)
      {
        PlacedChild(V(), m0, s, p, c, m1, m, k);
      }
      Rename(m0, p, c);
    }

    ghost method Rename(m0: Store<K>, s: Node<K>, t: Node<K>)
      requires Tied() && s in m0 && t in m0 && m.Keys == m0.Keys
      requires forall k {:trigger RenamedAt(m0, s, t, m, k)} :: k in m0 ==> RenamedAt(m0, s, t, m, k)
      modifies this`m
      ensures Tied() && Renamed(m0, s, t, m)
    {
      m := Renaming(m0, s, t, m);
      forall k | k in m
        ensures TiedAt(k)
      {
        assert old(TiedAt(k));
      }
    }

    method SwapStrangers(s: Node<K>, t: Node<K>)
      requires Tied() && Shape(V(), m) && Strangers(m, s, t) && s != head && t != head
      modifies this`m, m.Keys
      ensures Tied() && Renamed(old(m), s, t, m)
    {
      ghost var m0 := m;
      assert TiedAt(s) && TiedAt(t);
      Apart(V(), m, s);
      Apart(V(), m, t);
      var tp, tl, tr := t.parent, t.left, t.right;
      Put(t, s, s.parent, s.left, s.right);
      ghost var m1 := m;
      Put(s, t, tp, tl, tr);
      forall k | k in m0
        ensures RenamedAt(m0, s, t, m, k)
      {
        PlacedTwice(V(), m0, s, t, m1, m, k);
      }
      Rename(m0, s, t);
    }

    method SwapColors(s: Node<K>, t: Node<K>)
      requires Tied() && s in m && t in m && s != t && w[s].color != Head && w[t].color != Head
      modifies this`w, m.Keys
      ensures Tied() && SameBut(old(w), w, s, t, t) && w[s] == old(w)[t] && w[t] == old(w)[s]
    {
      assert TiedAt(s) && TiedAt(t);
      var c := s.color;
      SetColors(s, t.color, w[t].bh, t, c, w[s].bh);
    }

    // RBTree_swap: siblings must not be passed to it.
    method SwapNodes(s: Node<K>, t: Node<K>)
      requires Tied() && Shape(V(), m) && s in m && t in m && s != head && t != head && s != t && m[s].p != m[t].p
      requires w[s].color != Head && w[t].color != Head
      modifies this`m, this`w, m.Keys
      ensures Tied() && Renamed(old(m), s, t, m)
      ensures SameBut(old(w), w, s, t, t) && w[s] == old(w)[t] && w[t] == old(w)[s]
    {
      assert TiedAt(s) && TiedAt(t);
      if t.parent == s {
        SwapParentChild(s, t);
      } else if s.parent == t {
        ghost var m0 := m;
        SwapParentChild(t, s);
        SwapSymmetric(m0, s, t, m);
      } else {
        SwapStrangers(s, t);
      }
      SwapColors(s, t);
    }

    // ----- The tree as a sorted sequence -----

    ghost predicate Valid()
      reads this, m.Keys, nil
    {
      Sound(nil, NoDebt) && InOrder(V(), m, order) && TotalPreorder(cmp) && SortedBy(cmp, order)
    }

    // The slot of the search path for `key`: under `q`, on the left or on the right.
    method FindSlot(key: K) returns (q: Node<K>, left: bool)
      requires Valid() && order != []
      ensures q in m && q != head && left == (cmp(key, q.key) < 0)
      ensures m[q].Kid(if left then L else R) == nil
      ensures Splits(cmp, order, key, if left then m[q].at else m[q].at + 1, false)
    {
      assert TiedAt(head);
      var n := head.right;
      while true
        invariant n in m && n != head
        invariant Brackets(cmp, order, m[n].lo, m[n].hi, key, false)
        decreases m[n].hi - m[n].lo
      {
        SearchStep(V(), m, cmp, order, n, key, false);
        assert TiedAt(n);
        q := n;
        if cmp(key, n.key) < 0 {
          n := n.left;
        } else {
          n := n.right;
        }
        if n == nil {
          left := cmp(key, q.key) < 0;
          SplitHere(cmp, order, key, if left then m[q].at else m[q].at + 1, false);
          return;
        }
      }
    }

    // Hangs the new node `z` on an empty slot of `q`.
    method HangFields(q: Node<K>, z: Node<K>, left: bool)
      requires q != z
      modifies q, z
      ensures z.parent == q && z.left == old(z.left) && z.right == old(z.right) && z.color == old(z.color)
      ensures q.parent == old(q.parent) && q.color == old(q.color)
      ensures q.left == (if left then z else old(q.left)) && q.right == if left then old(q.right) else z
    {
      if left {
        q.left := z;
      } else {
        q.right := z;
      }
      z.parent := q;
    }

    method Hang(q: Node<K>, z: Node<K>, left: bool, ghost bh: nat)
      requires Tied() && q in m && (q == head ==> !left) && m[q].Kid(if left then L else R) == nil
      requires z !in m && z != nil && z.left == z.right == nil
      modifies this`m, this`w, q, z
      ensures Tied() && w == old(w)[z := Paint(z.color, bh)] && z.color == old(z.color)
      ensures Attached(V(), old(m), q, if left then L else R, z, if left then old(m)[q].at else old(m)[q].at + 1, m)
    {
      hide Attached;
      ghost var s, pos := if left then L else R, if left then m[q].at else m[q].at + 1;
      assert TiedAt(q);
      ghost var m' := Attaching(V(), m, q, s, z);
      HangFields(q, z, left);
      forall k | k in m'
        ensures m'[k].l == k.left && m'[k].r == k.right && m'[k].p == k.parent && (k in w ==> w[k].color == k.color)
      {
        AttachedLinks(V(), m, q, s, z, pos, m', k);
        if k != z {
          assert old(TiedAt(k));
        }
      }
      Adopt(m', z, bh);
    }

    // The model takes in a new node.
    ghost method Adopt(m': Store<K>, z: Node<K>, bh: nat)
      requires m.Keys == w.Keys && head in m && z !in m && z != nil && m'.Keys == m.Keys + {z} && nil !in m
      requires nil.left == nil.right == nil.parent == nil && nil.color == Black
      requires forall k {:trigger m'[k]} :: k in m' ==>
        m'[k].l == k.left && m'[k].r == k.right && m'[k].p == k.parent && (k in w ==> w[k].color == k.color)
      modifies this`m, this`w
      ensures Tied() && m == m' && w == old(w)[z := Paint(z.color, bh)]
    {
      m, w := m', w[z := Paint(z.color, bh)];
      forall k | k in m
        ensures TiedAt(k)
      {
        assert m'[k].l == k.left;
      }
    }

    method InsertRoot(z: Node<K>)
      requires Valid() && m[head].r == nil && z !in m && z != nil && z.left == z.right == nil
      modifies this`m, this`w, this`order, head, z
      ensures Valid() && m.Keys == old(m.Keys) + {z} && old(order) == [] && order == [z]
    {
      ghost var m0, w0 := m, w;
      z.color := Black;
      Hang(head, z, false, 1);
      AttachedAll(V(), m0, w0, order, head, R, z, 0, m, w);
      assert order[..0] + [z] + order[0..] == [z];
      order := [z];
    }

    method InsertBelow(q: Node<K>, z: Node<K>, left: bool, ghost pos: int)
      requires Sound(nil, NoDebt) && InOrder(V(), m, order)
      requires q in m && q != head && m[q].Kid(if left then L else R) == nil
      requires z !in m && z != nil && z.left == z.right == nil && z.color == Red
      requires pos == if left then m[q].at else m[q].at + 1
      modifies this`m, this`w, q, z
      ensures Sound(z, NoDebt) && m.Keys == old(m.Keys) + {z} && z in w && w[z].color == Red
      ensures 0 <= pos <= |order| && InOrder(V(), m, order[..pos] + [z] + order[pos..])
    {
      ghost var m0, w0 := m, w;
      Hang(q, z, left, 0);
      AttachedAll(V(), m0, w0, order, q, if left then L else R, z, pos, m, w);
    }

    method InsertAndBalance(q: Node<K>, z: Node<K>, left: bool, ghost pos: int) returns (ghost ord': seq<Node<K>>)
      requires Sound(nil, NoDebt) && InOrder(V(), m, order)
      requires q in m && q != head && m[q].Kid(if left then L else R) == nil
      requires z !in m && z != nil && z.left == z.right == nil && z.color == Red
      requires pos == if left then m[q].at else m[q].at + 1
      modifies this`m, this`w, m.Keys, z
      ensures Sound(nil, NoDebt) && m.Keys == old(m.Keys) + {z}
      ensures 0 <= pos <= |order| && ord' == order[..pos] + [z] + order[pos..] && InOrder(V(), m, ord')
    {
      hide TiedAt, Shape, Balanced, InOrder, SameOrder;
      InsertBelow(q, z, left, pos);
      ghost var m1 := m;
      ord' := order[..pos] + [z] + order[pos..];
      BalanceForInsert(z);
      SameOrderKept(V(), m1, m, ord');
    }

    /** The new node goes after every key not above its own; all other nodes stay what they were. */
    method Insert(z: Node<K>) returns (ghost pos: int)
      requires Valid() && z !in m && z != nil && z.left == z.right == nil && z.color == Red
      modifies this`m, this`w, this`order, m.Keys, z
      ensures Valid() && m.Keys == old(m.Keys) + {z}
      ensures Splits(cmp, old(order), z.key, pos, false)
      ensures order == old(order)[..pos] + [z] + old(order)[pos..]
    {
      assert TiedAt(head);
      if head.right == nil {
        pos := 0;
        InsertRoot(z);
      } else {
        var q, left := FindSlot(z.key);
        pos := if left then m[q].at else m[q].at + 1;
        SortedInsert(cmp, order, z, pos);
        order := InsertAndBalance(q, z, left, pos);
      }
    }

    // RBTree_replace_subtree: the node `n` goes out, its child `c` takes its slot.
    method ReplaceFields(n: Node<K>, c: Node<K>)
      requires n != n.parent && c != n && c != n.parent
      modifies n.parent, if c == nil then {} else {c}
      ensures n.left == old(n.left) && n.right == old(n.right) && n.parent == old(n.parent) && n.color == old(n.color)
      ensures var p := n.parent;
        && p.left == (if old(p.left) == n then c else old(p.left)) && p.right == (if old(p.left) == n then old(p.right) else c)
        && p.parent == old(p.parent) && p.color == old(p.color)
      ensures c != nil ==> c.left == old(c.left) && c.right == old(c.right) && c.color == old(c.color) && c.parent == n.parent
    {
      if n.parent.left == n {
        n.parent.left := c;
      } else {
        n.parent.right := c;
      }
      if c != nil {
        c.parent := n.parent;
      }
    }

    method Unlink(n: Node<K>, c: Node<K>)
      requires Tied() && Shape(V(), m) && n in m && n != head
      requires (m[n].l == nil && m[n].r == c) || (m[n].r == nil && m[n].l == c)
      modifies this`m, this`w, m.Keys
      ensures Tied() && Unlinked(V(), old(m), n, c, m) && w == old(w) - {n}
      ensures n.parent == old(m)[n].p && n.color == old(w)[n].color
    {
      hide Shape;
      Apart(V(), m, n);
      assert TiedAt(n) && TiedAt(m[n].p);
      ReplaceFields(n, c);
      m := Unlinking(V(), m, n, c);
      w := w - {n};
      forall k | k in m
        ensures TiedAt(k)
      {
        assert old(TiedAt(k));
        UnlinkedFields(V(), old(m), n, c, m, k);
      }
    }

    // Takes out a node with at most one child, `c`, and repairs the colours.
    method UnlinkAndBalance(n: Node<K>, c: Node<K>, ghost ord: seq<Node<K>>) returns (ghost ord': seq<Node<K>>)
      requires Sound(nil, NoDebt) && InOrder(V(), m, ord) && n in m && n != head
      requires (m[n].l == nil && m[n].r == c) || (m[n].r == nil && m[n].l == c)
      modifies this`m, this`w, m.Keys
      ensures Sound(nil, NoDebt) && InOrder(V(), m, ord') && m.Keys == old(m.Keys) - {n}
      ensures 0 <= old(m)[n].at < |ord| && ord' == ord[..old(m)[n].at] + ord[old(m)[n].at + 1..]
    {
      ghost var m0, w0 := m, w;
      Unlink(n, c);
      UnlinkedAll(V(), m0, w0, ord, n, c, m, w);
      ord' := ord[..m0[n].at] + ord[m0[n].at + 1..];
      if n.color == Black {
        ghost var m1 := m;
        // The last node of the tree leaves nothing to repair.
        if c == nil && n.parent == head {
          DebtAtRoot(V(), m, w, nil, SideOf(m0, n));
        } else {
          BalanceForErase(c, if c == nil then n.parent else null, m0[n].p, SideOf(m0, n));
          SameOrderKept(V(), m1, m, ord');
        }
      }
    }

    // The rightmost node of the left subtree of `n`.
    method Rightmost(n: Node<K>) returns (x: Node<K>)
      requires Tied() && Shape(V(), m) && n in m && n != head && m[n].l != nil
      ensures x in m && x != head && m[x].hi == m[n].at && m[x].r == nil && m[x].at < m[n].at
    {
      assert TiedAt(n) && NodeOK(V(), m, n);
      x := n.left;
      assert TiedAt(x) && NodeOK(V(), m, x);
      while x.right != nil
        invariant x in m && x != head && m[x].hi == m[n].at && TiedAt(x) && NodeOK(V(), m, x)
        decreases m[x].hi - m[x].lo
      {
        x := x.right;
        assert TiedAt(x) && NodeOK(V(), m, x);
      }
    }

    // Exchanges `n`, which has two children, with its predecessor `x`.
    method SwapWithPredecessor(n: Node<K>, x: Node<K>, ghost ord: seq<Node<K>>) returns (ghost ord': seq<Node<K>>)
      requires Sound(nil, NoDebt) && InOrder(V(), m, ord) && n in m && n != head && m[n].r != nil
      requires x in m && x != head && m[x].hi == m[n].at && m[x].r == nil && m[x].at < m[n].at
      modifies this`m, this`w, m.Keys
      ensures Sound(nil, NoDebt) && InOrder(V(), m, ord') && m.Keys == old(m.Keys) && m[n].r == nil
      ensures 0 <= m[n].at && m[n].at + 1 == old(m)[n].at < |ord| == |ord'|
      ensures ord'[..m[n].at] + ord'[m[n].at + 1..] == ord[..old(m)[n].at] + ord[old(m)[n].at + 1..]
    {
      ghost var m0, w0 := m, w;
      PredecessorKin(V(), m, n, x);
      assert BlackOK(m, w, n, NoDebt) && BlackOK(m, w, x, NoDebt);
      SwapNodes(n, x);
      ord' := PredecessorAll(V(), m0, w0, ord, n, x, m, w);
    }

    method EraseInner(n: Node<K>, ghost ord: seq<Node<K>>) returns (ghost ord': seq<Node<K>>)
      requires Sound(nil, NoDebt) && InOrder(V(), m, ord) && n in m && n != head && m[n].l != nil && m[n].r != nil
      modifies this`m, this`w, m.Keys
      ensures Sound(nil, NoDebt) && InOrder(V(), m, ord') && m.Keys == old(m.Keys) - {n}
      ensures 0 <= old(m)[n].at < |ord| && ord' == ord[..old(m)[n].at] + ord[old(m)[n].at + 1..]
    {
      var x := Rightmost(n);
      ghost var ord1 := SwapWithPredecessor(n, x, ord);
      assert TiedAt(n);
      ord' := UnlinkAndBalance(n, n.left, ord1);
    }

    method EraseNode(n: Node<K>, ghost ord: seq<Node<K>>) returns (ghost ord': seq<Node<K>>)
      requires Sound(nil, NoDebt) && InOrder(V(), m, ord) && n in m && n != head
      modifies this`m, this`w, m.Keys
      ensures Sound(nil, NoDebt) && InOrder(V(), m, ord') && m.Keys == old(m.Keys) - {n}
      ensures 0 <= old(m)[n].at < |ord| && ord' == ord[..old(m)[n].at] + ord[old(m)[n].at + 1..]
    {
      assert TiedAt(n);
      if n.left == nil {
        ord' := UnlinkAndBalance(n, n.right, ord);
      } else if n.right == nil {
        ord' := UnlinkAndBalance(n, n.left, ord);
      } else {
        ord' := EraseInner(n, ord);
      }
    }

    /** Exactly the given node leaves the sequence; all other nodes stay what they were. */
    method Erase(n: Node<K>)
      requires Valid() && n in m && n != head
      modifies this`m, this`w, this`order, m.Keys
      ensures Valid() && m.Keys == old(m.Keys) - {n}
      ensures var i := old(m)[n].at; 0 <= i < |old(order)| && old(order)[i] == n && order == old(order)[..i] + old(order)[i + 1..]
    {
      assert Listed(m, order, n);
      SortedErase(cmp, order, m[n].at);
      order := EraseNode(n, order);
    }

    // ----- Iterators -----

    ghost predicate IsAt(r: Node<K>, i: int)
      reads `m, `order
    {
      0 <= i <= |order| && if i == |order| then r == head else r == order[i]
    }

    /** The position an iterator stands for; the header stands for the end. */
    ghost function Pos(r: Node<K>): int
      requires r == head || r in m
      reads `m, `order
    {
      if r == head then |order| else m[r].at
    }

    /** The successor in the sequence, or the header after the last node. */
    method Next(pos: Node<K>) returns (r: Node<K>)
      requires Valid() && pos in m && pos != head
      ensures IsAt(r, m[pos].at + 1)
    {
      r := pos;
      assert TiedAt(r) && NodeOK(V(), m, r) && Listed(m, order, r);
      if r.right != nil {
        r := r.right;
        assert TiedAt(r) && NodeOK(V(), m, r);
        while r.left != nil
          invariant r in m && r != head && m[r].lo == m[pos].at && TiedAt(r) && NodeOK(V(), m, r)
          decreases m[r].hi - m[r].lo
        {
          r := r.left;
          assert TiedAt(r) && NodeOK(V(), m, r);
        }
        assert Listed(m, order, r);
        return;
      }
      assert TiedAt(r.parent);
      while r.parent.color != Head && r == r.parent.right
        invariant r in m && r != head && m[r].hi == m[pos].at + 1 && TiedAt(r) && NodeOK(V(), m, r) && TiedAt(m[r].p)
        decreases m[head].hi + 1 - (m[r].hi - m[r].lo)
      {
        RootColour(V(), m, w, r);
        r := r.parent;
        assert TiedAt(r) && NodeOK(V(), m, r) && TiedAt(r.parent);
      }
      RootColour(V(), m, w, r);
      r := r.parent;
      assert r != head ==> NodeOK(V(), m, r) && Listed(m, order, r);
    }

    /** The predecessor in the sequence, or the header before the first node. */
    method Prev(pos: Node<K>) returns (r: Node<K>)
      requires Valid() && pos in m && pos != head
      ensures if m[pos].at == 0 then r == head else IsAt(r, m[pos].at - 1)
    {
      r := pos;
      assert TiedAt(r) && NodeOK(V(), m, r) && Listed(m, order, r);
      if r.left != nil {
        r := r.left;
        assert TiedAt(r) && NodeOK(V(), m, r);
        while r.right != nil
          invariant r in m && r != head && m[r].hi == m[pos].at && TiedAt(r) && NodeOK(V(), m, r)
          decreases m[r].hi - m[r].lo
        {
          r := r.right;
          assert TiedAt(r) && NodeOK(V(), m, r);
        }
        assert Listed(m, order, r);
        return;
      }
      assert TiedAt(r.parent);
      while r.parent.color != Head && r == r.parent.left
        invariant r in m && r != head && m[r].lo == m[pos].at - 1 && TiedAt(r) && NodeOK(V(), m, r) && TiedAt(m[r].p)
        decreases m[head].hi + 1 - (m[r].hi - m[r].lo)
      {
        RootColour(V(), m, w, r);
        r := r.parent;
        assert TiedAt(r) && NodeOK(V(), m, r) && TiedAt(r.parent);
      }
      RootColour(V(), m, w, r);
      r := r.parent;
      assert r != head ==> NodeOK(V(), m, r) && Listed(m, order, r);
    }

    method Begin() returns (r: Node<K>)
      requires Valid()
      ensures IsAt(r, 0)
    {
      r := head;
      assert TiedAt(head);
      var t := head.right;
      assert t != nil ==> NodeOK(V(), m, t);
      while t != nil
        invariant t != nil ==> t in m && t != head && m[t].lo == -1 && NodeOK(V(), m, t)
        invariant r == head ==> t == head.right
        invariant r != head ==> r in m && NodeOK(V(), m, r) && m[r].lo == -1 && m[r].l == t
        decreases if t == nil then 0 else m[t].hi - m[t].lo
      {
        assert TiedAt(t);
        r := t;
        t := t.left;
        assert t != nil ==> NodeOK(V(), m, t);
      }
      assert r != head ==> Listed(m, order, r);
    }

    /** The first node whose key is not below `key` (or, when not `strict`, above it). */
    method Bound(key: K, strict: bool) returns (r: Node<K>)
      requires Valid()
      ensures (r == head || r in m) && IsAt(r, Pos(r)) && Splits(cmp, order, key, Pos(r), strict)
    {
      r := head;
      assert TiedAt(head);
      var t := head.right;
      ghost var lo, hi := -1, |order|;
      while t != nil
        invariant Brackets(cmp, order, lo, hi, key, strict) && IsAt(r, hi)
        invariant if t == nil then hi == lo + 1 else t in m && t != head && m[t].lo == lo && m[t].hi == hi
        decreases if t == nil then 0 else hi - lo
      {
        assert TiedAt(t);
        SearchStep(V(), m, cmp, order, t, key, strict);
        if (if strict then cmp(key, t.key) <= 0 else cmp(key, t.key) < 0) {
          r := t;
          hi := m[t].at;
          t := t.left;
        } else {
          lo := m[t].at;
          t := t.right;
        }
      }
      assert r != head ==> Listed(m, order, r);
      SplitHere(cmp, order, key, hi, strict);
    }

    method LowerBound(key: K) returns (r: Node<K>)
      requires Valid()
      ensures (r == head || r in m) && IsAt(r, Pos(r)) && Splits(cmp, order, key, Pos(r), true)
    {
      r := Bound(key, true);
    }

    method UpperBound(key: K) returns (r: Node<K>)
      requires Valid()
      ensures (r == head || r in m) && IsAt(r, Pos(r)) && Splits(cmp, order, key, Pos(r), false)
    {
      r := Bound(key, false);
    }

    /** Some node with an equivalent key, or the header when there is none. */
    method Find(key: K) returns (r: Node<K>)
      requires Valid()
      ensures if r == head then forall n :: n in m && n != head ==> cmp(key, n.key) != 0 else r in m && cmp(key, r.key) == 0
    {
      assert TiedAt(head);
      var t := head.right;
      ghost var lo, hi := -1, |order|;
      while t != nil
        invariant -1 <= lo < hi <= |order|
        invariant lo >= 0 ==> cmp(key, order[lo].key) > 0
        invariant hi < |order| ==> cmp(key, order[hi].key) < 0
        invariant if t == nil then hi == lo + 1 else t in m && t != head && m[t].lo == lo && m[t].hi == hi
        decreases if t == nil then 0 else hi - lo
      {
        assert TiedAt(t) && NodeOK(V(), m, t) && Listed(m, order, t);
        var c := cmp(key, t.key);
        if c < 0 {
          hi := m[t].at;
          t := t.left;
        } else if c > 0 {
          lo := m[t].at;
          t := t.right;
        } else {
          return t;
        }
      }
      SplitHere(cmp, order, key, hi, true);
      SplitHere(cmp, order, key, hi, false);
      forall n | n in m && n != head
        ensures cmp(key, n.key) != 0
      {
        assert Listed(m, order, n);
      }
      r := head;
    }

    // ----- The set and map wrappers -----

    /** Erases `pos` and returns its successor. */
    method EraseAt(pos: Node<K>) returns (r: Node<K>)
      requires Valid() && pos in m && pos != head
      modifies this`m, this`w, this`order, m.Keys
      ensures Valid() && m.Keys == old(m.Keys) - {pos}
      ensures 0 <= old(m)[pos].at < |old(order)| && old(order)[old(m)[pos].at] == pos
      ensures order == old(order)[..old(m)[pos].at] + old(order)[old(m)[pos].at + 1..] && IsAt(r, old(m)[pos].at)
    {
      assert Listed(m, order, pos);
      r := Next(pos);
      Erase(pos);
    }

    /** Iterators at positions `i` and `j` are equal exactly when the positions are. */
    lemma IteratorsDiffer(p: Node<K>, q: Node<K>, i: int, j: int)
      requires Valid() && IsAt(p, i) && IsAt(q, j) && i <= j
      ensures p == q <==> i == j
      ensures i < j ==> p in m && p != head && m[p].at == i && order[i] == p
    {
    }

    // Erases `pos`, at position `i`; `n` elements of `ord` have gone from there before.
    method EraseBefore(pos: Node<K>, last: Node<K>, ghost i: int, ghost j: int, ghost ord: seq<Node<K>>, ghost n: nat)
      returns (r: Node<K>)
      requires Valid() && IsAt(pos, i) && IsAt(last, j) && i < j && Cut(ord, i, n, order)
      modifies this`m, this`w, this`order, m.Keys
      ensures Valid() && m.Keys <= old(m.Keys) && Cut(ord, i, n + 1, order)
      ensures IsAt(r, i) && IsAt(last, j - 1) && (r == last <==> i == j - 1)
    {
      hide Valid, Cut;
      IteratorsDiffer(pos, last, i, j);
      r := EraseAt(pos);
      CutNext(ord, i, n, old(order), order);
      assert j - 1 < |order| ==> order[j - 1] == old(order)[j];
      IteratorsDiffer(r, last, i, j - 1);
    }

    /** Erases from `first` up to and without `last`. */
    method EraseRange(first: Node<K>, last: Node<K>) returns (count: nat)
      requires Valid() && (first == head || first in m) && (last == head || last in m)
      requires IsAt(first, Pos(first)) && IsAt(last, Pos(last)) && Pos(first) <= Pos(last)
      modifies this`m, this`w, this`order, m.Keys
      ensures Valid() && count == old(Pos(last) - Pos(first)) && Cut(old(order), old(Pos(first)), count, order)
    {
      hide Valid, Cut;
      count := 0;
      var pos := first;
      ghost var ord, i, end := order, Pos(first), Pos(last);
      CutNothing(order, i);
      ghost var n := end - i;
      IteratorsDiffer(pos, last, i, end);
      while pos != last
        invariant Valid() && Cut(ord, i, count, order) && m.Keys <= old(m.Keys) && i <= end == i + n - count
        invariant IsAt(pos, i) && IsAt(last, end) && (pos == last <==> i == end)
        decreases end - i
      {
        pos := EraseBefore(pos, last, i, end, ord, count);
        count, end := count + 1, end - 1;
      }
    }

    /** Erases all nodes with an equivalent key, and says how many there were. */
    method EraseKey(key: K) returns (count: nat, ghost i: int)
      requires Valid()
      modifies this`m, this`w, this`order, m.Keys
      ensures Valid() && Cut(old(order), i, count, order)
      ensures forall k :: 0 <= k < |old(order)| ==> (cmp(key, old(order)[k].key) == 0 <==> i <= k < i + count)
    {
      var first := LowerBound(key);
      var last := UpperBound(key);
      i := Pos(first);
      EqualRange(cmp, order, key, i, Pos(last));
      count := EraseRange(first, last);
    }

    /** How many nodes have an equivalent key. */
    method Count(key: K) returns (count: nat, ghost i: int)
      requires Valid()
      ensures forall k {:trigger order[k]} :: 0 <= k < |order| ==> (cmp(key, order[k].key) == 0 <==> i <= k < i + count)
      ensures 0 <= i <= i + count <= |order|
    {
      var first := LowerBound(key);
      var last := UpperBound(key);
      i := Pos(first);
      EqualRange(cmp, order, key, i, Pos(last));
      count := 0;
      var pos := first;
      while pos != last
        invariant IsAt(pos, i + count) && i + count <= Pos(last)
        decreases Pos(last) - i - count
      {
        IteratorsDiffer(pos, last, i + count, Pos(last));
        pos := Next(pos);
        count := count + 1;
      }
      IteratorsDiffer(pos, last, i + count, Pos(last));
    }
  }
}
