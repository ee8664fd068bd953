/** The top-down splay tree of libevent/tree.h: a set of nodes with distinct keys. */
module SplayTree {
  import opened Order
  import opened SplayModel

  class Tree<K(!new)> {
    const cmp: (K, K) -> int
    var root: Node?<K>
    ghost var m: Store<K>
    ghost var order: seq<Node<K>>

    ghost predicate TiedAt(n: Node<K>)
      requires n in m
      reads `m, n
    {
      m[n].l == n.left && m[n].r == n.right
    }

    ghost predicate Tied()
      reads `m, m.Keys
    {
      forall n {:trigger TiedAt(n)} :: n in m ==> TiedAt(n)
    }

    /** A search tree: `order`, its nodes from left to right, is sorted without equal keys. */
    ghost predicate Valid()
      reads this, m.Keys
    {
      Tied() && Shape(m, root, |order|) && InOrder(m, order) && TotalPreorder(cmp) && Increasing(cmp, order)
    }

    /** In the middle of a splay. */
    ghost predicate Working(f: Phase<K>, aux: Node<K>)
      reads this, m.Keys, aux
    {
      && Tied() && root != null && Split(m, f, aux, root, |order|) && InOrder(m, order)
      && (f.a > 0 ==> aux.right == f.lroot) && (f.b < |order| ==> aux.left == f.rroot)
    }

    constructor (cmp: (K, K) -> int)
      ensures this.cmp == cmp && order == [] && m == map[]
      ensures TotalPreorder(cmp) ==> Valid()
    {
      this.cmp, root, m, order := cmp, null, map[], [];
    }

    // ----- The steps of a splay -----

    method RotateRight(tmp: Node<K>, aux: Node<K>, ghost f: Phase<K>)
      requires Working(f, aux) && root.left == tmp
      modifies this`root, this`m, m.Keys
      ensures Working(f, aux) && root == tmp && m.Keys == old(m.Keys)
    {
      ghost var x := root;
      assert x in m && TiedAt(x);
      ghost var m' := TurnRight(m, f, aux, x, tmp, |order|);
      TurnRightKeeps(m, m', order, f, aux, x, tmp, |order|);
      assert TiedAt(tmp);
      root.left := tmp.right;
      tmp.right := root;
      root := tmp;
      m := m';
      forall n | n in m
        ensures TiedAt(n)
      {
        assert old(TiedAt(n));
      }
    }

    method RotateLeft(tmp: Node<K>, aux: Node<K>, ghost f: Phase<K>)
      requires Working(f, aux) && root.right == tmp
      modifies this`root, this`m, m.Keys
      ensures Working(f, aux) && root == tmp && m.Keys == old(m.Keys)
    {
      ghost var x := root;
      assert x in m && TiedAt(x);
      ghost var m' := TurnLeft(m, f, aux, x, tmp, |order|);
      TurnLeftKeeps(m, m', order, f, aux, x, tmp, |order|);
      assert TiedAt(tmp);
      root.right := tmp.left;
      tmp.left := root;
      root := tmp;
      m := m';
      forall n | n in m
        ensures TiedAt(n)
      {
        assert old(TiedAt(n));
      }
    }

    // Hangs the root below `right`, from where it becomes the first node of the right tree.
    method LinkLeft(right: Node<K>, aux: Node<K>, ghost f: Phase<K>) returns (right': Node<K>, ghost f': Phase<K>)
      requires Working(f, aux) && right == f.right && root.left != null
      modifies this`root, this`m, m.Keys, aux
      ensures Working(f', aux) && right' == f'.right && f'.left == f.left && m.Keys == old(m.Keys)
      ensures old(root) in old(m) && f'.a == f.a < f'.b == old(m)[old(root)].at < f.b
    {
      ghost var x := root;
      assert x in m && TiedAt(x);
      ghost var y := root.left;
      ghost var m';
      m', f' := SplayModel.LinkLeft(m, f, aux, x);
      LinkLeftKeeps(m, m', order, f, f', aux, x, y, |order|);
      right.left := root;
      right' := root;
      root := root.left;
      m := m';
      forall n | n in m
        ensures TiedAt(n)
      {
        assert old(TiedAt(n));
      }
    }

    method LinkRight(left: Node<K>, aux: Node<K>, ghost f: Phase<K>) returns (left': Node<K>, ghost f': Phase<K>)
      requires Working(f, aux) && left == f.left && root.right != null
      modifies this`root, this`m, m.Keys, aux
      ensures Working(f', aux) && left' == f'.left && f'.right == f.right && m.Keys == old(m.Keys)
      ensures old(root) in old(m) && f.a < f'.a == old(m)[old(root)].at + 1 < f'.b == f.b
    {
      ghost var x := root;
      assert x in m && TiedAt(x);
      ghost var y := root.right;
      ghost var m';
      m', f' := SplayModel.LinkRight(m, f, aux, x);
      LinkRightKeeps(m, m', order, f, f', aux, x, y, |order|);
      left.right := root;
      left' := root;
      root := root.right;
      m := m';
      forall n | n in m
        ensures TiedAt(n)
      {
        assert old(TiedAt(n));
      }
    }

    // The four assignments, field by field.
    method AssembleFields(left: Node<K>, right: Node<K>, aux: Node<K>, ghost ns: set<Node<K>>)
      requires root != null && root in ns && aux !in ns && left in ns + {aux} && right in ns + {aux}
      requires left != root && right != root && (left == right ==> left == aux)
      modifies ns, aux
      ensures forall n {:trigger n.left} :: n in ns && n != root && n != right ==> n.left == old(n.left)
      ensures forall n {:trigger n.right} :: n in ns && n != root && n != left ==> n.right == old(n.right)
      ensures (right != aux ==> right.left == old(root.right)) && (left != aux ==> left.right == old(root.left))
      ensures root.left == (if left == aux then old(root.left) else old(aux.right))
      ensures root.right == (if right == aux then old(root.right) else old(aux.left))
    {
      left.right := root.left;
      right.left := root.right;
      root.left := aux.right;
      root.right := aux.left;
    }

    method Assemble(left: Node<K>, right: Node<K>, aux: Node<K>, ghost f: Phase<K>)
      requires Working(f, aux) && left == f.left && right == f.right
      modifies this`m, m.Keys, aux
      ensures Tied() && Shape(m, root, |order|) && InOrder(m, order) && SameOrder(old(m), m)
    {
      ghost var x := root;
      EndsApart(m, f, aux, x, |order|);
      assert TiedAt(x);
      ghost var m' := SplayModel.Assemble(m, f, aux, x, |order|);
      AssembleKeeps(m, m', order, f, aux, x, |order|);
      AssembleFields(left, right, aux, m.Keys);
      m := m';
      forall n | n in m
        ensures TiedAt(n)
      {
        assert old(TiedAt(n));
      }
    }

    // ----- The splay -----

    // Nodes in the left tree are before what is searched for, those in the right tree behind it.
    ghost predicate Searched(dir: K -> int, f: Phase<K>)
      reads `order
    {
      && 0 <= f.a < f.b <= |order|
      && (forall i {:trigger order[i]} :: 0 <= i < f.a ==> dir(order[i].key) > 0)
      && (forall i {:trigger order[i]} :: f.b <= i < |order| ==> dir(order[i].key) < 0)
    }

    lemma BothSides(dir: K -> int, f: Phase<K>, aux: Node<K>)
      requires Working(f, aux) && Searched(dir, f) && Directed(dir, order)
      ensures root in m && f.a <= m[root].at < f.b && order[m[root].at] == root && TiedAt(root)
      ensures root.left == null ==> m[root].at == f.a
      ensures root.right == null ==> m[root].at + 1 == f.b
      ensures dir(root.key) < 0 ==> forall i {:trigger order[i]} :: m[root].at <= i < |order| ==> dir(order[i].key) < 0
      ensures dir(root.key) > 0 ==> forall i {:trigger order[i]} :: 0 <= i <= m[root].at ==> dir(order[i].key) > 0
    {
      assert PlaceOK(m, f, root) && Listed(m, order, root) && TiedAt(root);
    }

    // One round to the left; `done` when there is nothing further on that side.
    method StepLeft(dir: K -> int, right: Node<K>, aux: Node<K>, ghost f: Phase<K>)
      returns (right': Node<K>, ghost f': Phase<K>, done: bool)
      requires Working(f, aux) && right == f.right && Searched(dir, f) && Directed(dir, order) && dir(root.key) < 0
      modifies this`root, this`m, m.Keys, aux
      ensures Working(f', aux) && right' == f'.right && f'.left == f.left && m.Keys == old(m.Keys) && Searched(dir, f')
      ensures if done then dir(root.key) < 0 && root.left == null else f'.b - f'.a < f.b - f.a
    {
      hide Split;
      hide InOrder;
      hide Tied;
      right', f', done := right, f, true;
      var tmp := root.left;
      if tmp == null {
        return;
      }
      BothSides(dir, f, aux);
      if dir(tmp.key) < 0 {
        RotateRight(tmp, aux, f);
        if root.left == null {
          return;
        }
        BothSides(dir, f, aux);
      }
      right', f' := LinkLeft(right, aux, f);
      done := false;
    }

    method StepRight(dir: K -> int, left: Node<K>, aux: Node<K>, ghost f: Phase<K>)
      returns (left': Node<K>, ghost f': Phase<K>, done: bool)
      requires Working(f, aux) && left == f.left && Searched(dir, f) && Directed(dir, order) && dir(root.key) > 0
      modifies this`root, this`m, m.Keys, aux
      ensures Working(f', aux) && left' == f'.left && f'.right == f.right && m.Keys == old(m.Keys) && Searched(dir, f')
      ensures if done then dir(root.key) > 0 && root.right == null else f'.b - f'.a < f.b - f.a
    {
      hide Split;
      hide InOrder;
      hide Tied;
      left', f', done := left, f, true;
      var tmp := root.right;
      if tmp == null {
        return;
      }
      BothSides(dir, f, aux);
      if dir(tmp.key) > 0 {
        RotateLeft(tmp, aux, f);
        if root.right == null {
          return;
        }
        BothSides(dir, f, aux);
      }
      left', f' := LinkRight(left, aux, f);
      done := false;
    }

    /** The root is what was searched for, or one of the two nodes between which it belongs. */
    ghost predicate Found(dir: K -> int)
      requires root != null && root in m
      reads this
    {
      && (dir(root.key) < 0 ==> forall i {:trigger order[i]} :: 0 <= i < m[root].at && i < |order| ==> dir(order[i].key) > 0)
      && (dir(root.key) > 0 ==> forall i {:trigger order[i]} :: m[root].at < i < |order| && 0 <= i ==> dir(order[i].key) < 0)
    }

    /** The splay: only the links change, and the root becomes the node that the search ends at. */
    method Splay(dir: K -> int)
      requires Tied() && Shape(m, root, |order|) && InOrder(m, order) && root != null && Directed(dir, order)
      modifies this`root, this`m, m.Keys
      ensures Tied() && Shape(m, root, |order|) && InOrder(m, order)
      ensures root != null && root in m && m.Keys == old(m.Keys) && Found(dir)
    {
      hide Split;
      hide InOrder;
      hide Tied;
      var aux := new Node<K>(root.key);
      var left, right := aux, aux;
      ghost var f := StartSplay(dir, aux);
      var comp := dir(root.key);
      while comp != 0
        invariant Working(f, aux) && left == f.left && right == f.right && Searched(dir, f)
        invariant comp == dir(root.key) && m.Keys == old(m.Keys)
        decreases f.b - f.a
      {
        var done;
        if comp < 0 {
          right, f, done := StepLeft(dir, right, aux, f);
        } else {
          left, f, done := StepRight(dir, left, aux, f);
        }
        if done {
          break;
        }
        comp := dir(root.key);
      }
      EndSplay(dir, f, aux);
      Assemble(left, right, aux, f);
    }

    lemma StartSplay(dir: K -> int, aux: Node<K>) returns (f: Phase<K>)
      requires Tied() && Shape(m, root, |order|) && InOrder(m, order) && root != null && Directed(dir, order) && aux !in m
      ensures Working(f, aux) && f.left == aux && f.right == aux && Searched(dir, f)
    {
      forall n | n in m
        ensures 0 <= m[n].at < |order| && m[n].hi <= |order|
      {
        assert Listed(m, order, n);
        Within(m, order, n);
      }
      f := SplitStart(m, aux, root, |order|);
    }

    lemma EndSplay(dir: K -> int, f: Phase<K>, aux: Node<K>)
      requires Working(f, aux) && Searched(dir, f) && Directed(dir, order)
      requires dir(root.key) == 0 || (dir(root.key) < 0 && root.left == null) || (dir(root.key) > 0 && root.right == null)
      ensures root in m && Found(dir)
    {
      BothSides(dir, f, aux);
    }

    // ----- The set -----

    /** Splays for a key: the root is then an equivalent node, when there is one. */
    method SplayFor(key: K)
      requires Valid() && root != null
      modifies this`root, this`m, m.Keys
      ensures Valid() && root != null && root in m && m.Keys == old(m.Keys) && Found(Towards(cmp, key))
      ensures cmp(key, root.key) != 0 ==> forall n {:trigger n in m} :: n in m ==> cmp(key, n.key) != 0
    {
      KeysDirect(cmp, order, key);
      Splay(Towards(cmp, key));
      if cmp(key, root.key) != 0 {
        forall n | n in m
          ensures cmp(key, n.key) != 0
        {
          assert Listed(m, order, n) && Listed(m, order, root);
        }
      }
    }

    method Find(key: K) returns (r: Node?<K>)
      requires Valid()
      modifies this`root, this`m, m.Keys
      ensures Valid() && m.Keys == old(m.Keys)
      ensures r != null ==> r in m && cmp(key, r.key) == 0 && root == r
      ensures r == null ==> forall n {:trigger n in m} :: n in m ==> cmp(key, n.key) != 0
    {
      if root == null {
        EmptyTree();
        return null;
      }
      SplayFor(key);
      if cmp(key, root.key) == 0 {
        return root;
      }
      return null;
    }

    lemma EmptyTree()
      requires Valid() && root == null
      ensures order == [] && m.Keys == {}
    {
      assert forall n {:trigger n in m.Keys} :: n in m.Keys ==> Listed(m, order, n);
    }

    // Makes `elm` the root at its place, where the splay has prepared it.
    method Hang(elm: Node<K>, before: bool) returns (ghost p: int)
      requires Valid() && root != null && root in m && elm !in m && Found(Towards(cmp, elm.key))
      requires if before then cmp(elm.key, root.key) < 0 else cmp(elm.key, root.key) > 0
      modifies this, m.Keys, elm
      ensures Tied() && Shape(m, root, |order|) && InOrder(m, order) && m.Keys == old(m.Keys) + {elm}
      ensures 0 <= p <= |old(order)| && order == old(order)[..p] + [elm] + old(order)[p..]
      ensures forall i {:trigger old(order)[i]} :: 0 <= i < |old(order)| ==> cmp(elm.key, old(order)[i].key) != 0
      ensures forall i {:trigger old(order)[i]} :: 0 <= i < |old(order)| ==> (cmp(elm.key, old(order)[i].key) > 0 <==> i < p)
    {
      ghost var x := root;
      assert TiedAt(x) && Listed(m, order, x);
      ghost var m';
      m', p := SplayModel.Insert(m, x, elm, before, |order|);
      ghost var ord' := InsertKeeps(m, m', order, x, elm, p, before);
      PlaceFound(elm.key, p, before);
      HangFields(elm, before);
      root := elm;
      m, order := m', ord';
      forall n | n in m
        ensures TiedAt(n)
      {
        assert n != elm ==> old(TiedAt(n));
      }
    }

    method HangFields(elm: Node<K>, before: bool)
      requires root != null && elm != root
      modifies root, elm
      ensures elm.left == (if before then old(root.left) else root) && elm.right == (if before then root else old(root.right))
      ensures root.left == (if before then null else old(root.left)) && root.right == (if before then old(root.right) else null)
    {
      if before {
        elm.left := root.left;
        elm.right := root;
        root.left := null;
      } else {
        elm.right := root.right;
        elm.left := root;
        root.right := null;
      }
    }

    lemma PlaceFound(key: K, p: int, before: bool)
      requires Valid() && root != null && root in m && Found(Towards(cmp, key))
      requires if before then cmp(key, root.key) < 0 && p == m[root].at else cmp(key, root.key) > 0 && p == m[root].at + 1
      ensures forall i {:trigger order[i]} :: 0 <= i < |order| ==> cmp(key, order[i].key) != 0
      ensures forall i {:trigger order[i]} :: 0 <= i < |order| ==> (cmp(key, order[i].key) > 0 <==> i < p)
    {
      assert Listed(m, order, root);
      KeysDirect(cmp, order, key);
      assert forall i {:trigger order[i]} :: 0 <= i < |order| ==> Towards(cmp, key)(order[i].key) == cmp(key, order[i].key);
    }

    /** Inserts `elm` at its place, or returns the node that has an equivalent key. */
    method Insert(elm: Node<K>) returns (r: Node?<K>)
      requires Valid() && elm !in m
      modifies this, m.Keys, elm
      ensures Valid()
      ensures r != null ==> r in m && cmp(elm.key, r.key) == 0 && order == old(order) && m.Keys == old(m.Keys)
      ensures r == null ==> m.Keys == old(m.Keys) + {elm} && forall n {:trigger n in old(m)} :: n in old(m) ==> cmp(elm.key, n.key) != 0
      ensures r == null ==> exists p {:trigger old(order)[..p]} :: 0 <= p <= |old(order)| && order == old(order)[..p] + [elm] + old(order)[p..]
    {
      if root == null {
        EmptyTree();
        elm.left, elm.right := null, null;
        root, m, order := elm, map[elm := Cell(null, null, -1, 0, 1)], [elm];
        assert TiedAt(elm) && old(order)[..0] == [];
        return null;
      }
      SplayFor(elm.key);
      var comp := cmp(elm.key, root.key);
      if comp == 0 {
        return root;
      }
      ghost var ord := order;
      ghost var p := Hang(elm, comp < 0);
      IncreasingInsert(cmp, ord, elm, p);
      return null;
    }

    /** Takes the node out that has the key of `elm`, when there is one. */
    method Remove(elm: Node<K>) returns (r: Node?<K>)
      requires Valid()
      modifies this, m.Keys
      ensures Valid()
      ensures r == null ==> order == old(order) && m.Keys == old(m.Keys) && forall n {:trigger n in m} :: n in m ==> cmp(elm.key, n.key) != 0
      ensures r != null ==> r == elm && exists p {:trigger old(order)[p]} :: 0 <= p < |old(order)| && IsRemoved(elm.key, old(order), p)
    {
      if root == null {
        EmptyTree();
        return null;
      }
      SplayFor(elm.key);
      if cmp(elm.key, root.key) == 0 {
        ghost var p := RemoveRoot(elm.key);
        return elm;
      }
      return null;
    }

    // Just the node at `p` is missing, and it had the key.
    ghost predicate IsRemoved(key: K, ord: seq<Node<K>>, p: int)
      requires 0 <= p < |ord|
      reads `order
    {
      cmp(key, ord[p].key) == 0 && order == ord[..p] + ord[p + 1..]
    }

    // In a tree with smaller keys only, the root becomes the last node.
    method SplayFront(key: K)
      requires Tied() && Shape(m, root, |order|) && InOrder(m, order) && root != null
      requires TotalPreorder(cmp) && Increasing(cmp, order)
      requires forall i {:trigger order[i]} :: 0 <= i < |order| ==> cmp(key, order[i].key) > 0
      modifies this`root, this`m, m.Keys
      ensures Tied() && Shape(m, root, |order|) && InOrder(m, order)
      ensures root != null && root in m && m.Keys == old(m.Keys) && m[root].r == null
    {
      KeysDirect(cmp, order, key);
      Splay(Towards(cmp, key));
      NoneBehind(key);
    }

    lemma NoneBehind(key: K)
      requires Shape(m, root, |order|) && InOrder(m, order) && root != null && Found(Towards(cmp, key))
      requires forall i {:trigger order[i]} :: 0 <= i < |order| ==> cmp(key, order[i].key) > 0
      ensures root in m && m[root].r == null
    {
      assert NodeOK(m, root) && Listed(m, order, root);
      var p := m[root].at;
      var next := if p + 1 < |order| then p + 1 else p;
      assert cmp(key, order[p].key) > 0 && cmp(key, order[next].key) > 0;
      var y := if m[root].r == null then root else m[root].r;
      assert NodeOK(m, y);
    }

    // Takes the root out, which has the given key, and joins its two subtrees.
    method RemoveRoot(key: K) returns (ghost p: int)
      requires Valid() && root != null && root in m && cmp(key, root.key) == 0
      modifies this, m.Keys
      ensures Valid()
      ensures 0 <= p < |old(order)| && old(order)[p] == old(root) && order == old(order)[..p] + old(order)[p + 1..]
      ensures m.Keys == old(m.Keys) - {old(root)}
    {
      ghost var x, ord := root, order;
      assert Listed(m, order, x);
      p := m[x].at;
      if root.left == null {
        RemoveFirst(x);
      } else {
        RemoveInner(x, key);
      }
      IncreasingRemove(cmp, ord, p);
    }

    method RemoveFirst(ghost x: Node<K>)
      requires Valid() && root == x && x in m && x.left == null && 0 <= m[x].at < |order|
      modifies this
      ensures Tied() && Shape(m, root, |order|) && InOrder(m, order) && m.Keys == old(m.Keys) - {x}
      ensures order == old(order)[..old(m)[x].at] + old(order)[old(m)[x].at + 1..]
    {
      assert TiedAt(x);
      ghost var m0, ord, p := m, order, m[x].at;
      ghost var front := Front(m, p);
      FrontKeeps(m, front, ord, x);
      ghost var m' := Join(m0, front, x, null, |ord|);
      JoinKeeps(m0, front, m', ord, x, null);
      NoFront(m0, front, ord, x);
      root := root.right;
      m, order := m', ord[..p] + ord[p + 1..];
      forall n | n in m
        ensures TiedAt(n)
      {
        assert old(TiedAt(n));
      }
    }

    method RemoveInner(ghost x: Node<K>, key: K)
      requires Valid() && root == x && x in m && x.left != null && 0 <= m[x].at < |order| && cmp(key, x.key) == 0
      modifies this, m.Keys
      ensures Tied() && Shape(m, root, |order|) && InOrder(m, order) && m.Keys == old(m.Keys) - {x}
      ensures order == old(order)[..old(m)[x].at] + old(order)[old(m)[x].at + 1..]
    {
      assert TiedAt(x);
      ghost var m0, ord, p := m, order, m[x].at;
      ghost var front := Front(m, p);
      FrontKeeps(m, front, ord, x);
      FrontKeys(key, x);
      var tmp := root.right;
      root := root.left;
      m, order := front, ord[..p];
      hide NodeOK;
      SplayFront(key);
      forall n | n in m0 && m0[n].at > p
        ensures n.left == m0[n].l && n.right == m0[n].r
      {
        assert old(TiedAt(n));
      }
      JoinBack(m0, ord, x, tmp);
    }

    // Hangs what was behind `x` in the tree of `m0` below the last node of what was before it.
    method JoinBack(ghost m0: Store<K>, ghost ord: seq<Node<K>>, ghost x: Node<K>, tmp: Node?<K>)
      requires Shape(m0, x, |ord|) && InOrder(m0, ord) && x in m0 && 0 <= m0[x].at < |ord| && tmp == m0[x].r
      requires forall n {:trigger n in m0} :: n in m0 && m0[n].at > m0[x].at ==> n.left == m0[n].l && n.right == m0[n].r
      requires Tied() && Shape(m, root, m0[x].at) && InOrder(m, ord[..m0[x].at]) && root != null && root in m && m[root].r == null
      requires m.Keys == Front(m0, m0[x].at).Keys
      modifies this, m.Keys
      ensures Tied() && Shape(m, root, |order|) && InOrder(m, order) && m.Keys == m0.Keys - {x}
      ensures order == ord[..m0[x].at] + ord[m0[x].at + 1..]
    {
      hide NodeOK;
      ghost var m' := Join(m0, m, x, root, |ord|);
      JoinKeeps(m0, m, m', ord, x, root);
      assert Listed(m0, ord, x);
      root.right := tmp;
      m, order := m', ord[..m0[x].at] + ord[m0[x].at + 1..];
      forall n | n in m
        ensures TiedAt(n)
      {
        assert n in old(m) ==> old(TiedAt(n));
        assert n in m0 && Listed(m0, ord, n);
      }
    }

    lemma FrontKeys(key: K, x: Node<K>)
      requires Valid() && x in m && 0 <= m[x].at < |order| && cmp(key, x.key) == 0
      ensures forall n {:trigger n in m} :: n in m && m[n].at < m[x].at ==> TiedAt(n)
      ensures Increasing(cmp, order[..m[x].at])
      ensures forall i {:trigger order[..m[x].at][i]} :: 0 <= i < m[x].at ==> cmp(key, order[..m[x].at][i].key) > 0
    {
      assert Listed(m, order, x);
      forall i | 0 <= i < m[x].at
        ensures cmp(key, order[..m[x].at][i].key) > 0
      {
        assert cmp(order[i].key, x.key) < 0;
        Transitive(cmp, order[i].key, x.key, key);
      }
      forall n | n in m && m[n].at < m[x].at
        ensures TiedAt(n)
      {
      }
    }

    // ----- Neighbours and ends -----

    /** The node behind `elm`, or none; `elm` becomes the root. */
    method Next(elm: Node<K>) returns (r: Node?<K>)
      requires Valid() && elm in m
      modifies this`root, this`m, m.Keys
      ensures Valid() && m.Keys == old(m.Keys) && root == elm && 0 <= m[elm].at < |order| && order[m[elm].at] == elm
      ensures if m[elm].at + 1 == |order| then r == null else r == order[m[elm].at + 1]
    {
      assert Listed(m, order, elm);
      SplayFor(elm.key);
      RootIs(elm);
      assert TiedAt(elm) && NodeOK(m, elm) && Listed(m, order, elm);
      if elm.right == null {
        return null;
      }
      r := elm.right;
      assert TiedAt(r) && NodeOK(m, r);
      while r.left != null
        invariant r != null && r in m && m[r].lo == m[elm].at && TiedAt(r) && NodeOK(m, r)
        decreases m[r].hi - m[r].lo
      {
        r := r.left;
        assert TiedAt(r) && NodeOK(m, r);
      }
      assert Listed(m, order, r);
    }

    lemma RootIs(elm: Node<K>)
      requires Valid() && root != null && root in m && elm in m && Found(Towards(cmp, elm.key))
      requires cmp(elm.key, root.key) != 0 ==> forall n {:trigger n in m} :: n in m ==> cmp(elm.key, n.key) != 0
      ensures root == elm
    {
      assert cmp(elm.key, elm.key) == 0;
      assert Listed(m, order, root) && Listed(m, order, elm);
    }

    /** Brings the first node (for a negative argument) or the last one (for a positive one) to the root. */
    method MinMax(comp: int)
      requires Valid() && root != null && comp != 0
      modifies this`root, this`m, m.Keys
      ensures Valid() && m.Keys == old(m.Keys) && |order| > 0
      ensures root == if comp < 0 then order[0] else order[|order| - 1]
    {
      Splay(Always(comp));
      EndReached(comp);
    }

    lemma EndReached(comp: int)
      requires InOrder(m, order) && root != null && root in m && comp != 0 && Found(Always<K>(comp))
      ensures |order| > 0 && root == if comp < 0 then order[0] else order[|order| - 1]
    {
      assert Listed(m, order, root);
      var p := m[root].at;
      var i := if comp < 0 then 0 else |order| - 1;
      assert order[i] == order[i] && Always<K>(comp)(order[i].key) == comp;
    }
  }

  ghost predicate Increasing<K(!new)>(cmp: (K, K) -> int, ord: seq<Node<K>>) {
    forall i, j {:trigger ord[i], ord[j]} :: 0 <= i < j < |ord| ==> cmp(ord[i].key, ord[j].key) < 0
  }

  /** `dir` says where to go from a node, -1 to the left and 1 to the right, and never both ways past one place. */
  ghost predicate Directed<K>(dir: K -> int, ord: seq<Node<K>>) {
    forall i, j {:trigger ord[i], ord[j]} :: 0 <= i < j < |ord| && dir(ord[i].key) <= 0 ==> dir(ord[j].key) < 0
  }

  /** The way to a key. */
  function Towards<K>(cmp: (K, K) -> int, key: K): K -> int {
    x => cmp(key, x)
  }

  lemma KeysDirect<K(!new)>(cmp: (K, K) -> int, ord: seq<Node<K>>, key: K)
    requires TotalPreorder(cmp) && Increasing(cmp, ord)
    ensures Directed(Towards(cmp, key), ord)
  {
    forall i, j | 0 <= i < j < |ord| && cmp(key, ord[i].key) <= 0
      ensures cmp(key, ord[j].key) < 0
    {
      Transitive(cmp, key, ord[i].key, ord[j].key);
    }
  }

  lemma NoFront<K>(m: Store<K>, front: Store<K>, ord: seq<Node<K>>, x: Node<K>)
    requires Shape(m, x, |ord|) && InOrder(m, ord) && m[x].l == null && front == Front(m, m[x].at)
    ensures m[x].at == 0 && front.Keys == {}
  {
    assert NodeOK(m, x);
    assert forall n {:trigger n in front.Keys} :: n in front.Keys ==> Listed(m, ord, n);
  }

  lemma IncreasingRemove<K(!new)>(cmp: (K, K) -> int, ord: seq<Node<K>>, p: int)
    requires Increasing(cmp, ord) && 0 <= p < |ord|
    ensures Increasing(cmp, ord[..p] + ord[p + 1..])
  {
  }

  lemma IncreasingInsert<K(!new)>(cmp: (K, K) -> int, ord: seq<Node<K>>, z: Node<K>, p: int)
    requires TotalPreorder(cmp) && Increasing(cmp, ord) && 0 <= p <= |ord|
    requires forall i {:trigger ord[i]} :: 0 <= i < |ord| ==> cmp(z.key, ord[i].key) != 0
    requires forall i {:trigger ord[i]} :: 0 <= i < |ord| ==> (cmp(z.key, ord[i].key) > 0 <==> i < p)
    ensures Increasing(cmp, ord[..p] + [z] + ord[p..])
  {
    var ord' := ord[..p] + [z] + ord[p..];
    forall i, j | 0 <= i < j < |ord'|
      ensures cmp(ord'[i].key, ord'[j].key) < 0
    {
      assert i != p ==> ord'[i] == ord[if i < p then i else i - 1];
      assert j != p ==> ord'[j] == ord[if j < p then j else j - 1];
    }
  }

  /** The way to one end. */
  function Always<K>(comp: int): K -> int {
    x => comp
  }
}
