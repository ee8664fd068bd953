/** Binary heaps in a range of an array, the greatest element first, and the partial sort built on them.
    Elements of a heap are counted from one: the parent of `i` is `i / 2`. */
module Heap {
  import opened Order
  import opened StableOrder
  import opened Permutation

  /** Element `i` of the heap that begins at `idx`. */
  ghost function At<T>(s: seq<T>, idx: int, i: int): T
    requires 0 <= idx && 0 < i && idx + i <= |s|
  {
    s[idx + i - 1]
  }

  // Element `i` is not above its parent.
  ghost predicate Below<T(!new)>(cmp: (T, T) -> int, s: seq<T>, idx: int, i: int) {
    0 <= idx && 2 <= i && idx + i <= |s| && cmp(At(s, idx, i / 2), At(s, idx, i)) >= 0
  }

  /** The elements from `from` to `to` keep the heap order. */
  ghost predicate HeapFrom<T(!new)>(cmp: (T, T) -> int, s: seq<T>, idx: int, from: int, to: int) {
    && 0 <= idx && 1 <= from && 0 <= to && idx + to <= |s|
    && (forall i {:trigger Below(cmp, s, idx, i)} :: 2 <= i <= to && from <= i / 2 ==> Below(cmp, s, idx, i))
  }

  ghost predicate IsHeap<T(!new)>(cmp: (T, T) -> int, s: seq<T>, idx: int, n: int) {
    HeapFrom(cmp, s, idx, 1, n)
  }

  /** The first element of a heap is a greatest one. */
  lemma {:induction false} TopIsGreatest<T(!new)>(cmp: (T, T) -> int, s: seq<T>, idx: int, n: int, i: int)
    requires TotalPreorder(cmp) && IsHeap(cmp, s, idx, n) && 1 <= i <= n
    ensures cmp(At(s, idx, i), s[idx]) <= 0
  {
    var x := At(s, idx, i);
    if i == 1 {
      assert cmp(x, x) == 0;
    } else {
      TopIsGreatest(cmp, s, idx, n, i / 2);
      assert Below(cmp, s, idx, i);
      assert Chained(cmp, x, At(s, idx, i / 2), s[idx]);
    }
  }

  // ----- Moving an element down -----

  // Heap order from `from` on, except that the element at `hole` may be too small.
  ghost predicate Sinking<T(!new)>(cmp: (T, T) -> int, s: seq<T>, idx: int, from: int, to: int, hole: int) {
    && 0 <= idx && 1 <= from <= hole && 0 <= to && idx + to <= |s| && idx + hole <= |s|
    && (forall i {:trigger Below(cmp, s, idx, i)} :: 2 <= i <= to && from <= i / 2 != hole ==> Below(cmp, s, idx, i))
    && (from <= hole / 2 ==> forall i {:trigger At(s, idx, i)} :: 2 <= i <= to && i / 2 == hole ==> cmp(At(s, idx, hole / 2), At(s, idx, i)) >= 0)
  }

  // `c` is the greater child of `hole`.
  ghost predicate GreaterChild<T(!new)>(cmp: (T, T) -> int, s: seq<T>, idx: int, to: int, hole: int, c: int) {
    && 0 <= idx && 1 <= hole && c / 2 == hole && 2 <= c <= to && idx + to <= |s|
    && (forall i {:trigger At(s, idx, i)} :: 2 <= i <= to && i / 2 == hole ==> cmp(At(s, idx, i), At(s, idx, c)) <= 0)
  }

  lemma SinkStep<T(!new)>(cmp: (T, T) -> int, s: seq<T>, t: seq<T>, idx: int, from: int, to: int, hole: int, c: int)
    requires Sinking(cmp, s, idx, from, to, hole) && GreaterChild(cmp, s, idx, to, hole, c)
    requires TotalPreorder(cmp) && cmp(At(s, idx, hole), At(s, idx, c)) < 0
    requires t == s[idx + hole - 1 := At(s, idx, c)][idx + c - 1 := At(s, idx, hole)]
    ensures Sinking(cmp, t, idx, from, to, c)
  {
    forall i | 2 <= i <= to && from <= i / 2 != c
      ensures Below(cmp, t, idx, i)
    {
      if i / 2 == hole {
        assert cmp(At(s, idx, i), At(s, idx, c)) <= 0;
      } else if i == hole {
        assert At(s, idx, c) == At(t, idx, hole);
      } else {
        assert Below(cmp, s, idx, i);
      }
    }
    forall i | 2 <= i <= to && i / 2 == c
      ensures cmp(At(t, idx, hole), At(t, idx, i)) >= 0
    {
      assert Below(cmp, s, idx, i);
    }
  }

  lemma SinkEnd<T(!new)>(cmp: (T, T) -> int, s: seq<T>, idx: int, from: int, to: int, hole: int, c: int)
    requires TotalPreorder(cmp) && Sinking(cmp, s, idx, from, to, hole)
    requires 2 * hole > to || (GreaterChild(cmp, s, idx, to, hole, c) && cmp(At(s, idx, hole), At(s, idx, c)) >= 0)
    ensures HeapFrom(cmp, s, idx, from, to)
  {
    forall i | 2 <= i <= to && from <= i / 2
      ensures Below(cmp, s, idx, i)
    {
      if i / 2 == hole {
        assert cmp(At(s, idx, i), At(s, idx, c)) <= 0;
        assert Chained(cmp, At(s, idx, i), At(s, idx, c), At(s, idx, hole));
      }
    }
  }

  // The sinking element `x` is written when its place is found; until then that place is a hole: `s` is `t` with `x` in it.
  ghost predicate Held<T>(s: seq<T>, t: seq<T>, idx: int, hole: int, x: T) {
    0 <= idx && 1 <= hole && idx + hole <= |t| && s == t[idx + hole - 1 := x]
  }

  lemma ChildOfHole<T(!new)>(cmp: (T, T) -> int, s: seq<T>, t: seq<T>, idx: int, to: int, hole: int, x: T, c: int)
    requires Held(s, t, idx, hole, x) && GreaterChild(cmp, t, idx, to, hole, c)
    ensures GreaterChild(cmp, s, idx, to, hole, c) && hole < c <= to && idx + to <= |s| && At(s, idx, c) == At(t, idx, c)
  {
    forall i | 2 <= i <= to && i / 2 == hole
      ensures cmp(At(s, idx, i), At(s, idx, c)) <= 0
    {
      assert cmp(At(t, idx, i), At(t, idx, c)) <= 0;
    }
  }

  // Moving an element into the hole and the hole to where it was.
  lemma HoleMoved<T>(s: seq<T>, t: seq<T>, t': seq<T>, idx: int, hole: int, c: int, x: T, l: int, r: int, was: seq<T>) returns (s': seq<T>)
    requires Held(s, t, idx, hole, x) && 1 <= c && idx + c <= |t| && c != hole
    requires t' == t[idx + hole - 1 := t[idx + c - 1]]
    requires l <= idx && idx + hole - 1 <= r && idx + c - 1 <= r && Shuffled(was, s, l, r)
    ensures s' == s[idx + hole - 1 := s[idx + c - 1]][idx + c - 1 := s[idx + hole - 1]]
    ensures Held(s', t', idx, c, x) && Shuffled(was, s', l, r)
  {
    s' := s[idx + hole - 1 := s[idx + c - 1]][idx + c - 1 := s[idx + hole - 1]];
    SwapShuffles(s, s', l, r, idx + hole - 1, idx + c - 1);
    ShuffledTrans(was, s, s', l, r);
  }

  method GreaterOf<T(!new)>(a: array<T>, top: nat, j: nat, to: nat, cmp: (T, T) -> int) returns (i: nat)
    requires TotalPreorder(cmp) && 1 <= j && 2 * j <= to && top + to <= a.Length
    ensures GreaterChild(cmp, a[..], top, to, j, i)
  {
    i := 2 * j;
    assert cmp(a[i + top - 1], a[i + top - 1]) == 0;
    if i < to && cmp(a[i + top - 1], a[i + top]) < 0 {
      assert cmp(a[i + top], a[i + top]) == 0;
      i := i + 1;
    }
  }

  lemma SinkStart<T(!new)>(cmp: (T, T) -> int, s: seq<T>, idx: int, from: int, to: int)
    requires HeapFrom(cmp, s, idx, from + 1, to) && 1 <= from && idx + from <= |s|
    ensures Sinking(cmp, s, idx, from, to, from)
    ensures Held(s, s, idx, from, s[idx + from - 1])
  {
  }

  /** Restores the heap order when the element at `from` may be too small for its place. */
  method DownHeap<T(!new)>(a: array<T>, top: nat, from: nat, to: nat, cmp: (T, T) -> int, ghost r: int)
    requires TotalPreorder(cmp) && 1 <= from && top + from - 1 <= r < a.Length && top + to - 1 <= r
    requires HeapFrom(cmp, a[..], top, from + 1, to)
    modifies a
    ensures HeapFrom(cmp, a[..], top, from, to)
    ensures Shuffled(old(a[..]), a[..], top, r)
  {
    hide HeapFrom;
    hide Sinking;
    hide GreaterChild;
    hide Shuffled;
    hide TotalPreorder;
    var j := from;
    var tmp := a[j + top - 1];
    ghost var s := a[..];
    SinkStart(cmp, s, top, from, to);
    ShuffledRefl(s, top, r);
    var i := j;
    while 2 * j <= to
      invariant from <= j && top + j - 1 <= r && Held(s, a[..], top, j, tmp) && Shuffled(old(a[..]), s, top, r)
      invariant Sinking(cmp, s, top, from, to, j)
      decreases r + 1 - top - j
    {
      i := GreaterOf(a, top, j, to, cmp);
      ChildOfHole(cmp, s, a[..], top, to, j, tmp, i);
      if cmp(tmp, a[i + top - 1]) < 0 {
        ghost var t := a[..];
        a[j + top - 1] := a[i + top - 1];
        ghost var s' := HoleMoved(s, t, a[..], top, j, i, tmp, top, r, old(a[..]));
        SinkStep(cmp, s, s', top, from, to, j, i);
        s, j := s', i;
      } else {
        break;
      }
    }
    SinkEnd(cmp, s, top, from, to, j, i);
    a[j + top - 1] := tmp;
  }

  // ----- Moving an element up -----

  // Heap order, except that the element at `hole` may be too great.
  ghost predicate Rising<T(!new)>(cmp: (T, T) -> int, s: seq<T>, idx: int, n: int, hole: int) {
    && 0 <= idx && 1 <= hole <= n && idx + n <= |s|
    && (forall i {:trigger Below(cmp, s, idx, i)} :: 2 <= i <= n && i != hole ==> Below(cmp, s, idx, i))
    && (1 < hole ==> forall i {:trigger At(s, idx, i)} :: 2 <= i <= n && i / 2 == hole ==> cmp(At(s, idx, hole / 2), At(s, idx, i)) >= 0)
  }

  lemma RiseStep<T(!new)>(cmp: (T, T) -> int, s: seq<T>, t: seq<T>, idx: int, n: int, hole: int)
    requires TotalPreorder(cmp) && Rising(cmp, s, idx, n, hole) && hole > 1 && cmp(At(s, idx, hole / 2), At(s, idx, hole)) < 0
    requires t == s[idx + hole - 1 := At(s, idx, hole / 2)][idx + hole / 2 - 1 := At(s, idx, hole)]
    ensures Rising(cmp, t, idx, n, hole / 2)
  {
    var p := hole / 2;
    forall i | 2 <= i <= n && i != p
      ensures Below(cmp, t, idx, i)
    {
      if i / 2 == hole {
        assert cmp(At(s, idx, p), At(s, idx, i)) >= 0;
      } else {
        assert i != hole ==> Below(cmp, s, idx, i);
        if i / 2 == p && i != hole {
          Transitive(cmp, At(s, idx, i), At(s, idx, p), At(s, idx, hole));
        }
      }
    }
    if 1 < p {
      forall i | 2 <= i <= n && i / 2 == p
        ensures cmp(At(t, idx, p / 2), At(t, idx, i)) >= 0
      {
        assert Below(cmp, s, idx, p);
        if i != hole {
          assert Below(cmp, s, idx, i);
          assert Chained(cmp, At(s, idx, i), At(s, idx, p), At(s, idx, p / 2));
        }
      }
    }
  }

  lemma RiseStart<T(!new)>(cmp: (T, T) -> int, s: seq<T>, idx: int, n: int)
    requires IsHeap(cmp, s, idx, n - 1) && 1 <= n && idx + n <= |s|
    ensures Rising(cmp, s, idx, n, n) && Held(s, s, idx, n, s[idx + n - 1])
  {
  }

  lemma RiseEnd<T(!new)>(cmp: (T, T) -> int, s: seq<T>, idx: int, n: int, hole: int)
    requires TotalPreorder(cmp) && Rising(cmp, s, idx, n, hole) && (hole == 1 || cmp(At(s, idx, hole / 2), At(s, idx, hole)) >= 0)
    ensures IsHeap(cmp, s, idx, n)
  {
  }

  method UpHeap<T(!new)>(a: array<T>, top: nat, n: nat, cmp: (T, T) -> int, ghost r: int)
    requires TotalPreorder(cmp) && 1 <= n && top + n - 1 <= r < a.Length && IsHeap(cmp, a[..], top, n - 1)
    modifies a
    ensures IsHeap(cmp, a[..], top, n)
    ensures Shuffled(old(a[..]), a[..], top, r)
  {
    hide IsHeap;
    hide Rising;
    hide Shuffled;
    hide TotalPreorder;
    var i := n;
    var tmp := a[i + top - 1];
    ghost var s := a[..];
    RiseStart(cmp, s, top, n);
    ShuffledRefl(s, top, r);
    while i > 1 && cmp(a[i / 2 + top - 1], tmp) < 0
      invariant 1 <= i <= n && Held(s, a[..], top, i, tmp) && Shuffled(old(a[..]), s, top, r)
      invariant Rising(cmp, s, top, n, i)
    {
      ghost var t := a[..];
      a[i + top - 1] := a[i / 2 + top - 1];
      ghost var s' := HoleMoved(s, t, a[..], top, i, i / 2, tmp, top, r, old(a[..]));
      RiseStep(cmp, s, s', top, n, i);
      s, i := s', i / 2;
    }
    RiseEnd(cmp, s, top, n, i);
    a[i + top - 1] := tmp;
  }

  // ----- The heap operations -----

  ghost predicate Ordered<T(!new)>(cmp: (T, T) -> int, s: seq<T>, x: int, y: int) {
    0 <= x < |s| && 0 <= y < |s| && cmp(s[x], s[y]) <= 0
  }

  method PushHeap<T(!new)>(a: array<T>, idx: nat, n: nat, cmp: (T, T) -> int)
    requires TotalPreorder(cmp) && 1 <= n && idx + n <= a.Length && IsHeap(cmp, a[..], idx, n - 1)
    modifies a
    ensures IsHeap(cmp, a[..], idx, n) && Shuffled(old(a[..]), a[..], idx, idx + n - 1)
  {
    UpHeap(a, idx, n, cmp, idx + n - 1);
  }

  // The first `n` elements are a heap but for the one on top, when `s` is a heap with another one there.
  lemma NewTop<T(!new)>(cmp: (T, T) -> int, s: seq<T>, t: seq<T>, idx: int, n: int)
    requires IsHeap(cmp, s, idx, n) && |s| == |t| && 1 <= n
    requires forall i {:trigger t[i]} :: idx < i < idx + n - 1 ==> t[i] == s[i]
    ensures HeapFrom(cmp, t, idx, 2, n - 1)
  {
    forall i | 2 <= i <= n - 1 && 2 <= i / 2
      ensures Below(cmp, t, idx, i)
    {
      assert Below(cmp, s, idx, i);
    }
  }

  /** Moves the greatest element behind the others, which stay a heap. */
  method PopHeap<T(!new)>(a: array<T>, idx: nat, n: nat, cmp: (T, T) -> int)
    requires TotalPreorder(cmp) && 1 <= n && idx + n <= a.Length && IsHeap(cmp, a[..], idx, n)
    modifies a
    ensures IsHeap(cmp, a[..], idx, n - 1) && Shuffled(old(a[..]), a[..], idx, idx + n - 1)
    ensures a[idx + n - 1] == old(a[idx])
  {
    hide HeapFrom;
    hide Shuffled;
    ghost var s := a[..];
    ghost var r := idx + n - 1;
    ShuffledRefl(s, idx, r);
    Swap(a, s, idx, r, idx, idx + n - 1);
    ghost var t := a[..];
    NewTop(cmp, s, t, idx, n);
    SinkTop(a, idx, n, cmp, r);
    ShuffledTrans(s, t, a[..], idx, r);
  }

  // Moves the top down within the first `n - 1` elements, and leaves the last one alone.
  method SinkTop<T(!new)>(a: array<T>, idx: nat, n: nat, cmp: (T, T) -> int, ghost r: int)
    requires TotalPreorder(cmp) && 1 <= n && idx + n <= a.Length && HeapFrom(cmp, a[..], idx, 2, n - 1) && idx + n - 1 <= r < a.Length
    modifies a
    ensures IsHeap(cmp, a[..], idx, n - 1) && Shuffled(old(a[..]), a[..], idx, r)
    ensures n > 1 ==> Shuffled(old(a[..]), a[..], idx, idx + n - 2)
    ensures a[idx + n - 1] == old(a[idx + n - 1])
  {
    if n == 1 {
      DownHeap(a, idx, 1, 0, cmp, idx);
      ghost var _ := CameFrom(old(a[..]), a[..], idx, idx, idx);
      Widened(old(a[..]), a[..], idx, idx, idx, r);
    } else {
      DownHeap(a, idx, 1, n - 1, cmp, idx + n - 2);
      Widened(old(a[..]), a[..], idx, idx + n - 2, idx, r);
    }
  }

  method MakeHeap<T(!new)>(a: array<T>, idx: nat, n: nat, cmp: (T, T) -> int)
    requires TotalPreorder(cmp) && idx + n <= a.Length
    modifies a
    ensures IsHeap(cmp, a[..], idx, n) && Shuffled(old(a[..]), a[..], idx, idx + n - 1)
  {
    ghost var s := a[..];
    ShuffledRefl(s, idx, idx + n - 1);
    var i := n / 2;
    while i > 0
      invariant 0 <= i <= n / 2 && HeapFrom(cmp, a[..], idx, i + 1, n) && Shuffled(s, a[..], idx, idx + n - 1)
    {
      ghost var t := a[..];
      DownHeap(a, idx, i, n, cmp, idx + n - 1);
      ShuffledTrans(s, t, a[..], idx, idx + n - 1);
      i := i - 1;
    }
  }

  // The first `i` elements are a heap, the rest is sorted and not below any of them.
  ghost predicate HalfSorted<T(!new)>(cmp: (T, T) -> int, s: seq<T>, idx: int, i: int, n: int) {
    && IsHeap(cmp, s, idx, i) && i <= n && idx + n <= |s|
    && (forall x, y {:trigger Ordered(cmp, s, x, y)} :: idx <= x < y < idx + n && idx + i <= y ==> Ordered(cmp, s, x, y))
  }

  lemma SortStep<T(!new)>(cmp: (T, T) -> int, s: seq<T>, t: seq<T>, idx: int, i: int, n: int)
    requires TotalPreorder(cmp) && HalfSorted(cmp, s, idx, i, n) && 1 <= i && IsHeap(cmp, t, idx, i - 1)
    requires Shuffled(s, t, idx, idx + i - 1) && t[idx + i - 1] == s[idx]
    ensures HalfSorted(cmp, t, idx, i - 1, n)
  {
    forall x, y | idx <= x < y < idx + n && idx + i - 1 <= y
      ensures Ordered(cmp, t, x, y)
    {
      var x' := x;
      if x < idx + i {
        x' := CameFrom(s, t, idx, idx + i - 1, x);
      }
      if y == idx + i - 1 {
        TopIsGreatest(cmp, s, idx, i, x' - idx + 1);
      } else {
        assert Ordered(cmp, s, x', y);
      }
    }
  }

  method SortHeap<T(!new)>(a: array<T>, idx: nat, n: nat, cmp: (T, T) -> int)
    requires TotalPreorder(cmp) && idx + n <= a.Length && IsHeap(cmp, a[..], idx, n)
    modifies a
    ensures Sorted(cmp, a[idx..idx + n]) && Shuffled(old(a[..]), a[..], idx, idx + n - 1)
  {
    ghost var s := a[..];
    ShuffledRefl(s, idx, idx + n - 1);
    assert HalfSorted(cmp, s, idx, n, n);
    hide HalfSorted;
    hide HeapFrom;
    hide Shuffled;
    var i := n;
    while i > 1
      invariant (if n == 0 then 0 else 1) <= i <= n && HalfSorted(cmp, a[..], idx, i, n) && Shuffled(s, a[..], idx, idx + n - 1)
    {
      i := SortOne(a, idx, i, n, cmp, s);
    }
    LastOne(cmp, a[..], idx, i, n);
  }

  // One round: the top goes behind the remaining heap.
  method SortOne<T(!new)>(a: array<T>, idx: nat, i: nat, n: nat, cmp: (T, T) -> int, ghost s: seq<T>) returns (i': nat)
    requires TotalPreorder(cmp) && 1 < i <= n && idx + n <= a.Length && HalfSorted(cmp, a[..], idx, i, n)
    requires Shuffled(s, a[..], idx, idx + n - 1)
    modifies a
    ensures i' == i - 1 && HalfSorted(cmp, a[..], idx, i', n) && Shuffled(s, a[..], idx, idx + n - 1)
  {
    hide *;
    ghost var t := a[..];
    HeapPart(cmp, t, idx, i, n);
    PopHeap(a, idx, i, cmp);
    SortStep(cmp, t, a[..], idx, i, n);
    Widened(t, a[..], idx, idx + i - 1, idx, idx + n - 1);
    ShuffledTrans(s, t, a[..], idx, idx + n - 1);
    i' := i - 1;
  }

  lemma HeapPart<T(!new)>(cmp: (T, T) -> int, s: seq<T>, idx: int, i: int, n: int)
    requires HalfSorted(cmp, s, idx, i, n)
    ensures IsHeap(cmp, s, idx, i)
  {
  }

  lemma LastOne<T(!new)>(cmp: (T, T) -> int, s: seq<T>, idx: int, i: int, n: int)
    requires HalfSorted(cmp, s, idx, i, n) && i <= 1 && 0 <= n
    ensures Sorted(cmp, s[idx..idx + n])
  {
    var u := s[idx..idx + n];
    forall x, y | 0 <= x < y < n
      ensures cmp(u[x], u[y]) <= 0
    {
      assert Ordered(cmp, s, idx + x, idx + y);
    }
  }

  // ----- Partial sort -----

  // The heap holds the `k` smallest of the elements seen so far, which are those before `i`.
  ghost predicate Smallest<T(!new)>(cmp: (T, T) -> int, s: seq<T>, idx: int, k: int, i: int) {
    && 0 <= idx && 0 < k && idx + k <= i <= |s|
    && (forall x, y {:trigger Ordered(cmp, s, x, y)} :: idx <= x < idx + k <= y < i ==> Ordered(cmp, s, x, y))
  }

  // One that is not below the top of the heap stays where it is.
  lemma NoChange<T(!new)>(cmp: (T, T) -> int, s: seq<T>, idx: int, k: int, i: int)
    requires TotalPreorder(cmp) && Smallest(cmp, s, idx, k, i) && i < |s| && IsHeap(cmp, s, idx, k) && cmp(s[idx], s[i]) <= 0
    ensures Smallest(cmp, s, idx, k, i + 1)
  {
    var i' := i + 1;
    forall x, y | idx <= x < idx + k <= y < i'
      ensures Ordered(cmp, s, x, y)
    {
      if y == i {
        TopIsGreatest(cmp, s, idx, k, x - idx + 1);
        assert Chained(cmp, s[x], s[idx], s[i]);
      }
    }
  }

  // The top of `s` has gone to the last place of the heap in `t`, from there to `i` in `v`, in exchange for a smaller
  // one, and `u` has the heap order back.
  lemma Exchanged<T(!new)>(cmp: (T, T) -> int, s: seq<T>, t: seq<T>, v: seq<T>, u: seq<T>, idx: int, k: int, i: int)
    requires TotalPreorder(cmp) && Smallest(cmp, s, idx, k, i) && i < |s| && IsHeap(cmp, s, idx, k) && cmp(s[idx], s[i]) > 0
    requires Shuffled(s, t, idx, idx + k - 1) && t[idx + k - 1] == s[idx]
    requires v == t[idx + k - 1 := t[i]][i := t[idx + k - 1]] && Shuffled(v, u, idx, idx + k - 1)
    ensures Smallest(cmp, u, idx, k, i + 1)
  {
    var i' := i + 1;
    forall x, y | idx <= x < idx + k <= y < i'
      ensures Ordered(cmp, u, x, y)
    {
      var z := OldPlace(s, t, v, u, idx, k, i, x);
      BehindTop(s, t, v, u, idx, k, i, y);
      SmallerThanTop(cmp, s, idx, k, i, z, y);
    }
  }

  lemma BehindTop<T>(s: seq<T>, t: seq<T>, v: seq<T>, u: seq<T>, idx: int, k: int, i: int, y: int)
    requires 0 < k && 0 <= idx && idx + k <= y <= i < |s| && Shuffled(s, t, idx, idx + k - 1) && t[idx + k - 1] == s[idx]
    requires v == t[idx + k - 1 := t[i]][i := t[idx + k - 1]] && Shuffled(v, u, idx, idx + k - 1)
    ensures |u| == |s| && u[y] == if y == i then s[idx] else s[y]
  {
  }

  // Whatever is in the heap now was below the old top.
  lemma SmallerThanTop<T(!new)>(cmp: (T, T) -> int, s: seq<T>, idx: int, k: int, i: int, z: int, y: int)
    requires TotalPreorder(cmp) && Smallest(cmp, s, idx, k, i) && i < |s| && IsHeap(cmp, s, idx, k) && cmp(s[idx], s[i]) > 0
    requires (z == i || idx <= z < idx + k) && idx + k <= y <= i
    ensures cmp(s[z], if y == i then s[idx] else s[y]) <= 0
  {
    if z != i {
      TopIsGreatest(cmp, s, idx, k, z - idx + 1);
      assert y < i ==> Ordered(cmp, s, z, y);
    } else if y < i {
      assert Ordered(cmp, s, idx, y);
      Transitive(cmp, s[i], s[idx], s[y]);
    }
  }

  // Where the element stood that is now in the heap.
  lemma OldPlace<T>(s: seq<T>, t: seq<T>, v: seq<T>, u: seq<T>, idx: int, k: int, i: int, x: int) returns (z: int)
    requires Shuffled(s, t, idx, idx + k - 1) && idx + k <= i < |s| && idx <= x < idx + k
    requires v == t[idx + k - 1 := t[i]][i := t[idx + k - 1]] && Shuffled(v, u, idx, idx + k - 1)
    ensures (z == i || idx <= z < idx + k) && 0 <= z < |s| && 0 <= x < |u| && u[x] == s[z]
  {
    z := CameFrom(v, u, idx, idx + k - 1, x);
    if z == idx + k - 1 {
      z := i;
    } else {
      z := CameFrom(s, t, idx, idx + k - 1, z);
    }
  }

  // One element behind the heap: it takes the place of the top when it is below it.
  method Consider<T(!new)>(a: array<T>, idx: nat, k: nat, n: nat, i: nat, cmp: (T, T) -> int, ghost s: seq<T>)
    requires TotalPreorder(cmp) && 0 < k && idx + k <= i < idx + n <= a.Length && IsHeap(cmp, a[..], idx, k)
    requires Smallest(cmp, a[..], idx, k, i) && Shuffled(s, a[..], idx, idx + n - 1)
    modifies a
    ensures IsHeap(cmp, a[..], idx, k) && Smallest(cmp, a[..], idx, k, i + 1) && Shuffled(s, a[..], idx, idx + n - 1)
  {
    hide *;
    if cmp(a[idx], a[i]) > 0 {
      ghost var t := a[..];
      PopHeap(a, idx, k, cmp);
      ghost var u := a[..];
      KeptBehind(t, u, idx, idx + k - 1, i);
      a[idx + k - 1], a[i] := a[i], a[idx + k - 1];
      ghost var v := a[..];
      SameHeap(cmp, u, v, idx, k - 1);
      PushHeap(a, idx, k, cmp);
      StillShuffled(s, t, u, v, a[..], idx, idx + k - 1, i, idx + n - 1);
      Exchanged(cmp, t, u, v, a[..], idx, k, i);
    } else {
      NoChange(cmp, a[..], idx, k, i);
    }
  }

  lemma StillShuffled<T>(s: seq<T>, t: seq<T>, u: seq<T>, v: seq<T>, w: seq<T>, l: int, e: int, i: int, r: int)
    requires 0 <= l <= e < i <= r < |u| && Shuffled(s, t, l, r) && Shuffled(t, u, l, e)
    requires |t| == |u| == |v| && v == u[e := u[i]][i := u[e]] && Shuffled(v, w, l, e)
    ensures Shuffled(s, w, l, r)
  {
    hide Shuffled;
    Widened(t, u, l, e, l, r);
    ShuffledTrans(s, t, u, l, r);
    SwapShuffles(u, v, l, r, e, i);
    ShuffledTrans(s, u, v, l, r);
    Widened(v, w, l, e, l, r);
    ShuffledTrans(s, v, w, l, r);
  }

  lemma SameHeap<T(!new)>(cmp: (T, T) -> int, s: seq<T>, t: seq<T>, idx: int, n: int)
    requires IsHeap(cmp, s, idx, n) && |s| == |t| && forall x {:trigger t[x]} :: idx <= x < idx + n ==> t[x] == s[x]
    ensures IsHeap(cmp, t, idx, n)
  {
    forall i | 2 <= i <= n && 1 <= i / 2
      ensures Below(cmp, t, idx, i)
    {
      assert Below(cmp, s, idx, i);
    }
  }

  /** The first `k` places get the `k` smallest elements in order; the others are behind them. */
  method PartialSort<T(!new)>(a: array<T>, idx: nat, k: nat, n: nat, cmp: (T, T) -> int)
    requires TotalPreorder(cmp) && 0 < k <= n && idx + n <= a.Length
    modifies a
    ensures Sorted(cmp, a[idx..idx + k]) && Smallest(cmp, a[..], idx, k, idx + n)
    ensures Shuffled(old(a[..]), a[..], idx, idx + n - 1)
  {
    hide *;
    ghost var s, e, r := a[..], idx + k - 1, idx + n - 1;
    MakeHeap(a, idx, k, cmp);
    Widened(s, a[..], idx, e, idx, r);
    NothingSeen(cmp, a[..], idx, k);
    var i := idx + k;
    while i < idx + n
      invariant idx + k <= i <= idx + n && IsHeap(cmp, a[..], idx, k)
      invariant Smallest(cmp, a[..], idx, k, i) && Shuffled(s, a[..], idx, r)
    {
      Consider(a, idx, k, n, i, cmp, s);
      i := i + 1;
    }
    ghost var t := a[..];
    SortHeap(a, idx, k, cmp);
    FinallyShuffled(s, t, a[..], idx, e, r);
    StillSmallest(cmp, t, a[..], idx, k, i);
  }

  lemma FinallyShuffled<T>(s: seq<T>, t: seq<T>, u: seq<T>, l: int, e: int, r: int)
    requires Shuffled(s, t, l, r) && Shuffled(t, u, l, e) && e <= r
    ensures Shuffled(s, u, l, r)
  {
    Widened(t, u, l, e, l, r);
    ShuffledTrans(s, t, u, l, r);
  }

  lemma NothingSeen<T(!new)>(cmp: (T, T) -> int, s: seq<T>, idx: int, k: int)
    requires 0 <= idx && 0 < k && idx + k <= |s|
    ensures Smallest(cmp, s, idx, k, idx + k)
  {
  }

  lemma StillSmallest<T(!new)>(cmp: (T, T) -> int, s: seq<T>, t: seq<T>, idx: int, k: int, i: int)
    requires Smallest(cmp, s, idx, k, i) && Shuffled(s, t, idx, idx + k - 1)
    ensures Smallest(cmp, t, idx, k, i)
  {
    forall x, y | idx <= x < idx + k <= y < i
      ensures Ordered(cmp, t, x, y)
    {
      var x' := CameFrom(s, t, idx, idx + k - 1, x);
      assert Ordered(cmp, s, x', y) && t[y] == s[y];
    }
  }
}
