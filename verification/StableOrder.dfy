/** Sorted sequences, stable rearrangements and the stable merge. */
module StableOrder {
  import opened Order

  ghost predicate Sorted<T(!new)>(cmp: (T, T) -> int, s: seq<T>) {
    forall i, j {:trigger s[i], s[j]} :: 0 <= i < j < |s| ==> cmp(s[i], s[j]) <= 0
  }

  /** The elements of `s` that are equivalent to `x`, in the order in which they stand. */
  ghost function Class<T>(cmp: (T, T) -> int, x: T, s: seq<T>): seq<T> {
    if s == [] then []
    else Class(cmp, x, s[..|s| - 1]) + if cmp(x, s[|s| - 1]) == 0 then [s[|s| - 1]] else []
  }

  /** `t` rearranges `s` and keeps the order of equivalent elements. */
  ghost predicate Stable<T(!new)>(cmp: (T, T) -> int, s: seq<T>, t: seq<T>) {
    |s| == |t| && forall x {:trigger Class(cmp, x, t)} :: Class(cmp, x, s) == Class(cmp, x, t)
  }

  ghost predicate StablySorted<T(!new)>(cmp: (T, T) -> int, s: seq<T>, t: seq<T>) {
    Sorted(cmp, t) && Stable(cmp, s, t)
  }

  // ----- Classes -----

  lemma {:induction false} ClassOfConcat<T>(cmp: (T, T) -> int, x: T, s: seq<T>, t: seq<T>)
    ensures Class(cmp, x, s + t) == Class(cmp, x, s) + Class(cmp, x, t)
    decreases |t|
  {
    if t == [] {
      assert s + t == s;
    } else {
      assert (s + t)[..|s + t| - 1] == s + t[..|t| - 1];
      ClassOfConcat(cmp, x, s, t[..|t| - 1]);
    }
  }

  lemma {:induction false} ClassMembers<T>(cmp: (T, T) -> int, x: T, s: seq<T>)
    ensures forall y :: y in Class(cmp, x, s) <==> y in s && cmp(x, y) == 0
  {
    if s != [] {
      ClassMembers(cmp, x, s[..|s| - 1]);
      assert s == s[..|s| - 1] + [s[|s| - 1]];
    }
  }

  lemma ClassOfFour<T>(cmp: (T, T) -> int, x: T, p: seq<T>, a: T, b: T, q: seq<T>)
    ensures Class(cmp, x, p + [a] + [b] + q)
         == Class(cmp, x, p) + (if cmp(x, a) == 0 then [a] else []) + (if cmp(x, b) == 0 then [b] else []) + Class(cmp, x, q)
  {
    ClassOfConcat(cmp, x, p, [a]);
    ClassOfConcat(cmp, x, p + [a], [b]);
    ClassOfConcat(cmp, x, p + [a] + [b], q);
  }

  /** Exchanging two neighbours that are not equivalent. */
  lemma SwapNeighbours<T(!new)>(cmp: (T, T) -> int, s: seq<T>, j: int, t: seq<T>)
    requires TotalPreorder(cmp) && 0 < j < |s| && cmp(s[j - 1], s[j]) != 0
    requires t == s[j - 1 := s[j]][j := s[j - 1]]
    ensures Stable(cmp, s, t)
  {
    var a, b, p, q := s[j - 1], s[j], s[..j - 1], s[j + 1..];
    assert s == p + [a] + [b] + q && t == p + [b] + [a] + q;
    forall x
      ensures Class(cmp, x, s) == Class(cmp, x, t)
    {
      ClassOfFour(cmp, x, p, a, b, q);
      ClassOfFour(cmp, x, p, b, a, q);
      hide Class;
      if cmp(x, a) == 0 && cmp(x, b) == 0 {
        Transitive(cmp, a, x, b);
        Transitive(cmp, b, x, a);
      }
    }
  }

  lemma StableConcat<T(!new)>(cmp: (T, T) -> int, s: seq<T>, s': seq<T>, t: seq<T>, t': seq<T>)
    requires Stable(cmp, s, s') && Stable(cmp, t, t')
    ensures Stable(cmp, s + t, s' + t')
  {
    forall x
      ensures Class(cmp, x, s + t) == Class(cmp, x, s' + t')
    {
      ClassOfConcat(cmp, x, s, t);
      ClassOfConcat(cmp, x, s', t');
    }
  }

  /** A stable rearrangement has the same elements, each as often. */
  lemma StableIsPermutation<T(!new)>(cmp: (T, T) -> int, s: seq<T>, t: seq<T>)
    requires TotalPreorder(cmp) && Stable(cmp, s, t)
    ensures multiset(s) == multiset(t)
  {
    forall x
      ensures multiset(s)[x] == multiset(t)[x]
    {
      assert cmp(x, x) == 0;
      ClassCounts(cmp, x, s);
      ClassCounts(cmp, x, t);
      assert Class(cmp, x, s) == Class(cmp, x, t);
    }
  }

  lemma {:induction false} ClassCounts<T>(cmp: (T, T) -> int, x: T, s: seq<T>)
    requires cmp(x, x) == 0
    ensures multiset(Class(cmp, x, s))[x] == multiset(s)[x]
  {
    if s != [] {
      var s', y := s[..|s| - 1], s[|s| - 1];
      ClassCounts(cmp, x, s');
      CountLast(x, s', y);
      CountLast(x, Class(cmp, x, s'), y);
      assert s == s' + [y];
    }
  }

  lemma CountLast<T>(x: T, s: seq<T>, y: T)
    ensures multiset(s + [y])[x] == multiset(s)[x] + if x == y then 1 else 0
  {
  }

  /** There is only one stably sorted rearrangement: how it is found does not matter. */
  lemma {:induction false} StablySortedUnique<T(!new)>(cmp: (T, T) -> int, t: seq<T>, u: seq<T>)
    requires TotalPreorder(cmp) && Sorted(cmp, t) && Sorted(cmp, u) && Stable(cmp, t, u)
    ensures t == u
    decreases |t|
  {
    if t != [] {
      var n := |t| - 1;
      SameLast(cmp, t, u);
      assert t == t[..n] + [t[n]] && u == u[..n] + [u[n]];
      forall x
        ensures Class(cmp, x, t[..n]) == Class(cmp, x, u[..n])
      {
        SameFront(cmp, x, t, u);
      }
      StablySortedUnique(cmp, t[..n], u[..n]);
    }
  }

  /** So a stable sort gives the same result on every path, whichever way it merges. */
  lemma OneStableResult<T(!new)>(cmp: (T, T) -> int, s: seq<T>, t: seq<T>, u: seq<T>)
    requires TotalPreorder(cmp) && StablySorted(cmp, s, t) && StablySorted(cmp, s, u)
    ensures t == u
  {
    forall x
      ensures Class(cmp, x, t) == Class(cmp, x, u)
    {
      assert Class(cmp, x, s) == Class(cmp, x, t);
      assert Class(cmp, x, s) == Class(cmp, x, u);
    }
    StablySortedUnique(cmp, t, u);
  }

  lemma SameFront<T>(cmp: (T, T) -> int, x: T, t: seq<T>, u: seq<T>)
    requires t != [] && |t| == |u| && t[|t| - 1] == u[|u| - 1] && Class(cmp, x, t) == Class(cmp, x, u)
    ensures Class(cmp, x, t[..|t| - 1]) == Class(cmp, x, u[..|u| - 1])
  {
    var c := Class(cmp, x, t);
    var k := |c| - if cmp(x, t[|t| - 1]) == 0 then 1 else 0;
    assert Class(cmp, x, t[..|t| - 1]) == c[..k] && Class(cmp, x, u[..|u| - 1]) == c[..k];
  }

  lemma SameLast<T(!new)>(cmp: (T, T) -> int, t: seq<T>, u: seq<T>)
    requires TotalPreorder(cmp) && Sorted(cmp, t) && Sorted(cmp, u) && Stable(cmp, t, u) && |t| > 0
    ensures t[|t| - 1] == u[|t| - 1]
  {
    var n := |t| - 1;
    var x, y := t[n], u[n];
    assert cmp(x, x) == 0 && cmp(y, y) == 0;
    ClassMembers(cmp, x, t);
    ClassMembers(cmp, x, u);
    ClassMembers(cmp, y, t);
    ClassMembers(cmp, y, u);
    assert Class(cmp, x, t) == Class(cmp, x, u) && Class(cmp, y, t) == Class(cmp, y, u);
    assert x in u && y in t;
    assert cmp(x, y) <= 0 && cmp(y, x) <= 0;
    assert Class(cmp, x, t)[|Class(cmp, x, t)| - 1] == x;
    assert Class(cmp, x, u)[|Class(cmp, x, u)| - 1] == y;
  }

  // ----- Merging -----

  /** The stable merge: of equivalent elements the one from `s` comes first. */
  ghost function Merge<T>(cmp: (T, T) -> int, s: seq<T>, t: seq<T>): (r: seq<T>)
    ensures |r| == |s| + |t|
  {
    if s == [] then t
    else if t == [] then s
    else if cmp(s[0], t[0]) <= 0 then [s[0]] + Merge(cmp, s[1..], t)
    else [t[0]] + Merge(cmp, s, t[1..])
  }

  lemma {:induction false} MergeMembers<T>(cmp: (T, T) -> int, s: seq<T>, t: seq<T>)
    ensures multiset(Merge(cmp, s, t)) == multiset(s) + multiset(t)
  {
    if s != [] && t != [] {
      assert s == [s[0]] + s[1..] && t == [t[0]] + t[1..];
      if cmp(s[0], t[0]) <= 0 {
        MergeMembers(cmp, s[1..], t);
      } else {
        MergeMembers(cmp, s, t[1..]);
      }
    }
  }

  lemma SortedTail<T(!new)>(cmp: (T, T) -> int, s: seq<T>)
    requires Sorted(cmp, s) && s != []
    ensures Sorted(cmp, s[1..])
  {
  }

  lemma SortedCons<T(!new)>(cmp: (T, T) -> int, x: T, s: seq<T>)
    requires Sorted(cmp, s) && forall y :: y in s ==> cmp(x, y) <= 0
    ensures Sorted(cmp, [x] + s)
  {
    forall i, j | 0 <= i < j < |[x] + s|
      ensures cmp(([x] + s)[i], ([x] + s)[j]) <= 0
    {
      assert ([x] + s)[j] == s[j - 1] && s[j - 1] in s;
    }
  }

  lemma FirstIsLeast<T(!new)>(cmp: (T, T) -> int, x: T, s: seq<T>, y: T)
    requires TotalPreorder(cmp) && Sorted(cmp, s) && s != [] && cmp(x, s[0]) <= 0 && y in s
    ensures cmp(x, y) <= 0 && (cmp(x, s[0]) < 0 ==> cmp(x, y) < 0)
  {
    var i :| 0 <= i < |s| && s[i] == y;
    if i > 0 {
      Transitive(cmp, x, s[0], y);
    }
  }

  lemma {:induction false} MergeSorted<T(!new)>(cmp: (T, T) -> int, s: seq<T>, t: seq<T>)
    requires TotalPreorder(cmp) && Sorted(cmp, s) && Sorted(cmp, t)
    ensures Sorted(cmp, Merge(cmp, s, t))
  {
    hide Sorted;
    if s != [] && t != [] {
      SortedTail(cmp, s);
      SortedTail(cmp, t);
      var first := cmp(s[0], t[0]) <= 0;
      var x := if first then s[0] else t[0];
      var s', t' := if first then s[1..] else s, if first then t else t[1..];
      MergeSorted(cmp, s', t');
      MergeMembers(cmp, s', t');
      forall y | y in Merge(cmp, s', t')
        ensures cmp(x, y) <= 0
      {
        assert y in multiset(Merge(cmp, s', t'));
        assert cmp(x, x) == 0;
        if y in s' {
          FirstIsLeast(cmp, x, s, y);
        } else {
          FirstIsLeast(cmp, x, t, y);
        }
      }
      SortedCons(cmp, x, Merge(cmp, s', t'));
    }
  }

  lemma {:induction false} MergeStable<T(!new)>(cmp: (T, T) -> int, s: seq<T>, t: seq<T>)
    requires TotalPreorder(cmp) && Sorted(cmp, s) && Sorted(cmp, t)
    ensures Stable(cmp, s + t, Merge(cmp, s, t))
  {
    if s == [] {
      assert s + t == t;
    } else if t == [] {
      assert s + t == s;
    } else {
      forall x
        ensures Class(cmp, x, s + t) == Class(cmp, x, Merge(cmp, s, t))
      {
        ClassOfMerge(cmp, x, s, t);
        ClassOfConcat(cmp, x, s, t);
      }
    }
  }

  lemma {:induction false} ClassOfMerge<T(!new)>(cmp: (T, T) -> int, x: T, s: seq<T>, t: seq<T>)
    requires TotalPreorder(cmp) && Sorted(cmp, s) && Sorted(cmp, t)
    ensures Class(cmp, x, Merge(cmp, s, t)) == Class(cmp, x, s) + Class(cmp, x, t)
  {
    hide Class;
    hide Sorted;
    if s == [] || t == [] {
      ClassOfConcat(cmp, x, s, t);
      assert s + t == Merge(cmp, s, t);
    } else {
      SortedTail(cmp, s);
      SortedTail(cmp, t);
      ClassOfCons(cmp, x, s[0], s[1..]);
      ClassOfCons(cmp, x, t[0], t[1..]);
      assert s == [s[0]] + s[1..] && t == [t[0]] + t[1..];
      if cmp(s[0], t[0]) <= 0 {
        ClassOfMerge(cmp, x, s[1..], t);
        ClassOfCons(cmp, x, s[0], Merge(cmp, s[1..], t));
      } else {
        ClassOfMerge(cmp, x, s, t[1..]);
        ClassOfCons(cmp, x, t[0], Merge(cmp, s, t[1..]));
        if cmp(x, t[0]) == 0 {
          ClassAbove(cmp, x, t[0], s);
        }
      }
    }
  }

  lemma ClassOfCons<T>(cmp: (T, T) -> int, x: T, a: T, s: seq<T>)
    ensures Class(cmp, x, [a] + s) == (if cmp(x, a) == 0 then [a] else []) + Class(cmp, x, s)
  {
    ClassOfConcat(cmp, x, [a], s);
  }

  lemma ClassAbove<T(!new)>(cmp: (T, T) -> int, x: T, b: T, s: seq<T>)
    requires TotalPreorder(cmp) && Sorted(cmp, s) && s != [] && cmp(x, b) == 0 && cmp(b, s[0]) < 0
    ensures Class(cmp, x, s) == []
  {
    forall y | y in s
      ensures cmp(x, y) != 0
    {
      FirstIsLeast(cmp, b, s, y);
      Transitive(cmp, x, b, y);
    }
    EmptyClass(cmp, x, s);
  }

  lemma {:induction false} EmptyClass<T>(cmp: (T, T) -> int, x: T, s: seq<T>)
    requires forall y :: y in s ==> cmp(x, y) != 0
    ensures Class(cmp, x, s) == []
  {
    if s != [] {
      EmptyClass(cmp, x, s[..|s| - 1]);
    }
  }

  ghost predicate NotAbove<T(!new)>(cmp: (T, T) -> int, s: seq<T>, t: seq<T>) {
    forall x, y {:trigger cmp(x, y)} :: x in s && y in t ==> cmp(x, y) <= 0
  }

  ghost predicate Above<T(!new)>(cmp: (T, T) -> int, s: seq<T>, t: seq<T>) {
    forall x, y {:trigger cmp(x, y)} :: x in s && y in t ==> cmp(x, y) > 0
  }

  /** Merging falls apart at a cut that separates small from great in both sequences. */
  lemma {:induction false} MergeCut<T(!new)>(cmp: (T, T) -> int, s: seq<T>, s': seq<T>, t: seq<T>, t': seq<T>)
    requires NotAbove(cmp, s, t') && Above(cmp, s', t)
    ensures Merge(cmp, s + s', t + t') == Merge(cmp, s, t) + Merge(cmp, s', t')
    decreases |s| + |t|
  {
    assert Merge<T>(cmp, [], []) == [];
    hide *;
    if s == [] && t == [] {
      assert s + s' == s' && t + t' == t' && [] + Merge(cmp, s', t') == Merge(cmp, s', t');
    } else if s != [] && (t == [] || cmp(s[0], t[0]) <= 0) {
      CutFirst(cmp, s, s', t, t');
      MergeCut(cmp, s[1..], s', t, t');
      ConsConcat(s[0], Merge(cmp, s[1..], t), Merge(cmp, s', t'));
    } else {
      CutSecond(cmp, s, s', t, t');
      MergeCut(cmp, s, s', t[1..], t');
      ConsConcat(t[0], Merge(cmp, s, t[1..]), Merge(cmp, s', t'));
    }
  }

  lemma ConsConcat<T>(x: T, s: seq<T>, t: seq<T>)
    ensures [x] + (s + t) == [x] + s + t
  {
  }

  lemma CutFirst<T(!new)>(cmp: (T, T) -> int, s: seq<T>, s': seq<T>, t: seq<T>, t': seq<T>)
    requires NotAbove(cmp, s, t') && s != [] && (t == [] || cmp(s[0], t[0]) <= 0)
    ensures Merge(cmp, s + s', t + t') == [s[0]] + Merge(cmp, s[1..] + s', t + t')
    ensures Merge(cmp, s, t) == [s[0]] + Merge(cmp, s[1..], t) && NotAbove(cmp, s[1..], t')
  {
    assert (s + s')[1..] == s[1..] + s';
    if t == [] {
      assert t + t' == t';
      assert t' != [] ==> t'[0] in t' && s[0] in s;
    }
    if t + t' == [] {
      assert s + s' == [s[0]] + (s[1..] + s');
    }
  }

  lemma CutSecond<T(!new)>(cmp: (T, T) -> int, s: seq<T>, s': seq<T>, t: seq<T>, t': seq<T>)
    requires Above(cmp, s', t) && t != [] && (s == [] || cmp(s[0], t[0]) > 0)
    ensures Merge(cmp, s + s', t + t') == [t[0]] + Merge(cmp, s + s', t[1..] + t')
    ensures Merge(cmp, s, t) == [t[0]] + Merge(cmp, s, t[1..]) && Above(cmp, s', t[1..])
  {
    assert (t + t')[1..] == t[1..] + t';
    if s == [] {
      assert s + s' == s';
      assert s' != [] ==> s'[0] in s' && t[0] in t;
    }
    if s + s' == [] {
      assert t + t' == [t[0]] + (t[1..] + t');
    }
  }
}
