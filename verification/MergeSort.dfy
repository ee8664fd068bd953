/** Binary searches, insertion sort, the two merges and the stable sort, all in place in an array. */
module MergeSort {
  import opened Order
  import opened StableOrder
  import opened Rotation

  const SWITCH_INSERTION_SORT := 9

  /** `t` differs from `s` within `[first, last)` at most. */
  ghost predicate Outside<T>(s: seq<T>, t: seq<T>, first: int, last: int) {
    0 <= first <= last <= |s| == |t| && t[..first] == s[..first] && t[last..] == s[last..]
  }

  lemma Untouched<T>(s: seq<T>, t: seq<T>, first: int, last: int)
    requires 0 <= first <= last <= |s| == |t| && t[..first] == s[..first] && t[last..] == s[last..]
    ensures Outside(s, t, first, last)
  {
  }

  // ----- Searching -----

  method LowerBound<T(!new)>(a: array<T>, idx: nat, n: nat, value: T, cmp: (T, T) -> int) returns (first: nat)
    requires TotalPreorder(cmp) && idx + n <= a.Length && Sorted(cmp, a[idx..idx + n])
    ensures idx <= first <= idx + n
    ensures forall i :: idx <= i < first ==> cmp(value, a[i]) > 0
    ensures forall i :: first <= i < idx + n ==> cmp(value, a[i]) <= 0
  {
    first := idx;
    var last := idx + n;
    while first < last
      invariant idx <= first <= last <= idx + n
      invariant forall i :: idx <= i < first ==> cmp(value, a[i]) > 0
      invariant forall i :: last <= i < idx + n ==> cmp(value, a[i]) <= 0
    {
      var middle := (first + last) / 2;
      assert a[middle] == a[idx..idx + n][middle - idx];
      if cmp(value, a[middle]) <= 0 {
        forall i | middle <= i < last
          ensures cmp(value, a[i]) <= 0
        {
          assert a[i] == a[idx..idx + n][i - idx];
          assert i > middle ==> Chained(cmp, value, a[middle], a[i]);
        }
        last := middle;
      } else {
        forall i | first <= i <= middle
          ensures cmp(value, a[i]) > 0
        {
          assert a[i] == a[idx..idx + n][i - idx];
          if i < middle {
            Transitive(cmp, a[i], a[middle], value);
          }
        }
        first := middle + 1;
      }
    }
  }

  method UpperBound<T(!new)>(a: array<T>, idx: nat, n: nat, value: T, cmp: (T, T) -> int) returns (first: nat)
    requires TotalPreorder(cmp) && idx + n <= a.Length && Sorted(cmp, a[idx..idx + n])
    ensures idx <= first <= idx + n
    ensures forall i :: idx <= i < first ==> cmp(value, a[i]) >= 0
    ensures forall i :: first <= i < idx + n ==> cmp(value, a[i]) < 0
  {
    first := idx;
    var last := idx + n;
    while first < last
      invariant idx <= first <= last <= idx + n
      invariant forall i :: idx <= i < first ==> cmp(value, a[i]) >= 0
      invariant forall i :: last <= i < idx + n ==> cmp(value, a[i]) < 0
    {
      var middle := (first + last) / 2;
      assert a[middle] == a[idx..idx + n][middle - idx];
      if cmp(value, a[middle]) < 0 {
        forall i | middle <= i < last
          ensures cmp(value, a[i]) < 0
        {
          assert a[i] == a[idx..idx + n][i - idx];
          if i > middle {
            Transitive(cmp, value, a[middle], a[i]);
          }
        }
        last := middle;
      } else {
        forall i | first <= i <= middle
          ensures cmp(value, a[i]) >= 0
        {
          assert a[i] == a[idx..idx + n][i - idx];
          assert i < middle ==> Chained(cmp, a[i], a[middle], value);
        }
        first := middle + 1;
      }
    }
  }

  /** The first equivalent element, or the end when there is none. */
  method BinarySearch<T(!new)>(a: array<T>, idx: nat, n: nat, value: T, cmp: (T, T) -> int) returns (r: nat)
    requires TotalPreorder(cmp) && idx + n <= a.Length && Sorted(cmp, a[idx..idx + n])
    ensures idx <= r <= idx + n
    ensures r < idx + n ==> cmp(value, a[r]) == 0 && forall i :: idx <= i < r ==> cmp(value, a[i]) != 0
    ensures r == idx + n ==> forall i :: idx <= i < idx + n ==> cmp(value, a[i]) != 0
  {
    r := LowerBound(a, idx, n, value, cmp);
    if r == idx + n {
      return;
    } else if cmp(value, a[r]) != 0 {
      forall i | r <= i < idx + n
        ensures cmp(value, a[i]) < 0
      {
        assert a[i] == a[idx..idx + n][i - idx] && a[r] == a[idx..idx + n][r - idx];
        if i > r {
          Transitive(cmp, value, a[r], a[i]);
        }
      }
      return idx + n;
    }
  }

  // ----- Insertion sort -----

  // All in order in `s[..i + 1]`, except that `s[j]` may be too far to the right.
  ghost predicate Inserting<T(!new)>(cmp: (T, T) -> int, s: seq<T>, i: int, j: int) {
    && 0 <= j <= i < |s|
    && (forall p, q {:trigger s[p], s[q]} :: 0 <= p < q <= i && p != j && q != j ==> cmp(s[p], s[q]) <= 0)
    && (forall q {:trigger s[q]} :: j < q <= i ==> cmp(s[j], s[q]) < 0)
  }

  lemma InsertStep<T(!new)>(cmp: (T, T) -> int, s: seq<T>, i: int, j: int, t: seq<T>)
    requires TotalPreorder(cmp) && Inserting(cmp, s, i, j) && j > 0 && cmp(s[j - 1], s[j]) > 0
    requires t == s[j - 1 := s[j]][j := s[j - 1]]
    ensures Inserting(cmp, t, i, j - 1) && Stable(cmp, s, t)
  {
    SwapNeighbours(cmp, s, j, t);
  }

  lemma InsertEnd<T(!new)>(cmp: (T, T) -> int, s: seq<T>, i: int, j: int)
    requires TotalPreorder(cmp) && Inserting(cmp, s, i, j) && (j == 0 || cmp(s[j - 1], s[j]) <= 0)
    ensures Sorted(cmp, s[..i + 1])
  {
    forall p | 0 <= p < j
      ensures cmp(s[p], s[j]) <= 0
    {
      assert p < j - 1 ==> Chained(cmp, s[p], s[j - 1], s[j]);
    }
  }

  lemma StableTrans<T(!new)>(cmp: (T, T) -> int, s: seq<T>, t: seq<T>, u: seq<T>)
    requires Stable(cmp, s, t) && Stable(cmp, t, u)
    ensures Stable(cmp, s, u)
  {
    forall x
      ensures Class(cmp, x, s) == Class(cmp, x, u)
    {
      assert Class(cmp, x, s) == Class(cmp, x, t) == Class(cmp, x, u);
    }
  }

  // Exchanges two neighbours of the range.
  method SwapBack<T>(a: array<T>, idx: nat, n: nat, j: nat)
    requires idx + n <= a.Length && 0 < j < n
    modifies a
    ensures a[idx..idx + n] == old(a[idx..idx + n])[j - 1 := old(a[idx + j])][j := old(a[idx + j - 1])]
    ensures a[..idx] == old(a[..idx]) && a[idx + n..] == old(a[idx + n..])
  {
    a[idx + j], a[idx + j - 1] := a[idx + j - 1], a[idx + j];
  }

  // Writes the next element of a range that is filled from its beginning.
  method Put<T>(a: array<T>, first: nat, k: nat, last: nat, x: T)
    requires first <= k < last <= a.Length
    modifies a
    ensures a[first..k + 1] == old(a[first..k]) + [x]
    ensures a[..first] == old(a[..first]) && a[last..] == old(a[last..])
  {
    a[k] := x;
  }

  method InsertionSort<T(!new)>(a: array<T>, idx: nat, n: nat, cmp: (T, T) -> int)
    requires TotalPreorder(cmp) && idx + n <= a.Length
    modifies a
    ensures Outside(old(a[..]), a[..], idx, idx + n)
    ensures StablySorted(cmp, old(a[idx..idx + n]), a[idx..idx + n])
  {
    hide *;
    ghost var s := a[idx..idx + n];
    StableStart(cmp, s);
    var i := 1;
    while i < n
      invariant 1 <= i && Sorted(cmp, a[idx..idx + n][..if i < n then i else n])
      invariant a[..idx] == old(a[..idx]) && a[idx + n..] == old(a[idx + n..]) && Stable(cmp, s, a[idx..idx + n])
    {
      var j := i;
      ghost var t := a[idx..idx + n];
      InsertStart(cmp, t, i);
      while j > 0 && cmp(a[idx + j - 1], a[idx + j]) > 0
        invariant j <= i && t == a[idx..idx + n] && Inserting(cmp, t, i, j) && Stable(cmp, s, t)
        invariant a[..idx] == old(a[..idx]) && a[idx + n..] == old(a[idx + n..])
      {
        SwapBack(a, idx, n, j);
        ghost var t' := a[idx..idx + n];
        InsertStep(cmp, t, i, j, t');
        StableTrans(cmp, s, t, t');
        t, j := t', j - 1;
      }
      InsertEnd(cmp, t, i, j);
      i := i + 1;
    }
    assert a[idx..idx + n][..n] == a[idx..idx + n];
    Untouched(old(a[..]), a[..], idx, idx + n);
    Both(cmp, s, a[idx..idx + n]);
  }

  lemma StableStart<T(!new)>(cmp: (T, T) -> int, s: seq<T>)
    ensures Stable(cmp, s, s) && Sorted(cmp, s[..if 1 < |s| then 1 else |s|])
  {
  }

  lemma Both<T(!new)>(cmp: (T, T) -> int, s: seq<T>, t: seq<T>)
    requires Sorted(cmp, t) && Stable(cmp, s, t)
    ensures StablySorted(cmp, s, t)
  {
  }

  lemma InsertStart<T(!new)>(cmp: (T, T) -> int, s: seq<T>, i: int)
    requires 0 <= i < |s| && Sorted(cmp, s[..i])
    ensures Inserting(cmp, s, i, i)
  {
    assert forall p :: 0 <= p < i ==> s[p] == s[..i][p];
  }

  // ----- Merging with a buffer -----

  // What is in the buffer: the first run forwards, the second one backwards behind it.
  ghost predicate Bitonic<T>(b: seq<T>, s: seq<T>, t: seq<T>) {
    && |b| >= |s| + |t|
    && (forall i :: 0 <= i < |s| ==> b[i] == s[i])
    && (forall i :: 0 <= i < |t| ==> b[|s| + |t| - 1 - i] == t[i])
  }

  method FillBuffer<T>(a: array<T>, first: nat, middle: nat, last: nat, buf: array<T>)
    requires first <= middle <= last <= a.Length && last - first <= buf.Length && buf != a
    modifies buf
    ensures Bitonic(buf[..], a[first..middle], a[middle..last])
  {
    var i := first;
    while i < middle
      invariant first <= i <= middle
      invariant forall x :: 0 <= x < i - first ==> buf[x] == a[first..middle][x]
    {
      buf[i - first] := a[i];
      i := i + 1;
    }
    i := middle;
    var j := last - 1;
    while i < last
      invariant middle <= i <= last && j == last - 1 - (i - middle)
      invariant forall x :: 0 <= x < middle - first ==> buf[x] == a[first..middle][x]
      invariant forall x :: j - middle < x < last - middle ==> buf[last - first - 1 - x] == a[middle..last][x]
    {
      buf[i - first] := a[j];
      i, j := i + 1, j - 1;
    }
  }

  // `r` is the beginning of the merge of `s` and `t`; `p` and `q` elements of them are used up.
  ghost predicate Merged<T>(cmp: (T, T) -> int, s: seq<T>, t: seq<T>, p: int, q: int, r: seq<T>) {
    0 <= p <= |s| && 0 <= q <= |t| && |r| == p + q && r + Merge(cmp, s[p..], t[q..]) == Merge(cmp, s, t)
  }

  // The choice that the two ends of the buffer make is that of the merge.
  lemma MergeStep<T(!new)>(cmp: (T, T) -> int, s: seq<T>, t: seq<T>, p: int, q: int, r: seq<T>, b: seq<T>, j: int)
    returns (x: T, p': int, q': int)
    requires TotalPreorder(cmp) && Sorted(cmp, s) && Bitonic(b, s, t) && Merged(cmp, s, t, p, q, r) && p + q < |s| + |t|
    requires j == |s| + |t| - 1 - q
    ensures 0 <= j < |b| && 0 <= p <= p' <= |s| && 0 <= q <= q' <= |t| && Merged(cmp, s, t, p', q', r + [x])
    ensures if p < |s| && cmp(b[p], b[j]) <= 0 then x == b[p] && p' == p + 1 && q' == q else x == b[j] && p' == p && q' == q + 1
  {
    var y := b[j];
    if q == |t| {
      assert y == s[|s| - 1];
      assert cmp(s[p], y) <= 0 by {
        assert p < |s| - 1 || (cmp(y, y) == 0 && s[p] == y);
      }
    } else {
      assert y == t[q];
    }
    MergeUnfold(cmp, s, t, p, q);
    if p < |s| && cmp(b[p], y) <= 0 {
      x, p', q' := s[p], p + 1, q;
    } else {
      x, p', q' := y, p, q + 1;
    }
    Regroup(r, x, Merge(cmp, s[p'..], t[q'..]));
  }

  lemma Regroup<T>(r: seq<T>, x: T, m: seq<T>)
    ensures r + [x] + m == r + ([x] + m)
  {
  }

  lemma MergeUnfold<T>(cmp: (T, T) -> int, s: seq<T>, t: seq<T>, p: int, q: int)
    requires 0 <= p <= |s| && 0 <= q <= |t| && p + q < |s| + |t|
    ensures if p < |s| && (q == |t| || cmp(s[p], t[q]) <= 0) then
              Merge(cmp, s[p..], t[q..]) == [s[p]] + Merge(cmp, s[p + 1..], t[q..])
            else q < |t| && Merge(cmp, s[p..], t[q..]) == [t[q]] + Merge(cmp, s[p..], t[q + 1..])
  {
    if p < |s| {
      assert s[p..][1..] == s[p + 1..] && s[p..] == [s[p]] + s[p + 1..];
    }
    if q < |t| {
      assert t[q..][1..] == t[q + 1..] && t[q..] == [t[q]] + t[q + 1..];
    }
  }

  method MergeWithBuffer<T(!new)>(a: array<T>, first: nat, middle: nat, last: nat, buf: array<T>, cmp: (T, T) -> int)
    requires first <= middle <= last <= a.Length && last - first <= buf.Length && buf != a
    requires TotalPreorder(cmp) && Sorted(cmp, a[first..middle])
    modifies a, buf
    ensures Outside(old(a[..]), a[..], first, last)
    ensures a[first..last] == Merge(cmp, old(a[first..middle]), old(a[middle..last]))
  {
    hide *;
    ghost var s, t := a[first..middle], a[middle..last];
    FillBuffer(a, first, middle, last, buf);
    var i, j := first, last - 1;
    var k := first;
    MergeStart(cmp, s, t);
    assert a[first..first] == [];
    ghost var p, q, r, b := 0, 0, a[first..k], buf[..];
    while k < last
      invariant first <= k <= last && i == first + p && j == last - 1 - q && k == first + p + q
      invariant 0 <= p <= |s| && 0 <= q <= |t| && r == a[first..k] && buf[..] == b && Merged(cmp, s, t, p, q, r)
      invariant a[..first] == old(a[..first]) && a[last..] == old(a[last..])
    {
      ghost var x, p', q' := MergeStep(cmp, s, t, p, q, r, b, j - first);
      if i < middle && cmp(buf[i - first], buf[j - first]) <= 0 {
        Put(a, first, k, last, buf[i - first]);
        i := i + 1;
      } else {
        Put(a, first, k, last, buf[j - first]);
        j := j - 1;
      }
      k := k + 1;
      p, q, r := p', q', r + [x];
    }
    MergedEnd(cmp, s, t, a[first..last], p, q);
    Untouched(old(a[..]), a[..], first, last);
  }

  lemma MergeStart<T>(cmp: (T, T) -> int, s: seq<T>, t: seq<T>)
    ensures Merged(cmp, s, t, 0, 0, [])
  {
    assert s[0..] == s && t[0..] == t;
  }

  lemma MergedEnd<T>(cmp: (T, T) -> int, s: seq<T>, t: seq<T>, r: seq<T>, p: int, q: int)
    requires Merged(cmp, s, t, p, q, r) && p + q == |s| + |t|
    ensures r == Merge(cmp, s, t)
  {
    assert s[p..] == [] && t[q..] == [];
  }

  // ----- Merging without a buffer -----

  // The two cuts: what lies before them belongs before what lies behind them.
  lemma CutByFirst<T(!new)>(cmp: (T, T) -> int, s: seq<T>, t: seq<T>, p: int, q: int)
    requires TotalPreorder(cmp) && Sorted(cmp, s) && Sorted(cmp, t) && 0 <= p < |s| && 0 <= q <= |t|
    requires forall i :: 0 <= i < q ==> cmp(s[p], t[i]) > 0
    requires forall i :: q <= i < |t| ==> cmp(s[p], t[i]) <= 0
    ensures Merge(cmp, s, t) == Merge(cmp, s[..p], t[..q]) + Merge(cmp, s[p..], t[q..])
  {
    forall x, y | x in s[..p] && y in t[q..]
      ensures cmp(x, y) <= 0
    {
      assert Chained(cmp, x, s[p], y);
    }
    forall x, y | x in s[p..] && y in t[..q]
      ensures cmp(x, y) > 0
    {
      var i :| p <= i < |s| && s[i] == x;
      if i > p {
        Transitive(cmp, y, s[p], x);
      }
    }
    assert s == s[..p] + s[p..] && t == t[..q] + t[q..];
    MergeCut(cmp, s[..p], s[p..], t[..q], t[q..]);
  }

  lemma CutBySecond<T(!new)>(cmp: (T, T) -> int, s: seq<T>, t: seq<T>, p: int, q: int)
    requires TotalPreorder(cmp) && Sorted(cmp, s) && Sorted(cmp, t) && 0 <= p <= |s| && 0 <= q < |t|
    requires forall i :: 0 <= i < p ==> cmp(t[q], s[i]) >= 0
    requires forall i :: p <= i < |s| ==> cmp(t[q], s[i]) < 0
    ensures Merge(cmp, s, t) == Merge(cmp, s[..p], t[..q]) + Merge(cmp, s[p..], t[q..])
  {
    forall x, y | x in s[..p] && y in t[q..]
      ensures cmp(x, y) <= 0
    {
      var i :| q <= i < |t| && t[i] == y;
      assert i > q ==> Chained(cmp, x, t[q], y);
    }
    forall x, y | x in s[p..] && y in t[..q]
      ensures cmp(x, y) > 0
    {
      Transitive(cmp, y, t[q], x);
    }
    assert s == s[..p] + s[p..] && t == t[..q] + t[q..];
    MergeCut(cmp, s[..p], s[p..], t[..q], t[q..]);
  }

  // A slice that lies outside a changed range.
  lemma SliceKept<T>(s: seq<T>, t: seq<T>, first: int, last: int, i: int, j: int)
    requires Outside(s, t, first, last) && 0 <= i <= j <= |s| && (j <= first || last <= i)
    ensures t[i..j] == s[i..j]
  {
    forall k | i <= k < j
      ensures t[k] == s[k]
    {
      if j <= first {
        assert t[k] == t[..first][k] && s[k] == s[..first][k];
      } else {
        assert t[k] == t[last..][k - last] && s[k] == s[last..][k - last];
      }
    }
  }

  lemma Widen<T>(s: seq<T>, t: seq<T>, i: int, j: int, first: int, last: int)
    requires Outside(s, t, i, j) && 0 <= first <= i && j <= last <= |s|
    ensures Outside(s, t, first, last)
  {
    SliceKept(s, t, i, j, 0, first);
    SliceKept(s, t, i, j, last, |t|);
    assert t[..first] == t[0..first] && s[..first] == s[0..first] && t[last..] == t[last..|t|] && s[last..] == s[last..|s|];
  }

  // What a rotation between the cuts leaves in the two parts that are merged next.
  lemma RotatedParts<T>(s: seq<T>, r: seq<T>, first: int, cut: int, middle: int, cut': int, last: int)
    requires 0 <= first <= cut <= middle <= cut' <= last <= |s| && r == Rotated(s, cut, middle, cut')
    ensures |r| == |s| && Outside(s, r, first, last)
    ensures r[first..cut] == s[first..middle][..cut - first]
    ensures r[cut..cut + cut' - middle] == s[middle..last][..cut' - middle]
    ensures r[cut + cut' - middle..cut'] == s[first..middle][cut - first..]
    ensures r[cut'..last] == s[middle..last][cut' - middle..]
  {
    assert r[..cut] == s[..cut] && r[cut'..] == s[cut'..];
    assert r[cut..cut + cut' - middle] == s[middle..cut'] == s[middle..last][..cut' - middle];
    Widen(s, r, cut, cut', first, last);
    SliceKept(s, r, cut, cut', first, cut);
    SliceKept(s, r, cut, cut', cut', last);
  }

  // Halves the longer run and finds the place of that cut in the other one.
  method Cuts<T(!new)>(a: array<T>, first: nat, middle: nat, last: nat, len1: nat, len2: nat, cmp: (T, T) -> int)
    returns (firstCut: nat, secondCut: nat, len11: nat, len22: nat)
    requires first <= middle <= last <= a.Length && len1 == middle - first > 0 && len2 == last - middle > 0 && len1 + len2 > 2
    requires TotalPreorder(cmp) && Sorted(cmp, a[first..middle]) && Sorted(cmp, a[middle..last])
    ensures first <= firstCut <= middle <= secondCut <= last && len11 == firstCut - first && len22 == secondCut - middle
    ensures 0 < len11 + len22 < len1 + len2
    ensures Merge(cmp, a[first..middle], a[middle..last])
         == Merge(cmp, a[first..middle][..len11], a[middle..last][..len22])
          + Merge(cmp, a[first..middle][len11..], a[middle..last][len22..])
  {
    hide *;
    ghost var s, t := a[first..middle], a[middle..last];
    len11, len22 := 0, 0;
    firstCut, secondCut := first, middle;
    if len1 > len2 {
      len11 := len1 / 2;
      firstCut := firstCut + len11;
      secondCut := LowerBound(a, middle, last - middle, a[firstCut], cmp);
      len22 := secondCut - middle;
      assert s[len11] == a[firstCut] && forall i :: 0 <= i < len2 ==> t[i] == a[middle + i];
      CutByFirst(cmp, s, t, len11, len22);
    } else {
      len22 := len2 / 2;
      secondCut := secondCut + len22;
      firstCut := UpperBound(a, first, middle - first, a[secondCut], cmp);
      len11 := firstCut - first;
      assert t[len22] == a[secondCut] && forall i :: 0 <= i < len1 ==> s[i] == a[first + i];
      CutBySecond(cmp, s, t, len11, len22);
    }
  }

  method MergeWithoutBuffer<T(!new)>(a: array<T>, first: nat, middle: nat, last: nat, len1: nat, len2: nat, cmp: (T, T) -> int)
    requires first <= middle <= last <= a.Length && len1 == middle - first && len2 == last - middle
    requires TotalPreorder(cmp) && Sorted(cmp, a[first..middle]) && Sorted(cmp, a[middle..last])
    modifies a
    ensures Outside(old(a[..]), a[..], first, last)
    ensures a[first..last] == Merge(cmp, old(a[first..middle]), old(a[middle..last]))
    decreases len1 + len2, 1
  {
    hide *;
    if len1 == 0 || len2 == 0 {
      MergeNothing(cmp, a[first..middle], a[middle..last]);
      assert a[first..last] == a[first..middle] + a[middle..last];
      Untouched(a[..], a[..], first, last);
      return;
    }
    if len1 + len2 == 2 {
      MergeTwo(a, first, middle, last, cmp);
      return;
    }
    var firstCut, secondCut, len11, len22 := Cuts(a, first, middle, last, len1, len2, cmp);
    MergeParts(a, first, firstCut, middle, secondCut, last, len1, len2, len11, len22, cmp);
  }

  lemma MergeNothing<T>(cmp: (T, T) -> int, s: seq<T>, t: seq<T>)
    requires s == [] || t == []
    ensures Merge(cmp, s, t) == s + t
  {
  }

  lemma SortedParts<T(!new)>(cmp: (T, T) -> int, s: seq<T>, p: int)
    requires Sorted(cmp, s) && 0 <= p <= |s|
    ensures Sorted(cmp, s[..p]) && Sorted(cmp, s[p..])
  {
  }

  lemma OutsideTrans<T>(s: seq<T>, t: seq<T>, u: seq<T>, first: int, last: int, i: int, j: int)
    requires Outside(s, t, first, last) && Outside(t, u, i, j) && first <= i && j <= last
    ensures Outside(s, u, first, last)
  {
    Widen(t, u, i, j, first, last);
  }

  // Brings the parts before the cuts together, and merges on both sides of where they now meet.
  method MergeParts<T(!new)>(a: array<T>, first: nat, firstCut: nat, middle: nat, secondCut: nat, last: nat,
                             len1: nat, len2: nat, len11: nat, len22: nat, cmp: (T, T) -> int)
    requires first <= firstCut <= middle <= secondCut <= last <= a.Length && len1 == middle - first && len2 == last - middle
    requires len11 == firstCut - first && len22 == secondCut - middle && 0 < len11 + len22 < len1 + len2
    requires TotalPreorder(cmp) && Sorted(cmp, a[first..middle]) && Sorted(cmp, a[middle..last])
    modifies a
    ensures Outside(old(a[..]), a[..], first, last)
    ensures a[first..last] == Merge(cmp, old(a[first..middle][..len11]), old(a[middle..last][..len22]))
                            + Merge(cmp, old(a[first..middle][len11..]), old(a[middle..last][len22..]))
    decreases len1 + len2, 0
  {
    hide *;
    ghost var s, t := a[first..middle], a[middle..last];
    SortedParts(cmp, s, len11);
    SortedParts(cmp, t, len22);
    ghost var a0 := a[..];
    var newMiddle := RotateAux(a, firstCut, middle, secondCut);
    ghost var a1 := a[..];
    RotatedParts(a0, a1, first, firstCut, middle, secondCut, last);
    MergeWithoutBuffer(a, first, firstCut, newMiddle, len11, len22, cmp);
    ghost var a2 := a[..];
    SliceKept(a1, a2, first, newMiddle, newMiddle, secondCut);
    SliceKept(a1, a2, first, newMiddle, secondCut, last);
    MergeWithoutBuffer(a, newMiddle, secondCut, last, len1 - len11, len2 - len22, cmp);
    BothMerged(a0, a1, a2, a[..], first, newMiddle, last);
  }

  lemma BothMerged<T>(s: seq<T>, t: seq<T>, u: seq<T>, v: seq<T>, first: int, middle: int, last: int)
    requires first <= middle <= last && Outside(s, t, first, last) && Outside(t, u, first, middle) && Outside(u, v, middle, last)
    ensures Outside(s, v, first, last) && v[first..last] == u[first..middle] + v[middle..last]
  {
    OutsideTrans(s, t, u, first, last, first, middle);
    SliceKept(u, v, middle, last, first, middle);
    OutsideTrans(s, u, v, first, last, middle, last);
    assert v[first..last] == v[first..middle] + v[middle..last];
  }

  method MergeTwo<T(!new)>(a: array<T>, first: nat, middle: nat, last: nat, cmp: (T, T) -> int)
    requires first + 1 == middle && middle + 1 == last && last <= a.Length
    modifies a
    ensures Outside(old(a[..]), a[..], first, last)
    ensures a[first..last] == Merge(cmp, old(a[first..middle]), old(a[middle..last]))
  {
    if cmp(a[first], a[middle]) > 0 {
      a[first], a[middle] := a[middle], a[first];
    }
  }

  // ----- The sort -----

  lemma MergeIsStableSort<T(!new)>(cmp: (T, T) -> int, s: seq<T>, t: seq<T>, s': seq<T>, t': seq<T>)
    requires TotalPreorder(cmp) && StablySorted(cmp, s, s') && StablySorted(cmp, t, t')
    ensures Sorted(cmp, s') && Sorted(cmp, t') && StablySorted(cmp, s + t, Merge(cmp, s', t'))
  {
    hide *;
    Parts(cmp, s, s');
    Parts(cmp, t, t');
    MergeSorted(cmp, s', t');
    MergeStable(cmp, s', t');
    StableConcat(cmp, s, s', t, t');
    StableTrans(cmp, s + t, s' + t', Merge(cmp, s', t'));
    Both(cmp, s + t, Merge(cmp, s', t'));
  }

  lemma Parts<T(!new)>(cmp: (T, T) -> int, s: seq<T>, t: seq<T>)
    requires StablySorted(cmp, s, t)
    ensures Sorted(cmp, t) && Stable(cmp, s, t)
  {
  }

  /** Sorts `[first, last)` stably, whether or not there is a buffer. */
  method Sort<T(!new)>(a: array<T>, first: nat, last: nat, buf: array?<T>, cmp: (T, T) -> int)
    requires TotalPreorder(cmp) && first <= last <= a.Length && buf != a
    requires buf != null ==> last - first <= buf.Length
    modifies a, buf
    ensures Outside(old(a[..]), a[..], first, last)
    ensures StablySorted(cmp, old(a[first..last]), a[first..last])
    decreases last - first, 1
  {
    hide *;
    if last - first <= 1 {
      Untouched(a[..], a[..], first, last);
      SortedAlready(cmp, a[first..last]);
      return;
    }
    if last - first < SWITCH_INSERTION_SORT {
      InsertionSort(a, first, last - first, cmp);
      return;
    }
    var middle := (first + last) / 2;
    ghost var a0 := a[..];
    SortHalves(a, first, middle, last, buf, cmp);
    ghost var a1 := a[..];
    MergeIsStableSort(cmp, a0[first..middle], a0[middle..last], a1[first..middle], a1[middle..last]);
    assert a0[first..last] == a0[first..middle] + a0[middle..last];
    if buf != null {
      MergeWithBuffer(a, first, middle, last, buf, cmp);
    } else {
      MergeWithoutBuffer(a, first, middle, last, middle - first, last - middle, cmp);
    }
    OutsideTrans(a0, a1, a[..], first, last, first, last);
  }

  lemma SortedAlready<T(!new)>(cmp: (T, T) -> int, s: seq<T>)
    requires |s| <= 1
    ensures StablySorted(cmp, s, s)
  {
  }

  method SortHalves<T(!new)>(a: array<T>, first: nat, middle: nat, last: nat, buf: array?<T>, cmp: (T, T) -> int)
    requires TotalPreorder(cmp) && first < middle < last <= a.Length && buf != a
    requires buf != null ==> last - first <= buf.Length
    modifies a, buf
    ensures Outside(old(a[..]), a[..], first, last)
    ensures StablySorted(cmp, old(a[first..middle]), a[first..middle])
    ensures StablySorted(cmp, old(a[middle..last]), a[middle..last])
    decreases last - first, 0
  {
    hide *;
    ghost var a0 := a[..];
    Sort(a, first, middle, buf, cmp);
    ghost var a1 := a[..];
    SliceKept(a0, a1, first, middle, middle, last);
    Widen(a0, a1, first, middle, first, last);
    Sort(a, middle, last, buf, cmp);
    SliceKept(a1, a[..], middle, last, first, middle);
    OutsideTrans(a0, a1, a[..], first, last, middle, last);
  }

  /** The sort itself; `enough` says whether the buffer could be allocated. */
  method StableSort<T(0, !new)>(a: array<T>, idx: nat, n: nat, cmp: (T, T) -> int, enough: bool)
    requires TotalPreorder(cmp) && idx + n <= a.Length
    modifies a
    ensures Outside(old(a[..]), a[..], idx, idx + n)
    ensures StablySorted(cmp, old(a[idx..idx + n]), a[idx..idx + n])
  {
    if n < SWITCH_INSERTION_SORT {
      InsertionSort(a, idx, n, cmp);
      return;
    }
    var buf: array?<T> := null;
    if enough {
      buf := new T[n];
    }
    Sort(a, idx, idx + n, buf, cmp);
  }

  /** Merges the sorted runs `[first, middle)` and `[middle, last)`, with a buffer when there is `enough` memory. */
  method InplaceMerge<T(0, !new)>(a: array<T>, first: nat, middle: nat, last: nat, cmp: (T, T) -> int, enough: bool)
    requires first <= middle <= last <= a.Length
    requires TotalPreorder(cmp) && Sorted(cmp, a[first..middle]) && Sorted(cmp, a[middle..last])
    modifies a
    ensures Outside(old(a[..]), a[..], first, last)
    ensures a[first..last] == Merge(cmp, old(a[first..middle]), old(a[middle..last]))
  {
    hide *;
    if first == middle || middle == last {
      MergeNothing(cmp, a[first..middle], a[middle..last]);
      assert a[first..last] == a[first..middle] + a[middle..last];
      Untouched(a[..], a[..], first, last);
      return;
    }
    if enough {
      var buf := new T[last - first];
      MergeWithBuffer(a, first, middle, last, buf, cmp);
    } else {
      MergeWithoutBuffer(a, first, middle, last, middle - first, last - middle, cmp);
    }
  }
}
