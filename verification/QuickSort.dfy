/** The unstable sort: quicksort with a stack of 32 segments, insertion sort for short ones. */
module QuickSort {
  import opened Order
  import opened StableOrder
  import opened MergeSort
  import opened Permutation
  import opened Powers

  const STACK := 32

  // ----- Partition -----

  /** Median of three: the pivot ends at `r - 1`, with nothing greater at `l` and nothing smaller at `r`. */
  method ChoosePivot<T(!new)>(a: array<T>, l: nat, r: nat, cmp: (T, T) -> int)
    requires TotalPreorder(cmp) && l + 9 <= r < a.Length
    modifies a
    ensures Shuffled(old(a[..]), a[..], l, r)
    ensures cmp(a[l], a[r - 1]) <= 0 && cmp(a[r - 1], a[r]) <= 0
  {
    hide Shuffled;
    var middle := (l + r) / 2;
    ghost var s := a[..];
    ShuffledRefl(s, l, r);
    if cmp(a[l], a[middle]) > 0 {
      Swap(a, s, l, r, l, middle);
    }
    if cmp(a[l], a[r]) > 0 {
      Chain3(cmp, a[r], a[l], a[middle]);
      Swap(a, s, l, r, l, r);
    }
    if cmp(a[middle], a[r]) > 0 {
      Swap(a, s, l, r, middle, r);
    }
    Swap(a, s, l, r, middle, r - 1);
  }

  lemma Chain3<T(!new)>(cmp: (T, T) -> int, x: T, y: T, z: T)
    requires TotalPreorder(cmp)
    ensures cmp(x, y) <= 0 && cmp(y, z) <= 0 ==> cmp(x, z) <= 0
  {
    assert Chained(cmp, x, y, z);
  }

  /** Below `i` nothing is above the pivot, above `j` nothing is below it. */
  ghost predicate Parted<T(!new)>(cmp: (T, T) -> int, s: seq<T>, p: T, l: int, i: int, j: int, r: int) {
    && (forall x {:trigger s[x]} :: 0 <= x < |s| && l <= x < i ==> cmp(s[x], p) <= 0)
    && (forall x {:trigger s[x]} :: 0 <= x < |s| && j < x <= r ==> cmp(p, s[x]) <= 0)
  }

  /** Splits `[l, r]` at the pivot's final place. */
  method Partition<T(!new)>(a: array<T>, l: nat, r: nat, cmp: (T, T) -> int) returns (i: nat)
    requires TotalPreorder(cmp) && l + 9 <= r < a.Length
    requires cmp(a[l], a[r - 1]) <= 0 && cmp(a[r - 1], a[r]) <= 0
    modifies a
    ensures Shuffled(old(a[..]), a[..], l, r)
    ensures l < i < r && Parted(cmp, a[..], a[i], l, i, i, r)
  {
    hide Shuffled;
    ghost var s := a[..];
    ShuffledRefl(s, l, r);
    var j: int := r - 1;
    i := l;
    ghost var p := a[r - 1];
    assert cmp(p, p) == 0;
    while true
      invariant l <= i < j < r && a[r - 1] == p && Shuffled(s, a[..], l, r)
      invariant Parted(cmp, a[..], p, l, i + 1, j - 1, r)
      decreases j
    {
      i := i + 1;
      while cmp(a[i], a[r - 1]) < 0
        invariant l < i < r && Parted(cmp, a[..], p, l, i, j - 1, r)
        decreases r - i
      {
        i := i + 1;
      }
      j := j - 1;
      while i < j && cmp(a[r - 1], a[j]) < 0
        invariant l <= j < r - 1 && Parted(cmp, a[..], p, l, i, j, r)
        decreases j
      {
        j := j - 1;
      }
      if i >= j {
        break;
      }
      Swap(a, s, l, r, i, j);
    }
    Swap(a, s, l, r, i, r - 1);
  }

  // ----- The stack of segments -----

  // Segment `e` has at most `n / 2^e` elements.
  ghost predicate Halved(lo: seq<int>, hi: seq<int>, sp: int, n: int) {
    && |lo| == |hi| == STACK && 0 <= sp <= STACK
    && (forall e {:trigger lo[e]} :: 0 <= e < sp ==> 0 <= hi[e] - lo[e] + 1 && (hi[e] - lo[e] + 1) * Pow2(e) <= n)
  }

  // `seg` says for every place which segment it is in, -1 for none.
  ghost predicate Owned(lo: seq<int>, hi: seq<int>, sp: int, seg: seq<int>, idx: int, n: int) {
    && |lo| == |hi| == STACK && 0 <= sp <= STACK && 0 <= idx && idx + n <= |seg|
    && (forall e {:trigger lo[e]} :: 0 <= e < sp ==> idx <= lo[e] && hi[e] < idx + n)
    && (forall e, x {:trigger lo[e], seg[x]} :: 0 <= e < sp && 0 <= x < |seg| ==> (seg[x] == e <==> lo[e] <= x <= hi[e]))
    && (forall x {:trigger seg[x]} :: 0 <= x < |seg| ==> -1 <= seg[x] < sp)
  }

  ghost function Total(lo: seq<int>, hi: seq<int>, sp: nat): int
    requires sp <= |lo| && sp <= |hi|
  {
    if sp == 0 then 0 else Total(lo, hi, sp - 1) + hi[sp - 1] - lo[sp - 1] + 1
  }

  lemma {:induction false} TotalFrame(lo: seq<int>, hi: seq<int>, lo': seq<int>, hi': seq<int>, sp: nat)
    requires sp <= |lo| == |lo'| && sp <= |hi| == |hi'| && lo[..sp] == lo'[..sp] && hi[..sp] == hi'[..sp]
    ensures Total(lo, hi, sp) == Total(lo', hi', sp)
  {
    if sp > 0 {
      assert lo[..sp][sp - 1] == lo'[..sp][sp - 1] && hi[..sp][sp - 1] == hi'[..sp][sp - 1];
      assert lo[..sp - 1] == lo[..sp][..sp - 1] && lo'[..sp - 1] == lo'[..sp][..sp - 1];
      assert hi[..sp - 1] == hi[..sp][..sp - 1] && hi'[..sp - 1] == hi'[..sp][..sp - 1];
      TotalFrame(lo, hi, lo', hi', sp - 1);
    }
  }

  // The top segment is done.
  ghost function Without(seg: seq<int>, l: int, r: int): (s: seq<int>)
    ensures |s| == |seg|
    ensures forall x {:trigger s[x]} :: 0 <= x < |seg| ==> s[x] == if l <= x <= r then -1 else seg[x]
  {
    seq(|seg|, x requires 0 <= x < |seg| => if l <= x <= r then -1 else seg[x])
  }

  // The top segment is split at `i`; the part below `i` becomes segment `left`, the other one `right`.
  ghost function Split(seg: seq<int>, l: int, i: int, r: int, left: int, right: int): (s: seq<int>)
    ensures |s| == |seg|
    ensures forall x {:trigger s[x]} :: 0 <= x < |seg| ==>
      s[x] == if x < l || r < x then seg[x] else if x < i then left else if x > i then right else -1
  {
    seq(|seg|, x requires 0 <= x < |seg| => if x < l || r < x then seg[x] else if x < i then left else if x > i then right else -1)
  }

  lemma Popped(lo: seq<int>, hi: seq<int>, sp: int, seg: seq<int>, idx: int, n: int)
    requires Owned(lo, hi, sp + 1, seg, idx, n) && sp >= 0
    ensures Owned(lo, hi, sp, Without(seg, lo[sp], hi[sp]), idx, n)
  {
    var seg' := Without(seg, lo[sp], hi[sp]);
    forall e, x | 0 <= e < sp && 0 <= x < |seg|
      ensures seg'[x] == e <==> lo[e] <= x <= hi[e]
    {
      assert seg[x] == sp <==> lo[sp] <= x <= hi[sp];
    }
    forall x | 0 <= x < |seg|
      ensures -1 <= seg'[x] < sp
    {
      assert seg[x] == sp <==> lo[sp] <= x <= hi[sp];
    }
  }

  /** There is room for another segment: splitting needs ten elements, and `sp` halvings leave that many. */
  lemma Room(lo: seq<int>, hi: seq<int>, sp: int, n: int)
    requires Halved(lo, hi, sp + 1, n) && 0 <= sp < STACK && lo[sp] + 9 <= hi[sp] && n < 10 * Pow2(STACK - 1)
    ensures sp + 1 < STACK
  {
    hide Pow2;
    Scaled(10, hi[sp] - lo[sp] + 1, Pow2(sp));
  }

  // Of the two parts of a segment split at `i`, the smaller one is on top.
  ghost predicate Pushes(lo: seq<int>, hi: seq<int>, sp: int, i: int, left: bool, lo': seq<int>, hi': seq<int>) {
    && 0 <= sp && sp + 1 < |lo| == |hi| && lo[sp] < i < hi[sp] && (left <==> i - lo[sp] < hi[sp] - i)
    && lo' == lo[sp := if left then i + 1 else lo[sp]][sp + 1 := if left then lo[sp] else i + 1]
    && hi' == hi[sp := if left then hi[sp] else i - 1][sp + 1 := if left then i - 1 else hi[sp]]
  }

  lemma PushedSizes(lo: seq<int>, hi: seq<int>, sp: int, n: int, i: int, left: bool, lo': seq<int>, hi': seq<int>)
    requires Halved(lo, hi, sp + 1, n) && Pushes(lo, hi, sp, i, left, lo', hi')
    ensures Halved(lo', hi', sp + 2, n)
    ensures Total(lo', hi', sp + 2) == Total(lo, hi, sp + 1) - 1
  {
    var l, r := lo[sp], hi[sp];
    SmallerHalf(if left then r - i else i - l, if left then i - l else r - i, r - l + 1, sp, n);
    TotalFrame(lo, hi, lo', hi', sp);
    TwoMore(lo', hi', sp);
    forall e | 0 <= e < sp + 2
      ensures 0 <= hi'[e] - lo'[e] + 1 && (hi'[e] - lo'[e] + 1) * Pow2(e) <= n
    {
      assert e < sp ==> lo'[e] == lo[e];
    }
  }

  lemma TwoMore(lo: seq<int>, hi: seq<int>, sp: nat)
    requires sp + 2 <= |lo| == |hi|
    ensures Total(lo, hi, sp + 2) == Total(lo, hi, sp) + hi[sp] - lo[sp] + hi[sp + 1] - lo[sp + 1] + 2
  {
    assert Total(lo, hi, sp + 2) == Total(lo, hi, sp + 1) + hi[sp + 1] - lo[sp + 1] + 1;
  }

  lemma SmallerHalf(big: int, small: int, size: int, sp: nat, n: int)
    requires 0 <= small <= big && big + small < size && size * Pow2(sp) <= n
    ensures big * Pow2(sp) <= n && small * Pow2(sp + 1) <= n
  {
    Scaled(big, size, Pow2(sp));
    Scaled(2 * small, size, Pow2(sp));
    assert small * (2 * Pow2(sp)) == 2 * small * Pow2(sp);
  }

  lemma PushedPlaces(lo: seq<int>, hi: seq<int>, sp: int, seg: seq<int>, idx: int, n: int, i: int, left: bool, lo': seq<int>, hi': seq<int>)
    requires Owned(lo, hi, sp + 1, seg, idx, n) && Pushes(lo, hi, sp, i, left, lo', hi')
    ensures Owned(lo', hi', sp + 2, Split(seg, lo[sp], i, hi[sp], if left then sp + 1 else sp, if left then sp else sp + 1), idx, n)
  {
    var seg' := Split(seg, lo[sp], i, hi[sp], if left then sp + 1 else sp, if left then sp else sp + 1);
    forall e, x | 0 <= e < sp + 2 && 0 <= x < |seg|
      ensures seg'[x] == e <==> lo'[e] <= x <= hi'[e]
    {
      assert seg[x] == sp <==> lo[sp] <= x <= hi[sp];
      assert e < sp ==> lo'[e] == lo[e] && hi'[e] == hi[e];
    }
    forall e | 0 <= e < sp + 2
      ensures idx <= lo'[e] && hi'[e] < idx + n
    {
      assert e < sp ==> lo'[e] == lo[e] && hi'[e] == hi[e];
      assert idx <= lo[sp] && hi[sp] < idx + n;
    }
  }

  lemma Scaled(x: int, y: int, p: int)
    requires x <= y && p >= 0
    ensures x * p <= y * p
  {
    assert (y - x) * p >= 0;
  }

  // ----- What is in order already -----

  ghost predicate Settled<T(!new)>(cmp: (T, T) -> int, s: seq<T>, seg: seq<int>, idx: int, n: int) {
    && 0 <= idx && idx + n <= |s| == |seg|
    && (forall x, y {:trigger s[x], s[y]} :: idx <= x < y < idx + n ==> cmp(s[x], s[y]) <= 0 || seg[x] == seg[y] != -1)
  }

  /** Rearranging one segment, and splitting it where it is in order. */
  lemma Settle<T(!new)>(cmp: (T, T) -> int, s: seq<T>, t: seq<T>, seg: seq<int>, seg': seq<int>, e: int, l: int, r: int, idx: int, n: int)
    requires Settled(cmp, s, seg, idx, n) && Shuffled(s, t, l, r) && idx <= l && r < idx + n && |seg'| == |seg|
    requires forall x {:trigger seg[x]} :: 0 <= x < |seg| ==> (seg[x] == e <==> l <= x <= r)
    requires forall x {:trigger seg'[x]} :: 0 <= x < |seg| && !(l <= x <= r) ==> seg'[x] == seg[x]
    requires forall x, y {:trigger t[x], t[y]} :: l <= x < y <= r ==> cmp(t[x], t[y]) <= 0 || seg'[x] == seg'[y] != -1
    ensures Settled(cmp, t, seg', idx, n)
  {
    forall x, y | idx <= x < y < idx + n
      ensures cmp(t[x], t[y]) <= 0 || seg'[x] == seg'[y] != -1
    {
      var x', y' := x, y;
      if l <= x <= r {
        x' := CameFrom(s, t, l, r, x);
      }
      if l <= y <= r {
        y' := CameFrom(s, t, l, r, y);
      }
      assert (l <= x && y <= r) || x' < y';
    }
  }

  // ----- The sort -----

  lemma ShortSorted<T(!new)>(cmp: (T, T) -> int, s: seq<T>, t: seq<T>, l: int, r: int)
    requires TotalPreorder(cmp) && Outside(s, t, l, r + 1) && StablySorted(cmp, s[l..r + 1], t[l..r + 1])
    ensures Shuffled(s, t, l, r)
    ensures forall x, y {:trigger t[x], t[y]} :: l <= x < y <= r ==> cmp(t[x], t[y]) <= 0
  {
    StableIsPermutation(cmp, s[l..r + 1], t[l..r + 1]);
    SegmentShuffled(s, t, l, r);
    forall x, y | l <= x < y <= r
      ensures cmp(t[x], t[y]) <= 0
    {
      assert t[x] == t[l..r + 1][x - l] && t[y] == t[l..r + 1][y - l];
    }
  }

  // Sorts a short segment, which is then settled.
  method SortShort<T(!new)>(a: array<T>, l: nat, r: nat, cmp: (T, T) -> int, ghost s: seq<T>,
                            ghost e: int, ghost seg: seq<int>, ghost idx: int, ghost n: int)
    requires Shuffled(s, a[..], idx, idx + n - 1)
    requires TotalPreorder(cmp) && 0 <= idx <= l <= r < idx + n <= a.Length && Settled(cmp, a[..], seg, idx, n)
    requires forall x {:trigger seg[x]} :: 0 <= x < |seg| ==> (seg[x] == e <==> l <= x <= r)
    modifies a
    ensures Shuffled(s, a[..], idx, idx + n - 1) && Settled(cmp, a[..], Without(seg, l, r), idx, n)
  {
    hide *;
    InsertionSort(a, l, r - l + 1, cmp);
    ShortSorted(cmp, old(a[..]), a[..], l, r);
    Widened(old(a[..]), a[..], l, r, idx, idx + n - 1);
    ShuffledTrans(s, old(a[..]), a[..], idx, idx + n - 1);
    Settle(cmp, old(a[..]), a[..], seg, Without(seg, l, r), e, l, r, idx, n);
  }

  // Splits a long segment in two.
  method SplitLong<T(!new)>(a: array<T>, l: nat, r: nat, cmp: (T, T) -> int, ghost s: seq<T>,
                            ghost e: int, ghost seg: seq<int>, ghost idx: int, ghost n: int)
    returns (i: nat)
    requires e >= 0 && Shuffled(s, a[..], idx, idx + n - 1)
    requires TotalPreorder(cmp) && 0 <= idx <= l && l + 9 <= r < idx + n <= a.Length && Settled(cmp, a[..], seg, idx, n)
    requires forall x {:trigger seg[x]} :: 0 <= x < |seg| ==> (seg[x] == e <==> l <= x <= r)
    modifies a
    ensures l < i < r && Shuffled(s, a[..], idx, idx + n - 1)
    ensures Settled(cmp, a[..], Split(seg, l, i, r, e, e + 1), idx, n)
    ensures Settled(cmp, a[..], Split(seg, l, i, r, e + 1, e), idx, n)
  {
    hide *;
    ChoosePivot(a, l, r, cmp);
    ghost var t := a[..];
    i := Partition(a, l, r, cmp);
    ShuffledTrans(old(a[..]), t, a[..], l, r);
    Widened(old(a[..]), a[..], l, r, idx, idx + n - 1);
    ShuffledTrans(s, old(a[..]), a[..], idx, idx + n - 1);
    SettleParts(cmp, old(a[..]), a[..], seg, e, l, i, r, e, e + 1, idx, n);
    SettleParts(cmp, old(a[..]), a[..], seg, e, l, i, r, e + 1, e, idx, n);
  }

  lemma SettleParts<T(!new)>(cmp: (T, T) -> int, s: seq<T>, t: seq<T>, seg: seq<int>, e: int, l: int, i: int, r: int,
                             left: int, right: int, idx: int, n: int)
    requires TotalPreorder(cmp) && Settled(cmp, s, seg, idx, n) && Shuffled(s, t, l, r) && idx <= l < i < r < idx + n
    requires Parted(cmp, t, t[i], l, i, i, r) && left >= 0 && right >= 0
    requires forall x {:trigger seg[x]} :: 0 <= x < |seg| ==> (seg[x] == e <==> l <= x <= r)
    ensures Settled(cmp, t, Split(seg, l, i, r, left, right), idx, n)
  {
    var seg' := Split(seg, l, i, r, left, right);
    forall x, y | l <= x < y <= r
      ensures cmp(t[x], t[y]) <= 0 || seg'[x] == seg'[y] != -1
    {
      if x <= i <= y {
        Chain3(cmp, t[x], t[i], t[y]);
      }
    }
    Settle(cmp, s, t, seg, seg', e, l, r, idx, n);
  }

  // Pushes both parts of `[l, r]`, the greater one first.
  method Push(low: array<int>, high: array<int>, sp: nat, l: int, i: int, r: int) returns (ghost left: bool)
    requires low != high && low.Length == high.Length && sp + 1 < low.Length && low[sp] == l && high[sp] == r && l < i < r
    modifies low, high
    ensures left <==> i - l < r - i
    ensures Pushes(old(low[..]), old(high[..]), sp, i, left, low[..], high[..])
  {
    left := i - l < r - i;
    if i - l < r - i {
      low[sp] := i + 1;
      high[sp] := r;
      low[sp + 1] := l;
      high[sp + 1] := i - 1;
    } else {
      low[sp] := l;
      high[sp] := i - 1;
      low[sp + 1] := i + 1;
      high[sp + 1] := r;
    }
  }

  /** The whole sort: 32 entries are enough for every length below ten times 2^31. */
  method Sort<T(!new)>(a: array<T>, idx: nat, n: nat, cmp: (T, T) -> int)
    requires TotalPreorder(cmp) && idx + n <= a.Length && idx + n > 0 && n < 10 * Pow2(STACK - 1)
    modifies a
    ensures Shuffled(old(a[..]), a[..], idx, idx + n - 1) && Sorted(cmp, a[idx..idx + n])
  {
    hide Owned;
    hide Halved;
    hide Total;
    hide Settled;
    hide Shuffled;
    hide Sorted;
    hide TotalPreorder;
    hide Pow2;
    var low, high := new int[STACK], new int[STACK];
    low[0] := idx;
    high[0] := idx + n - 1;
    var sp := 1;
    ghost var s := a[..];
    ghost var seg := OneSegment(cmp, s, low[..], high[..], idx, n);
    while sp > 0
      invariant Owned(low[..], high[..], sp, seg, idx, n) && Halved(low[..], high[..], sp, n) && 0 <= sp <= STACK
      invariant Settled(cmp, a[..], seg, idx, n) && Shuffled(s, a[..], idx, idx + n - 1)
      decreases 2 * Total(low[..], high[..], sp) + sp
    {
      sp := sp - 1;
      var l, r := low[sp], high[sp];
      ghost var lo, hi := low[..], high[..];
      TopSegment(lo, hi, sp, seg, idx, n);
      if l < r {
        if r - l < SWITCH_INSERTION_SORT {
          SortShort(a, l, r, cmp, s, sp, seg, idx, n);
          Popped(lo, hi, sp, seg, idx, n);
          seg := Without(seg, l, r);
          continue;
        }
        Room(lo, hi, sp, n);
        var i := SplitLong(a, l, r, cmp, s, sp, seg, idx, n);
        ghost var left := Push(low, high, sp, l, i, r);
        PushBoth(lo, hi, sp, seg, idx, n, i, left, low[..], high[..]);
        seg := Split(seg, l, i, r, if left then sp + 1 else sp, if left then sp else sp + 1);
        sp := sp + 2;
      } else {
        Trivial(cmp, a[..], lo, hi, sp, seg, idx, n);
        seg := Without(seg, l, r);
      }
    }
    AllSettled(cmp, a[..], low[..], high[..], seg, idx, n);
  }

  lemma OneSegment<T(!new)>(cmp: (T, T) -> int, s: seq<T>, lo: seq<int>, hi: seq<int>, idx: nat, n: nat) returns (seg: seq<int>)
    requires idx + n <= |s| && idx + n > 0 && |lo| == |hi| == STACK && lo[0] == idx && hi[0] == idx + n - 1
    ensures Owned(lo, hi, 1, seg, idx, n) && Halved(lo, hi, 1, n) && Settled(cmp, s, seg, idx, n)
    ensures Shuffled(s, s, idx, idx + n - 1)
  {
    seg := seq(|s|, x => if idx <= x < idx + n then 0 else -1);
    assert Pow2(0) == 1;
  }

  lemma TopSegment(lo: seq<int>, hi: seq<int>, sp: int, seg: seq<int>, idx: int, n: int)
    requires Owned(lo, hi, sp + 1, seg, idx, n) && Halved(lo, hi, sp + 1, n) && sp >= 0
    ensures 0 <= sp < |lo| == |hi| == STACK && 0 <= idx <= lo[sp] && hi[sp] < idx + n <= |seg|
    ensures forall x {:trigger seg[x]} :: 0 <= x < |seg| ==> (seg[x] == sp <==> lo[sp] <= x <= hi[sp])
    ensures Halved(lo, hi, sp, n) && 0 <= Total(lo, hi, sp) <= Total(lo, hi, sp + 1)
  {
    TotalBound(lo, hi, sp, n);
  }

  lemma {:induction false} TotalBound(lo: seq<int>, hi: seq<int>, sp: nat, n: int)
    requires Halved(lo, hi, sp, n)
    ensures Total(lo, hi, sp) >= 0
  {
    if sp > 0 {
      assert 0 <= hi[sp - 1] - lo[sp - 1] + 1;
      TotalBound(lo, hi, sp - 1, n);
    }
  }

  lemma PushBoth(lo: seq<int>, hi: seq<int>, sp: int, seg: seq<int>, idx: int, n: int, i: int, left: bool, lo': seq<int>, hi': seq<int>)
    requires Owned(lo, hi, sp + 1, seg, idx, n) && Halved(lo, hi, sp + 1, n) && Pushes(lo, hi, sp, i, left, lo', hi')
    ensures Owned(lo', hi', sp + 2, Split(seg, lo[sp], i, hi[sp], if left then sp + 1 else sp, if left then sp else sp + 1), idx, n)
    ensures Halved(lo', hi', sp + 2, n) && Total(lo', hi', sp + 2) == Total(lo, hi, sp + 1) - 1
  {
    PushedSizes(lo, hi, sp, n, i, left, lo', hi');
    PushedPlaces(lo, hi, sp, seg, idx, n, i, left, lo', hi');
  }

  lemma Trivial<T(!new)>(cmp: (T, T) -> int, s: seq<T>, lo: seq<int>, hi: seq<int>, sp: int, seg: seq<int>, idx: int, n: int)
    requires Owned(lo, hi, sp + 1, seg, idx, n) && sp >= 0 && lo[sp] >= hi[sp] && Settled(cmp, s, seg, idx, n)
    ensures Owned(lo, hi, sp, Without(seg, lo[sp], hi[sp]), idx, n) && Settled(cmp, s, Without(seg, lo[sp], hi[sp]), idx, n)
  {
    Popped(lo, hi, sp, seg, idx, n);
    var seg' := Without(seg, lo[sp], hi[sp]);
    forall x, y | idx <= x < y < idx + n
      ensures cmp(s[x], s[y]) <= 0 || seg'[x] == seg'[y] != -1
    {
      assert seg[x] == sp <==> lo[sp] <= x <= hi[sp];
      assert seg[y] == sp <==> lo[sp] <= y <= hi[sp];
    }
  }

  lemma AllSettled<T(!new)>(cmp: (T, T) -> int, s: seq<T>, lo: seq<int>, hi: seq<int>, seg: seq<int>, idx: int, n: int)
    requires Owned(lo, hi, 0, seg, idx, n) && Settled(cmp, s, seg, idx, n) && n >= 0
    ensures Sorted(cmp, s[idx..idx + n])
  {
  }
}
