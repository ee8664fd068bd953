/** Rearranging a segment of a sequence. */
module Permutation {

  /** `t` rearranges `s`, and only within `[l, r]`. */
  ghost predicate Shuffled<T>(s: seq<T>, t: seq<T>, l: int, r: int) {
    && 0 <= l <= r + 1 <= |s| == |t|
    && multiset(s) == multiset(t)
    && (forall x {:trigger t[x]} :: 0 <= x < l || r < x < |s| ==> t[x] == s[x])
  }

  lemma ThreeParts<T>(s: seq<T>, l: int, r: int)
    requires 0 <= l <= r + 1 <= |s|
    ensures multiset(s) == multiset(s[..l]) + multiset(s[l..r + 1]) + multiset(s[r + 1..])
  {
    assert s == s[..l] + s[l..r + 1] + s[r + 1..];
  }

  /** The segments themselves have the same elements, and that is enough. */
  lemma SegmentShuffled<T>(s: seq<T>, t: seq<T>, l: int, r: int)
    requires 0 <= l <= r + 1 <= |s| == |t| && s[..l] == t[..l] && s[r + 1..] == t[r + 1..]
    ensures Shuffled(s, t, l, r) <==> multiset(s[l..r + 1]) == multiset(t[l..r + 1])
  {
    ThreeParts(s, l, r);
    ThreeParts(t, l, r);
    assert multiset(s[l..r + 1]) == multiset(s) - multiset(s[..l]) - multiset(s[r + 1..]);
    assert multiset(t[l..r + 1]) == multiset(t) - multiset(t[..l]) - multiset(t[r + 1..]);
    forall x | 0 <= x < l || r < x < |s|
      ensures t[x] == s[x]
    {
      assert x < l ==> t[x] == t[..l][x] && s[x] == s[..l][x];
      assert x > r ==> t[x] == t[r + 1..][x - r - 1] && s[x] == s[r + 1..][x - r - 1];
    }
  }

  lemma ShuffledTrans<T>(s: seq<T>, t: seq<T>, u: seq<T>, l: int, r: int)
    requires Shuffled(s, t, l, r) && Shuffled(t, u, l, r)
    ensures Shuffled(s, u, l, r)
  {
    assert forall x :: 0 <= x < l || r < x < |s| ==> t[x] == s[x];
  }

  lemma ShuffledRefl<T>(s: seq<T>, l: int, r: int)
    requires 0 <= l <= r + 1 <= |s|
    ensures Shuffled(s, s, l, r)
  {
  }

  lemma Widened<T>(s: seq<T>, t: seq<T>, l: int, r: int, first: int, last: int)
    requires Shuffled(s, t, l, r) && 0 <= first <= l && r <= last < |s|
    ensures Shuffled(s, t, first, last)
  {
  }

  lemma SwapShuffles<T>(s: seq<T>, t: seq<T>, l: int, r: int, i: int, j: int)
    requires 0 <= l <= r < |s| && l <= i <= r && l <= j <= r && t == s[i := s[j]][j := s[i]]
    ensures Shuffled(s, t, l, r)
  {
  }

  lemma KeptBehind<T>(s: seq<T>, t: seq<T>, l: int, r: int, i: int)
    requires Shuffled(s, t, l, r) && r < i < |s|
    ensures |s| == |t| && s[i] == t[i]
  {
  }

  /** Whatever stands in the segment afterwards stood somewhere in it before. */
  lemma CameFrom<T>(s: seq<T>, t: seq<T>, l: int, r: int, x: int) returns (y: int)
    requires Shuffled(s, t, l, r) && l <= x <= r
    ensures l <= y <= r && s[y] == t[x]
  {
    assert s[..l] == t[..l] && s[r + 1..] == t[r + 1..];
    SegmentShuffled(s, t, l, r);
    assert t[x] == t[l..r + 1][x - l];
    assert t[x] in multiset(t[l..r + 1]);
    assert t[x] in s[l..r + 1];
    var k :| 0 <= k < |s[l..r + 1]| && s[l..r + 1][k] == t[x];
    y := l + k;
  }

  // Exchanges two elements of the segment, which `s` has had from the beginning.
  method Swap<T>(a: array<T>, ghost s: seq<T>, ghost l: int, ghost r: int, i: nat, j: nat)
    requires 0 <= l <= i <= r < a.Length && l <= j <= r && Shuffled(s, a[..], l, r)
    modifies a
    ensures Shuffled(s, a[..], l, r)
    ensures a[i] == old(a[j]) && a[j] == old(a[i])
    ensures forall x {:trigger a[x]} :: 0 <= x < a.Length && x != i && x != j ==> a[x] == old(a[x])
  {
    ghost var t := a[..];
    a[i], a[j] := a[j], a[i];
    SwapShuffles(t, a[..], l, r, i, j);
    ShuffledTrans(s, t, a[..], l, r);
  }
}
