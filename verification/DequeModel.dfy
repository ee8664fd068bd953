/** The contents of a deque as the rings cut them up. */
module DequeModel {
  import opened Bits


  ghost function Flat<T>(p: seq<seq<T>>): seq<T> {
    if p == [] then [] else p[0] + Flat(p[1..])
  }

  /** Only the outer rings may have free slots, and only the ring of an empty deque is empty. */
  ghost predicate Packed<T>(p: seq<seq<T>>, R: nat) {
    && |p| > 0
    && (forall j {:trigger p[j]} :: 0 <= j < |p| ==> |p[j]| <= R)
    && (forall j {:trigger p[j]} :: 0 < j < |p| - 1 ==> |p[j]| == R)
    && (|p| > 1 ==> |p[0]| > 0 && |p[|p| - 1]| > 0)
  }

  function Times(e: nat, R: nat): nat {
    e * R
  }

  lemma TimesStep(e: nat, R: nat)
    ensures Times(0, R) == 0 && Times(e + 1, R) == Times(e, R) + R
  {
  }

  lemma TimesSteps(e: nat, R: nat)
    ensures Times(0, R) == 0
    ensures e > 0 ==> Times(e, R) == Times(e - 1, R) + R
    ensures e > 1 ==> Times(e - 1, R) == Times(e - 2, R) + R
  {
  }

  /** The number of rings that `n` elements need behind the `m` free slots of the outer ring. */
  function RingsFor(n: nat, m: nat, R: nat): nat
    requires R > 0
  {
    if n <= m then 0 else 1 + (n - m - 1) / R
  }

  lemma RingsCases(n: nat, m: nat, R: nat)
    requires R > 0
    ensures RingsFor(n, m, R) == if n <= m then 0 else 1 + (n - m - 1) / R
  {
  }

  lemma RingsEnough(n: nat, m: nat, R: nat)
    requires R > 0
    ensures n <= m + Times(RingsFor(n, m, R), R)
    ensures RingsFor(n, m, R) > 0 ==> n > m + Times(RingsFor(n, m, R) - 1, R)
  {
    if n > m {
      var e := RingsFor(n, m, R);
      TimesStep(e - 1, R);
      var q, r := (n - m - 1) / R, (n - m - 1) % R;
      assert n - m - 1 == Times(q, R) + r;
    }
  }

  lemma {:induction false} FlatSplit<T>(p: seq<seq<T>>, j: nat)
    requires j <= |p|
    ensures Flat(p) == Flat(p[..j]) + Flat(p[j..])
  {
    if j == 0 {
      assert p[..0] == [] && p[0..] == p;
    } else {
      FlatSplit(p[1..], j - 1);
      assert p[..j][1..] == p[1..][..j - 1];
      assert p[1..][j - 1..] == p[j..];
    }
  }

  lemma FlatOne<T>(x: seq<T>)
    ensures Flat([x]) == x
  {
    assert [x][1..] == [];
  }

  lemma FlatNone<T>()
    ensures Flat<T>([]) == []
  {
  }

  lemma FlatPair<T>(a: seq<seq<T>>, b: seq<seq<T>>)
    ensures Flat(a + b) == Flat(a) + Flat(b)
  {
    FlatSplit(a + b, |a|);
    assert (a + b)[..|a|] == a && (a + b)[|a|..] == b;
  }

  lemma FlatAt<T>(p: seq<seq<T>>, j: nat)
    requires j < |p|
    ensures Flat(p) == Flat(p[..j]) + p[j] + Flat(p[j + 1..])
  {
    FlatSplit(p, j);
    assert p[j..][1..] == p[j + 1..];
  }

  /** All rings before number `j` but the first are full. */
  lemma {:induction false} StartOf<T>(p: seq<seq<T>>, R: nat, j: nat)
    requires Packed(p, R) && 0 < j < |p|
    ensures |Flat(p[..j])| == |p[0]| + Times(j - 1, R)
  {
    TimesStep(0, R);
    if j == 1 {
      FlatOne(p[0]);
      assert p[..1] == [p[0]];
    } else {
      StartOf(p, R, j - 1);
      TimesStep(j - 2, R);
      FlatPair(p[..j - 1], [p[j - 1]]);
      FlatOne(p[j - 1]);
      assert p[..j - 1] + [p[j - 1]] == p[..j];
    }
  }

  /** Ring and index in the ring of element `idx` when the first ring has `n` elements. */
  function Coordinate(idx: nat, n: nat, R: nat): (nat, nat)
    requires R > 0
  {
    if idx < n then (0, idx) else (1 + (idx - n) / R, (idx - n) % R)
  }

  lemma DivMod(x: nat, R: nat)
    requires R > 0
    ensures x == Times(x / R, R) + x % R && 0 <= x % R < R
  {
  }

  lemma TimesLess(a: nat, b: nat, R: nat)
    requires a < b
    ensures Times(a, R) + R <= Times(b, R)
  {
    assert (a + 1) * R <= b * R;
  }

  /** The coordinates lead to the element. */
  lemma CoordinateFinds<T>(p: seq<seq<T>>, R: nat, idx: nat)
    requires Packed(p, R) && R > 0 && idx < |Flat(p)|
    ensures var c := Coordinate(idx, |p[0]|, R);
            && c.0 < |p| && c.1 < |p[c.0]| && |Flat(p[..c.0])| + c.1 == idx && Flat(p)[idx] == p[c.0][c.1]
            && (c.0 > 0 || c.1 > 0 || idx == 0) && (c.0 == 0 ==> c.1 == idx)
  {
    hide Coordinate, Times, Flat;
    var n, last := |p[0]|, |p| - 1;
    FlatNone<T>();
    var c := Coordinate(idx, n, R);
    CoordinateCases(idx, n, R);
    FlatAt(p, last);
    assert p[..0] == [] && p[|p|..] == [];
    FlatAt(p, 0);
    if idx >= n && last > 0 {
      StartOf(p, R, last);
      if c.0 > last {
        TimesLess(last - 1, c.0 - 1, R);
      }
      StartOf(p, R, c.0);
      FlatAt(p, c.0);
    }
  }

  /** The index in the ring is the lower bits of the distance. */
  lemma CoordinateMask(idx: nat, n: nat, R: Size)
    ensures Coordinate(idx, n, R) == if idx < n then (0, idx) else (1 + (idx - n) / R, And(idx - n, R - 1))
  {
    if idx >= n {
      MaskIsRemainder(idx - n, R);
    }
  }

  lemma CoordinateCases(idx: nat, n: nat, R: nat)
    requires R > 0
    ensures var c := Coordinate(idx, n, R);
            if idx < n then c == (0, idx)
            else c.0 > 0 && idx == n + Times(c.0 - 1, R) + c.1 && c.1 < R
  {
    if idx >= n {
      DivMod(idx - n, R);
    }
  }

  // ----- Changes at single rings -----

  lemma FirstPart<T>(p: seq<seq<T>>, R: nat)
    requires Packed(p, R)
    ensures |p| > 0 && |p[0]| <= R && |p[|p| - 1]| <= R
  {
  }

  lemma PutFlat<T>(p: seq<seq<T>>, j: nat, r: nat, x: T)
    requires j < |p| && r < |p[j]|
    ensures var at := |Flat(p[..j])| + r;
            at < |Flat(p)| && Flat(p[j := p[j][r := x]]) == Flat(p)[at := x]
  {
    var q := p[j := p[j][r := x]];
    FlatAt(p, j);
    FlatAt(q, j);
    assert q[..j] == p[..j] && q[j + 1..] == p[j + 1..];
  }

  lemma PutPacked<T>(p: seq<seq<T>>, R: nat, j: nat, x: seq<T>)
    requires Packed(p, R) && j < |p| && |x| == |p[j]|
    ensures Packed(p[j := x], R)
  {
  }

  /** The first ring takes in `x` at its front. */
  lemma GrowFront<T>(p: seq<seq<T>>, R: nat, x: T)
    requires Packed(p, R)
    ensures Flat(p[0 := [x] + p[0]]) == [x] + Flat(p) && Flat([[x]] + p) == [x] + Flat(p)
    ensures |p[0]| < R ==> Packed(p[0 := [x] + p[0]], R)
    ensures |p[0]| == R && R > 0 ==> Packed([[x]] + p, R)
  {
    FlatPair([[x]], p);
    FlatOne([x]);
    assert p[0 := [x] + p[0]][1..] == p[1..];
    var q := [[x]] + p;
    assert forall j :: 0 < j < |q| ==> q[j] == p[j - 1];
  }

  lemma GrowBack<T>(p: seq<seq<T>>, R: nat, x: T)
    requires Packed(p, R)
    ensures var l := |p| - 1;
            Flat(p[l := p[l] + [x]]) == Flat(p) + [x] && (|p[l]| < R ==> Packed(p[l := p[l] + [x]], R))
    ensures Flat(p + [[x]]) == Flat(p) + [x] && (|p[|p| - 1]| == R && R > 0 ==> Packed(p + [[x]], R))
  {
    var l := |p| - 1;
    FlatPair(p, [[x]]);
    FlatOne([x]);
    var q := p[l := p[l] + [x]];
    assert q == p[..l] + [p[l] + [x]] && p == p[..l] + [p[l]];
    FlatPair(p[..l], [p[l] + [x]]);
    FlatPair(p[..l], [p[l]]);
    FlatOne(p[l]);
    FlatOne(p[l] + [x]);
  }

  /** Everything before index `r` of ring `j` is gone. */
  lemma TrimFront<T>(p: seq<seq<T>>, R: nat, j: nat, r: nat)
    requires Packed(p, R) && j < |p| && r < |p[j]|
    ensures var at := |Flat(p[..j])| + r; var q := [p[j][r..]] + p[j + 1..];
            at <= |Flat(p)| && Flat(q) == Flat(p)[at..] && Packed(q, R)
  {
    var q := [p[j][r..]] + p[j + 1..];
    FlatAt(p, j);
    FlatPair([p[j][r..]], p[j + 1..]);
    FlatOne(p[j][r..]);
    assert forall k :: 0 < k < |q| ==> q[k] == p[j + k];
  }

  /** Everything from index `r` of ring `j` on is gone; a ring that would be empty goes too, unless it is the first. */
  lemma TrimBack<T>(p: seq<seq<T>>, R: nat, j: nat, r: nat)
    requires Packed(p, R) && j < |p| && r < |p[j]|
    ensures var at := |Flat(p[..j])| + r; var q := p[..j] + [p[j][..r]];
            && at <= |Flat(p)| && Flat(q) == Flat(p)[..at] && (j == 0 || r > 0 ==> Packed(q, R))
            && (j > 0 && r == 0 ==> Packed(p[..j], R) && Flat(p[..j]) == Flat(p)[..at])
  {
    var q := p[..j] + [p[j][..r]];
    FlatAt(p, j);
    FlatPair(p[..j], [p[j][..r]]);
    FlatOne(p[j][..r]);
    assert forall k :: 0 <= k < j ==> q[k] == p[k];
  }

  /** The first element goes, and with it a ring that becomes empty unless it is the only one. */
  lemma TakeFirst<T>(p: seq<seq<T>>, R: nat)
    requires Packed(p, R) && |p[0]| > 0
    ensures var q := p[0 := p[0][1..]];
            && Flat(p) != [] && Flat(q) == Flat(p)[1..]
            && (|q[0]| > 0 || |p| == 1 ==> Packed(q, R))
            && (|q[0]| == 0 && |p| > 1 ==> Packed(q[1..], R) && Flat(q[1..]) == Flat(q))
            && (|q[0]| == 0 ==> (Flat(q) != [] <==> |p| > 1))
  {
    var q := p[0 := p[0][1..]];
    assert q[1..] == p[1..];
    if |p| > 1 {
      FlatAt(p, |p| - 1);
      FlatAt(q, |q| - 1);
    }
    assert forall k :: 0 <= k < |p| - 1 ==> q[1..][k] == p[k + 1];
  }

  lemma TakeLast<T>(p: seq<seq<T>>, R: nat)
    requires Packed(p, R) && |p[|p| - 1]| > 0
    ensures var l := |p| - 1; var q := p[l := p[l][..|p[l]| - 1]];
            && Flat(p) != [] && Flat(q) == Flat(p)[..|Flat(p)| - 1]
            && (|q[l]| > 0 || l == 0 ==> Packed(q, R))
            && (|q[l]| == 0 && l > 0 ==> Packed(q[..l], R) && Flat(q[..l]) == Flat(q))
            && (|q[l]| == 0 ==> (Flat(q) != [] <==> l > 0))
  {
    var l := |p| - 1;
    var q := p[l := p[l][..|p[l]| - 1]];
    FlatAt(p, l);
    FlatAt(q, l);
    assert q[..l] == p[..l] && p[l + 1..] == [] && q[l + 1..] == [];
    if l > 0 {
      FlatAt(p[..l], 0);
    }
  }

  lemma RingsForOne(R: nat)
    requires R > 0
    ensures RingsFor(1, 0, R) == 1
  {
  }

  lemma NotEmpty<T>(p: seq<seq<T>>, R: nat)
    requires Packed(p, R) && Flat(p) != []
    ensures |p[0]| > 0 && |p[|p| - 1]| > 0
  {
    if |p| == 1 {
      FlatOne(p[0]);
      assert p == [p[0]];
    }
  }

  lemma OneEmpty<T>(R: nat)
    ensures Packed<T>([[]], R)
  {
  }
}
