/** Rotation of a range by cycles: the elements of `a[first..last]` move `k = middle - first`
    places to the left, one cycle of `x -> x + k mod n` at a time.  There are `gcd(n, k)` cycles. */
module Rotation {

  /** What rotating `[first, last)` about `middle` must give. */
  ghost function Rotated<T>(s: seq<T>, first: int, middle: int, last: int): seq<T>
    requires 0 <= first <= middle <= last <= |s|
  {
    s[..first] + s[middle..last] + s[first..middle] + s[last..]
  }

  // ----- Greatest common divisor -----

  /** `x` and `y` as combinations of `m` and `n`, and the other way round. */
  datatype Bezout = Bezout(xm: int, xn: int, ym: int, yn: int, mx: int, my: int, nx: int, ny: int) {
    ghost predicate Relates(x: int, y: int, m: int, n: int) {
      && x == xm * m + xn * n && y == ym * m + yn * n
      && m == mx * x + my * y && n == nx * x + ny * y
    }
  }

  lemma Remainder(b: Bezout, x: int, y: int, m: int, n: int) returns (b': Bezout)
    requires b.Relates(x, y, m, n) && y > 0
    ensures b'.Relates(y, x % y, m, n)
  {
    var c := x / y;
    b' := Bezout(b.ym, b.yn, b.xm - c * b.ym, b.xn - c * b.yn, b.mx * c + b.my, b.mx, b.nx * c + b.ny, b.nx);
    calc {
      x % y;
      x - c * y;
      b.xm * m + b.xn * n - c * (b.ym * m + b.yn * n);
      b'.ym * m + b'.yn * n;
    }
    Quotient(x, y, c, m, b.mx, b.my);
    Quotient(x, y, c, n, b.nx, b.ny);
  }

  lemma Quotient(x: int, y: int, c: int, m: int, mx: int, my: int)
    requires m == mx * x + my * y
    ensures m == (mx * c + my) * y + mx * (x - c * y)
  {
  }

  lemma EndOfGcd(b: Bezout, x: int, m: int, n: int)
    requires b.Relates(x, 0, m, n)
    ensures m == b.mx * x && n == b.nx * x && x == b.xm * m + b.xn * n
  {
  }

  /** The result divides both arguments and is a combination of them: no common divisor is greater. */
  method Gcd(m: nat, n: nat) returns (d: nat, ghost b: Bezout)
    requires m > 0
    ensures d > 0 && m == b.mx * d && n == b.nx * d && d == b.xm * m + b.xn * n
  {
    var x, y := m, n;
    b := Bezout(1, 0, 0, 1, 1, 0, 0, 1);
    assert b.Relates(x, y, m, n);
    hide Bezout.Relates;
    while y != 0
      invariant x > 0 && b.Relates(x, y, m, n)
    {
      b := Remainder(b, x, y, m, n);
      x, y := y, x % y;
    }
    EndOfGcd(b, x, m, n);
    d := x;
  }

  // ----- Cycles -----

  /** The numbers of a rotation: `d` cycles of `n` elements each, a shift of `k` cells of `d`
      elements, `l` cells the other way round, and an inverse `u` of `k` modulo `n`. */
  datatype Cycles = Cycles(d: int, n: int, k: int, l: int, u: int, v: int) {
    ghost predicate Valid() {
      d > 0 && k > 0 && l >= 0 && n == k + l && u * k + v * n == 1
    }

    /** The cell whose content moves to cell `y`. */
    ghost function Next(y: int): int {
      if y < l then y + k else y - l
    }

    /** When cell `y` is filled: the number of steps that lead from cell 0 to `y`. */
    ghost function Turn(y: int): int
      requires n > 0
    {
      (y * u) % n
    }
  }

  lemma Multiple(a: int, n: int)
    requires n > 0
    ensures a >= 1 ==> a * n >= n
    ensures a <= -1 ==> a * n <= -n
  {
    if a >= 1 {
      assert (a - 1) * n >= 0;
    } else if a <= -1 {
      assert (-a - 1) * n >= 0;
    }
  }

  lemma ModUnique(a: int, b: int, n: int, c: int)
    requires n > 0 && a == b + c * n
    ensures a % n == b % n
  {
    var q := b / n;
    assert a == (q + c) * n + b % n;
    ModOf(a, q + c, n, b % n);
  }

  lemma ModOf(a: int, q: int, n: int, r: int)
    requires n > 0 && a == q * n + r && 0 <= r < n
    ensures a % n == r
  {
    var q', r' := a / n, a % n;
    assert (q - q') * n == r' - r;
    Multiple(q - q', n);
  }

  lemma ModNext(t: int, n: int)
    requires n > 0
    ensures (t + 1) % n == if t % n == n - 1 then 0 else t % n + 1
  {
    var q := t / n;
    if t % n == n - 1 {
      assert t + 1 == (q + 1) * n + 0;
      ModOf(t + 1, q + 1, n, 0);
    } else {
      ModOf(t + 1, q, n, t % n + 1);
    }
  }

  lemma TimesInverse(y: int, k: int, u: int, v: int, n: int, e: int)
    requires u * k + v * n == 1
    ensures (y + k - e * n) * u == y * u + 1 + (-v - e * u) * n
  {
    calc {
      (y + k - e * n) * u;
      y * u + u * k - e * n * u;
      y * u + 1 - v * n - e * u * n;
      y * u + 1 + (-v - e * u) * n;
    }
  }

  lemma TurnNext(c: Cycles, y: int)
    requires c.Valid() && 0 <= y < c.n
    ensures 0 <= c.Next(y) < c.n && 0 <= c.Turn(y) < c.n
    ensures c.Turn(c.Next(y)) == if c.Turn(y) == c.n - 1 then 0 else c.Turn(y) + 1
  {
    var e := if y < c.l then 0 else 1;
    TimesInverse(y, c.k, c.u, c.v, c.n, e);
    ModUnique(c.Next(y) * c.u, y * c.u + 1, c.n, -c.v - e * c.u);
    ModNext(y * c.u, c.n);
  }

  lemma DivideByK(u: int, k: int, v: int, n: int, x: int, e: int)
    requires u * k + v * n == 1 && x * u == e * n
    ensures x == (e * k + x * v) * n
  {
    calc {
      x;
      x * (u * k + v * n);
      x * u * k + x * v * n;
      e * n * k + x * v * n;
      (e * k + x * v) * n;
    }
  }

  /** No cell has its turn twice. */
  lemma TurnDistinct(c: Cycles, y: int, z: int)
    requires c.Valid() && 0 <= y < c.n && 0 <= z < c.n && c.Turn(y) == c.Turn(z)
    ensures y == z
  {
    var e := (y * c.u) / c.n - (z * c.u) / c.n;
    assert y * c.u - z * c.u == e * c.n;
    var q := e * c.k + (y - z) * c.v;
    DivideByK(c.u, c.k, c.v, c.n, y - z, e);
    Multiple(q, c.n);
  }

  // `fwd` steps forward and `back` steps back have led from cell 0 to cell `y`.
  ghost predicate Walked(c: Cycles, y: int, fwd: int, back: int) {
    c.Valid() && 0 <= y < c.n && c.Turn(y) == fwd + back && y == fwd * c.k - back * c.l
  }

  lemma WalkStart(c: Cycles)
    requires c.Valid()
    ensures Walked(c, 0, 0, 0)
  {
    ModOf(0 * c.u, 0, c.n, 0);
  }

  lemma OneMore(a: int, b: int)
    ensures (a + 1) * b == a * b + b
  {
  }

  lemma WalkStep(c: Cycles, y: int, fwd: int, back: int)
    requires Walked(c, y, fwd, back) && fwd + back < c.n - 1
    ensures if y < c.l then Walked(c, y + c.k, fwd + 1, back) else y > c.l && Walked(c, y - c.l, fwd, back + 1)
  {
    hide Cycles.Turn;
    TurnNext(c, y);
    if y == c.l {
      LastTurn(c, y, fwd, back);
    }
    OneMore(fwd, c.k);
    OneMore(back, c.l);
  }

  /** The last turn is that of cell `l`, after `l` steps forward and `k - 1` steps back. */
  lemma LastTurn(c: Cycles, y: int, fwd: int, back: int)
    requires Walked(c, y, fwd, back)
    requires fwd + back == c.n - 1 || y == c.l
    ensures y == c.l && fwd + back == c.n - 1 && fwd == c.l && back == c.k - 1
  {
    TurnNext(c, y);
    assert c.Turn(0) == 0 by { ModOf(0 * c.u, 0, c.n, 0); }
    if c.Turn(y) == c.n - 1 {
      TurnDistinct(c, c.Next(y), 0);
    }
    assert y == c.l && c.Next(y) == 0;
    calc {
      c.l * c.n;
      c.l * (fwd + back + 1);
      c.l * fwd + (c.l + back * c.l);
      c.l * fwd + fwd * c.k;
      fwd * c.n;
    }
    Multiple(fwd - c.l, c.n);
  }

  /** All `l` steps forward are done, the last step was one of them: only the closing step is left. */
  lemma ForwardDone(c: Cycles, y: int, fwd: int, back: int)
    requires Walked(c, y, fwd, back) && c.k < c.l && fwd == c.l && c.k <= y
    ensures y == c.l && fwd + back == c.n - 1
  {
    calc {
      y - c.l;
      c.l * c.k - back * c.l - c.l;
      (c.k - back - 1) * c.l;
    }
    Multiple(c.k - back - 1, c.l);
    LastTurn(c, y, fwd, back);
  }

  /** The same for `k - 1` steps back, when they are the longer ones. */
  lemma BackDone(c: Cycles, y: int, fwd: int, back: int)
    requires Walked(c, y, fwd, back) && c.l < c.k && back == c.k - 1 && y < c.k
    ensures y == c.l && fwd + back == c.n - 1
  {
    calc {
      y - c.l;
      fwd * c.k - (c.k - 1) * c.l - c.l;
      fwd * c.k - c.k * c.l;
      (fwd - c.l) * c.k;
    }
    Multiple(fwd - c.l, c.k);
    LastTurn(c, y, fwd, back);
  }

  // ----- What is in the array while it is being rotated -----

  /** The place of cell `y` of cycle `i`. */
  ghost function Place(c: Cycles, f: int, i: int, y: int): int {
    f + i + c.d * y
  }

  lemma Scale(d: int, y: int, z: int)
    requires d > 0
    ensures y < z ==> d * y + d <= d * z
    ensures d * (y + z) == d * y + d * z && d * (y - z) == d * y - d * z
  {
    if y < z {
      assert d * (z - y - 1) >= 0;
    }
  }

  lemma PlaceBounds(c: Cycles, f: int, i: int, y: int)
    requires c.Valid() && 0 <= i < c.d && 0 <= y < c.n
    ensures f <= Place(c, f, i, y) < f + c.d * c.n
    ensures Place(c, f, i, y) + c.d * c.k == Place(c, f, i, y + c.k)
    ensures Place(c, f, i, y) - c.d * c.l == Place(c, f, i, y - c.l)
    ensures Place(c, f, i, y) > f + i + c.d * c.l <==> y > c.l
    ensures Place(c, f, i, y) < f + c.d * c.l <==> y < c.l
  {
    Scale(c.d, y, c.n);
    Scale(c.d, y, c.k);
    Scale(c.d, y, c.l);
    Scale(c.d, c.l, y);
    hide *;
    assert c.d * y >= 0;
  }

  lemma PlaceDistinct(c: Cycles, f: int, i: int, y: int, i': int, y': int)
    requires c.Valid() && 0 <= i < c.d && 0 <= i' < c.d && Place(c, f, i, y) == Place(c, f, i', y')
    ensures i == i' && y == y'
  {
    assert (y - y') * c.d == i' - i;
    Multiple(y - y', c.d);
  }

  // Cell `y` of cycle `i` has its final content once it had its turn; `m` turns of cycle `now` are over.
  ghost predicate Cell<T>(s: seq<T>, t: seq<T>, c: Cycles, f: int, now: int, m: int, i: int, y: int)
    requires c.n > 0
  {
    var from := if i < now || (i == now && c.Turn(y) < m) then c.Next(y) else y;
    && 0 <= Place(c, f, i, y) < |t| && 0 <= Place(c, f, i, from) < |s|
    && t[Place(c, f, i, y)] == s[Place(c, f, i, from)]
  }

  ghost predicate Turning<T>(s: seq<T>, t: seq<T>, c: Cycles, f: int, now: int, m: int) {
    && c.Valid() && |t| == |s| && 0 <= f && f + c.d * c.n <= |s| && 0 <= now
    && (forall i, y {:trigger Cell(s, t, c, f, now, m, i, y)} :: 0 <= i < c.d && 0 <= y < c.n ==> Cell(s, t, c, f, now, m, i, y))
    && (forall x {:trigger t[x]} :: 0 <= x < f || f + c.d * c.n <= x < |s| ==> t[x] == s[x])
  }

  lemma StartTurning<T>(s: seq<T>, c: Cycles, f: int)
    requires c.Valid() && 0 <= f && f + c.d * c.n <= |s|
    ensures Turning(s, s, c, f, 0, 0)
  {
    forall i, y | 0 <= i < c.d && 0 <= y < c.n
      ensures Cell(s, s, c, f, 0, 0, i, y)
    {
      PlaceBounds(c, f, i, y);
      assert c.Turn(y) >= 0;
    }
  }

  /** One move within a cycle. */
  lemma Move<T>(s: seq<T>, t: seq<T>, t': seq<T>, c: Cycles, f: int, now: int, fwd: int, back: int, y: int)
    requires Turning(s, t, c, f, now, fwd + back) && now < c.d && Walked(c, y, fwd, back) && fwd + back < c.n - 1
    requires 0 <= Place(c, f, now, y) < |t| && 0 <= Place(c, f, now, c.Next(y)) < |t|
    requires t' == t[Place(c, f, now, y) := t[Place(c, f, now, c.Next(y))]]
    ensures Turning(s, t', c, f, now, fwd + back + 1)
  {
    var m := fwd + back;
    TurnNext(c, y);
    PlaceBounds(c, f, now, y);
    assert Cell(s, t, c, f, now, m, now, c.Next(y));
    var m' := m + 1;
    forall i, z | 0 <= i < c.d && 0 <= z < c.n
      ensures Cell(s, t', c, f, now, m', i, z)
    {
      assert Cell(s, t, c, f, now, m, i, z);
      if i == now && c.Turn(z) == m {
        TurnDistinct(c, z, y);
      }
      if Place(c, f, i, z) == Place(c, f, now, y) {
        PlaceDistinct(c, f, i, z, now, y);
      }
    }
  }

  /** The move that closes a cycle. */
  lemma Close<T>(s: seq<T>, t: seq<T>, t': seq<T>, c: Cycles, f: int, now: int)
    requires Turning(s, t, c, f, now, c.n - 1) && now < c.d && c.Turn(c.l) == c.n - 1
    requires 0 <= Place(c, f, now, c.l) < |t| && 0 <= Place(c, f, now, 0) < |s|
    requires t' == t[Place(c, f, now, c.l) := s[Place(c, f, now, 0)]]
    ensures Turning(s, t', c, f, now + 1, 0)
  {
    PlaceBounds(c, f, now, c.l);
    var next := now + 1;
    forall i, z | 0 <= i < c.d && 0 <= z < c.n
      ensures Cell(s, t', c, f, next, 0, i, z)
    {
      assert Cell(s, t, c, f, now, c.n - 1, i, z);
      TurnNext(c, z);
      if i == now && c.Turn(z) == c.n - 1 {
        TurnDistinct(c, z, c.l);
      }
      if Place(c, f, i, z) == Place(c, f, now, c.l) {
        PlaceDistinct(c, f, i, z, now, c.l);
      }
    }
  }

  lemma AllTurned<T>(s: seq<T>, t: seq<T>, c: Cycles, f: int, k: int, n: int)
    requires Turning(s, t, c, f, c.d, 0) && k == c.d * c.k && n == c.d * c.n
    ensures 0 <= f + k <= f + n && t == Rotated(s, f, f + k, f + n)
  {
    TurningRange(s, t, c, f, k, n);
    hide Turning, Rotated;
    forall x | 0 <= x < |s|
      ensures t[x] == Rotated(s, f, f + k, f + n)[x]
    {
      RotatedAt(s, f, k, n, x);
      if f <= x < f + n {
        TurnedAt(s, t, c, f, x, k, n);
      }
    }
  }

  lemma TurningRange<T>(s: seq<T>, t: seq<T>, c: Cycles, f: int, k: int, n: int)
    requires Turning(s, t, c, f, c.d, 0) && k == c.d * c.k && n == c.d * c.n
    ensures 0 <= f <= f + k <= f + n <= |s| == |t| == |Rotated(s, f, f + k, f + n)|
    ensures forall x {:trigger t[x]} :: 0 <= x < f || f + n <= x < |s| ==> t[x] == s[x]
  {
    Scale(c.d, c.k, c.l);
    ShortStep(c, k, n - k);
  }

  lemma RotatedAt<T>(s: seq<T>, f: int, k: int, n: int, x: int)
    requires 0 <= f <= f + k <= f + n <= |s| && 0 <= x < |s|
    ensures |Rotated(s, f, f + k, f + n)| == |s|
    ensures Rotated(s, f, f + k, f + n)[x] == s[if x < f || f + n <= x then x else if x < f + n - k then x + k else x + k - n]
  {
  }

  lemma TurnedAt<T>(s: seq<T>, t: seq<T>, c: Cycles, f: int, x: int, k: int, n: int)
    requires Turning(s, t, c, f, c.d, 0) && k == c.d * c.k && n == c.d * c.n && f <= x < f + n
    ensures x < f + n - k ==> x + k < |s| && t[x] == s[x + k]
    ensures x >= f + n - k ==> 0 <= x + k - n && t[x] == s[x + k - n]
  {
    var i, y := CellOf(c, f, x);
    Scale(c.d, c.k, c.l);
    PlaceBounds(c, f, i, y);
    assert Cell(s, t, c, f, c.d, 0, i, y);
  }

  lemma CellOf(c: Cycles, f: int, x: int) returns (i: int, y: int)
    requires c.Valid() && f <= x < f + c.d * c.n
    ensures 0 <= i < c.d && 0 <= y < c.n && x == Place(c, f, i, y)
  {
    i, y := (x - f) % c.d, (x - f) / c.d;
    Scale(c.d, c.n - 1, y);
    Scale(c.d, c.n, 1);
  }

  // ----- The rotation -----

  method SwapHalves<T>(a: array<T>, first: nat, middle: nat, last: nat)
    requires first <= middle <= last <= a.Length && middle - first == last - middle
    modifies a
    ensures a[..] == Rotated(old(a[..]), first, middle, last)
  {
    var k := middle - first;
    ghost var s := a[..];
    for i := 0 to k
      invariant forall x {:trigger a[x]} :: 0 <= x < first + i ==> a[x] == s[if x < first then x else x + k]
      invariant forall x {:trigger a[x]} :: first + i <= x < middle || middle + i <= x < a.Length ==> a[x] == s[x]
      invariant forall x {:trigger a[x]} :: middle <= x < middle + i ==> a[x] == s[x - k]
    {
      a[first + i], a[middle + i] := a[middle + i], a[first + i];
    }
    Halves(s, a[..], first, middle, last);
  }

  lemma Halves<T>(s: seq<T>, t: seq<T>, first: nat, middle: nat, last: nat)
    requires first <= middle <= last <= |s| && middle - first == last - middle && |t| == |s|
    requires forall x {:trigger t[x]} :: 0 <= x < middle ==> t[x] == s[if x < first then x else x + (middle - first)]
    requires forall x {:trigger t[x]} :: last <= x < |s| ==> t[x] == s[x]
    requires forall x {:trigger t[x]} :: middle <= x < last ==> t[x] == s[x - (middle - first)]
    ensures t == Rotated(s, first, middle, last)
  {
  }

  /** What the walk knows at cell `y`, unless it is at its end. */
  lemma Here(c: Cycles, f: int, i: int, y: int, fwd: int, back: int)
    requires Walked(c, y, fwd, back) && 0 <= i < c.d && fwd + back < c.n && (fwd < c.l || back < c.k - 1)
    ensures 0 <= y && fwd + back < c.n - 1 && f <= Place(c, f, i, y) < f + c.d * c.n
    ensures Place(c, f, i, y) > f + i + c.d * c.l <==> y >= c.l
    ensures Place(c, f, i, y) < f + c.d * c.l <==> y < c.l
    ensures y < c.l ==> Walked(c, y + c.k, fwd + 1, back) && Place(c, f, i, y + c.k) == Place(c, f, i, y) + c.d * c.k
    ensures y < c.l ==> y + c.k < c.n && f <= Place(c, f, i, y + c.k) < f + c.d * c.n
    ensures y >= c.l ==> Walked(c, y - c.l, fwd, back + 1) && Place(c, f, i, y - c.l) == Place(c, f, i, y) - c.d * c.l
    ensures y >= c.l ==> y - c.l < c.k && f <= Place(c, f, i, y - c.l) < f + c.d * c.n
  {
    if fwd + back == c.n - 1 || y == c.l {
      LastTurn(c, y, fwd, back);
    }
    WalkStep(c, y, fwd, back);
    PlaceBounds(c, f, i, y);
    PlaceBounds(c, f, i, if y < c.l then y + c.k else y - c.l);
  }

  // Turns the cycle about that starts at `first`, when the steps forward (by `k`) are the shorter ones.
  method CycleForward<T>(a: array<T>, first: nat, k: nat, l: nat, d: nat, ghost s: seq<T>, ghost c: Cycles, ghost i: int)
    requires Turning(s, a[..], c, first - i, i, 0) && 0 <= i < c.d
    requires c.d == d && k == d * c.k && l == d * c.l && k < l
    modifies a
    ensures Turning(s, a[..], c, first - i, i + 1, 0)
  {
    ghost var f := first - i;
    StartCycle(s, a[..], c, f, i);
    ShortStep(c, k, l);
    var tmp := a[first];
    var p := first;
    ghost var y, back := 0, 0;
    var t := l / d;
    hide Place;
    hide Walked;
    hide Turning;
    for j := 0 to t
      invariant Turning(s, a[..], c, f, i, j + back) && Walked(c, y, j, back) && j + back < c.n
      invariant p == Place(c, f, i, y) && (j > 0 ==> c.k <= y)
    {
      Here(c, f, i, y, j, back);
      if p > first + l {
        ghost var was := a[..];
        a[p] := a[p - l];
        Move(s, was, a[..], c, f, i, j, back, y);
        p := p - l;
        y, back := y - c.l, back + 1;
        Here(c, f, i, y, j, back);
      }
      ghost var was := a[..];
      a[p] := a[p + k];
      Move(s, was, a[..], c, f, i, j, back, y);
      p := p + k;
      assert c.k <= y + c.k;
      y := y + c.k;
    }
    ForwardDone(c, y, t, back);
    ghost var was := a[..];
    EndCycle(c, f, i, y, t, back);
    a[p] := tmp;
    Close(s, was, a[..], c, f, i);
  }

  // The same, when the steps back (by `l`) are the shorter ones.
  method CycleBack<T>(a: array<T>, first: nat, last: nat, k: nat, l: nat, d: nat, ghost s: seq<T>, ghost c: Cycles, ghost i: int)
    requires Turning(s, a[..], c, first - i, i, 0) && 0 <= i < c.d
    requires c.d == d && k == d * c.k && l == d * c.l && l < k && last == first - i + d * c.n
    modifies a
    ensures Turning(s, a[..], c, first - i, i + 1, 0)
  {
    ghost var f := first - i;
    StartCycle(s, a[..], c, f, i);
    ShortStep(c, k, l);
    var tmp := a[first];
    var p := first;
    ghost var y, fwd := 0, 0;
    var t := k / d - 1;
    hide Place;
    hide Walked;
    hide Turning;
    for j := 0 to t
      invariant Turning(s, a[..], c, f, i, fwd + j) && Walked(c, y, fwd, j) && fwd + j < c.n
      invariant p == Place(c, f, i, y) && y < c.k
    {
      Here(c, f, i, y, fwd, j);
      if p < last - k {
        ghost var was := a[..];
        a[p] := a[p + k];
        Move(s, was, a[..], c, f, i, fwd, j, y);
        p := p + k;
        y, fwd := y + c.k, fwd + 1;
        Here(c, f, i, y, fwd, j);
      }
      ghost var was := a[..];
      a[p] := a[p - l];
      Move(s, was, a[..], c, f, i, fwd, j, y);
      p := p - l;
      y := y - c.l;
    }
    BackDone(c, y, fwd, t);
    EndCycle(c, f, i, y, fwd, t);
    ghost var was := a[..];
    a[p] := tmp;
    Close(s, was, a[..], c, f, i);
  }

  lemma StartCycle<T>(s: seq<T>, t: seq<T>, c: Cycles, f: int, i: int)
    requires Turning(s, t, c, f, i, 0) && 0 <= i < c.d
    ensures 0 <= f && f + c.d * c.n <= |s| == |t| && f <= f + i < f + c.d * c.n
    ensures Walked(c, 0, 0, 0) && Place(c, f, i, 0) == f + i && t[f + i] == s[f + i]
  {
    WalkStart(c);
    PlaceBounds(c, f, i, 0);
    assert Cell(s, t, c, f, i, 0, i, 0);
  }

  lemma ShortStep(c: Cycles, k: int, l: int)
    requires c.Valid() && k == c.d * c.k && l == c.d * c.l
    ensures k / c.d == c.k && l / c.d == c.l && c.d * c.n == k + l && (k < l <==> c.k < c.l) && (l < k <==> c.l < c.k)
  {
    Scale(c.d, c.k, c.l);
    Scale(c.d, c.l, c.k);
    Quotients(c.d, c.k);
    Quotients(c.d, c.l);
  }

  lemma Quotients(d: int, x: int)
    requires d > 0 && x >= 0
    ensures d * x / d == x
  {
    var q, r := d * x / d, d * x % d;
    assert (x - q) * d == r;
    Multiple(x - q, d);
  }

  lemma EndCycle(c: Cycles, f: int, i: int, y: int, fwd: int, back: int)
    requires Walked(c, y, fwd, back) && 0 <= i < c.d && y == c.l && fwd + back == c.n - 1
    ensures c.Turn(c.l) == c.n - 1 && f <= Place(c, f, i, y) < f + c.d * c.n && Place(c, f, i, 0) == f + i
  {
    PlaceBounds(c, f, i, y);
  }

  /** Exchanges the two parts of `[first, last)` and returns where the first one now begins. */
  method RotateAux<T>(a: array<T>, first: nat, middle: nat, last: nat) returns (result: nat)
    requires first <= middle <= last <= a.Length
    modifies a
    ensures a[..] == Rotated(old(a[..]), first, middle, last) && result == first + (last - middle)
  {
    var n := last - first;
    var k := middle - first;
    var l := n - k;
    result := first + (last - middle);
    if k == 0 {
      return last;
    } else if k == l {
      SwapHalves(a, first, middle, last);
      return;
    }
    var d;
    ghost var b;
    d, b := Gcd(n, k);
    ghost var c := CyclesOf(n, k, d, b);
    ghost var s := a[..];
    StartTurning(s, c, first);
    var at := first;
    for i := 0 to d
      invariant Turning(s, a[..], c, first, i, 0) && at == first + i
    {
      if k < l {
        CycleForward(a, at, k, l, d, s, c, i);
      } else {
        CycleBack(a, at, last, k, l, d, s, c, i);
      }
      at := at + 1;
    }
    AllTurned(s, a[..], c, first, k, n);
  }

  lemma OneTime(e: int, d: int)
    requires d > 0 && e * d == d
    ensures e == 1
  {
    Multiple(e - 1, d);
    assert (e - 1) * d == 0;
  }

  lemma CyclesOf(n: int, k: int, d: int, b: Bezout) returns (c: Cycles)
    requires 0 < k <= n && d > 0 && n == b.mx * d && k == b.nx * d && d == b.xm * n + b.xn * k
    ensures c.Valid() && c.d == d && n == d * c.n && k == d * c.k && n - k == d * c.l
  {
    c := Cycles(d, b.mx, b.nx, b.mx - b.nx, b.xn, b.xm);
    calc {
      d;
      b.xm * (b.mx * d) + b.xn * (b.nx * d);
      (b.xn * b.nx + b.xm * b.mx) * d;
    }
    var e := b.xn * b.nx + b.xm * b.mx;
    OneTime(e, d);
    Scale(d, b.mx, b.nx);
    Multiple(b.nx - 1, d);
    Multiple(b.mx - b.nx, d);
  }
}
