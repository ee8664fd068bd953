/** Rings: power-of-two buffers addressed through masked indices. */
module Rings {
  import opened Bits

  /** The index `n` slots behind `idx`. */
  function Advance(max: Size, idx: nat, n: nat): (r: nat)
    requires idx < max && n <= max
    ensures r < max
  {
    MaskIsRemainder(idx + n, max);
    And(idx + n, max - 1)
  }

  /** The index `n` slots in front of `idx`. */
  function Retreat(max: Size, idx: nat, n: nat): (r: nat)
    requires idx < max && n <= max
    ensures r < max
  {
    MaskIsRemainder(max + idx - n, max);
    And(max + idx - n, max - 1)
  }

  lemma Remainder(max: Size, p: nat)
    requires p < 2 * max
    ensures p % max == if p < max then p else p - max
  {
  }

  lemma Wrapped(max: Size, idx: nat, n: nat)
    requires idx < max && n <= max
    ensures Advance(max, idx, n) == if idx + n < max then idx + n else idx + n - max
    ensures Retreat(max, idx, n) == if n <= idx then idx - n else max + idx - n
  {
    MaskIsRemainder(idx + n, max);
    MaskIsRemainder(max + idx - n, max);
    Remainder(max, idx + n);
    Remainder(max, max + idx - n);
  }

  lemma Wraps(max: Size, idx: nat)
    requires idx < max
    ensures forall n {:trigger Advance(max, idx, n)} :: 0 <= n <= max ==>
              Advance(max, idx, n) == if idx + n < max then idx + n else idx + n - max
    ensures Retreat(max, idx, 1) == if idx > 0 then idx - 1 else max - 1
  {
    forall n: nat | n <= max
      ensures Advance(max, idx, n) == if idx + n < max then idx + n else idx + n - max
    {
      Wrapped(max, idx, n);
    }
    Wrapped(max, idx, 1);
  }

  /** Going on from a slot counted from `base`. */
  lemma Onward(max: Size, base: nat, k: nat, n: nat)
    requires base < max && k + n <= max
    ensures Advance(max, Advance(max, base, k), n) == Advance(max, base, k + n)
    ensures Retreat(max, Advance(max, base, k + n), n) == Advance(max, base, k)
  {
    hide Advance, Retreat;
    Wrapped(max, base, k);
    Wrapped(max, base, k + n);
    Wrapped(max, Advance(max, base, k), n);
    Wrapped(max, Advance(max, base, k + n), n);
  }

  lemma BackAndForth(max: Size, base: nat, n: nat)
    requires base < max && n <= max
    ensures Advance(max, Retreat(max, base, n), n) == base
  {
    hide Advance, Retreat;
    Wrapped(max, base, n);
    Wrapped(max, Retreat(max, base, n), n);
  }

  /** Slots counted from `base` are apart. */
  lemma Apart(max: Size, base: nat, k: nat, q: nat)
    requires base < max && k <= q <= max
    ensures Advance(max, base, k) == Advance(max, base, q) <==> q == k || (k == 0 && q == max)
  {
    hide Advance, Retreat;
    Wrapped(max, base, k);
    Wrapped(max, base, q);
  }

  function Distance(max: Size, first: nat, last: nat): nat
    requires first < max
  {
    if first <= last then last - first else max - first + last
  }

  lemma Stepwise(max: Size, base: nat, a: nat, k: nat)
    requires base < max && a <= k <= max && k - a < max
    ensures Retreat(max, Advance(max, base, k), 1) == Retreat(max, Advance(max, base, a), 1) <==> k == a
  {
    hide Advance, Retreat;
    Wrapped(max, base, k);
    Wrapped(max, base, a);
    Wrapped(max, Advance(max, base, k), 1);
    Wrapped(max, Advance(max, base, a), 1);
  }

  /** The positions that matter when `n` of `size` elements are erased from index `idx`. */
  lemma Sides(max: Size, b: nat, idx: nat, n: nat, size: nat)
    requires b < max && idx + n <= size <= max
    ensures var pos1, end := Advance(max, b, idx), Advance(max, b, size);
            var pos2 := Advance(max, pos1, n);
            && pos2 == Advance(max, b, idx + n) && b == Advance(max, b, 0)
            && (n == 0 && idx == 0 && size == max ==> pos2 == Advance(max, b, size))
            && (Distance(max, b, pos1) < Distance(max, pos2, end) ==> idx < max && n < max)
            && Retreat(max, end, n) == Advance(max, b, size - n)
            && Advance(max, Advance(max, b, n), size - n) == end
  {
    hide Advance, Retreat;
    Onward(max, b, idx, n);
    Onward(max, b, size - n, n);
    Onward(max, b, n, size - n);
    Wrapped(max, b, 0);
    Wrapped(max, b, idx);
    Wrapped(max, b, size);
    Wrapped(max, b, idx + n);
  }

  /** `v` after slots `a <= q < k` have gone `n` slots to the front. */
  ghost function Forwarded<T>(v: seq<T>, a: nat, k: nat, n: nat): (r: seq<T>)
    requires n <= a <= k <= |v|
    ensures |r| == |v|
  {
    v[..a - n] + v[a..k] + v[k - n..]
  }

  /** `v` after slots `k <= q < b` have gone `n` slots to the back. */
  ghost function Backed<T>(v: seq<T>, k: nat, b: nat, n: nat): (r: seq<T>)
    requires k <= b && b + n <= |v|
    ensures |r| == |v|
  {
    v[..k + n] + v[k..b] + v[b + n..]
  }

  lemma NotMoved<T>(v: seq<T>, k: nat, n: nat)
    ensures n <= k <= |v| ==> Forwarded(v, k, k, n) == v
    ensures k + n <= |v| ==> Backed(v, k, k, n) == v
  {
  }

  lemma ForwardStep<T>(v: seq<T>, a: nat, k: nat, n: nat)
    requires n <= a <= k < |v|
    ensures var w := Forwarded(v, a, k, n); w[k - n := w[k]] == Forwarded(v, a, k + 1, n)
  {
    var w := Forwarded(v, a, k, n);
    assert w[k] == v[k];
    var l, r := w[k - n := w[k]], Forwarded(v, a, k + 1, n);
    assert forall q :: 0 <= q < |v| ==> l[q] == r[q];
  }

  lemma BackwardStep<T>(v: seq<T>, k: nat, b: nat, n: nat)
    requires 0 < k <= b && b + n <= |v|
    ensures var w := Backed(v, k, b, n); w[k - 1 + n := w[k - 1]] == Backed(v, k - 1, b, n)
  {
    var w := Backed(v, k, b, n);
    assert w[k - 1] == v[k - 1];
    var l, r := w[k - 1 + n := w[k - 1]], Backed(v, k - 1, b, n);
    assert forall q :: 0 <= q < |v| ==> l[q] == r[q];
  }

  /** What a window holds after its tail has moved `n` slots to the front. */
  lemma TailMoved<T>(v: seq<T>, h: seq<T>, idx: nat, n: nat, a: nat)
    requires idx + n <= |h| <= |v| && v[..|h|] == h && (a == idx + n || (n == 0 && a == |h|))
    ensures Forwarded(v, a, |h|, n)[0..|h| - n] == h[..idx] + h[idx + n..]
  {
    var l, r := Forwarded(v, a, |h|, n)[0..|h| - n], h[..idx] + h[idx + n..];
    assert forall q :: 0 <= q < |h| ==> v[q] == h[q];
    assert |l| == |r| && forall q :: 0 <= q < |l| ==> l[q] == r[q];
  }

  /** What a window holds after its front has moved `n` slots to the back. */
  lemma FrontMoved<T>(v: seq<T>, h: seq<T>, idx: nat, n: nat)
    requires idx + n <= |h| <= |v| && v[..|h|] == h
    ensures Backed(v, 0, idx, n)[n..n + (|h| - n)] == h[..idx] + h[idx + n..]
  {
    var l, r := Backed(v, 0, idx, n)[n..n + (|h| - n)], h[..idx] + h[idx + n..];
    assert forall q :: 0 <= q < |h| ==> v[q] == h[q];
    assert |l| == |r| && forall q :: 0 <= q < |l| ==> l[q] == r[q];
  }

  /** `v` with `data` written over slots from `q`. */
  ghost function Filled<T>(v: seq<T>, q: nat, data: seq<T>): (r: seq<T>)
    requires q + |data| <= |v|
    ensures |r| == |v|
  {
    v[..q] + data + v[q + |data|..]
  }

  lemma FilledStep<T>(v: seq<T>, q: nat, data: seq<T>, j: nat)
    requires j < |data| && q + |data| <= |v|
    ensures Filled(v, q, data[..j])[q + j := data[j]] == Filled(v, q, data[..j + 1])
  {
    var l, r := Filled(v, q, data[..j])[q + j := data[j]], Filled(v, q, data[..j + 1]);
    assert forall k :: 0 <= k < |v| ==> l[k] == r[k];
  }

  /** What a window holds after its tail has made room for `data` behind it. */
  lemma TailOpened<T>(v: seq<T>, h: seq<T>, idx: nat, data: seq<T>)
    requires idx <= |h| && |h| + |data| <= |v| && v[..|h|] == h
    ensures Filled(Backed(v, idx, |h|, |data|), idx, data)[0..|h| + |data|] == h[..idx] + data + h[idx..]
  {
    var l, r := Filled(Backed(v, idx, |h|, |data|), idx, data)[0..|h| + |data|], h[..idx] + data + h[idx..];
    assert forall q :: 0 <= q < |h| ==> v[q] == h[q];
    assert |l| == |r| && forall q :: 0 <= q < |l| ==> l[q] == r[q];
  }

  /** What a window holds after its front has made room for `data` in front of it. */
  lemma FrontOpened<T>(v: seq<T>, h: seq<T>, idx: nat, data: seq<T>)
    requires idx <= |h| && |data| + |h| <= |v| && v[|data|..|data| + |h|] == h
    ensures Filled(Forwarded(v, |data|, |data| + idx, |data|), idx, data)[0..0 + (|h| + |data|)] == h[..idx] + data + h[idx..]
  {
    hide Filled, Forwarded;
    var n := |data|;
    var f := Forwarded(v, n, n + idx, n);
    var l, r := Filled(f, idx, data)[0..0 + (|h| + n)], h[..idx] + data + h[idx..];
    forall q | 0 <= q < |h| + n
      ensures l[q] == r[q]
    {
      FilledAt(f, idx, data, q);
      ForwardedAt(v, n, n + idx, n, q);
      assert q < idx ==> v[n..n + |h|][q] == v[n + q];
      assert q >= idx + n ==> v[n..n + |h|][q - n] == v[q];
    }
  }

  lemma FilledAt<T>(v: seq<T>, q: nat, data: seq<T>, k: nat)
    requires q + |data| <= |v| && k < |v|
    ensures Filled(v, q, data)[k] == if q <= k < q + |data| then data[k - q] else v[k]
  {
  }

  lemma ForwardedAt<T>(v: seq<T>, a: nat, b: nat, n: nat, k: nat)
    requires n <= a <= b <= |v| && k < |v|
    ensures Forwarded(v, a, b, n)[k] == v[if a - n <= k < b - n then k + n else k]
  {
  }

  class Ring<T(0)> {
    var begin: nat
    var end: nat
    var size: nat
    const max: Size
    const buf: array<T>
    ghost var held: seq<T>

    constructor (n: Size)
      ensures Valid() && held == [] && max == n && fresh(buf)
    {
      begin, end, size, held := 0, 0, 0, [];
      max := n;
      buf := new T[n];
    }

    ghost predicate Valid()
      reads this, buf
    {
      && 0 < max == buf.Length && begin < max && size <= max && |held| == size
      && end == Advance(max, begin, size)
      && forall i {:trigger held[i]} :: 0 <= i < size ==> held[i] == buf[Advance(max, begin, i)]
    }

    /** The whole buffer, seen from slot `base`. */
    ghost function View(base: nat): (v: seq<T>)
      requires 0 < max == buf.Length && base < max
      reads buf
      ensures |v| == max
    {
      seq(max, q requires 0 <= q < max reads buf => buf[Advance(max, base, q)])
    }

    method Write(pos: nat, x: T, ghost base: nat, ghost q: nat)
      requires 0 < max == buf.Length && base < max && q < max && pos == Advance(max, base, q)
      modifies buf
      ensures View(base) == old(View(base))[q := x]
    {
      hide Advance;
      buf[pos] := x;
      forall p | 0 <= p < max
        ensures Advance(max, base, p) == pos <==> p == q
      {
        Apart(max, base, if p < q then p else q, if p < q then q else p);
      }
    }

    /** Slots `a <= q < b`, counted from `base`, go `n` slots to the front. */
    method MoveForward(first: nat, last: nat, n: nat, ghost base: nat, ghost a: nat, ghost b: nat)
      requires 0 < max == buf.Length && base < max && n <= a <= b <= max && b - a < max
      requires first == Advance(max, base, a) && last == Advance(max, base, b)
      modifies buf
      ensures View(base) == Forwarded(old(View(base)), a, b, n)
    {
      hide *;
      var i := first;
      ghost var k, v := a, View(base);
      NotMoved(v, a, n);
      Apart(max, base, k, b);
      while i != last
        invariant a <= k <= b && i == Advance(max, base, k) && (i == last <==> k == b)
        invariant View(base) == Forwarded(v, a, k, n)
        decreases b - k
      {
        ReadAt(i, base, k);
        ForwardStep(v, a, k, n);
        Onward(max, base, k - n, n);
        Write(Retreat(max, i, n), buf[i], base, k - n);
        Onward(max, base, k, 1);
        i := Advance(max, i, 1);
        k := k + 1;
        Apart(max, base, k, b);
      }
    }

    lemma ReadAt(pos: nat, base: nat, q: nat)
      requires 0 < max == buf.Length && base < max && q < max && pos == Advance(max, base, q)
      ensures View(base)[q] == buf[pos]
    {
    }

    /** Slots `a <= q < b`, counted from `base`, go `n` slots to the back. */
    method MoveBackward(first: nat, last: nat, n: nat, ghost base: nat, ghost a: nat, ghost b: nat)
      requires 0 < max == buf.Length && base < max && a <= b && b + n <= max && b - a < max
      requires first == Advance(max, base, a) && last == Advance(max, base, b)
      modifies buf
      ensures View(base) == Backed(old(View(base)), a, b, n)
    {
      hide *;
      var j := Retreat(max, first, 1);
      var i := Retreat(max, last, 1);
      ghost var k, v := b, View(base);
      NotMoved(v, b, n);
      Stepwise(max, base, a, k);
      while i != j
        invariant a <= k <= b && i == Retreat(max, Advance(max, base, k), 1) && (i == j <==> k == a)
        invariant View(base) == Backed(v, k, b, n)
        decreases k
      {
        Onward(max, base, k - 1, 1);
        ReadAt(i, base, k - 1);
        BackwardStep(v, k, b, n);
        Onward(max, base, k - 1, n);
        Write(Advance(max, i, n), buf[i], base, k - 1 + n);
        k := k - 1;
        i := Retreat(max, i, 1);
        Stepwise(max, base, a, k);
      }
    }

    method PushBack(data: T) returns (ok: bool)
      requires Valid()
      modifies this, buf
      ensures Valid() && ok == (old(size) < max)
      ensures held == if ok then old(held) + [data] else old(held)
    {
      hide Advance;
      if size == max {
        return false;
      }
      Wraps(max, begin);
      Wraps(max, end);
      buf[end] := data;
      end := Advance(max, end, 1);
      size := size + 1;
      held := held + [data];
      ok := true;
    }

    method PushFront(data: T) returns (ok: bool)
      requires Valid()
      modifies this, buf
      ensures Valid() && ok == (old(size) < max)
      ensures held == if ok then [data] + old(held) else old(held)
    {
      hide Advance, Retreat;
      if size == max {
        return false;
      }
      Wraps(max, begin);
      begin := Retreat(max, begin, 1);
      Wraps(max, begin);
      buf[begin] := data;
      size := size + 1;
      held := [data] + held;
      ok := true;
    }

    /** Takes in a slot at the end, with whatever stands there. */
    method PushBackNoData() returns (ok: bool)
      requires Valid()
      modifies this
      ensures Valid() && ok == (old(size) < max)
      ensures if ok then |held| == old(size) + 1 && held[..old(size)] == old(held) else held == old(held)
    {
      hide Advance;
      if size == max {
        return false;
      }
      Wraps(max, begin);
      Wraps(max, end);
      held := held + [buf[end]];
      end := Advance(max, end, 1);
      size := size + 1;
      ok := true;
    }

    method PushFrontNoData() returns (ok: bool)
      requires Valid()
      modifies this
      ensures Valid() && ok == (old(size) < max)
      ensures if ok then |held| == old(size) + 1 && held[1..] == old(held) else held == old(held)
    {
      hide Advance, Retreat;
      if size == max {
        return false;
      }
      Wraps(max, begin);
      begin := Retreat(max, begin, 1);
      Wraps(max, begin);
      size := size + 1;
      held := [buf[begin]] + held;
      ok := true;
    }

    method PopFront()
      requires Valid() && size > 0
      modifies this
      ensures Valid() && held == old(held)[1..]
    {
      hide Advance;
      Wraps(max, begin);
      begin := Advance(max, begin, 1);
      Wraps(max, begin);
      size := size - 1;
      held := held[1..];
    }

    method PopBack()
      requires Valid() && size > 0
      modifies this
      ensures Valid() && held == old(held)[..old(size) - 1]
    {
      hide Advance, Retreat;
      Wraps(max, begin);
      Wraps(max, end);
      end := Retreat(max, end, 1);
      size := size - 1;
      held := held[..size];
    }

    method Clear()
      requires Valid()
      modifies this
      ensures Valid() && held == []
    {
      hide Advance;
      Wrapped(max, begin, 0);
      size, end, held := 0, begin, [];
    }

    method Get(idx: nat) returns (x: T)
      requires Valid() && idx < size
      ensures x == held[idx]
    {
      x := buf[Advance(max, begin, idx)];
    }

    method Put(idx: nat, data: T)
      requires Valid() && idx < size
      modifies this`held, buf
      ensures Valid() && held == old(held)[idx := data]
    {
      hide Advance;
      Wraps(max, begin);
      buf[Advance(max, begin, idx)] := data;
      held := held[idx := data];
    }

    /** The held elements are a window of the buffer. */
    lemma Window()
      requires Valid()
      ensures View(begin)[..size] == held
    {
      hide Advance;
      forall i | 0 <= i < size
        ensures View(begin)[i] == held[i]
      {
        ReadAt(Advance(max, begin, i), begin, i);
      }
    }

    /** Takes the elements from the window of the buffer that starts at `begin`. */
    method Adopt(ghost base: nat, ghost from: nat, n: nat)
      requires 0 < max == buf.Length && base < max && from + n <= max && from < max && begin == Advance(max, base, from)
      requires size == n && end == Advance(max, begin, n)
      modifies this`held
      ensures Valid() && held == View(base)[from..from + n]
    {
      hide Advance;
      Wraps(max, base);
      Wraps(max, begin);
      held := View(base)[from..from + n];
      forall i | 0 <= i < n
        ensures held[i] == buf[Advance(max, begin, i)]
      {
        ReadAt(Advance(max, base, from + i), base, from + i);
      }
    }

    /** The shorter side moves over the erased elements. */
    method Erase(idx: nat, n: nat)
      requires Valid() && idx + n <= size
      modifies this, buf
      ensures Valid() && held == old(held)[..idx] + old(held)[idx + n..]
    {
      hide Advance, Retreat, View, Distance, Forwarded, Backed;
      var pos1 := Advance(max, begin, idx);
      var pos2 := Advance(max, pos1, n);
      ghost var b, v := begin, View(begin);
      Window();
      Sides(max, begin, idx, n, size);
      if Distance(max, begin, pos1) >= Distance(max, pos2, end) {
        ghost var a := if n == 0 && idx == 0 && size == max then size else idx + n;
        TailMoved(v, held, idx, n, a);
        MoveForward(pos2, end, n, begin, a, size);
        end := Retreat(max, end, n);
        size := size - n;
        Adopt(b, 0, size);
      } else {
        FrontMoved(v, held, idx, n);
        MoveBackward(begin, pos1, n, begin, 0, idx);
        begin := Advance(max, begin, n);
        size := size - n;
        Adopt(b, n, size);
      }
    }

    /** Writes `data` to the slots from number `q`, counted from `base`. */
    method Fill(pos: nat, data: seq<T>, ghost base: nat, ghost q: nat)
      requires 0 < max == buf.Length && base < max && q + |data| <= max && pos == Advance(max, base, q)
      modifies buf
      ensures View(base) == Filled(old(View(base)), q, data)
    {
      hide *;
      var i, j := pos, 0;
      ghost var v := View(base);
      FilledNone(v, q, data);
      while j < |data|
        invariant 0 <= j <= |data| && i == Advance(max, base, q + j)
        invariant View(base) == Filled(v, q, data[..j])
      {
        FilledStep(v, q, data, j);
        Write(i, data[j], base, q + j);
        Onward(max, base, q + j, 1);
        i, j := Advance(max, i, 1), j + 1;
      }
      assert data[..j] == data;
    }

    lemma FilledNone(v: seq<T>, q: nat, data: seq<T>)
      requires q + |data| <= |v|
      ensures Filled(v, q, data[..0]) == v
    {
    }

    /** The held elements are a window also of the buffer seen from `n` slots in front of them. */
    lemma WindowFrom(n: nat)
      requires Valid() && n + size <= max
      ensures View(Retreat(max, begin, n))[n..n + size] == held
    {
      hide Advance, Retreat;
      var base := Retreat(max, begin, n);
      BackAndForth(max, begin, n);
      forall i | 0 <= i < size
        ensures View(base)[n + i] == held[i]
      {
        Onward(max, base, n, i);
        ReadAt(Advance(max, begin, i), base, n + i);
      }
    }

    /** The shorter side makes room for the new elements. */
    method InsertArray(idx: nat, data: seq<T>) returns (ok: bool)
      requires Valid() && idx <= size
      modifies this, buf
      ensures Valid() && ok == (old(size) + |data| <= max)
      ensures held == if ok then old(held)[..idx] + data + old(held)[idx..] else old(held)
    {
      hide Advance, Retreat, View, Forwarded, Backed, Filled;
      var n := |data|;
      if size + n > max {
        return false;
      }
      ok := true;
      var pos := Advance(max, begin, idx);
      Wrapped(max, begin, 0);
      if size / 2 < idx {
        Window();
        TailOpened(View(begin), held, idx, data);
        MoveBackward(pos, end, n, begin, idx, size);
        Onward(max, begin, size, n);
        end := Advance(max, end, n);
        Fill(pos, data, begin, idx);
        size := size + n;
        Adopt(begin, 0, size);
      } else {
        ghost var base := Retreat(max, begin, n);
        WindowFrom(n);
        FrontOpened(View(base), held, idx, data);
        BackAndForth(max, begin, n);
        Onward(max, base, n, idx);
        Onward(max, base, idx, n);
        Onward(max, base, n, size);
        Wrapped(max, base, 0);
        MoveForward(begin, pos, n, base, n, n + idx);
        begin := Retreat(max, begin, n);
        pos := Retreat(max, pos, n);
        Fill(pos, data, base, idx);
        size := size + n;
        Adopt(base, 0, size);
      }
    }
  }
}
