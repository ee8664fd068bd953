/** The growing array under the deque and the string, with insertions whose source may be the array itself. */
module Vectors {

  /** `s` after `n` elements from index `from` have been written over those from index `to`. */
  ghost function Copied<T>(s: seq<T>, to: nat, from: nat, n: nat): (r: seq<T>)
    requires to + n <= |s| && from + n <= |s|
    ensures |r| == |s|
  {
    s[..to] + s[from..from + n] + s[to + n..]
  }

  lemma CopiedIs<T>(s: seq<T>, to: nat, from: nat, n: nat)
    requires to + n <= |s| && from + n <= |s|
    ensures forall k {:trigger Copied(s, to, from, n)[k]} :: 0 <= k < |s| ==>
              Copied(s, to, from, n)[k] == s[if to <= k < to + n then from + k - to else k]
  {
  }

  lemma CopiedPrefix<T>(s: seq<T>, to: nat, from: nat, n: nat, size: nat)
    requires to + n <= size <= |s| && from + n <= size
    ensures Copied(s, to, from, n)[..size] == Copied(s[..size], to, from, n)
  {
    hide Copied;
    CopiedIs(s, to, from, n);
    CopiedIs(s[..size], to, from, n);
    var l, r := Copied(s, to, from, n)[..size], Copied(s[..size], to, from, n);
    assert forall k :: 0 <= k < size ==> l[k] == r[k];
  }

  lemma NoCopy<T>(s: seq<T>, to: nat, from: nat)
    requires to <= |s| && from <= |s|
    ensures Copied(s, to, from, 0) == s
  {
  }

  /** `memmove`: the ranges may overlap. */
  method Move<T>(a: array<T>, to: nat, from: nat, n: nat)
    requires to + n <= a.Length && from + n <= a.Length
    modifies a
    ensures a[..] == Copied(old(a[..]), to, from, n)
  {
    forall k | 0 <= k < n {
      a[to + k] := a[from + k];
    }
  }

  /** `memcpy` from elsewhere. */
  method Fill<T>(a: array<T>, to: nat, data: seq<T>)
    requires to + |data| <= a.Length
    modifies a
    ensures a[..] == old(a[..to]) + data + old(a[to + |data|..])
  {
    forall k | 0 <= k < |data| {
      a[to + k] := data[k];
    }
  }

  lemma OverPrefix<T>(b: seq<T>, i: nat, data: seq<T>, m: nat)
    requires i + |data| <= m <= |b|
    ensures (b[..i] + data + b[i + |data|..])[..m] == b[..m][..i] + data + b[..m][i + |data|..]
  {
    var l, r := (b[..i] + data + b[i + |data|..])[..m], b[..m][..i] + data + b[..m][i + |data|..];
    assert |l| == |r| && forall k :: 0 <= k < m ==> l[k] == r[k];
  }

  /** `s` with `data` put in before index `i`. */
  ghost function Inserted<T>(s: seq<T>, i: nat, data: seq<T>): (r: seq<T>)
    requires i <= |s|
    ensures |r| == |s| + |data|
  {
    s[..i] + data + s[i..]
  }

  ghost function Erased<T>(s: seq<T>, i: nat, n: nat): (r: seq<T>)
    requires i + n <= |s|
    ensures |r| == |s| - n
  {
    s[..i] + s[i + n..]
  }

  /** `r` is `s` with room for `n` elements before index `i`; what stands in the gap is open. */
  ghost predicate Gapped<T>(s: seq<T>, r: seq<T>, i: nat, n: nat) {
    && i <= |s| && |r| == |s| + n && r[..i] == s[..i] && r[i + n..] == s[i..]
  }

  lemma GapSize<T>(s: seq<T>, r: seq<T>, i: nat, n: nat)
    requires Gapped(s, r, i, n)
    ensures i <= |s| && |r| == |s| + n
  {
  }

  /** Moving the rest up opens a gap, in which the old elements still stand. */
  lemma OpenGap<T>(b: seq<T>, i: nat, n: nat, size: nat)
    requires i <= size && size + n <= |b|
    ensures var r := Copied(b, i + n, i, size - i);
            && Gapped(b[..size], r[..size + n], i, n)
            && forall k :: i <= k < size && k < i + n ==> r[..size + n][k] == b[..size][k]
  {
    hide Copied;
    var r, s := Copied(b, i + n, i, size - i), b[..size];
    CopiedIs(b, i + n, i, size - i);
    assert forall k :: 0 <= k < i ==> r[..size + n][..i][k] == s[..i][k];
    assert forall k :: 0 <= k < size - i ==> r[..size + n][i + n..][k] == s[i..][k];
  }

  lemma FillGap<T>(s: seq<T>, r: seq<T>, f: seq<T>, i: nat, data: seq<T>)
    requires Gapped(s, r, i, |data|) && f == r[..i] + data + r[i + |data|..]
    ensures f == Inserted(s, i, data)
  {
  }

  lemma Part<T>(s: seq<T>, a: nat, b: nat, c: nat, d: nat)
    requires a <= b <= |s| && c <= d <= b - a
    ensures s[a..b][c..d] == s[a + c..a + d]
  {
    forall k | 0 <= k < d - c
      ensures s[a..b][c..d][k] == s[a + c..a + d][k]
    {
      assert s[a..b][c + k] == s[a + c + k];
    }
  }

  lemma GapIs<T>(s: seq<T>, r: seq<T>, i: nat, n: nat)
    requires Gapped(s, r, i, n)
    ensures forall q {:trigger r[q]} :: 0 <= q < i ==> r[q] == s[q]
    ensures forall q {:trigger r[q]} :: i + n <= q < |r| ==> r[q] == s[q - n]
  {
    assert forall q :: 0 <= q < i ==> r[..i][q] == s[..i][q];
    forall q | i + n <= q < |r|
      ensures r[q] == s[q - n]
    {
      assert r[i + n..][q - i - n] == s[i..][q - i - n];
    }
  }

  lemma InsertedIs<T>(s: seq<T>, i: nat, data: seq<T>)
    requires i <= |s|
    ensures forall q {:trigger Inserted(s, i, data)[q]} :: 0 <= q < |s| + |data| ==>
              Inserted(s, i, data)[q] ==
              if q < i then s[q] else if q < i + |data| then data[q - i] else s[q - |data|]
  {
  }

  /** A source on one side of the gap. */
  lemma FillWhole<T>(s: seq<T>, r: seq<T>, i: nat, n: nat, from: nat)
    requires Gapped(s, r, i, n) && from + n <= |s| && (i <= from || from + n <= i)
    ensures Copied(r, i, if i <= from then from + n else from, n) == Inserted(s, i, s[from..from + n])
  {
    hide Copied, Inserted;
    var f, data := if i <= from then from + n else from, s[from..from + n];
    GapIs(s, r, i, n);
    CopiedIs(r, i, f, n);
    InsertedIs(s, i, data);
    assert forall q :: 0 <= q < |r| ==> Copied(r, i, f, n)[q] == Inserted(s, i, data)[q];
  }

  /** A source that reaches over the gap comes in two pieces. */
  lemma FillSplit<T>(s: seq<T>, r: seq<T>, i: nat, n: nat, from: nat)
    requires Gapped(s, r, i, n) && from + n <= |s| && from < i < from + n
    ensures var k := i - from;
            Copied(Copied(r, i, from, k), i + k, i + n, n - k) == Inserted(s, i, s[from..from + n])
  {
    hide Copied, Inserted;
    var k, data := i - from, s[from..from + n];
    var a := Copied(r, i, from, k);
    GapIs(s, r, i, n);
    CopiedIs(r, i, from, k);
    CopiedIs(a, i + k, i + n, n - k);
    InsertedIs(s, i, data);
    assert forall q :: 0 <= q < |r| ==> Copied(a, i + k, i + n, n - k)[q] == Inserted(s, i, data)[q];
  }

  class Vector<T(0)> {
    var size: nat
    var buf: array<T>

    constructor (capacity: nat)
      ensures Valid() && Items() == [] && fresh(buf) && buf.Length == capacity
    {
      size := 0;
      buf := new T[capacity];
    }

    ghost predicate Valid()
      reads this
    {
      size <= buf.Length
    }

    ghost function Items(): (s: seq<T>)
      requires Valid()
      reads this, buf
      ensures |s| == size
    {
      buf[..size]
    }

    /** `room` says whether the allocator can give the larger buffer. */
    method Reserve(n: nat, room: bool) returns (ok: bool)
      requires Valid()
      modifies this`buf
      ensures Valid() && Items() == old(Items()) && ok == (n <= old(buf.Length) || room)
      ensures n <= old(buf.Length) || !ok ==> buf == old(buf)
      ensures buf == old(buf) || fresh(buf)
      ensures ok ==> buf.Length == if n <= old(buf.Length) then old(buf.Length) else n
    {
      if n <= buf.Length {
        return true;
      }
      if !room {
        return false;
      }
      var newbuf := new T[n];
      forall i | 0 <= i < buf.Length {
        newbuf[i] := buf[i];
      }
      assert newbuf[..size] == buf[..size];
      buf := newbuf;
      ok := true;
    }

    method Expand(n: nat, room: bool) returns (ok: bool)
      requires Valid()
      modifies this`buf
      ensures Valid() && Items() == old(Items()) && ok == (n <= old(buf.Length) || room)
      ensures n <= old(buf.Length) || !ok ==> buf == old(buf)
      ensures buf == old(buf) || fresh(buf)
      ensures ok ==> buf.Length == if n <= old(buf.Length) then old(buf.Length) else if n > 2 * old(buf.Length) then n else 2 * old(buf.Length)
    {
      if n <= buf.Length {
        return true;
      }
      ok := Reserve(if n > buf.Length * 2 then n else buf.Length * 2, room);
    }

    /** Opens a gap of `n` elements before index `idx`. */
    method InsertGap(idx: nat, n: nat, room: bool) returns (ok: bool)
      requires Valid() && idx <= size
      modifies this, buf
      ensures Valid() && ok == (old(size) + n <= old(buf.Length) || room)
      ensures old(size) + n <= old(buf.Length) || !ok ==> buf == old(buf)
      ensures buf == old(buf) || fresh(buf)
      ensures if ok then Gapped(old(Items()), Items(), idx, n) else Items() == old(Items())
      ensures ok ==> forall k :: idx <= k < old(size) && k < idx + n ==> Items()[k] == old(Items())[k]
    {
      hide Copied, Gapped;
      ok := Expand(size + n, room);
      if ok {
        OpenGap(buf[..], idx, n, size);
        assert buf[..][..size] == Items();
        Move(buf, idx + n, idx, size - idx);
        size := size + n;
        assert buf[..][..size] == Items();
      }
    }

    method PushBack(data: T, room: bool) returns (ok: bool)
      requires Valid()
      modifies this, buf
      ensures Valid() && ok == (old(size) < old(buf.Length) || room)
      ensures buf == old(buf) || fresh(buf)
      ensures old(size) < old(buf.Length) || !ok ==> buf == old(buf)
      ensures Items() == if ok then old(Items()) + [data] else old(Items())
    {
      ok := Expand(size + 1, room);
      if ok {
        buf[size] := data;
        size := size + 1;
      }
    }

    method PopBack()
      requires Valid() && size > 0
      modifies this`size
      ensures Valid() && Items() == old(Items())[..old(size) - 1]
    {
      size := size - 1;
    }

    /** `memcpy` from elsewhere over the elements. */
    method FillIn(to: nat, data: seq<T>)
      requires Valid() && to + |data| <= size
      modifies buf
      ensures Items() == old(Items())[..to] + data + old(Items())[to + |data|..]
    {
      OverPrefix(buf[..], to, data, size);
      Fill(buf, to, data);
      assert buf[..][..size] == Items();
    }

    method InsertArray(idx: nat, data: seq<T>, room: bool) returns (ok: bool)
      requires Valid() && idx <= size
      modifies this, buf
      ensures Valid() && ok == (old(size) + |data| <= old(buf.Length) || room)
      ensures buf == old(buf) || fresh(buf)
      ensures old(size) + |data| <= old(buf.Length) || !ok ==> buf == old(buf)
      ensures Items() == if ok then Inserted(old(Items()), idx, data) else old(Items())
    {
      hide Inserted, Gapped;
      ok := InsertGap(idx, |data|, room);
      if ok {
        GapSize(old(Items()), Items(), idx, |data|);
        ghost var r := Items();
        FillIn(idx, data);
        FillGap(old(Items()), r, Items(), idx, data);
      }
    }

    /** Copies into the open gap elements of the vector itself, which may have moved when it was opened. */
    method FillFromSelf(idx: nat, from: nat, n: nat, ghost s: seq<T>)
      requires Valid() && Gapped(s, Items(), idx, n) && from + n <= |s|
      modifies buf
      ensures Valid() && Items() == Inserted(s, idx, s[from..from + n])
    {
      hide Copied, Inserted;
      ghost var r := Items();
      if idx <= from {
        FillWhole(s, r, idx, n, from);
        CopyIn(idx, from + n, n);
      } else if from < idx && idx < from + n {
        var k := idx - from;
        FillSplit(s, r, idx, n, from);
        CopyIn(idx, from, k);
        CopyIn(idx + k, idx + n, n - k);
      } else {
        FillWhole(s, r, idx, n, from);
        CopyIn(idx, from, n);
      }
    }

    /** `memmove` within the elements. */
    method MoveIn(to: nat, from: nat, n: nat)
      requires Valid() && to + n <= size && from + n <= size
      modifies buf
      ensures Valid() && Items() == Copied(old(Items()), to, from, n)
    {
      CopiedPrefix(buf[..], to, from, n, size);
      Move(buf, to, from, n);
      assert buf[..][..size] == buf[..size];
    }

    /** `memcpy` within the elements. */
    method CopyIn(to: nat, from: nat, n: nat)
      requires Valid() && to + n <= size && from + n <= size && (to + n <= from || from + n <= to)
      modifies buf
      ensures Valid() && Items() == Copied(old(Items()), to, from, n)
    {
      MoveIn(to, from, n);
    }

    /** Inserts part of `x`, which may be this very vector. */
    method InsertRange(idx: nat, x: Vector<T>, xidx: nat, n: nat, room: bool) returns (ok: bool)
      requires Valid() && idx <= size && x.Valid() && xidx + n <= x.size && xidx < x.size
      requires x == this || x.buf != buf
      modifies this, buf
      ensures Valid() && ok == (old(size) + n <= old(buf.Length) || room)
      ensures buf == old(buf) || fresh(buf)
      ensures Items() == if ok then Inserted(old(Items()), idx, old(x.Items())[xidx..xidx + n]) else old(Items())
    {
      hide Inserted, Gapped;
      ghost var s := Items();
      ghost var data := x.Items()[xidx..xidx + n];
      Part(x.buf[..], 0, x.size, xidx, xidx + n);
      assert x.buf[..][..x.size] == x.Items();
      ok := InsertGap(idx, n, room);
      if !ok {
        return;
      }
      GapSize(s, Items(), idx, n);
      if x == this {
        FillFromSelf(idx, xidx, n, s);
      } else {
        ghost var r := Items();
        FillIn(idx, x.buf[xidx..xidx + n]);
        FillGap(s, r, Items(), idx, data);
      }
    }

    method Erase(idx: nat, n: nat)
      requires Valid() && idx + n <= size
      modifies this`size, buf
      ensures Valid() && Items() == Erased(old(Items()), idx, n)
    {
      Move(buf, idx, idx + n, size - (idx + n));
      size := size - n;
    }
  }
}
