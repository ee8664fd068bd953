/** The segmented deque: a sliding map of rings, all full but the outer ones. */
module Deques {
  import opened Bits
  import opened Vectors
  import opened Rings
  import opened DequeModel

  type Cells<!T(0)> = seq<Ring?<T>>

  /** `rank` tells the map slot of a ring, or its place in the pool counted down from -1; `home` the ring of a buffer. */
  ghost predicate RingAt<T(0)>(r: Ring<T>, home: map<object, Ring<T>>, R: nat)
    reads r, r.buf
  {
    r.buf in home && home[r.buf] == r && r.max == R && r.Valid()
  }

  ghost predicate RingsAt<T(0)>(rank: map<Ring<T>, int>, home: map<object, Ring<T>>, R: nat)
    reads rank.Keys, home.Keys
  {
    forall r {:trigger RingAt(r, home, R)} :: r in rank ==> r.buf in home && RingAt(r, home, R)
  }

  ghost predicate CellAt<T(0)>(c: Cells<T>, k: int, b: int, e: int, p: seq<seq<T>>, rank: map<Ring<T>, int>)
    requires 0 <= k < |c| && |p| == e - b
    reads rank.Keys
  {
    && (c[k] != null ==> c[k] in rank && rank[c[k]] == k)
    && (b <= k < e ==> c[k] != null && c[k].held == p[k - b])
  }

  ghost predicate CellsAt<T(0)>(c: Cells<T>, b: nat, e: nat, p: seq<seq<T>>, rank: map<Ring<T>, int>)
    reads rank.Keys
  {
    && b < e <= |c| && |p| == e - b
    && forall k {:trigger CellAt(c, k, b, e, p, rank)} :: 0 <= k < |c| ==> CellAt(c, k, b, e, p, rank)
  }

  ghost predicate SpareAt<T(0)>(c: Cells<T>, k: int, rank: map<Ring<T>, int>)
    requires 0 <= k < |c|
    reads rank.Keys
  {
    c[k] != null && c[k] in rank && rank[c[k]] == -1 - k && c[k].held == []
  }

  ghost predicate PoolAt<T(0)>(c: Cells<T>, rank: map<Ring<T>, int>)
    reads rank.Keys
  {
    forall k {:trigger SpareAt(c, k, rank)} :: 0 <= k < |c| ==> SpareAt(c, k, rank)
  }

  ghost predicate Bare<T(0)>(c: Cells<T>, from: int, to: int) {
    forall k {:trigger c[k]} :: 0 <= k < |c| && from <= k < to ==> c[k] == null
  }

  /** What the deque does to a ring: write an element, add or take one at an end, or cut elements out.  An opened slot
      keeps what stands in it. */
  datatype Change<T> = Put(i: nat, x: T) | AddFront(x: T) | AddBack(x: T) | OpenFront | OpenBack | TakeFront | TakeBack
    | Cut(i: nat, n: nat) | Wipe

  ghost predicate Can<T>(a: seq<T>, R: nat, c: Change<T>) {
    match c
    case Put(i, _) => i < |a|
    case TakeFront | TakeBack => |a| > 0
    case Cut(i, n) => i + n <= |a|
    case Wipe => true
    case _ => |a| < R
  }

  ghost predicate Did<T>(a: seq<T>, b: seq<T>, c: Change<T>) {
    match c
    case Put(i, x) => i < |a| && b == a[i := x]
    case AddFront(x) => b == [x] + a
    case AddBack(x) => b == a + [x]
    case OpenFront => |b| == |a| + 1 && b[1..] == a
    case OpenBack => |b| == |a| + 1 && b[..|a|] == a
    case TakeFront => |a| > 0 && b == a[1..]
    case TakeBack => |a| > 0 && b == a[..|a| - 1]
    case Cut(i, n) => i + n <= |a| && b == a[..i] + a[i + n..]
    case Wipe => b == []
  }

  method Perform<T(0)>(r: Ring<T>, c: Change<T>)
    requires r.Valid() && Can(r.held, r.max, c)
    modifies r, r.buf
    ensures r.Valid() && Did(old(r.held), r.held, c)
  {
    var ok;
    match c
    case Put(i, x) => r.Put(i, x);
    case AddFront(x) => ok := r.PushFront(x);
    case AddBack(x) => ok := r.PushBack(x);
    case OpenFront => ok := r.PushFrontNoData();
    case OpenBack => ok := r.PushBackNoData();
    case TakeFront => r.PopFront();
    case TakeBack => r.PopBack();
    case Cut(i, n) => r.Erase(i, n);
    case Wipe => r.Clear();
  }

  /** The parts when the ring of slot `b + j` holds `h`. */
  ghost function With<T>(p: seq<seq<T>>, j: int, h: seq<T>): seq<seq<T>> {
    if 0 <= j < |p| then p[j := h] else p
  }

  /** A change of the ring in slot `k` leaves the other slots and the pool as they are. */
  method Alter<T(0)>(r: Ring<T>, c: Change<T>, ghost k: nat, ghost cells: Cells<T>, ghost spare: Cells<T>, ghost b: nat,
                     ghost e: nat, ghost p: seq<seq<T>>, ghost rank: map<Ring<T>, int>, ghost home: map<object, Ring<T>>,
                     ghost R: nat)
    requires RingsAt(rank, home, R) && CellsAt(cells, b, e, p, rank) && PoolAt(spare, rank)
    requires k < |cells| && cells[k] == r && r in rank && Can(r.held, R, c)
    modifies r, r.buf
    ensures RingsAt(rank, home, R) && CellsAt(cells, b, e, With(p, k - b, r.held), rank) && PoolAt(spare, rank)
    ensures Did(old(r.held), r.held, c)
  {
    hide Did, Can;
    assert CellAt(cells, k, b, e, p, rank) && RingAt(r, home, R);
    Perform(r, c);
    forall q | q in rank
      ensures RingAt(q, home, R)
    {
      assert old(RingAt(q, home, R));
    }
    ghost var p' := With(p, k - b, r.held);
    forall i | 0 <= i < |cells|
      ensures CellAt(cells, i, b, e, p', rank)
    {
      assert old(CellAt(cells, i, b, e, p, rank));
    }
    forall i | 0 <= i < |spare|
      ensures SpareAt(spare, i, rank)
    {
      assert old(SpareAt(spare, i, rank));
    }
  }

  // ----- Rings going between the map and the pool -----

  lemma ToPool<T(0)>(cells: Cells<T>, spare: Cells<T>, k: nat, r: Ring<T>, b: nat, e: nat, p: seq<seq<T>>,
                     rank: map<Ring<T>, int>, home: map<object, Ring<T>>, R: nat)
    requires RingsAt(rank, home, R) && CellsAt(cells, b, e, p, rank) && PoolAt(spare, rank) && k < |cells| && !(b <= k < e) && cells[k] == r
    requires r in rank && r.held == []
    ensures RingsAt(rank[r := -1 - |spare|], home, R)
    ensures CellsAt(cells[k := null], b, e, p, rank[r := -1 - |spare|]) && PoolAt(spare + [r], rank[r := -1 - |spare|])
  {
    var cells', rank', spare' := cells[k := null], rank[r := -1 - |spare|], spare + [r];
    assert CellAt(cells, k, b, e, p, rank);
    forall i | 0 <= i < |cells|
      ensures CellAt(cells', i, b, e, p, rank')
    {
      assert CellAt(cells, i, b, e, p, rank);
    }
    forall i | 0 <= i < |spare'|
      ensures SpareAt(spare', i, rank')
    {
      assert i < |spare| ==> SpareAt(spare, i, rank);
    }
    forall q | q in rank'
      ensures RingAt(q, home, R)
    {
      assert RingAt(q, home, R);
    }
  }

  lemma Dropped<T(0)>(cells: Cells<T>, k: nat, b: nat, e: nat, p: seq<seq<T>>, rank: map<Ring<T>, int>)
    requires CellsAt(cells, b, e, p, rank) && k < |cells| && !(b <= k < e)
    ensures CellsAt(cells[k := null], b, e, p, rank)
  {
    var cells' := cells[k := null];
    forall i | 0 <= i < |cells|
      ensures CellAt(cells', i, b, e, p, rank)
    {
      assert CellAt(cells, i, b, e, p, rank);
    }
  }

  lemma FromPool<T(0)>(cells: Cells<T>, spare: Cells<T>, k: nat, r: Ring<T>, b: nat, e: nat, p: seq<seq<T>>,
                       rank: map<Ring<T>, int>, home: map<object, Ring<T>>, R: nat)
    requires RingsAt(rank, home, R) && CellsAt(cells, b, e, p, rank) && PoolAt(spare, rank) && k < |cells| && cells[k] == null
    requires |spare| > 0 && spare[|spare| - 1] == r
    ensures r in rank && r.held == [] && RingsAt(rank[r := k], home, R)
    ensures CellsAt(cells[k := r], b, e, p, rank[r := k]) && PoolAt(spare[..|spare| - 1], rank[r := k])
  {
    var cells', rank', spare' := cells[k := r], rank[r := k], spare[..|spare| - 1];
    assert SpareAt(spare, |spare| - 1, rank) && CellAt(cells, k, b, e, p, rank);
    forall i | 0 <= i < |cells|
      ensures CellAt(cells', i, b, e, p, rank')
    {
      assert CellAt(cells, i, b, e, p, rank);
    }
    forall i | 0 <= i < |spare'|
      ensures SpareAt(spare', i, rank')
    {
      assert SpareAt(spare, i, rank);
    }
    forall q | q in rank'
      ensures RingAt(q, home, R)
    {
      assert RingAt(q, home, R);
    }
  }

  lemma FromNew<T(0)>(cells: Cells<T>, spare: Cells<T>, k: nat, r: Ring<T>, b: nat, e: nat, p: seq<seq<T>>,
                      rank: map<Ring<T>, int>, home: map<object, Ring<T>>, R: nat)
    requires CellsAt(cells, b, e, p, rank) && PoolAt(spare, rank) && RingsAt(rank, home, R)
    requires k < |cells| && cells[k] == null && r !in rank && r.buf !in home && r.Valid() && r.max == R
    ensures CellsAt(cells[k := r], b, e, p, rank[r := k]) && PoolAt(spare, rank[r := k])
    ensures RingsAt(rank[r := k], home[r.buf := r], R)
  {
    var cells', rank', home' := cells[k := r], rank[r := k], home[r.buf := r];
    assert CellAt(cells, k, b, e, p, rank);
    forall i | 0 <= i < |cells|
      ensures CellAt(cells', i, b, e, p, rank')
    {
      assert CellAt(cells, i, b, e, p, rank);
    }
    forall i | 0 <= i < |spare|
      ensures SpareAt(spare, i, rank')
    {
      assert SpareAt(spare, i, rank);
    }
    forall q | q in rank'
      ensures RingAt(q, home', R)
    {
      assert q != r ==> RingAt(q, home, R);
    }
  }

  // ----- Gaps -----

  lemma BackGap<T>(c: seq<T>, d: seq<T>, idx: nat, n: nat)
    requires idx <= |c| && |d| == |c| + n && d[..|c|] == c
    ensures Gapped(c, Backed(d, idx, |c|, n), idx, n)
  {
    var r := Backed(d, idx, |c|, n);
    assert d[idx..|c|] == c[idx..];
    assert r[idx + n..] == c[idx..];
    assert r[..idx] == d[..|c|][..idx];
  }

  lemma FrontGap<T>(c: seq<T>, d: seq<T>, idx: nat, n: nat)
    requires idx <= |c| && |d| == |c| + n && d[n..] == c
    ensures Gapped(c, Forwarded(d, n, n + idx, n), idx, n)
  {
    var r := Forwarded(d, n, n + idx, n);
    assert d[n..n + idx] == d[n..][..idx];
    assert d[idx + n..] == d[n..][idx..];
    assert r[..idx] == c[..idx];
    assert r[idx + n..] == c[idx..];
  }

  lemma CopyStep<T>(c: seq<T>, to: nat, from: nat, i: nat)
    requires to + i < |c| && from + i < |c| && (to + i < from || from + i < to)
    ensures var w := Copied(c, to, from, i); w[to + i := w[from + i]] == Copied(c, to, from, i + 1)
  {
    var w, d := Copied(c, to, from, i), Copied(c, to, from, i + 1);
    assert w[from + i] == c[from + i];
    var l := w[to + i := w[from + i]];
    assert forall q :: 0 <= q < |c| ==> l[q] == d[q];
  }

  /** `c` with the first `i` elements of `data` written over those from index `to`. */
  ghost function Written<T>(c: seq<T>, to: nat, data: seq<T>, i: nat): seq<T>
    requires to + |data| <= |c| && i <= |data|
  {
    c[..to] + data[..i] + c[to + i..]
  }

  lemma Unwritten<T>(c: seq<T>, to: nat, data: seq<T>)
    requires to + |data| <= |c|
    ensures Written(c, to, data, 0) == c
    ensures Written(c, to, data, |data|) == c[..to] + data + c[to + |data|..]
  {
  }

  lemma FillStep<T>(c: seq<T>, to: nat, data: seq<T>, i: nat)
    requires to + |data| <= |c| && i < |data|
    ensures var w := Written(c, to, data, i); to + i < |w| && w[to + i := data[i]] == Written(c, to, data, i + 1)
  {
  }

  lemma BackErased<T>(c: seq<T>, idx: nat, n: nat)
    requires idx + n <= |c|
    ensures Forwarded(c, idx + n, |c|, n)[..|c| - n] == Erased(c, idx, n)
  {
  }

  lemma FrontErased<T>(c: seq<T>, idx: nat, n: nat)
    requires idx + n <= |c|
    ensures Backed(c, 0, idx, n)[n..] == Erased(c, idx, n)
  {
  }

  method EmptySlots<T(0)>() returns (v: Vector<Ring?<T>>)
    ensures fresh(v) && fresh(v.buf) && v.Valid() && v.size == 8 == v.buf.Length
    ensures forall i :: 0 <= i < 8 ==> v.buf[i] == null
  {
    v := new Vector<Ring?<T>>(8);
    v.size := 8;
    forall i | 0 <= i < 8 {
      v.buf[i] := null;
    }
  }

  /** Slots `from <= k < to` have empty rings; of the other slots only `b <= k < e` have any. */
  ghost predicate Stocked<T(0)>(c: Cells<T>, b: int, e: int, from: int, to: int, rank: map<Ring<T>, int>)
    reads rank.Keys
  {
    forall k {:trigger c[k]} :: 0 <= k < |c| ==>
      if from <= k < to then c[k] != null && c[k] in rank && c[k].held == []
      else !(b <= k < e) ==> c[k] == null
  }

  lemma StockedAt<T(0)>(c: Cells<T>, b: int, e: int, from: int, to: int, rank: map<Ring<T>, int>, k: nat)
    requires Stocked(c, b, e, from, to, rank) && k < |c|
    ensures from <= k < to ==> c[k] != null && c[k] in rank && c[k].held == []
    ensures !(from <= k < to) && !(b <= k < e) ==> c[k] == null
  {
  }

  lemma MoreRanks<T(0)>(c: Cells<T>, b: int, e: int, from: int, to: int, rank: map<Ring<T>, int>,
                        rank': map<Ring<T>, int>)
    requires Stocked(c, b, e, from, to, rank) && rank.Keys <= rank'.Keys
    ensures Stocked(c, b, e, from, to, rank')
  {
  }

  lemma StockedMore<T(0)>(c: Cells<T>, c': Cells<T>, b: int, e: int, from: int, to: nat, rank: map<Ring<T>, int>,
                          rank': map<Ring<T>, int>)
    requires Stocked(c, b, e, from, to, rank) && rank.Keys <= rank'.Keys && from <= to < |c| && |c'| == |c|
    requires c' == c[to := c'[to]] && c'[to] != null && c'[to] in rank' && c'[to].held == []
    ensures Stocked(c', b, e, from, to + 1, rank')
  {
  }

  // ----- Sliding and growing the map -----

  /** Slots `b <= k < e` have moved by `s`; all other slots are null. */
  ghost predicate Shifted<T(0)>(c: Cells<T>, c': Cells<T>, b: nat, e: nat, s: int) {
    && b <= e <= |c| && 0 <= b + s && e + s <= |c'|
    && forall k {:trigger c'[k]} :: 0 <= k < |c'| ==> c'[k] == if b + s <= k < e + s then c[k - s] else null
  }

  ghost function Ranks<T(0)>(rank: map<Ring<T>, int>, s: int): (r: map<Ring<T>, int>)
    ensures r.Keys == rank.Keys
  {
    map r | r in rank :: if rank[r] >= 0 then rank[r] + s else rank[r]
  }

  lemma ShiftCells<T(0)>(c: Cells<T>, c': Cells<T>, spare: Cells<T>, b: nat, e: nat, s: int, p: seq<seq<T>>,
                         rank: map<Ring<T>, int>, home: map<object, Ring<T>>, R: nat)
    requires CellsAt(c, b, e, p, rank) && PoolAt(spare, rank) && RingsAt(rank, home, R) && Shifted(c, c', b, e, s)
    ensures CellsAt(c', b + s, e + s, p, Ranks(rank, s)) && PoolAt(spare, Ranks(rank, s)) && RingsAt(Ranks(rank, s), home, R)
    ensures Bare(c', 0, b + s) && Bare(c', e + s, |c'|)
  {
    hide CellAt, SpareAt, RingAt, Ranks;
    ShiftRow(c, c', b, e, s, p, rank);
    ShiftPool(spare, s, rank);
    ShiftRings(rank, s, home, R);
  }

  lemma ShiftRow<T(0)>(c: Cells<T>, c': Cells<T>, b: nat, e: nat, s: int, p: seq<seq<T>>, rank: map<Ring<T>, int>)
    requires CellsAt(c, b, e, p, rank) && Shifted(c, c', b, e, s)
    ensures CellsAt(c', b + s, e + s, p, Ranks(rank, s))
  {
    var rank', b', e' := Ranks(rank, s), b + s, e + s;
    forall k | 0 <= k < |c'|
      ensures CellAt(c', k, b', e', p, rank')
    {
      assert b + s <= k < e + s ==> CellAt(c, k - s, b, e, p, rank);
    }
  }

  lemma ShiftPool<T(0)>(spare: Cells<T>, s: int, rank: map<Ring<T>, int>)
    requires PoolAt(spare, rank)
    ensures PoolAt(spare, Ranks(rank, s))
  {
    var rank' := Ranks(rank, s);
    forall k | 0 <= k < |spare|
      ensures SpareAt(spare, k, rank')
    {
      assert SpareAt(spare, k, rank);
    }
  }

  lemma ShiftRings<T(0)>(rank: map<Ring<T>, int>, s: int, home: map<object, Ring<T>>, R: nat)
    requires RingsAt(rank, home, R)
    ensures RingsAt(Ranks(rank, s), home, R)
  {
    hide RingAt;
    var rank' := Ranks(rank, s);
    forall q | q in rank'
      ensures q.buf in home && RingAt(q, home, R)
    {
      assert RingAt(q, home, R);
    }
  }

  // The pieces from number `j` on, and up to it, when that one is replaced.
  lemma TailFrom<X>(p: seq<X>, j: nat, x: X)
    requires j < |p|
    ensures p[j := x][j..] == [x] + p[j + 1..]
  {
  }

  lemma HeadTo<X>(p: seq<X>, j: nat, x: X)
    requires j < |p|
    ensures p[j := x][..j + 1] == p[..j] + [x]
  {
  }

  /** `r` is `d` with slots `from <= k < to` cleared. */
  ghost predicate Cleared<T(0)>(d: Cells<T>, r: Cells<T>, from: int, to: int) {
    |r| == |d| && forall k {:trigger r[k]} :: 0 <= k < |d| ==> r[k] == if from <= k < to then null else d[k]
  }

  method ClearSlots<T(0)>(v: Vector<Ring?<T>>, from: nat, to: nat)
    requires v.Valid() && from <= to <= v.size
    modifies v.buf
    ensures Cleared(old(v.Items()), v.Items(), from, to)
  {
    forall i | from <= i < to {
      v.buf[i] := null;
    }
  }

  lemma SlidCells<T(0)>(c: Cells<T>, r: Cells<T>, b: nat, e: nat, to: nat)
    requires b < e <= |c| && to + (e - b) <= |c| && Bare(c, 0, b) && Bare(c, e, |c|)
    requires Cleared(Copied(c, to, b, e - b), r, if to >= b then b else to + (e - b), if to >= b then to else e)
    ensures Shifted(c, r, b, e, to - b)
  {
    hide Copied;
    var d := Copied(c, to, b, e - b);
    CopiedIs(c, to, b, e - b);
    forall k | 0 <= k < |r|
      ensures r[k] == if to <= k < to + (e - b) then c[k - (to - b)] else null
    {
      assert d[k] == if to <= k < to + (e - b) then c[k - (to - b)] else c[k];
    }
  }

  lemma GrownCells<T(0)>(c: Cells<T>, d: Cells<T>, r: Cells<T>, b: nat, e: nat, at: nat, m: nat)
    requires b < e <= |c| && Bare(c, 0, b) && Bare(c, e, |c|) && (at == 0 || at == |c|)
    requires Gapped(c, d, at, m) && Cleared(d, r, at, at + m)
    ensures Shifted(c, r, b, e, if at == 0 then m else 0)
  {
    forall k | 0 <= k < |r|
      ensures at + m <= k ==> r[k] == c[k - m]
      ensures k < at ==> r[k] == c[k]
    {
      assert k >= at + m ==> d[at + m..][k - at - m] == c[at..][k - at - m];
      assert k < at ==> d[..at][k] == c[..at][k];
    }
  }

  /** Moves the slots in use within the map and clears the others. */
  method SlideMap<T(0)>(v: Vector<Ring?<T>>, begin: nat, end: nat, to: nat)
    requires v.Valid() && begin < end <= v.size && to + (end - begin) <= v.size
    requires Bare(v.Items(), 0, begin) && Bare(v.Items(), end, v.size)
    modifies v.buf
    ensures Shifted(old(v.Items()), v.Items(), begin, end, to - begin)
  {
    hide Copied, Cleared, Bare, Shifted;
    ghost var c := v.Items();
    v.MoveIn(to, begin, end - begin);
    if to >= begin {
      ClearSlots(v, begin, to);
    } else {
      ClearSlots(v, to + (end - begin), end);
    }
    SlidCells(c, v.Items(), begin, end, to);
  }

  /** Adds `m` null slots at one end of the map. */
  method GrowMap<T(0)>(v: Vector<Ring?<T>>, begin: nat, end: nat, front: bool, m: nat, more: bool) returns (ok: bool)
    requires v.Valid() && begin < end <= v.size && Bare(v.Items(), 0, begin) && Bare(v.Items(), end, v.size)
    modifies v, v.buf
    ensures v.Valid() && (v.buf == old(v.buf) || fresh(v.buf)) && (more ==> ok)
    ensures if ok then v.size == old(v.size) + m && Shifted(old(v.Items()), v.Items(), begin, end, if front then m else 0)
            else v.Items() == old(v.Items())
  {
    hide Cleared, Bare, Shifted;
    ghost var c := v.Items();
    var at := if front then 0 else v.size;
    ok := v.InsertGap(at, m, more);
    if ok {
      ghost var d := v.Items();
      ClearSlots(v, at, at + m);
      GrownCells(c, d, v.Items(), begin, end, at, m);
    }
  }

  method Assign<T(0)>(v: Vector<Ring?<T>>, k: nat, r: Ring?<T>)
    requires v.Valid() && k < v.size
    modifies v.buf
    ensures v.Items() == old(v.Items())[k := r] && v.buf[k] == r
  {
    v.buf[k] := r;
  }

  class Deque<T(0)> {
    var begin: nat
    var end: nat
    var size: nat
    const slots: Vector<Ring?<T>>
    const pool: Vector<Ring?<T>>
    const R: Size
    ghost var parts: seq<seq<T>>
    ghost var rank: map<Ring<T>, int>
    ghost var home: map<object, Ring<T>>
    ghost var repr: set<object>

    constructor (R: Size)
      ensures Valid() && Contents() == [] && this.R == R && fresh(repr)
    {
      hide *;
      var s := EmptySlots<T>();
      var q := new Vector<Ring?<T>>(8);
      var r := new Ring<T>(R);
      s.buf[4] := r;
      this.R := R;
      slots, pool := s, q;
      begin, end, size := 4, 5, 0;
      parts, rank, home := [[]], map[r := 4], map[r.buf := r];
      repr := {this, s, s.buf, q, q.buf, r, r.buf};
      new;
      Founded(r);
    }

    lemma Founded(r: Ring<T>)
      requires {this, slots, slots.buf, pool, pool.buf, r, r.buf} == repr && slots != pool && (slots.buf as object) != pool.buf
      requires (r.buf as object) != slots.buf && (r.buf as object) != pool.buf && slots.Valid() && pool.Valid() && R > 0
      requires rank == map[r := 4] && home == map[r.buf := r] && parts == [[]]
      requires r.Valid() && r.max == R && r.held == [] && begin == 4 && end == 5 && size == 0
      requires slots.size == 8 && pool.size == 0
      requires forall i :: 0 <= i < 8 ==> slots.buf[i] == if i == 4 then r else null
      ensures Valid() && Contents() == []
    {
      FlatOne<T>([]);
      assert RingAt(r, home, R);
      forall k | 0 <= k < 8
        ensures CellAt(slots.Items(), k, begin, end, parts, rank)
      {
        assert slots.Items()[k] == slots.buf[k];
      }
    }

    /** The vectors and what belongs to the deque. */
    ghost predicate Owns()
      reads this, slots, pool
    {
      && {this, slots, slots.buf, pool, pool.buf} <= repr && rank.Keys <= repr && home.Keys <= repr
      && slots != pool && (slots.buf as object) != pool.buf
      && this !in home && slots !in home && pool !in home && slots.buf !in home && pool.buf !in home
      && (forall r :: r in rank ==> r.buf in home)
      && slots.Valid() && pool.Valid() && R > 0
    }

    ghost predicate Laid()
      reads this, repr
    {
      && {this, slots, pool} <= repr && rank.Keys <= repr && Owns()
      && RingsAt(rank, home, R) && CellsAt(slots.Items(), begin, end, parts, rank) && PoolAt(pool.Items(), rank)
    }

    ghost predicate Valid()
      reads this, repr
    {
      && Laid() && Packed(parts, R) && Bare(slots.Items(), 0, begin) && Bare(slots.Items(), end, slots.size) && size == |Flat(parts)|
    }

    /** The elements, front to back. */
    ghost function Contents(): seq<T>
      reads this
    {
      Flat(parts)
    }

    /** The free places in the outer rings: an operation that needs no more gets by without memory. */
    ghost function FreeFront(): int
      reads this
    {
      if parts == [] then 0 else R - |parts[0]|
    }

    ghost function FreeBack(): int
      reads this
    {
      if parts == [] then 0 else R - |parts[|parts| - 1]|
    }

    /** There is room on the side that an insertion before index `idx` opens. */
    ghost predicate Roomy(idx: nat, n: nat)
      reads this
    {
      n <= if size / 2 < idx then FreeBack() else FreeFront()
    }

    /** What is known about a slot in use. */
    lemma InRow(k: nat)
      requires Laid() && begin <= k < end
      ensures k < slots.size && slots.buf[k] != null
      ensures var r := slots.buf[k];
              && r in rank && r in repr && r.buf in repr && RingAt(r, home, R) && rank[r] == k
              && |parts| == end - begin && r.held == parts[k - begin]
    {
      assert CellAt(slots.Items(), k, begin, end, parts, rank);
      assert RingAt(slots.buf[k], home, R);
    }

    // ----- Single elements -----

    /** The slot and the place in its ring where element `idx` is. */
    method At(idx: nat) returns (m: nat, r: nat)
      requires Valid() && idx < size
      ensures begin <= m < end && m - begin < |parts| && r < |parts[m - begin]|
      ensures |Flat(parts[..m - begin])| + r == idx && Contents()[idx] == parts[m - begin][r]
      ensures (m == begin ==> r == idx) && (m > begin || r > 0 || idx == 0)
    {
      hide *;
      Unfold();
      InRow(begin);
      Of(slots.buf[begin]);
      var n := slots.buf[begin].size;
      CoordinateFinds(parts, R, idx);
      CoordinateMask(idx, n, R);
      if idx < n {
        m, r := begin, idx;
      } else {
        m, r := begin + 1 + (idx - n) / R, And(idx - n, R - 1);
      }
    }

    /** The parts of the invariant that say something about numbers only. */
    lemma Unfold()
      requires Valid()
      ensures Laid() && Trim() && begin < end && R > 0 && Packed(parts, R) && size == |Contents()| && Contents() == Flat(parts)
      ensures |parts| == end - begin && end <= slots.size <= slots.buf.Length
    {
    }

    method Get(idx: nat) returns (x: T)
      requires Valid() && idx < size
      ensures x == Contents()[idx]
    {
      hide *;
      Unfold();
      var m, r := At(idx);
      InRow(m);
      Of(slots.buf[m]);
      x := slots.buf[m].Get(r);
    }

    method OnRing(k: nat, c: Change<T>)
      requires Laid() && k < slots.size && slots.buf[k] != null && Can(slots.buf[k].held, R, c)
      modifies this`parts, slots.buf[k], slots.buf[k].buf
      ensures Laid() && slots.Items() == old(slots.Items()) && slots.buf[k] == old(slots.buf[k])
      ensures Did(old(slots.buf[k].held), slots.buf[k].held, c)
      ensures parts == With(old(parts), k - begin, slots.buf[k].held)
    {
      hide CellsAt, PoolAt, RingsAt, Did, Can, Laid, With;
      Take();
      ghost var cells, spare := slots.Items(), pool.Items();
      InMap(k);
      Alter(slots.buf[k], c, k, cells, spare, begin, end, parts, rank, home, R);
      parts := With(parts, k - begin, slots.buf[k].held);
      Give(cells, spare);
    }

    lemma Take()
      requires Laid()
      ensures {this, slots, pool} <= repr && Owns() && |parts| == end - begin && begin < end <= slots.size <= slots.buf.Length
      ensures RingsAt(rank, home, R) && CellsAt(slots.Items(), begin, end, parts, rank) && PoolAt(pool.Items(), rank)
    {
    }

    lemma Give(cells: Cells<T>, spare: Cells<T>)
      requires Owns() && {this, slots, pool} <= repr && slots.Items() == cells && pool.Items() == spare
      requires RingsAt(rank, home, R) && CellsAt(cells, begin, end, parts, rank) && PoolAt(spare, rank)
      ensures Laid()
    {
    }

    /** The ring of slot `k` goes to the pool, or is dropped when the pool is full. */
    method PushRing(k: nat)
      requires Laid() && k < slots.size && !(begin <= k < end) && slots.buf[k] != null
      modifies this`rank, this`parts, slots.buf[k], slots.buf[k].buf, slots.buf, pool, pool.buf
      ensures Laid() && slots.Items() == old(slots.Items())[k := null] && rank.Keys == old(rank.Keys)
      ensures parts == old(parts) && pool.buf == old(pool.buf)
    {
      hide CellsAt, PoolAt, RingsAt, Laid;
      Take();
      ghost var cells := slots.Items();
      InMap(k);
      Keep(slots.buf[k], k);
      Assign(slots, k, null);
      Give(cells[k := null], pool.Items());
    }

    /** Puts a ring that is about to leave slot `k` into the pool, if there is a place. */
    method Keep(r: Ring<T>, k: nat)
      requires Laid() && Owns() && k < slots.size && !(begin <= k < end) && slots.buf[k] == r
      modifies this`rank, this`parts, r, r.buf, pool, pool.buf
      ensures Owns() && pool.buf == old(pool.buf) && rank.Keys == old(rank.Keys) && parts == old(parts)
      ensures RingsAt(rank, home, R) && CellsAt(slots.Items()[k := null], begin, end, parts, rank)
      ensures PoolAt(pool.Items(), rank) && slots.Items() == old(slots.Items())
    {
      hide CellsAt, PoolAt, RingsAt, Laid, With, Did;
      Take();
      if pool.size == pool.buf.Length {
        Dropped(slots.Items(), k, begin, end, parts, rank);
      } else {
        InMap(k);
        ghost var p, h := parts, r.held;
        OnRing(k, Wipe);
        SameParts(p, k - begin, r.held);
        WipedIs(h, r.held);
        assert parts == p;
        Stack(r, k);
      }
    }

    lemma WipedIs(a: seq<T>, b: seq<T>)
      requires Did(a, b, Wipe)
      ensures b == []
    {
    }

    lemma SameParts(p: seq<seq<T>>, j: int, h: seq<T>)
      requires !(0 <= j < |p|)
      ensures With(p, j, h) == p
    {
    }

    method Stack(r: Ring<T>, k: nat)
      requires Laid() && Owns() && k < slots.size && !(begin <= k < end) && slots.buf[k] == r && r.held == []
      requires pool.size < pool.buf.Length
      modifies this`rank, pool, pool.buf
      ensures Owns() && pool.buf == old(pool.buf) && rank.Keys == old(rank.Keys)
      ensures RingsAt(rank, home, R) && CellsAt(slots.Items()[k := null], begin, end, parts, rank)
      ensures PoolAt(pool.Items(), rank) && slots.Items() == old(slots.Items())
    {
      hide CellsAt, PoolAt, RingsAt, Laid;
      Take();
      InMap(k);
      ToPool(slots.Items(), pool.Items(), k, r, begin, end, parts, rank, home, R);
      ghost var n := -1 - pool.size;
      var ok := pool.PushBack(r, false);
      rank := rank[r := n];
    }

    /** Puts an empty ring into slot `k`, from the pool or a new one. */
    method PopRing(k: nat, room: bool) returns (ok: bool)
      requires Laid() && k < slots.size && slots.buf[k] == null
      modifies this`rank, this`home, this`repr, slots.buf, pool
      ensures Laid() && ok == (old(pool.size) > 0 || room) && old(repr) <= repr && fresh(repr - old(repr))
      ensures old(rank).Keys <= rank.Keys && (ok ==> slots.buf[k] in rank)
      ensures if ok then slots.buf[k] != null && slots.buf[k].held == [] && slots.Items() == old(slots.Items())[k := slots.buf[k]]
              else slots.Items() == old(slots.Items())
    {
      hide CellsAt, PoolAt, RingsAt, Laid;
      Take();
      if pool.size > 0 {
        PopSpare(k);
        ok := true;
      } else if room {
        NewRing(k);
        ok := true;
      } else {
        ok := false;
      }
    }

    method PopSpare(k: nat)
      requires Laid() && Owns() && k < slots.size && slots.buf[k] == null && pool.size > 0
      modifies this`rank, slots.buf, pool
      ensures Laid() && old(rank).Keys <= rank.Keys && slots.buf[k] in rank
      ensures slots.buf[k] != null && slots.buf[k].held == [] && slots.Items() == old(slots.Items())[k := slots.buf[k]]
    {
      hide CellsAt, PoolAt, RingsAt, Laid;
      Take();
      ghost var cells, spare := slots.Items(), pool.Items();
      Spare(pool.size - 1);
      var r := pool.buf[pool.size - 1];
      FromPool(cells, spare, k, r, begin, end, parts, rank, home, R);
      pool.PopBack();
      Assign(slots, k, r);
      rank := rank[r := k];
      Give(cells[k := r], spare[..|spare| - 1]);
    }

    lemma Spare(k: nat)
      requires Laid() && k < pool.size
      ensures pool.buf[k] != null && pool.buf[k] in rank
    {
      assert SpareAt(pool.Items(), k, rank);
    }

    method NewRing(k: nat)
      requires Laid() && Owns() && k < slots.size && slots.buf[k] == null
      modifies this`rank, this`home, this`repr, slots.buf
      ensures Laid() && old(repr) <= repr && fresh(repr - old(repr)) && old(rank).Keys <= rank.Keys && slots.buf[k] in rank
      ensures slots.buf[k] != null && slots.buf[k].held == [] && slots.Items() == old(slots.Items())[k := slots.buf[k]]
    {
      hide CellsAt, PoolAt, RingsAt, Laid;
      Take();
      ghost var cells, spare := slots.Items(), pool.Items();
      var r := new Ring<T>(R);
      FromNew(cells, spare, k, r, begin, end, parts, rank, home, R);
      Assign(slots, k, r);
      Enroll(rank[r := k], home[r.buf := r], {r, r.buf});
    }

    method Enroll(ghost k: map<Ring<T>, int>, ghost h: map<object, Ring<T>>, ghost more: set<object>)
      requires {this, slots, pool} <= repr && Owns() && more !! {this, slots, slots.buf, pool, pool.buf}
      requires k.Keys <= rank.Keys + more && h.Keys <= home.Keys + more && forall r :: r in k ==> r.buf in h
      requires RingsAt(k, h, R) && CellsAt(slots.Items(), begin, end, parts, k) && PoolAt(pool.Items(), k)
      modifies this`rank, this`home, this`repr
      ensures Laid() && repr == old(repr) + more && rank == k
    {
      hide CellsAt, PoolAt, RingsAt;
      rank, home, repr := k, h, repr + more;
    }

    lemma InMap(k: nat)
      requires Laid() && k < slots.size && slots.buf[k] != null
      ensures slots.buf[k] in rank && RingAt(slots.buf[k], home, R) && |parts| == end - begin
    {
      assert CellAt(slots.Items(), k, begin, end, parts, rank);
    }

    lemma Of(r: Ring<T>)
      requires RingAt(r, home, R)
      ensures r.Valid() && r.max == R && r.size == |r.held| <= R && r.buf in home && home[r.buf] == r
    {
    }

    // ----- Room in the map and rings for insertions -----

    ghost predicate Trim()
      reads this, repr
    {
      Laid() && Bare(slots.Items(), 0, begin) && Bare(slots.Items(), end, slots.size)
    }

    /** The fields follow the slots that have been moved. */
    method Land(b: nat, e: nat, ghost k: map<Ring<T>, int>)
      requires {this, slots, pool} <= repr && Owns() && k.Keys == rank.Keys
      requires RingsAt(k, home, R) && CellsAt(slots.Items(), b, e, parts, k) && PoolAt(pool.Items(), k)
      modifies this`begin, this`end, this`rank
      ensures Laid() && begin == b && end == e && rank == k
    {
      hide CellsAt, PoolAt, RingsAt;
      begin, end, rank := b, e, k;
    }

    method Slide(to: nat)
      requires Trim() && to + (end - begin) <= slots.size
      modifies this`begin, this`end, this`rank, slots.buf
      ensures Trim() && begin == to && end - begin == old(end) - old(begin)
    {
      hide CellsAt, PoolAt, RingsAt, Laid, Bare, Shifted;
      Take();
      ghost var c, spare := slots.Items(), pool.Items();
      SlideMap(slots, begin, end, to);
      ShiftCells(c, slots.Items(), spare, begin, end, to - begin, parts, rank, home, R);
      Land(to, to + (end - begin), Ranks(rank, to - begin));
    }

    method Grow(front: bool, m: nat, more: bool) returns (ok: bool)
      requires Trim()
      modifies this`begin, this`end, this`rank, this`repr, slots, slots.buf
      ensures Trim() && (more ==> ok) && old(repr) <= repr && fresh(repr - old(repr))
      ensures end - begin == old(end) - old(begin)
      ensures if ok then slots.size == old(slots.size) + m && begin == old(begin) + (if front then m else 0)
              else slots.size == old(slots.size) && begin == old(begin)
    {
      hide CellsAt, PoolAt, RingsAt, Laid, Bare, Shifted;
      Take();
      ghost var c, spare := slots.Items(), pool.Items();
      ok := GrowMap(slots, begin, end, front, m, more);
      repr := repr + {slots.buf};
      if ok {
        var s := if front then m else 0;
        ShiftCells(c, slots.Items(), spare, begin, end, s, parts, rank, home, R);
        Land(begin + s, end + s, Ranks(rank, s));
      } else {
        Give(slots.Items(), spare);
      }
    }

    /** Makes `expand` slots free in front of `begin`, by growing the map or by sliding its contents to the middle. */
    method RoomFront(expand: nat, more: bool) returns (ok: bool)
      requires Trim()
      modifies this`begin, this`end, this`rank, this`repr, slots, slots.buf
      ensures Trim() && (more ==> ok) && old(repr) <= repr && fresh(repr - old(repr))
      ensures end - begin == old(end) - old(begin) && (ok ==> expand <= begin)
    {
      hide CellsAt, PoolAt, RingsAt, Laid, Bare;
      Take();
      ok := true;
      if begin < expand {
        if slots.size - end + begin < expand {
          ok := Grow(true, if slots.size > expand then slots.size else expand, more);
        } else {
          Slide(begin + ((expand - begin) + (slots.size - end)) / 2);
        }
      }
    }

    /** Makes `expand` slots free behind `end`. */
    method RoomBack(expand: nat, more: bool) returns (ok: bool)
      requires Trim()
      modifies this`begin, this`end, this`rank, this`repr, slots, slots.buf
      ensures Trim() && (more ==> ok) && old(repr) <= repr && fresh(repr - old(repr))
      ensures end - begin == old(end) - old(begin) && (ok ==> expand <= slots.size - end)
    {
      hide CellsAt, PoolAt, RingsAt, Laid, Bare;
      Take();
      ok := true;
      if slots.size - end < expand {
        if slots.size - end + begin < expand {
          ok := Grow(false, if slots.size > expand then slots.size else expand, more);
        } else {
          Slide(begin - ((expand - (slots.size - end)) + begin) / 2);
        }
      }
    }

    /** Slots `from <= k < to` hold empty rings for the insertion at hand. */
    ghost predicate Supplied(from: nat, to: nat)
      reads this, repr
    {
      Laid() && Stocked(slots.Items(), begin, end, from, to, rank)
    }

    lemma Unstocked(from: nat)
      ensures Trim() <==> Supplied(from, from)
    {
    }

    ghost predicate Beside(from: nat, to: nat)
      reads this, slots
    {
      from <= to <= slots.size && (to <= begin || end <= from)
    }

    /** The ring of slot `k` is in no other slot. */
    lemma Others(k: nat)
      requires Laid() && k < slots.size && slots.buf[k] != null
      ensures slots.buf[k] in repr && slots.buf[k].buf in repr
      ensures forall i {:trigger slots.Items()[i]} :: 0 <= i < slots.size && i != k ==> slots.Items()[i] != slots.buf[k]
    {
      assert CellAt(slots.Items(), k, begin, end, parts, rank);
      forall i | 0 <= i < slots.size && i != k
        ensures slots.Items()[i] != slots.buf[k]
      {
        assert CellAt(slots.Items(), i, begin, end, parts, rank);
      }
    }

    method EmptyOne(j: nat, to: nat)
      requires Supplied(j, to) && j < to && Beside(j, to)
      modifies repr
      ensures Supplied(j + 1, to) && parts == old(parts) && repr == old(repr)
      ensures begin == old(begin) && end == old(end) && size == old(size) && slots.size == old(slots.size)
    {
      hide CellsAt, PoolAt, RingsAt, Laid;
      Take();
      ghost var c := slots.Items();
      StockedAt(c, begin, end, j, to, rank, j);
      InMap(j);
      Others(j);
      PushRing(j);
      Take();
      ghost var c' := slots.Items();
      forall k | 0 <= k < |c'|
        ensures if j + 1 <= k < to then c'[k] != null && c'[k] in rank && c'[k].held == []
                else !(begin <= k < end) ==> c'[k] == null
      {
        assert c[k] == old(slots.Items()[k]);
      }
    }

    /** Gives the rings of slots `from <= j < to` back. */
    method Empty(from: nat, to: nat)
      requires Supplied(from, to) && Beside(from, to)
      modifies repr
      ensures Trim() && parts == old(parts) && old(repr) == repr
      ensures begin == old(begin) && end == old(end) && size == old(size) && slots.size == old(slots.size)
    {
      hide Supplied, Trim, Laid;
      Frames(from, to);
      var j := from;
      while j < to
        invariant from <= j <= to && Supplied(j, to) && parts == old(parts) && repr == old(repr)
        invariant begin == old(begin) && end == old(end) && size == old(size) && slots.size == old(slots.size)
      {
        Frames(j, to);
        EmptyOne(j, to);
        j := j + 1;
      }
      Unstocked(to);
    }

    lemma Frames(from: nat, to: nat)
      requires Supplied(from, to)
      ensures {this, slots, pool, slots.buf, pool.buf} <= repr && slots.Valid() && pool.Valid()
      ensures begin < end <= slots.size && |parts| == end - begin && R > 0
    {
    }

    method FillOne(from: nat, i: nat, room: bool) returns (ok: bool)
      requires Supplied(from, i) && i < slots.size && from <= i && !(begin <= i < end)
      modifies repr
      ensures Supplied(from, if ok then i + 1 else i) && parts == old(parts) && (room ==> ok)
      ensures old(repr) <= repr && fresh(repr - old(repr))
      ensures begin == old(begin) && end == old(end) && size == old(size) && slots.size == old(slots.size)
    {
      hide CellsAt, PoolAt, RingsAt, Laid, Stocked;
      Take();
      ghost var c, k := slots.Items(), rank;
      StockedAt(c, begin, end, from, i, rank, i);
      ok := PopRing(i, room);
      Take();
      if ok {
        StockedMore(c, slots.Items(), begin, end, from, i, k, rank);
      } else {
        MoreRanks(c, begin, end, from, i, k, rank);
      }
    }

    /** Pops rings into slots `from <= i < to`; when one cannot be had, those that were are given back. */
    method FillSlots(from: nat, to: nat, room: nat -> bool) returns (ok: bool)
      requires Trim() && Beside(from, to)
      modifies repr
      ensures parts == old(parts) && old(repr) <= repr && fresh(repr - old(repr))
      ensures begin == old(begin) && end == old(end) && size == old(size) && slots.size == old(slots.size)
      ensures (forall i :: from <= i < to ==> room(i)) ==> ok
      ensures if ok then Supplied(from, to) else Trim()
    {
      hide Supplied, Trim, Laid;
      Unstocked(from);
      Frames(from, from);
      ok := true;
      var i := from;
      while i < to
        invariant from <= i <= to && Supplied(from, i) && ok
        invariant parts == old(parts) && old(repr) <= repr && fresh(repr - old(repr))
        invariant begin == old(begin) && end == old(end) && size == old(size) && slots.size == old(slots.size)
      {
        Frames(from, i);
        ok := FillOne(from, i, room(i));
        if !ok {
          Empty(from, i);
          return;
        }
        i := i + 1;
      }
    }

    /** Makes the map and the rings ready for `n` elements at the front.  `more` says whether the map can grow, `room(i)`
        whether there is a ring for slot `i`. */
    method ExpandFront(n: nat, more: bool, room: nat -> bool) returns (ok: bool, ghost e: nat)
      requires Valid()
      modifies repr
      ensures parts == old(parts) && size == old(size) && old(repr) <= repr && fresh(repr - old(repr)) && |parts| > 0
      ensures e == RingsFor(n, R - |parts[0]|, R)
      ensures if ok then e <= begin && Supplied(begin - e, begin) else Valid()
      ensures more && (forall i :: room(i)) ==> ok
      ensures n <= old(FreeFront()) ==> ok
    {
      hide Valid, Trim, Supplied, Laid, Packed, Flat, RingsFor, RingAt;
      Unfold();
      InRow(begin);
      Of(slots.buf[begin]);
      RingsCases(n, R - |parts[0]|, R);
      Unstocked(begin);
      Frames(begin, begin);
      var m := R - slots.buf[begin].size;
      if n <= m {
        return true, 0;
      }
      var expand := 1 + (n - m - 1) / R;
      e := expand;
      ok := StockFront(expand, more, room);
    }

    // Room in the map, and rings for it.
    method StockFront(expand: nat, more: bool, room: nat -> bool) returns (ok: bool)
      requires Valid() && expand > 0
      modifies repr
      ensures parts == old(parts) && size == old(size) && old(repr) <= repr && fresh(repr - old(repr))
      ensures if ok then expand <= begin && Supplied(begin - expand, begin) else Valid()
      ensures more && (forall i :: room(i)) ==> ok
    {
      hide Valid, Trim, Supplied, Laid, Packed, Flat, RingAt;
      Unfold();
      Unstocked(begin);
      Frames(begin, begin);
      ok := RoomFront(expand, more);
      if ok {
        Unstocked(begin);
        Frames(begin, begin);
        ok := FillSlots(begin - expand, begin, room);
      }
      if !ok {
        Still();
      }
    }

    lemma Still()
      requires Trim() && Packed(parts, R) && size == |Flat(parts)|
      ensures Valid()
    {
    }

    /** The same at the other end. */
    method ExpandBack(n: nat, more: bool, room: nat -> bool) returns (ok: bool, ghost e: nat)
      requires Valid()
      modifies repr
      ensures parts == old(parts) && size == old(size) && old(repr) <= repr && fresh(repr - old(repr)) && |parts| > 0
      ensures e == RingsFor(n, R - |parts[|parts| - 1]|, R)
      ensures if ok then end + e <= slots.size && Supplied(end, end + e) else Valid()
      ensures more && (forall i :: room(i)) ==> ok
      ensures n <= old(FreeBack()) ==> ok
    {
      hide Valid, Trim, Supplied, Laid, Packed, Flat, RingsFor, RingAt;
      Unfold();
      InRow(end - 1);
      Of(slots.buf[end - 1]);
      RingsCases(n, R - |parts[|parts| - 1]|, R);
      Unstocked(end);
      Frames(end, end);
      var m := R - slots.buf[end - 1].size;
      if n <= m {
        return true, 0;
      }
      var expand := 1 + (n - m - 1) / R;
      e := expand;
      ok := StockBack(expand, more, room);
    }

    // Room in the map, and rings for it.
    method StockBack(expand: nat, more: bool, room: nat -> bool) returns (ok: bool)
      requires Valid() && expand > 0
      modifies repr
      ensures parts == old(parts) && size == old(size) && old(repr) <= repr && fresh(repr - old(repr))
      ensures if ok then end + expand <= slots.size && Supplied(end, end + expand) else Valid()
      ensures more && (forall i :: room(i)) ==> ok
    {
      hide Valid, Trim, Supplied, Laid, Packed, Flat, RingAt;
      Unfold();
      Unstocked(end);
      Frames(end, end);
      ok := RoomBack(expand, more);
      if ok {
        Unstocked(end);
        Frames(end, end);
        ok := FillSlots(end, end + expand, room);
      }
      if !ok {
        Still();
      }
    }

    // ----- Opening slots for insertions -----

    /** A change of a ring in use leaves the supply as it is. */
    method OnRow(k: nat, c: Change<T>, ghost from: nat, ghost to: nat)
      requires Supplied(from, to) && Beside(from, to) && begin <= k < end && k - begin < |parts| && Can(parts[k - begin], R, c)
      modifies repr
      ensures begin == old(begin) && end == old(end) && size == old(size) && slots.size == old(slots.size) && repr == old(repr)
      ensures Supplied(from, to) && |parts| == |old(parts)| && Did(old(parts)[k - begin], parts[k - begin], c)
      ensures parts == old(parts)[k - begin := parts[k - begin]]
    {
      hide CellsAt, PoolAt, RingsAt, Laid, Did, Can;
      Take();
      InRow(k);
      Others(k);
      OnRing(k, c);
      Take();
      ghost var c' := slots.Items();
      forall i | 0 <= i < |c'|
        ensures if from <= i < to then c'[i] != null && c'[i] in rank && c'[i].held == []
                else !(begin <= i < end) ==> c'[i] == null
      {
        assert c'[i] == old(slots.Items()[i]);
      }
    }

    /** The first supplied ring in front of the row joins it. */
    method JoinFront(ghost from: nat)
      requires Supplied(from, begin) && from < begin
      modifies this`begin, this`parts
      ensures Supplied(from, begin) && begin == old(begin) - 1 && parts == [[]] + old(parts)
    {
      hide PoolAt, RingsAt;
      ghost var c, b, p := slots.Items(), begin, parts;
      StockedAt(c, begin, end, from, begin, rank, begin - 1);
      begin := begin - 1;
      parts := [[]] + parts;
      forall i | 0 <= i < |c|
        ensures CellAt(c, i, begin, end, parts, rank)
      {
        assert CellAt(c, i, b, end, p, rank);
      }
    }

    method JoinBack(ghost to: nat)
      requires Supplied(end, to) && end < to <= slots.size
      modifies this`end, this`parts
      ensures Supplied(end, to) && end == old(end) + 1 && parts == old(parts) + [[]]
    {
      hide PoolAt, RingsAt;
      ghost var c, e, p := slots.Items(), end, parts;
      StockedAt(c, begin, end, end, to, rank, end);
      end := end + 1;
      parts := parts + [[]];
      forall i | 0 <= i < |c|
        ensures CellAt(c, i, begin, end, parts, rank)
      {
        assert CellAt(c, i, begin, e, p, rank);
      }
    }

    /** Opens one slot at the front, in a supplied ring when the first ring is full. */
    method OpenFrontOne(ghost e: nat) returns (ghost e': nat, ghost x: T)
      requires e <= begin && Supplied(begin - e, begin) && Packed(parts, R) && (|parts[0]| == R ==> e > 0)
      modifies repr
      ensures e' <= begin && Supplied(begin - e', begin) && Packed(parts, R) && repr == old(repr) && size == old(size)
      ensures Flat(parts) == [x] + Flat(old(parts))
      ensures if |old(parts)[0]| == R then e' == e - 1 && |parts[0]| == 1
              else e' == e && |parts[0]| == |old(parts)[0]| + 1
    {
      hide Supplied, Laid, Flat, Packed;
      Frames(begin - e, begin);
      FirstPart(parts, R);
      ghost var p := parts;
      Row(begin - e, begin, begin);
      e' := e;
      if slots.buf[begin].size == slots.buf[begin].max {
        JoinFront(begin - e);
        e' := e - 1;
        Frames(begin - e', begin);
        OnRow(begin, OpenFront, begin - e', begin);
        x := parts[0][0];
        GrowFront(p, R, x);
        assert parts[0] == [x];
        assert parts == [[x]] + p;
      } else {
        OnRow(begin, OpenFront, begin - e, begin);
        x := parts[0][0];
        GrowFront(p, R, x);
        assert parts[0] == [x] + parts[0][1..];
        assert parts == p[0 := [x] + p[0]];
      }
    }

    /** What is known about a slot in use. */
    lemma Row(from: nat, to: nat, k: nat)
      requires Supplied(from, to) && begin <= k < end
      ensures k < slots.size && slots.buf[k] != null && |parts| == end - begin
      ensures slots.buf[k].max == R && slots.buf[k].size == |parts[k - begin]| <= R
    {
      InRow(k);
    }

    /** Opens one slot at the back. */
    method OpenBackOne(ghost e: nat) returns (ghost e': nat, ghost x: T)
      requires end + e <= slots.size && Supplied(end, end + e) && Packed(parts, R)
      requires |parts[|parts| - 1]| == R ==> e > 0
      modifies repr
      ensures end + e' <= slots.size && Supplied(end, end + e') && Packed(parts, R)
      ensures repr == old(repr) && size == old(size)
      ensures Flat(parts) == Flat(old(parts)) + [x]
      ensures if |old(parts)[|old(parts)| - 1]| == R then e' == e - 1 && |parts[|parts| - 1]| == 1
              else e' == e && |parts[|parts| - 1]| == |old(parts)[|old(parts)| - 1]| + 1
    {
      hide Supplied, Laid, Flat, Packed;
      Frames(end, end + e);
      FirstPart(parts, R);
      ghost var p := parts;
      ghost var l := |p| - 1;
      Row(end, end + e, end - 1);
      e' := e;
      if slots.buf[end - 1].size == slots.buf[end - 1].max {
        JoinBack(end + e);
        e' := e - 1;
        Frames(end, end + e');
        OnRow(end - 1, OpenBack, end, end + e');
        x := parts[l + 1][0];
        GrowBack(p, R, x);
        assert parts[l + 1] == [x];
        assert parts == p + [[x]];
      } else {
        OnRow(end - 1, OpenBack, end, end + e);
        x := parts[l][|p[l]|];
        GrowBack(p, R, x);
        assert parts[l] == p[l] + [x];
        assert parts == p[l := p[l] + [x]];
      }
    }

    method Count(n: nat)
      requires Trim() && Packed(parts, R) && n == |Flat(parts)|
      modifies this`size
      ensures Valid() && size == n
    {
      hide CellsAt, PoolAt, RingsAt, Bare, Flat, Packed;
      size := n;
    }

    /** Opens `n` slots at the front; the `e` supplied rings are just what that takes. */
    method OpenFrontN(n: nat, ghost e0: nat)
      requires e0 <= begin && Supplied(begin - e0, begin) && Packed(parts, R) && size == |Flat(parts)|
      requires e0 == RingsFor(n, R - |parts[0]|, R)
      modifies repr
      ensures Valid() && repr == old(repr) && size == old(size) + n && Contents()[n..] == old(Contents())
    {
      hide Supplied, Laid, Flat, Packed, RingsFor, Valid, Trim, Times;
      Frames(begin - e0, begin);
      FirstPart(parts, R);
      RingsEnough(n, R - |parts[0]|, R);
      ghost var e: nat := e0;
      var i := 0;
      while i < n
        invariant 0 <= i <= n && repr == old(repr) && size == old(size)
        invariant e <= begin && Supplied(begin - e, begin) && Packed(parts, R) && |parts| > 0
        invariant |Flat(parts)| == size + i && Flat(parts)[i..] == Flat(old(parts))
        invariant |parts[0]| <= R && n - i <= R - |parts[0]| + Times(e, R)
        invariant e > 0 ==> n - i > R - |parts[0]| + Times(e - 1, R)
      {
        TimesSteps(e, R);
        Frames(begin - e, begin);
        ghost var x;
        e, x := OpenFrontOne(e);
        FirstPart(parts, R);
        i := i + 1;
      }
      TimesSteps(e, R);
      Unstocked(begin);
      Count(size + n);
    }

    method OpenBackN(n: nat, ghost e0: nat)
      requires end + e0 <= slots.size && Supplied(end, end + e0) && Packed(parts, R) && size == |Flat(parts)|
      requires e0 == RingsFor(n, R - |parts[|parts| - 1]|, R)
      modifies repr
      ensures Valid() && repr == old(repr) && size == old(size) + n && Contents()[..old(size)] == old(Contents())
    {
      hide Supplied, Laid, Flat, Packed, RingsFor, Valid, Trim, Times;
      Frames(end, end + e0);
      FirstPart(parts, R);
      RingsEnough(n, R - |parts[|parts| - 1]|, R);
      ghost var e: nat := e0;
      var i := 0;
      while i < n
        invariant 0 <= i <= n && repr == old(repr) && size == old(size)
        invariant end + e <= slots.size && Supplied(end, end + e) && Packed(parts, R) && |parts| > 0
        invariant |Flat(parts)| == size + i && Flat(parts)[..size] == Flat(old(parts))
        invariant |parts[|parts| - 1]| <= R && n - i <= R - |parts[|parts| - 1]| + Times(e, R)
        invariant e > 0 ==> n - i > R - |parts[|parts| - 1]| + Times(e - 1, R)
      {
        TimesSteps(e, R);
        Frames(end, end + e);
        ghost var x;
        e, x := OpenBackOne(e);
        FirstPart(parts, R);
        i := i + 1;
      }
      TimesSteps(e, R);
      Unstocked(end);
      Count(size + n);
    }

    // ----- Moving elements -----

    method Put(idx: nat, x: T)
      requires Valid() && idx < size
      modifies repr
      ensures Valid() && repr == old(repr) && size == old(size) && Contents() == old(Contents())[idx := x]
    {
      hide Supplied, Trim, Laid, Flat, Packed, Valid;
      Unfold();
      Unstocked(begin);
      Frames(begin, begin);
      var m, r := At(idx);
      ghost var p, j := parts, m - begin;
      OnRow(m, Change.Put(r, x), begin, begin);
      PutFlat(p, j, r, x);
      PutPacked(p, R, j, p[j][r := x]);
      Unstocked(begin);
      Still();
    }

    /** Elements `first <= i < last` go `n` places to the back. */
    method MoveBackward(first: nat, last: nat, n: nat)
      requires Valid() && first <= last && last + n <= size
      modifies repr
      ensures Valid() && repr == old(repr) && size == old(size) && Contents() == Backed(old(Contents()), first, last, n)
    {
      hide Valid, Contents, Backed;
      Unfold();
      ghost var c := Contents();
      NotMoved(c, last, n);
      var i := last;
      while i > first
        invariant first <= i <= last && Valid() && repr == old(repr) && size == old(size) == |c|
        invariant Contents() == Backed(c, i, last, n)
      {
        BackwardStep(c, i, last, n);
        var x := Get(i - 1);
        Put(i - 1 + n, x);
        i := i - 1;
      }
    }

    /** Elements `first <= i < last` go `n` places to the front. */
    method MoveForward(first: nat, last: nat, n: nat)
      requires Valid() && n <= first <= last <= size
      modifies repr
      ensures Valid() && repr == old(repr) && size == old(size) && Contents() == Forwarded(old(Contents()), first, last, n)
    {
      hide Valid, Contents, Forwarded;
      Unfold();
      ghost var c := Contents();
      NotMoved(c, first, n);
      var i := first;
      while i < last
        invariant first <= i <= last && Valid() && repr == old(repr) && size == old(size) == |c|
        invariant Contents() == Forwarded(c, first, i, n)
      {
        ForwardStep(c, first, i, n);
        var x := Get(i);
        Put(i - n, x);
        i := i + 1;
      }
    }

    // ----- Insertions -----

    /** Opens a gap of `n` elements before index `idx`, by moving the shorter side.  A failure changes nothing. */
    method InsertGap(idx: nat, n: nat, more: bool, room: nat -> bool) returns (ok: bool)
      requires Valid() && idx <= size
      modifies repr
      ensures Valid() && old(repr) <= repr && fresh(repr - old(repr))
      ensures if ok then Gapped(old(Contents()), Contents(), idx, n) else Contents() == old(Contents())
      ensures more && (forall i :: room(i)) ==> ok
      ensures size == |Contents()|
      ensures old(Roomy(idx, n)) ==> ok
    {
      hide Valid, Contents;
      Unfold();
      if size / 2 < idx {
        ok := GapAtBack(idx, n, more, room);
      } else {
        ok := GapAtFront(idx, n, more, room);
      }
      Unfold();
    }

    // The elements behind the gap move.
    method GapAtBack(idx: nat, n: nat, more: bool, room: nat -> bool) returns (ok: bool)
      requires Valid() && idx <= size
      modifies repr
      ensures Valid() && old(repr) <= repr && fresh(repr - old(repr))
      ensures if ok then Gapped(old(Contents()), Contents(), idx, n) else Contents() == old(Contents())
      ensures more && (forall i :: room(i)) ==> ok
      ensures n <= old(FreeBack()) ==> ok
    {
      hide Valid, Supplied, Laid, Trim, Packed, Flat, RingsFor, Gapped, Forwarded, Backed;
      Unfold();
      var sz := size;
      ghost var c := Contents();
      ghost var e;
      ok, e := ExpandBack(n, more, room);
      if ok {
        OpenBackN(n, e);
        Unfold();
        BackGap(c, Contents(), idx, n);
        MoveBackward(idx, sz, n);
      }
    }

    // The elements in front of the gap move.
    method GapAtFront(idx: nat, n: nat, more: bool, room: nat -> bool) returns (ok: bool)
      requires Valid() && idx <= size
      modifies repr
      ensures Valid() && old(repr) <= repr && fresh(repr - old(repr))
      ensures if ok then Gapped(old(Contents()), Contents(), idx, n) else Contents() == old(Contents())
      ensures more && (forall i :: room(i)) ==> ok
      ensures n <= old(FreeFront()) ==> ok
    {
      hide Valid, Supplied, Laid, Trim, Packed, Flat, RingsFor, Gapped, Forwarded, Backed;
      Unfold();
      ghost var c := Contents();
      ghost var e;
      ok, e := ExpandFront(n, more, room);
      if ok {
        OpenFrontN(n, e);
        Unfold();
        FrontGap(c, Contents(), idx, n);
        MoveForward(n, n + idx, n);
      }
    }

    /** Copies elements within the deque, to a place apart from theirs. */
    method CopyRange(to: nat, from: nat, n: nat)
      requires Valid() && to + n <= size && from + n <= size && (to + n <= from || from + n <= to)
      modifies repr
      ensures Valid() && repr == old(repr) && size == old(size) && Contents() == Copied(old(Contents()), to, from, n)
    {
      hide Valid, Contents, Copied;
      Unfold();
      ghost var c := Contents();
      NoCopy(c, to, from);
      var i := 0;
      while i < n
        invariant 0 <= i <= n && Valid() && repr == old(repr) && size == old(size) == |c|
        invariant Contents() == Copied(c, to, from, i)
      {
        CopyStep(c, to, from, i);
        var x := Get(from + i);
        Put(to + i, x);
        i := i + 1;
      }
    }

    /** Copies from elsewhere. */
    method Fill(to: nat, data: seq<T>)
      requires Valid() && to + |data| <= size
      modifies repr
      ensures Valid() && repr == old(repr) && size == old(size)
      ensures Contents() == old(Contents())[..to] + data + old(Contents())[to + |data|..]
    {
      hide Valid, Contents, Written;
      Unfold();
      ghost var c := Contents();
      Unwritten(c, to, data);
      var i := 0;
      while i < |data|
        invariant 0 <= i <= |data| && Valid() && repr == old(repr) && size == old(size) == |c|
        invariant Contents() == Written(c, to, data, i)
      {
        FillStep(c, to, data, i);
        Put(to + i, data[i]);
        i := i + 1;
      }
    }

    method InsertArray(idx: nat, data: seq<T>, more: bool, room: nat -> bool) returns (ok: bool)
      requires Valid() && idx <= size
      modifies repr
      ensures Valid() && old(repr) <= repr && fresh(repr - old(repr))
      ensures Contents() == if ok then Inserted(old(Contents()), idx, data) else old(Contents())
      ensures more && (forall i :: room(i)) ==> ok
      ensures old(Roomy(idx, |data|)) ==> ok
    {
      hide Valid, Contents, Gapped, Inserted;
      ghost var c := Contents();
      ok := InsertGap(idx, |data|, more, room);
      if ok {
        GapSize(c, Contents(), idx, |data|);
        ghost var r := Contents();
        Fill(idx, data);
        FillGap(c, r, Contents(), idx, data);
      }
    }

    method FillFromSelf(idx: nat, from: nat, n: nat, ghost c: seq<T>)
      requires Valid() && Gapped(c, Contents(), idx, n) && from + n <= |c| && size == |Contents()|
      modifies repr
      ensures Valid() && repr == old(repr) && Contents() == Inserted(c, idx, c[from..from + n])
    {
      hide Valid, Contents, Gapped, Inserted, Copied;
      ghost var r := Contents();
      GapSize(c, r, idx, n);
      if idx <= from {
        FillWhole(c, r, idx, n, from);
        CopyRange(idx, from + n, n);
      } else if from < idx && idx < from + n {
        FillSplit(c, r, idx, n, from);
        CopyRange(idx, from, idx - from);
        CopyRange(idx + (idx - from), idx + n, n - (idx - from));
      } else {
        FillWhole(c, r, idx, n, from);
        CopyRange(idx, from, n);
      }
    }

    /** Inserts part of `x`, which may be this very deque. */
    method InsertRange(idx: nat, x: Deque<T>, xidx: nat, n: nat, more: bool, room: nat -> bool) returns (ok: bool)
      requires Valid() && idx <= size && x.Valid() && xidx + n <= x.size && xidx < x.size
      requires x == this || x.repr !! repr
      modifies repr
      ensures Valid() && old(repr) <= repr && fresh(repr - old(repr))
      ensures Contents() == if ok then Inserted(old(Contents()), idx, old(x.Contents())[xidx..xidx + n]) else old(Contents())
      ensures more && (forall i :: room(i)) ==> ok
      ensures old(Roomy(idx, n)) ==> ok
    {
      hide Valid, Contents, Gapped, Inserted;
      Unfold();
      x.Unfold();
      ghost var c, data := Contents(), x.Contents()[xidx..xidx + n];
      ok := InsertGap(idx, n, more, room);
      if !ok {
        return;
      }
      if x == this {
        FillFromSelf(idx, xidx, n, c);
      } else {
        FillFromOther(idx, x, xidx, n, c);
      }
    }

    method FillFromOther(idx: nat, x: Deque<T>, xidx: nat, n: nat, ghost c: seq<T>)
      requires Valid() && Gapped(c, Contents(), idx, n) && size == |Contents()|
      requires x.Valid() && x.repr !! repr && xidx + n <= |x.Contents()|
      modifies repr
      ensures Valid() && repr == old(repr) && Contents() == Inserted(c, idx, old(x.Contents())[xidx..xidx + n])
    {
      hide Valid, Contents, Gapped, Inserted, Written;
      x.Unfold();
      ghost var r, s := Contents(), x.Contents();
      GapSize(c, r, idx, n);
      ghost var data := s[xidx..xidx + n];
      var i := 0;
      Unwritten(r, idx, data);
      while i < n
        invariant 0 <= i <= n && Valid() && repr == old(repr) && size == old(size) == |r|
        invariant x.Valid() && x.Contents() == s && x.size == |s|
        invariant Contents() == Written(r, idx, data, i)
      {
        FillStep(r, idx, data, i);
        var e := x.Get(xidx + i);
        Put(idx + i, e);
        i := i + 1;
      }
      FillGap(c, r, Contents(), idx, data);
    }

    // ----- The ends -----

    /** The row loses its rings behind slot `e`. */
    method ShrinkBack(e: nat)
      requires Laid() && begin < e <= end && e - begin <= |parts|
      modifies this`end, this`parts
      ensures Laid() && end == e && parts == old(parts)[..e - begin]
    {
      hide PoolAt, RingsAt;
      ghost var c, e0, p := slots.Items(), end, parts;
      end, parts := e, parts[..e - begin];
      forall i | 0 <= i < |c|
        ensures CellAt(c, i, begin, end, parts, rank)
      {
        assert CellAt(c, i, begin, e0, p, rank);
      }
    }

    /** The row loses its rings in front of slot `b`. */
    method ShrinkFront(b: nat)
      requires Laid() && begin <= b < end && b - begin <= |parts|
      modifies this`begin, this`parts
      ensures Laid() && begin == b && parts == old(parts)[b - old(begin)..]
    {
      hide PoolAt, RingsAt;
      ghost var c, b0, p := slots.Items(), begin, parts;
      begin, parts := b, parts[b - begin..];
      forall i | 0 <= i < |c|
        ensures CellAt(c, i, begin, end, parts, rank)
      {
        assert CellAt(c, i, b0, end, p, rank);
      }
    }

    /** Besides the row, just slots `from <= k < to` have rings. */
    ghost predicate Loaded(from: int, to: int)
      reads this, repr
    {
      && Laid()
      && forall k {:trigger slots.Items()[k]} :: 0 <= k < slots.size && !(begin <= k < end) ==>
           (slots.Items()[k] != null <==> from <= k < to)
    }

    lemma Unloaded(from: int, to: int)
      requires to <= from
      ensures Trim() <==> Loaded(from, to)
    {
      if Trim() {
        forall k | 0 <= k < slots.size && !(begin <= k < end)
          ensures slots.Items()[k] == null
        {
        }
      }
    }

    lemma Inside(from: int, to: int)
      requires Loaded(from, to)
      ensures {this, slots, pool, slots.buf, pool.buf} <= repr && slots.Valid() && begin < end <= slots.size
      ensures forall k {:trigger slots.buf[k]} :: 0 <= k < slots.size && !(begin <= k < end) ==>
                (slots.buf[k] != null <==> from <= k < to)
    {
      forall k | 0 <= k < slots.size && !(begin <= k < end)
        ensures slots.buf[k] != null <==> from <= k < to
      {
        assert slots.Items()[k] == slots.buf[k];
      }
    }

    /** Gives one ring beside the row back. */
    method Unload(k: nat, ghost from: int, ghost to: int, ghost from': int, ghost to': int)
      requires Loaded(from, to) && k < slots.size && !(begin <= k < end) && slots.buf[k] != null
      requires (from <= k < to && ((from' == k + 1 && from == k && to' == to) || (from' == from && to == k + 1 && to' == k)))
      modifies repr
      ensures Loaded(from', to') && parts == old(parts) && repr == old(repr) && size == old(size)
      ensures begin == old(begin) && end == old(end) && slots.size == old(slots.size)
    {
      hide CellsAt, PoolAt, RingsAt, Laid;
      Take();
      Others(k);
      PushRing(k);
      Take();
    }

    /** `push_front`: 0 is returned, and nothing changed, when there is no memory. */
    method PushFront(x: T, more: bool, room: nat -> bool) returns (ok: bool)
      requires Valid()
      modifies repr
      ensures Valid() && old(repr) <= repr && fresh(repr - old(repr))
      ensures Contents() == if ok then [x] + old(Contents()) else old(Contents())
      ensures more && (forall i :: room(i)) ==> ok
      ensures old(FreeFront()) > 0 ==> ok
    {
      hide Valid, Supplied, Laid, Trim, Packed, Flat, RingsFor;
      Unfold();
      ghost var p := parts;
      FirstPart(p, R);
      Unstocked(begin);
      Row(begin, begin, begin);
      if slots.buf[begin].size == R {
        ghost var e;
        ok, e := ExpandFront(1, more, room);
        RingsForOne(R);
        if !ok {
          return;
        }
        JoinFront(begin - 1);
        Frames(begin, begin);
        OnRow(begin, AddFront(x), begin, begin);
        assert [x] + [] == [x];
        assert parts == [[x]] + p;
      } else {
        Frames(begin, begin);
        OnRow(begin, AddFront(x), begin, begin);
        assert parts == p[0 := [x] + p[0]];
      }
      GrowFront(p, R, x);
      Unstocked(begin);
      Count(size + 1);
      ok := true;
    }

    method PushBack(x: T, more: bool, room: nat -> bool) returns (ok: bool)
      requires Valid()
      modifies repr
      ensures Valid() && old(repr) <= repr && fresh(repr - old(repr))
      ensures Contents() == if ok then old(Contents()) + [x] else old(Contents())
      ensures more && (forall i :: room(i)) ==> ok
      ensures old(FreeBack()) > 0 ==> ok
    {
      hide Valid, Supplied, Laid, Trim, Packed, Flat, RingsFor;
      Unfold();
      ghost var p := parts;
      ghost var l := |p| - 1;
      FirstPart(p, R);
      Unstocked(end);
      Row(end, end, end - 1);
      if slots.buf[end - 1].size == R {
        ghost var e;
        ok, e := ExpandBack(1, more, room);
        RingsForOne(R);
        if !ok {
          return;
        }
        JoinBack(end + 1);
        Frames(end, end);
        OnRow(end - 1, AddBack(x), end, end);
        assert [] + [x] == [x];
        assert parts == p + [[x]];
      } else {
        Frames(end, end);
        OnRow(end - 1, AddBack(x), end, end);
        assert parts == p[l := p[l] + [x]];
      }
      GrowBack(p, R, x);
      Unstocked(end);
      Count(size + 1);
      ok := true;
    }

    method PopFront()
      requires Valid() && size > 0
      modifies repr
      ensures Valid() && repr == old(repr) && Contents() == old(Contents())[1..]
    {
      hide Valid, Supplied, Laid, Trim, Packed, Flat, Loaded;
      Unfold();
      ghost var p := parts;
      FirstPart(p, R);
      NotEmpty(p, R);
      TakeFirst(p, R);
      Unstocked(begin);
      Frames(begin, begin);
      OnRow(begin, TakeFront, begin, begin);
      Unstocked(begin);
      Frames(begin, begin);
      Row(begin, begin, begin);
      if slots.buf[begin].size == 0 && size - 1 > 0 {
        var b := begin;
        DropFirst();
        assert parts == p[0 := p[0][1..]][1..];
      }
      Count(size - 1);
    }

    /** The emptied first ring leaves the row. */
    method DropFirst()
      requires Trim() && begin + 1 < end && |parts| > 1
      modifies repr
      ensures Trim() && parts == old(parts)[1..] && repr == old(repr) && size == old(size)
    {
      hide CellsAt, PoolAt, RingsAt, Laid;
      Take();
      InRow(begin);
      var b := begin;
      ShrinkFront(begin + 1);
      Take();
      Unload(b, b, b + 1, b + 1, b + 1);
      Unloaded(b + 1, b + 1);
    }

    method DropLast()
      requires Trim() && begin + 1 < end && |parts| > 1
      modifies repr
      ensures Trim() && parts == old(parts)[..|old(parts)| - 1] && repr == old(repr) && size == old(size)
    {
      hide CellsAt, PoolAt, RingsAt, Laid;
      Take();
      InRow(end - 1);
      ShrinkBack(end - 1);
      Take();
      Unload(end, end, end + 1, end + 1, end + 1);
      Unloaded(end + 1, end + 1);
    }

    method PopBack()
      requires Valid() && size > 0
      modifies repr
      ensures Valid() && repr == old(repr) && Contents() == old(Contents())[..old(size) - 1]
    {
      hide Valid, Supplied, Laid, Trim, Packed, Flat, Loaded;
      Unfold();
      ghost var p := parts;
      ghost var l := |p| - 1;
      FirstPart(p, R);
      NotEmpty(p, R);
      TakeLast(p, R);
      Unstocked(begin);
      Frames(begin, begin);
      OnRow(end - 1, TakeBack, begin, begin);
      Unstocked(begin);
      Frames(begin, begin);
      Row(begin, begin, end - 1);
      if slots.buf[end - 1].size == 0 && size - 1 > 0 {
        DropLast();
        assert parts == p[l := p[l][..|p[l]| - 1]][..l];
      }
      Count(size - 1);
    }

    /** The loop that gives back the rings from `end` on. */
    method UnloadBack(ghost to: nat)
      requires Loaded(end, to) && end <= to <= slots.size
      modifies repr
      ensures Trim() && parts == old(parts) && repr == old(repr) && size == old(size) && begin == old(begin)
    {
      hide Laid, Loaded;
      Inside(end, to);
      var k := end;
      while k < slots.size && slots.buf[k] != null
        invariant end <= k && Loaded(k, to) && parts == old(parts) && repr == old(repr) && size == old(size)
        invariant begin == old(begin) && end == old(end) && slots.size == old(slots.size)
        invariant k <= slots.size && k <= to && slots.Valid()
        decreases slots.size - k
      {
        Inside(k, to);
        Unload(k, k, to, k + 1, to);
        k := k + 1;
        Inside(k, to);
      }
      Inside(k, to);
      Unloaded(k, to);
    }

    /** The loop that gives back the rings in front of `begin`. */
    method UnloadFront(ghost from: nat)
      requires Loaded(from, begin) && from <= begin
      modifies repr
      ensures Trim() && parts == old(parts) && repr == old(repr) && size == old(size) && end == old(end)
    {
      hide Laid, Loaded;
      Inside(from, begin);
      var k := begin;
      while k > 0 && slots.buf[k - 1] != null
        invariant from <= k <= begin && Loaded(from, k) && parts == old(parts) && repr == old(repr) && size == old(size)
        invariant begin == old(begin) && end == old(end) && slots.size == old(slots.size) && slots.Valid()
      {
        Inside(from, k);
        Unload(k - 1, from, k, from, k - 1);
        k := k - 1;
        Inside(from, k);
      }
      Inside(from, k);
      Unloaded(from, k);
    }

    // ----- Erasing -----

    /** The row ends at slot `e`; the rings behind it go to the pool. */
    method CutBack(e: nat)
      requires Trim() && begin < e <= end
      modifies repr
      ensures Trim() && begin == old(begin) && e - begin <= |old(parts)| && parts == old(parts)[..e - begin]
      ensures repr == old(repr) && size == old(size)
    {
      hide PoolAt, RingsAt;
      ghost var e0 := end;
      assert forall k {:trigger slots.Items()[k]} :: e <= k < end ==> slots.Items()[k] != null by {
        forall k | e <= k < end
          ensures slots.Items()[k] != null
        {
          InRow(k);
        }
      }
      ShrinkBack(e);
      UnloadBack(e0);
    }

    method CutFront(b: nat)
      requires Trim() && begin <= b < end
      modifies repr
      ensures Trim() && parts == old(parts)[b - old(begin)..] && repr == old(repr) && size == old(size) && end == old(end)
    {
      hide PoolAt, RingsAt;
      ghost var b0 := begin;
      assert forall k {:trigger slots.Items()[k]} :: begin <= k < b ==> slots.Items()[k] != null by {
        forall k | begin <= k < b
          ensures slots.Items()[k] != null
        {
          InRow(k);
        }
      }
      ShrinkFront(b);
      UnloadFront(b0);
    }

    /** Keeps the first `n` elements. */
    method Truncate(n: nat)
      requires Valid() && n < size
      modifies repr
      ensures Valid() && repr == old(repr) && Contents() == old(Contents())[..n]
    {
      hide Valid, Supplied, Laid, Trim, Packed, Flat;
      Unfold();
      Unstocked(begin);
      Frames(begin, begin);
      ghost var p := parts;
      var m, r := At(n);
      ghost var j := m - begin;
      TrimBack(p, R, j, r);
      Row(begin, begin, m);
      if m == begin || r != 0 {
        OnRow(m, Cut(r, slots.buf[m].size - r), begin, begin);
        Unstocked(begin);
        assert parts[j] == p[j][..r];
        HeadTo(p, j, p[j][..r]);
        CutBack(m + 1);
      } else {
        CutBack(m);
      }
      Count(n);
    }

    /** Drops the first `n` elements. */
    method Behead(n: nat)
      requires Valid() && n < size
      modifies repr
      ensures Valid() && repr == old(repr) && Contents() == old(Contents())[n..]
    {
      hide Valid, Supplied, Laid, Trim, Packed, Flat;
      Unfold();
      Unstocked(begin);
      Frames(begin, begin);
      ghost var p := parts;
      var m, r := At(n);
      ghost var j := m - begin;
      TrimFront(p, R, j, r);
      OnRow(m, Cut(0, r), begin, begin);
      Unstocked(begin);
      assert parts[j] == p[j][r..];
      TailFrom(p, j, p[j][r..]);
      CutFront(m);
      Count(size - n);
    }

    /** Erases by moving the shorter side over the gap. */
    method Erase(idx: nat, n: nat)
      requires Valid() && idx + n <= size
      modifies repr
      ensures Valid() && repr == old(repr) && Contents() == Erased(old(Contents()), idx, n)
    {
      hide Valid, Contents, Forwarded, Backed;
      Unfold();
      ghost var c := Contents();
      if n == 0 {
        return;
      }
      var sz := size;
      if idx >= sz - (idx + n) {
        BackErased(c, idx, n);
        MoveForward(idx + n, sz, n);
        Truncate(sz - n);
      } else {
        FrontErased(c, idx, n);
        MoveBackward(0, idx, n);
        Behead(n);
      }
    }

    method Clear()
      requires Valid()
      modifies repr
      ensures Valid() && repr == old(repr) && Contents() == []
    {
      hide Valid, Supplied, Laid, Trim, Packed, Flat;
      Unfold();
      Unstocked(begin);
      Frames(begin, begin);
      OnRow(begin, Wipe, begin, begin);
      Unstocked(begin);
      CutBack(begin + 1);
      assert parts == [[]];
      FlatOne<T>([]);
      OneEmpty<T>(R);
      Count(0);
    }

    /** Shortens the deque to `n` elements, or fills it up with `x`. */
    method Resize(n: nat, x: T, more: bool, room: nat -> bool) returns (ok: bool)
      requires Valid()
      modifies repr
      ensures Valid() && old(repr) <= repr && fresh(repr - old(repr)) && (more && (forall i :: room(i)) ==> ok)
      ensures if !ok then Contents() == old(Contents())
              else Contents() == if n <= old(size) then old(Contents())[..n]
                                 else old(Contents()) + seq(n - old(size), _ => x)
      ensures n <= old(size) || old(Roomy(size, n - size)) ==> ok
    {
      hide Valid, Contents;
      Unfold();
      var sz := size;
      ghost var c := Contents();
      if sz >= n {
        Erase(n, sz - n);
        ok := true;
      } else {
        ok := InsertArray(sz, seq(n - sz, _ => x), more, room);
      }
    }
  }
}
