/** The chained hash table with prime lengths.  It grows either into a fresh array or, when there is no memory for one,
    inside the reallocated array. */
module HashTable {
  import opened TableModel

  const PRIMES: seq<nat> := [
    53, 97, 193, 389, 769, 1543, 3079, 6151, 12289, 24593, 49157, 98317, 196613, 393241, 786433, 1572869, 3145739,
    6291469, 12582917, 25165843, 50331653, 100663319, 201326611, 402653189, 805306457, 1610612741
  ]

  lemma PrimesIncrease(i: nat, j: nat)
    requires i < j < |PRIMES|
    ensures 0 < PRIMES[i] < PRIMES[j]
  {
    if i + 1 < j {
      PrimesIncrease(i, j - 1);
    }
  }

  /** The number of entries at which a table of `len` buckets grows. */
  function Limit(load: real, len: nat): nat {
    var n := (load * len as real).Floor;
    if n < 0 then 0 else n
  }

  /** The limit is the greatest number of entries that is not more than the load times the length. */
  lemma LimitIsGreatest(load: real, len: nat, n: nat)
    requires load >= 0.0
    ensures n <= Limit(load, len) <==> n as real <= load * len as real
  {
    var x := load * len as real;
    assert x >= 0.0;
    assert x.Floor as real <= x < (x.Floor + 1) as real;
    if n <= x.Floor {
      assert n as real <= x.Floor as real;
    } else {
      assert (x.Floor + 1) as real <= n as real;
    }
  }

  // ----- How a chain model and the linked elements belong together -----

  ghost predicate TiedAt<K>(c: Chains<K>, at: Places<K>, e: Element<K>)
    reads e
  {
    && e in at && 0 <= at[e].bucket < |c| && 0 <= at[e].rank < |c[at[e].bucket]|
    && e.next == After(c, at[e])
  }

  ghost predicate Tied<K>(c: Chains<K>, at: Places<K>)
    reads at.Keys
  {
    forall e {:trigger TiedAt(c, at, e)} :: e in at ==> TiedAt(c, at, e)
  }

  /** `t` holds the heads of the chains from number `off` on. */
  ghost predicate Heads<K>(c: Chains<K>, off: nat, t: seq<Element?<K>>) {
    off + |t| <= |c| && forall b {:trigger t[b]} :: 0 <= b < |t| ==> t[b] == Head(c, off + b)
  }

  /** Every element of the buckets `from <= b < to` is in the bucket of its hash, counted from `off`. */
  ghost predicate InPlace<K>(at: Places<K>, from: int, to: int, off: int, len: nat)
    requires 0 < len
  {
    forall e {:trigger at[e]} :: e in at && from <= at[e].bucket < to ==> at[e].bucket == off + e.hash % len
  }

  lemma Pad<K>(c: Chains<K>, at: Places<K>, k: nat) returns (c': Chains<K>)
    requires Consistent(c, at)
    ensures Consistent(c', at) && |c'| == |c| + k
    ensures forall b :: 0 <= b < |c| ==> c'[b] == c[b]
    ensures forall b :: |c| <= b < |c'| ==> c'[b] == []
  {
    c' := c + seq(k, _ => []);
    forall b, r | 0 <= b < |c'| && 0 <= r < |c'[b]|
      ensures Here(c', at, b, r)
    {
      assert b < |c|;
      assert Here(c, at, b, r);
    }
    forall e | e in at
      ensures Listed(c', at, e)
    {
      assert Listed(c, at, e);
    }
  }

  lemma DropFront<K>(c: Chains<K>, at: Places<K>, k: nat) returns (c': Chains<K>, at': Places<K>)
    requires Consistent(c, at) && k <= |c| && forall b :: 0 <= b < k ==> c[b] == []
    ensures Consistent(c', at') && c' == c[k..] && at'.Keys == at.Keys
    ensures forall e {:trigger at'[e]} :: e in at ==>
              k <= at[e].bucket < |c| && at'[e] == Place(at[e].bucket - k, at[e].rank)
  {
    c' := c[k..];
    at' := map e | e in at :: Place(at[e].bucket - k, at[e].rank);
    forall b, r | 0 <= b < |c'| && 0 <= r < |c'[b]|
      ensures Here(c', at', b, r)
    {
      assert Here(c, at, b + k, r);
    }
    forall e | e in at'
      ensures Listed(c', at', e) && k <= at[e].bucket < |c|
    {
      assert Listed(c, at, e);
    }
  }

  lemma DropTied<K>(c0: Chains<K>, at0: Places<K>, k: nat, t: seq<Element?<K>>, c: Chains<K>, at: Places<K>)
    requires Tied(c0, at0) && Heads(c0, k, t) && c == c0[k..] && at.Keys == at0.Keys
    requires forall e {:trigger at[e]} :: e in at ==>
               k <= at0[e].bucket < |c0| && at[e] == Place(at0[e].bucket - k, at0[e].rank)
    ensures Tied(c, at) && Heads(c, 0, t)
  {
    forall e | e in at
      ensures TiedAt(c, at, e)
    {
      assert TiedAt(c0, at0, e) && at[e].rank == at0[e].rank;
    }
  }

  /** One element goes from the front of an old chain to the front of a chain of the fresh table. */
  method PushFresh<K>(t: array<Element?<K>>, x: Element<K>, d: nat, ghost off: nat, ghost b: int, ghost c: Chains<K>,
                      ghost at: Places<K>)
    returns (ghost c': Chains<K>, ghost at': Places<K>)
    requires Consistent(c, at) && Tied(c, at) && Heads(c, off, t[..]) && d < t.Length
    requires 0 <= b < off && Here(c, at, b, |c[b]| - 1) && x == c[b][|c[b]| - 1]
    modifies t, x`next
    ensures Moved(c, c', at, at', b, |c[b]| - 1, off + d)
    ensures Consistent(c', at') && Tied(c', at') && Heads(c', off, t[..])
  {
    c', at' := Move(c, at, b, |c[b]| - 1, off + d);
    MoveKeeps(c, c', at, at', b, |c[b]| - 1, off + d);
    x.next := t[d];
    t[d] := x;
    forall e | e in at'
      ensures TiedAt(c', at', e)
    {
      assert old(TiedAt(c, at, e));
      assert Listed(c, at, e);
    }
  }

  /** Every element of chain `b` goes to the fresh table. */
  method EmptyChain<K>(t: array<Element?<K>>, first: Element?<K>, ghost off: nat, ghost b: int, ghost c0: Chains<K>,
                       ghost at0: Places<K>)
    returns (ghost c: Chains<K>, ghost at: Places<K>)
    requires Consistent(c0, at0) && Tied(c0, at0) && Heads(c0, off, t[..]) && 0 < t.Length && |c0| == off + t.Length
    requires 0 <= b < off && first == Head(c0, b) && InPlace(at0, off, |c0|, off, t.Length)
    modifies t, at0.Keys`next
    ensures Consistent(c, at) && Tied(c, at) && Heads(c, off, t[..]) && at.Keys == at0.Keys
    ensures InPlace(at, off, |c|, off, t.Length)
    ensures |c| == |c0| && c[b] == [] && forall k :: 0 <= k < off && k != b ==> c[k] == c0[k]
  {
    c, at := c0, at0;
    var elm := first;
    while elm != null
      invariant Consistent(c, at) && Tied(c, at) && Heads(c, off, t[..]) && at.Keys == at0.Keys
      invariant InPlace(at, off, |c|, off, t.Length)
      invariant |c| == |c0| && forall k :: 0 <= k < off && k != b ==> c[k] == c0[k]
      invariant elm == Head(c, b)
      decreases |c[b]|
    {
      assert Here(c, at, b, |c[b]| - 1);
      assert TiedAt(c, at, elm);
      var next := elm.next;
      ghost var c1, at1 := c, at;
      c, at := PushFresh(t, elm, elm.hash % t.Length, off, b, c, at);
      forall e | e in at && off <= at[e].bucket < |c|
        ensures at[e].bucket == off + e.hash % t.Length
      {
        assert Listed(c1, at1, e);
      }
      elm := next;
    }
  }

  /** A fresh table behind the old one, with nothing in it. */
  lemma Beside<K>(c0: Chains<K>, at: Places<K>, t: seq<Element?<K>>) returns (c: Chains<K>)
    requires Consistent(c0, at) && Tied(c0, at) && 0 < |t| && forall b :: 0 <= b < |t| ==> t[b] == null
    ensures |c| == |c0| + |t| && Consistent(c, at) && Tied(c, at) && Heads(c, |c0|, t)
    ensures InPlace(at, |c0|, |c|, |c0|, |t|) && forall k :: 0 <= k < |c0| ==> c[k] == c0[k]
    ensures forall k :: |c0| <= k < |c| ==> c[k] == []
  {
    c := Pad(c0, at, |t|);
    forall e | e in at
      ensures TiedAt(c, at, e) && at[e].bucket < |c0|
    {
      assert TiedAt(c0, at, e);
    }
  }

  /** The old table is empty and goes. */
  lemma Alone<K>(c0: Chains<K>, at0: Places<K>, off: nat, t: seq<Element?<K>>) returns (c: Chains<K>, at: Places<K>)
    requires Consistent(c0, at0) && Tied(c0, at0) && Heads(c0, off, t) && |c0| == off + |t| && 0 < |t|
    requires InPlace(at0, off, |c0|, off, |t|) && forall k :: 0 <= k < off ==> c0[k] == []
    ensures |c| == |t| && at.Keys == at0.Keys
    ensures Consistent(c, at) && Tied(c, at) && Heads(c, 0, t) && InPlace(at, 0, |t|, 0, |t|)
  {
    c, at := DropFront(c0, at0, off);
    DropTied(c0, at0, off, t, c, at);
  }

  /** The whole fresh-table path: the result is a new array. */
  method Rehash<K>(table: array?<Element?<K>>, len: nat, ghost c0: Chains<K>, ghost at0: Places<K>)
    returns (t: array<Element?<K>>, ghost c: Chains<K>, ghost at: Places<K>)
    requires Consistent(c0, at0) && Tied(c0, at0) && 0 < len
    requires if table == null then c0 == [] else table.Length == |c0| && Heads(c0, 0, table[..])
    modifies at0.Keys`next
    ensures fresh(t) && t.Length == len == |c| && at.Keys == at0.Keys
    ensures Consistent(c, at) && Tied(c, at) && Heads(c, 0, t[..]) && InPlace(at, 0, len, 0, len)
  {
    hide Consistent, Tied, InPlace;
    t := new Element?<K>[len](_ => null);
    ghost var off := |c0|;
    c := Beside(c0, at0, t[..]);
    at := at0;
    if table != null {
      var b := 0;
      while b < table.Length
        invariant 0 <= b <= table.Length && |c| == off + len && at.Keys == at0.Keys
        invariant Consistent(c, at) && Tied(c, at) && Heads(c, off, t[..]) && InPlace(at, off, |c|, off, len)
        invariant forall k :: 0 <= k < b ==> c[k] == []
        invariant forall k :: b <= k < off ==> c[k] == c0[k]
      {
        assert table[..][b] == Head(c0, b);
        c, at := EmptyChain(t, table[b], off, b, c, at);
        b := b + 1;
      }
    }
    c, at := Alone(c, at, off, t[..]);
  }

  ghost function BeforeOr<K>(prev: Element?<K>, x: Element<K>): Element<K> {
    if prev == null then x else prev
  }

  /** One element goes to the front of another chain of the same table; `prev` is the element before it, if any. */
  method MoveInside<K>(t: array<Element?<K>>, prev: Element?<K>, x: Element<K>, b: nat, d: nat, ghost r: int,
                       ghost c: Chains<K>, ghost at: Places<K>)
    returns (ghost c': Chains<K>, ghost at': Places<K>)
    requires Consistent(c, at) && Tied(c, at) && Heads(c, 0, t[..]) && |c| == t.Length
    requires b < t.Length && d < t.Length && b != d && Here(c, at, b, r) && x == c[b][r]
    requires prev == if r + 1 == |c[b]| then null else c[b][r + 1]
    modifies t, x`next, BeforeOr(prev, x)`next
    ensures Moved(c, c', at, at', b, r, d)
    ensures Consistent(c', at') && Tied(c', at') && Heads(c', 0, t[..])
  {
    hide Consistent, Moved;
    c', at' := Move(c, at, b, r, d);
    MoveKeeps(c, c', at, at', b, r, d);
    assert TiedAt(c, at, x);
    if r + 1 < |c[b]| {
      AtPlace(c, at, b, r + 1);
    }
    if prev == null {
      t[b] := x.next;
    } else {
      prev.next := x.next;
    }
    x.next := t[d];
    t[d] := x;
    forall e | e in at'
      ensures TiedAt(c', at', e)
    {
      assert old(TiedAt(c, at, e));
      MovedLink(c, c', at, at', b, r, d, e);
    }
    forall k | 0 <= k < t.Length
      ensures |c'| == |c| && t[..][k] == Head(c', k)
    {
      assert old(t[..][k]) == Head(c, k);
      MovedHead(c, c', at, at', b, r, d, k);
    }
  }

  /** The elements of chain `b` behind index `k` are where they belong. */
  ghost predicate Stay<K>(at: Places<K>, b: int, k: int, len: nat)
    requires 0 < len
  {
    forall e {:trigger at[e]} :: e in at && at[e].bucket == b && at[e].rank > k ==> e.hash % len == b
  }

  lemma StayFirst<K>(c: Chains<K>, at: Places<K>, b: nat, len: nat)
    requires Consistent(c, at) && b < |c| == len
    ensures Stay(at, b, |c[b]| - 1, len)
  {
    forall e | e in at
      ensures Listed(c, at, e)
    {
      PlaceOf(c, at, e);
    }
  }

  lemma StayKept<K>(c: Chains<K>, at: Places<K>, b: nat, k: int, len: nat)
    requires Consistent(c, at) && 0 < len && Stay(at, b, k, len) && Here(c, at, b, k) && c[b][k].hash % len == b
    ensures Stay(at, b, k - 1, len)
  {
    forall e | e in at
      ensures Listed(c, at, e)
    {
      PlaceOf(c, at, e);
    }
  }

  lemma StayLast<K>(c: Chains<K>, at: Places<K>, b: nat, len: nat)
    requires Consistent(c, at) && 0 < len && Stay(at, b, -1, len) && InPlace(at, 0, b, 0, len)
    ensures InPlace(at, 0, b + 1, 0, len)
  {
    forall e | e in at
      ensures Listed(c, at, e)
    {
      PlaceOf(c, at, e);
    }
  }

  lemma StayMoved<K>(c: Chains<K>, c': Chains<K>, at: Places<K>, at': Places<K>, b: int, k: int, d: int, was: nat, len: nat)
    requires Consistent(c, at) && Moved(c, c', at, at', b, k, d) && 0 < len == |c| && Stay(at, b, k, len)
    requires d == c[b][k].hash % len && b < was <= len && InPlace(at, 0, b, 0, len) && InPlace(at, was, len, 0, len)
    ensures Stay(at', b, k - 1, len) && InPlace(at', 0, b, 0, len) && InPlace(at', was, len, 0, len)
  {
    forall e | e in at
      ensures Listed(c, at, e)
    {
      PlaceOf(c, at, e);
    }
  }

  /** The elements of chain `b` that belong elsewhere leave it, wherever they stand in the chain. */
  method SplitChain<K>(t: array<Element?<K>>, b: nat, ghost was: nat, ghost c0: Chains<K>, ghost at0: Places<K>)
    returns (ghost c: Chains<K>, ghost at: Places<K>)
    requires Consistent(c0, at0) && Tied(c0, at0) && Heads(c0, 0, t[..]) && |c0| == t.Length && b < was <= t.Length
    requires InPlace(at0, 0, b, 0, t.Length) && InPlace(at0, was, t.Length, 0, t.Length)
    modifies t, at0.Keys`next
    ensures Consistent(c, at) && Tied(c, at) && Heads(c, 0, t[..]) && |c| == |c0| && at.Keys == at0.Keys
    ensures InPlace(at, 0, b + 1, 0, t.Length) && InPlace(at, was, t.Length, 0, t.Length)
  {
    hide Consistent, Moved, InPlace, Stay;
    c, at := c0, at0;
    var prev: Element?<K> := null;
    var e := t[b];
    assert t[..][b] == Head(c, b);
    ghost var k := |c[b]| - 1;
    StayFirst(c, at, b, t.Length);
    while e != null
      invariant Consistent(c, at) && Tied(c, at) && Heads(c, 0, t[..]) && |c| == |c0| && at.Keys == at0.Keys
      invariant InPlace(at, 0, b, 0, t.Length) && InPlace(at, was, t.Length, 0, t.Length) && Stay(at, b, k, t.Length)
      invariant -1 <= k < |c[b]| && e == if k < 0 then null else c[b][k]
      invariant prev == if k + 1 == |c[b]| then null else c[b][k + 1]
      decreases k
    {
      AtPlace(c, at, b, k);
      assert prev == null || prev in at0 by {
        if prev != null {
          AtPlace(c, at, b, k + 1);
        }
      }
      assert TiedAt(c, at, e);
      var b2 := e.hash % t.Length;
      if b2 == b {
        StayKept(c, at, b, k, t.Length);
        prev := e;
        e := e.next;
      } else {
        ghost var c1, at1 := c, at;
        c, at := MoveInside(t, prev, e, b, b2, k, c, at);
        StayMoved(c1, c, at1, at, b, k, b2, was, t.Length);
        MovedShape(c1, c, at1, at, b, k, b2);
        if prev == null {
          e := t[b];
          assert t[..][b] == Head(c, b);
        } else {
          AtPlace(c, at, b, k);
          assert TiedAt(c, at, prev);
          e := prev.next;
        }
      }
      k := k - 1;
    }
    StayLast(c, at, b, t.Length);
  }

  /** Chains that go on behind their old number, the new ones empty. */
  lemma Widened<K>(c0: Chains<K>, at: Places<K>, t: seq<Element?<K>>) returns (c: Chains<K>)
    requires Consistent(c0, at) && Tied(c0, at) && |c0| <= |t| && 0 < |t|
    requires Heads(c0, 0, t[..|c0|]) && forall b :: |c0| <= b < |t| ==> t[b] == null
    ensures Consistent(c, at) && Tied(c, at) && |c| == |t| && Heads(c, 0, t) && InPlace(at, |c0|, |t|, 0, |t|)
  {
    c := Pad(c0, at, |t| - |c0|);
    forall e | e in at
      ensures TiedAt(c, at, e) && at[e].bucket < |c0|
    {
      assert TiedAt(c0, at, e);
    }
    forall b | 0 <= b < |t|
      ensures t[b] == Head(c, b)
    {
      assert b < |c0| ==> t[..|c0|][b] == Head(c0, b);
    }
  }

  /** The whole in-place path: the reallocated table keeps its heads, and the chains are split where they stand. */
  method SplitAll<K>(table: array?<Element?<K>>, len: nat, ghost c0: Chains<K>, ghost at0: Places<K>)
    returns (t: array<Element?<K>>, ghost c: Chains<K>, ghost at: Places<K>)
    requires Consistent(c0, at0) && Tied(c0, at0) && |c0| <= len && 0 < len
    requires if table == null then c0 == [] else table.Length == |c0| && Heads(c0, 0, table[..])
    modifies at0.Keys`next
    ensures fresh(t) && t.Length == len == |c| && at.Keys == at0.Keys
    ensures Consistent(c, at) && Tied(c, at) && Heads(c, 0, t[..]) && InPlace(at, 0, len, 0, len)
  {
    hide Consistent;
    t := new Element?<K>[len](_ => null);
    var was := 0;
    if table != null {
      was := table.Length;
      forall i | 0 <= i < was {
        t[i] := table[i];
      }
      assert t[..was] == table[..];
    }
    c := Widened(c0, at0, t[..]);
    at := at0;
    var b := 0;
    while b < was
      invariant 0 <= b <= was
      invariant Consistent(c, at) && Tied(c, at) && Heads(c, 0, t[..]) && |c| == t.Length && at.Keys == at0.Keys
      invariant InPlace(at, 0, b, 0, len) && InPlace(at, was, len, 0, len)
    {
      c, at := SplitChain(t, b, was, c, at);
      b := b + 1;
    }
  }

  /** Both growth paths lead to the same buckets: what a bucket holds is settled by the elements and the length. */
  lemma PathsAgree<K>(c: Chains<K>, at: Places<K>, d: Chains<K>, bt: Places<K>, b: int)
    requires Consistent(c, at) && Consistent(d, bt) && at.Keys == bt.Keys && |c| == |d| && 0 <= b < |c|
    requires InPlace(at, 0, |c|, 0, |c|) && InPlace(bt, 0, |d|, 0, |d|)
    ensures multiset(c[b]) == multiset(d[b])
  {
    OncePlaced(c, at, b);
    OncePlaced(d, bt, b);
    forall e
      ensures multiset(c[b])[e] == multiset(d[b])[e]
    {
      assert e in multiset(c[b]) <==> e in at && e.hash % |c| == b by {
        InBucket(c, at, b, e);
      }
      assert e in multiset(d[b]) <==> e in bt && e.hash % |d| == b by {
        InBucket(d, bt, b, e);
      }
    }
  }

  lemma InBucket<K>(c: Chains<K>, at: Places<K>, b: int, e: Element<K>)
    requires Consistent(c, at) && 0 <= b < |c| && InPlace(at, 0, |c|, 0, |c|)
    ensures e in c[b] <==> e in at && e.hash % |c| == b
  {
    if e in at {
      PlaceOf(c, at, e);
    }
    if e in c[b] {
      var r :| 0 <= r < |c[b]| && c[b][r] == e;
      AtPlace(c, at, b, r);
    }
  }

  lemma OncePlaced<K>(c: Chains<K>, at: Places<K>, b: int)
    requires Consistent(c, at) && 0 <= b < |c|
    ensures forall e :: multiset(c[b])[e] <= 1
  {
    forall i, j | 0 <= i < j < |c[b]|
      ensures c[b][i] != c[b][j]
    {
      AtPlace(c, at, b, i);
      AtPlace(c, at, b, j);
    }
    NoRepeats(c[b]);
  }

  lemma {:induction false} NoRepeats<T>(s: seq<T>)
    requires forall i, j :: 0 <= i < j < |s| ==> s[i] != s[j]
    ensures forall e :: multiset(s)[e] <= 1
  {
    if s != [] {
      var n := |s| - 1;
      NoRepeats(s[..n]);
      assert s == s[..n] + [s[n]];
    }
  }

  // ----- Single links -----

  /** `x` comes into chain `off + d` between `prev`, if any, and `rest`, if any. */
  method Link<K>(t: array<Element?<K>>, prev: Element?<K>, rest: Element?<K>, x: Element<K>, d: nat, ghost r: nat,
                 ghost off: nat, ghost c: Chains<K>, ghost at: Places<K>)
    returns (ghost c': Chains<K>, ghost at': Places<K>)
    requires Consistent(c, at) && Tied(c, at) && Heads(c, off, t[..]) && x !in at && d < t.Length && r <= |c[off + d]|
    requires prev == (if r == |c[off + d]| then null else c[off + d][r])
    requires rest == (if r == 0 then null else c[off + d][r - 1])
    modifies t, x`next, BeforeOr(prev, x)`next
    ensures Inserted(c, c', at, at', x, off + d, r)
    ensures Consistent(c', at') && Tied(c', at') && Heads(c', off, t[..])
  {
    x.next := rest;
    c', at' := LinkLast(t, prev, rest, x, d, r, off, c, at);
  }

  /** The same for an element that is linked to `rest` already. */
  method LinkLast<K>(t: array<Element?<K>>, prev: Element?<K>, ghost rest: Element?<K>, x: Element<K>, d: nat, ghost r: nat,
                     ghost off: nat, ghost c: Chains<K>, ghost at: Places<K>)
    returns (ghost c': Chains<K>, ghost at': Places<K>)
    requires Consistent(c, at) && Tied(c, at) && Heads(c, off, t[..]) && x !in at && d < t.Length && r <= |c[off + d]|
    requires prev == (if r == |c[off + d]| then null else c[off + d][r])
    requires x.next == rest == (if r == 0 then null else c[off + d][r - 1])
    modifies t, BeforeOr(prev, x)`next
    ensures Inserted(c, c', at, at', x, off + d, r)
    ensures Consistent(c', at') && Tied(c', at') && Heads(c', off, t[..])
  {
    hide Consistent, Inserted;
    c', at' := Insert(c, at, x, off + d, r);
    if prev == null {
      t[d] := x;
    } else {
      AtPlace(c, at, off + d, r);
      prev.next := x;
    }
    forall e | e in at'
      ensures TiedAt(c', at', e)
    {
      InsertedLink(c, c', at, at', x, off + d, r, e);
      if e != x {
        assert old(TiedAt(c, at, e));
      }
    }
    forall k | 0 <= k < t.Length
      ensures |c'| == |c| && t[..][k] == Head(c', off + k)
    {
      assert old(t[..][k]) == Head(c, off + k);
      InsertedHead(c, c', at, at', x, off + d, r, off + k);
    }
  }

  /** `x` comes in at the head of chain `off + d`. */
  method LinkFirst<K>(t: array<Element?<K>>, x: Element<K>, d: nat, ghost off: nat, ghost c: Chains<K>, ghost at: Places<K>)
    returns (ghost c': Chains<K>, ghost at': Places<K>)
    requires Consistent(c, at) && Tied(c, at) && Heads(c, off, t[..]) && x !in at && d < t.Length
    modifies t, x`next
    ensures off + d < |c| && Inserted(c, c', at, at', x, off + d, |c[off + d]|)
    ensures Consistent(c', at') && Tied(c', at') && Heads(c', off, t[..])
  {
    hide Consistent, Tied, Inserted;
    assert t[..][d] == Head(c, off + d);
    c', at' := Link(t, null, t[d], x, d, |c[off + d]|, off, c, at);
  }

  /** `x` leaves chain `b`; `prev` is the element before it, if any. */
  method Unlink<K>(t: array<Element?<K>>, prev: Element?<K>, x: Element<K>, b: nat, ghost r: int, ghost c: Chains<K>,
                   ghost at: Places<K>)
    returns (ghost c': Chains<K>, ghost at': Places<K>)
    requires Consistent(c, at) && Tied(c, at) && Heads(c, 0, t[..]) && t.Length <= |c|
    requires b < t.Length && Here(c, at, b, r) && x == c[b][r]
    requires prev == if r + 1 == |c[b]| then null else c[b][r + 1]
    modifies t, BeforeOr(prev, x)`next
    ensures Taken(c, c', at, at', b, r) && x.next == old(x.next)
    ensures Consistent(c', at') && Tied(c', at') && Heads(c', 0, t[..])
  {
    hide Consistent, Taken;
    c', at' := Take(c, at, b, r);
    assert TiedAt(c, at, x);
    if prev == null {
      t[b] := x.next;
    } else {
      AtPlace(c, at, b, r + 1);
      prev.next := x.next;
    }
    forall e | e in at'
      ensures TiedAt(c', at', e)
    {
      TakenLink(c, c', at, at', b, r, e);
      assert old(TiedAt(c, at, e));
    }
    forall k | 0 <= k < t.Length
      ensures |c'| == |c| && t[..][k] == Head(c', k)
    {
      assert old(t[..][k]) == Head(c, k);
      TakenHead(c, c', at, at', b, r, k);
    }
  }

  /** `x` takes the place of `y` in chain `b`; `prev` is the element before it, if any. */
  method Substitute<K>(t: array<Element?<K>>, prev: Element?<K>, y: Element<K>, x: Element<K>, b: nat, ghost r: int,
                       ghost c: Chains<K>, ghost at: Places<K>)
    returns (ghost c': Chains<K>, ghost at': Places<K>)
    requires Consistent(c, at) && Tied(c, at) && Heads(c, 0, t[..]) && |c| == t.Length && x !in at
    requires b < t.Length && Here(c, at, b, r) && y == c[b][r]
    requires prev == if r + 1 == |c[b]| then null else c[b][r + 1]
    modifies t, BeforeOr(prev, x)`next, x`next, y`next
    ensures Replaced(c, c', at, at', b, r, x) && y.next == null
    ensures Consistent(c', at') && Tied(c', at') && Heads(c', 0, t[..])
  {
    hide Consistent, Replaced;
    c', at' := Replace(c, at, b, r, x);
    assert TiedAt(c, at, y);
    if prev == null {
      t[b] := x;
    } else {
      AtPlace(c, at, b, r + 1);
      prev.next := x;
    }
    x.next := y.next;
    y.next := null;
    forall e | e in at'
      ensures TiedAt(c', at', e)
    {
      ReplacedLink(c, c', at, at', b, r, x, e);
      if e != x {
        assert old(TiedAt(c, at, e));
      }
    }
    forall k | 0 <= k < t.Length
      ensures |c'| == |c| && t[..][k] == Head(c', k)
    {
      assert old(t[..][k]) == Head(c, k);
      ReplacedHead(c, c', at, at', b, r, x, k);
    }
  }

  lemma {:induction false} Fewer<T>(a: set<T>, b: set<T>)
    requires a <= b
    ensures |a| <= |b|
  {
    if a != {} {
      var x :| x in a;
      Fewer(a - {x}, b - {x});
    }
  }

  // ----- The traversal order -----

  /** `e` is met before `f`: buckets in turn, each from its head. */
  ghost predicate Before<K>(at: Places<K>, e: Element<K>, f: Element<K>)
    requires e in at && f in at
  {
    at[e].bucket < at[f].bucket || (at[e].bucket == at[f].bucket && at[e].rank > at[f].rank)
  }

  /** `r` is the first element of the buckets from `b` on, null when there is none. */
  ghost predicate FirstFrom<K>(at: Places<K>, b: int, r: Element?<K>) {
    && (r == null ==> forall e {:trigger at[e]} :: e in at ==> at[e].bucket < b)
    && (r != null ==>
          && r in at && at[r].bucket >= b
          && forall e {:trigger at[e]} :: e in at && e != r && at[e].bucket >= b ==> Before(at, r, e))
  }

  /** `r` is the element met right after `e`, null when `e` is the last one. */
  ghost predicate NextOf<K>(at: Places<K>, e: Element<K>, r: Element?<K>)
    requires e in at
  {
    && (r == null ==> forall f {:trigger at[f]} :: f in at ==> !Before(at, e, f))
    && (r != null ==>
          && r in at && Before(at, e, r)
          && forall f {:trigger at[f]} :: f in at && f != r && Before(at, e, f) ==> Before(at, r, f))
  }

  lemma FirstIsNext<K>(c: Chains<K>, at: Places<K>, e: Element<K>, r: Element?<K>)
    requires Consistent(c, at) && e in at && at[e].rank == 0 && FirstFrom(at, at[e].bucket + 1, r)
    ensures NextOf(at, e, r)
  {
    PlaceOf(c, at, e);
    forall f | f in at
      ensures Listed(c, at, f)
    {
      PlaceOf(c, at, f);
    }
  }

  /** An element leaving a bucket does not matter to those behind. */
  lemma FirstWithout<K>(c: Chains<K>, c': Chains<K>, at: Places<K>, at': Places<K>, b: int, k: int, r: Element?<K>)
    requires Consistent(c, at) && Consistent(c', at') && Taken(c, c', at, at', b, k) && FirstFrom(at', b + 1, r)
    ensures FirstFrom(at, b + 1, r)
  {
    forall e | e in at && e != c[b][k]
      ensures e in at' && at'[e].bucket == at[e].bucket
    {
    }
  }

  // ----- Matching -----

  /** `e` is the first element of its chain, seen from the head, that matches `key`. */
  ghost predicate FirstMatch<K>(at: Places<K>, eq: (K, K) -> bool, key: K, e: Element<K>) {
    && e in at && eq(e.key, key)
    && forall f {:trigger at[f]} :: f in at && at[f].bucket == at[e].bucket && at[f].rank > at[e].rank ==> !eq(f.key, key)
  }

  ghost predicate Unmatched<K>(s: set<Element<K>>, eq: (K, K) -> bool, key: K) {
    forall e :: e in s ==> !eq(e.key, key)
  }

  class Table<K(!new)> {
    var table: array?<Element?<K>>
    var length: nat
    var count: nat
    var limit: nat
    var primeIdx: int
    ghost var chains: Chains<K>
    ghost var at: Places<K>
    const load: real
    const hashOf: K -> nat
    const eq: (K, K) -> bool

    constructor (load: real, hashOf: K -> nat, eq: (K, K) -> bool)
      requires forall x, y :: eq(x, y) ==> hashOf(x) == hashOf(y)
      ensures Valid() && at == map[] && count == 0
    {
      this.load, this.hashOf, this.eq := load, hashOf, eq;
      table, length, count, limit, primeIdx := null, 0, 0, 0, -1;
      chains, at := [], map[];
    }

    /** The chains are in order, whatever the counters say. */
    ghost predicate Linked()
      reads this, table, at.Keys
    {
      && Consistent(chains, at) && Tied(chains, at) && -1 <= primeIdx < |PRIMES|
      && if table == null then chains == [] else table.Length == length == |chains| && Heads(chains, 0, table[..])
    }

    /** Keys that match have the same hash. */
    ghost predicate Agreed() {
      forall x, y :: eq(x, y) ==> hashOf(x) == hashOf(y)
    }

    ghost predicate Hashed(s: set<Element<K>>) {
      forall e :: e in s ==> e.hash == hashOf(e.key)
    }

    /** Every element is in the bucket of its hash, and the counters are those of a table that has grown to `primeIdx`. */
    ghost predicate Placed()
      reads this
    {
      && count == |at.Keys| && Hashed(at.Keys)
      && if length == 0 then table == null && limit == 0 && primeIdx == -1
         else
           && table != null && 0 <= primeIdx < |PRIMES| && 0 < limit && length == PRIMES[primeIdx]
           && limit == Limit(load, length) && InPlace(at, 0, length, 0, length)
    }

    ghost predicate Valid()
      reads this, table, at.Keys
    {
      Linked() && Placed() && Agreed()
    }

    ghost predicate Needs(size: nat)
      reads this
    {
      primeIdx != |PRIMES| - 1 && limit <= size
    }

    /** The search for the new length stays inside the list of primes. */
    ghost predicate CanGrow(size: nat)
      reads this
    {
      Needs(size) ==> size < Limit(load, PRIMES[|PRIMES| - 1])
    }

    method NextPrime(size: nat) returns (idx: int, len: nat, lim: nat)
      requires -1 <= primeIdx < |PRIMES| - 1 && size < Limit(load, PRIMES[|PRIMES| - 1])
      ensures primeIdx < idx < |PRIMES| && len == PRIMES[idx] && lim == Limit(load, len) && size < lim
      ensures forall j :: primeIdx < j < idx ==> Limit(load, PRIMES[j]) <= size
    {
      hide Limit;
      idx := primeIdx + 1;
      len := PRIMES[idx];
      lim := Limit(load, len);
      while lim <= size && idx < |PRIMES|
        invariant primeIdx < idx < |PRIMES| && len == PRIMES[idx] && lim == Limit(load, len)
        invariant forall j :: primeIdx < j < idx ==> Limit(load, PRIMES[j]) <= size
        decreases |PRIMES| - idx
      {
        idx := idx + 1;
        len := PRIMES[idx];
        lim := Limit(load, len);
      }
    }

    /** The table takes over a finished array. */
    method Adopt(t: array<Element?<K>>, idx: nat, len: nat, lim: nat, ghost c: Chains<K>, ghost a: Places<K>)
      requires Hashed(at.Keys) && Agreed() && count == |at.Keys|
      requires Consistent(c, a) && Tied(c, a) && Heads(c, 0, t[..]) && t.Length == len == |c|
      requires idx < |PRIMES| && 0 < len == PRIMES[idx] && 0 < lim == Limit(load, len)
      requires a.Keys == at.Keys && InPlace(a, 0, len, 0, len)
      modifies this
      ensures Valid() && at == a && chains == c && count == old(count)
      ensures table == t && length == len && primeIdx == idx && limit == lim
    {
      hide Consistent, Tied, Heads, InPlace, Limit, Hashed, Agreed;
      table, length, primeIdx, limit, chains, at := t, len, idx, lim, c, a;
    }

    /** `room` says whether there is memory for a fresh table, `more` whether the old one can be extended. */
    method Grow(size: nat, room: bool, more: bool) returns (failed: bool)
      requires Valid() && CanGrow(size)
      modifies this, at.Keys`next
      ensures Valid() && at.Keys == old(at.Keys) && count == old(count)
      ensures failed <==> old(Needs(size)) && !room && !more
      ensures !old(Needs(size)) || failed ==> unchanged(this) && unchanged(old(at.Keys))
      ensures old(Needs(size)) && !failed ==> old(primeIdx) < primeIdx && size < limit && fresh(table)
      ensures old(Needs(size)) && !failed ==> forall j :: old(primeIdx) < j < primeIdx ==> Limit(load, PRIMES[j]) <= size
    {
      hide Consistent, Tied, Heads, InPlace, Limit, Hashed, Agreed;
      if primeIdx == |PRIMES| - 1 || limit > size {
        return false;
      }
      var idx, len, lim := NextPrime(size);
      PrimesIncrease(0, |PRIMES| - 1);
      var t: array<Element?<K>>;
      ghost var c, a;
      if room {
        t, c, a := Rehash(table, len, chains, at);
      } else if more {
        if table != null {
          PrimesIncrease(primeIdx, idx);
        }
        t, c, a := SplitAll(table, len, chains, at);
      } else {
        return true;
      }
      Adopt(t, idx, len, lim, c, a);
      failed := false;
    }

    // ----- Finding, adding and taking out -----

    ghost function Slots(): set<object>
      reads this
    {
      if table == null then {} else {table}
    }

    /** A table that is not over its limit keeps to its load. */
    lemma LoadKept()
      requires Valid() && load >= 0.0 && count <= limit
      ensures count as real <= load * length as real
    {
      if length > 0 {
        LimitIsGreatest(load, length, count);
      }
    }

    /** The place where `x` is, or would be: the element before it and the element itself, null at the end of the chain. */
    method FindPlace(x: Element<K>) returns (prev: Element?<K>, r: Element?<K>, ghost k: int)
      requires Valid() && table != null
      ensures var b := x.hash % length;
              -1 <= k < |chains[b]| && r == (if k < 0 then null else chains[b][k])
              && prev == (if k + 1 == |chains[b]| then null else chains[b][k + 1])
              && (k >= 0 ==> eq(chains[b][k].key, x.key))
              && forall q {:trigger chains[b][q]} :: k < q < |chains[b]| ==> !eq(chains[b][q].key, x.key)
    {
      hide Consistent, InPlace, Hashed, Agreed;
      var b := x.hash % length;
      prev := null;
      r := table[b];
      assert table[..][b] == Head(chains, b);
      k := |chains[b]| - 1;
      while r != null && !eq(r.key, x.key)
        invariant -1 <= k < |chains[b]| && r == (if k < 0 then null else chains[b][k])
        invariant prev == (if k + 1 == |chains[b]| then null else chains[b][k + 1])
        invariant forall q {:trigger chains[b][q]} :: k < q < |chains[b]| ==> !eq(chains[b][q].key, x.key)
        decreases k
      {
        AtPlace(chains, at, b, k);
        assert TiedAt(chains, at, r);
        prev := r;
        r := r.next;
        k := k - 1;
      }
    }

    /** An element that matches can only be in the chain of the hash. */
    lemma OnlyThere(x: Element<K>, e: Element<K>)
      requires Valid() && x.hash == hashOf(x.key) && e in at && eq(e.key, x.key)
      ensures table != null && at[e].bucket == x.hash % length && Listed(chains, at, e)
    {
      PlaceOf(chains, at, e);
    }

    method Find(x: Element<K>) returns (r: Element?<K>)
      requires Valid() && x.hash == hashOf(x.key)
      ensures r == null <==> Unmatched(at.Keys, eq, x.key)
      ensures r != null ==> FirstMatch(at, eq, x.key, r)
    {
      r := null;
      ghost var k := -1;
      if table != null {
        var prev;
        prev, r, k := FindPlace(x);
      }
      MatchAt(x, r, k);
    }

    /** What the place that has been found says about all elements. */
    lemma MatchAt(x: Element<K>, r: Element?<K>, k: int)
      requires Valid() && x.hash == hashOf(x.key) && (table == null ==> r == null)
      requires table != null ==>
        var b := x.hash % length;
        && -1 <= k < |chains[b]| && r == (if k < 0 then null else chains[b][k])
        && (k >= 0 ==> eq(chains[b][k].key, x.key))
        && forall q {:trigger chains[b][q]} :: k < q < |chains[b]| ==> !eq(chains[b][q].key, x.key)
      ensures r == null <==> Unmatched(at.Keys, eq, x.key)
      ensures r != null ==> FirstMatch(at, eq, x.key, r)
    {
      if r == null {
        forall e | e in at
          ensures !eq(e.key, x.key)
        {
          if eq(e.key, x.key) {
            OnlyThere(x, e);
          }
        }
      } else {
        var b := x.hash % length;
        AtPlace(chains, at, b, k);
        forall f | f in at && at[f].bucket == b && at[f].rank > k
          ensures !eq(f.key, x.key)
        {
          PlaceOf(chains, at, f);
        }
      }
    }

    /** Growth before an insertion. */
    method Ready(room: bool, more: bool)
      requires Valid() && (table == null || count >= limit ==> CanGrow(count + 1)) && (table == null ==> room || more)
      modifies this, at.Keys`next
      ensures Valid() && at.Keys == old(at.Keys) && count == old(count)
      ensures table != null && (table == old(table) || fresh(table))
      ensures count < limit <==> old(count < limit) || (old(primeIdx) != |PRIMES| - 1 && (room || more))
    {
      hide Consistent, Tied, Heads, Limit, Agreed, InPlace;
      if table == null || count >= limit {
        var failed := Grow(count + 1, room, more);
      }
    }

    method Insert(x: Element<K>, room: bool, more: bool)
      requires Valid() && x !in at && x.hash == hashOf(x.key)
      requires table == null || count >= limit ==> CanGrow(count + 1)
      requires table == null ==> room || more
      modifies this, Slots(), at.Keys`next, x`next
      ensures Valid() && at.Keys == old(at.Keys) + {x} && count == old(count) + 1
      ensures 0 < length && at[x] == Place(x.hash % length, |chains[x.hash % length]| - 1)
      ensures count <= limit <==> old(count < limit) || (old(primeIdx) != |PRIMES| - 1 && (room || more))
    {
      hide Consistent, Tied, Heads, Limit, Agreed, InPlace, Hashed, Inserted;
      Ready(room, more);
      ghost var c, a := LinkFirst(table, x, x.hash % length, 0, chains, at);
      PutIn(c, a, x, |chains[x.hash % length]|);
      Settle(c, a, count + 1);
    }

    /** The elements have been linked anew in the same array, and are counted. */
    method Settle(ghost c: Chains<K>, ghost a: Places<K>, n: nat)
      requires table != null && table.Length == length == |c| && Consistent(c, a) && Tied(c, a) && Heads(c, 0, table[..])
      requires 0 <= primeIdx < |PRIMES| && 0 < length == PRIMES[primeIdx] && 0 < limit == Limit(load, length)
      requires Agreed() && Hashed(a.Keys) && InPlace(a, 0, length, 0, length) && n == |a.Keys|
      modifies this`count, this`chains, this`at
      ensures Valid() && at == a && chains == c && count == n
    {
      hide Consistent, Tied, Heads, Limit, Agreed, InPlace, Hashed;
      chains, at, count := c, a, n;
    }

    lemma PutIn(c: Chains<K>, a: Places<K>, x: Element<K>, r: nat)
      requires 0 < length == |chains| && InPlace(at, 0, length, 0, length) && Consistent(chains, at)
      requires Inserted(chains, c, at, a, x, x.hash % length, r) && Hashed(at.Keys) && x.hash == hashOf(x.key)
      ensures |c| == length && InPlace(a, 0, length, 0, length) && |a.Keys| == |at.Keys| + 1 && Hashed(a.Keys)
      ensures a.Keys == at.Keys + {x} && a[x] == Place(x.hash % length, r)
      ensures |c[x.hash % length]| == |chains[x.hash % length]| + 1
    {
      assert x !in at.Keys;
      forall e | e in at
        ensures Listed(chains, at, e)
      {
        PlaceOf(chains, at, e);
      }
    }

    lemma TakeOut(c: Chains<K>, a: Places<K>, b: int, r: int)
      requires 0 < length && InPlace(at, 0, length, 0, length) && |chains| == length && Consistent(chains, at)
      requires Taken(chains, c, at, a, b, r) && Hashed(at.Keys)
      ensures |c| == length && InPlace(a, 0, length, 0, length) && |a.Keys| == |at.Keys| - 1 && Hashed(a.Keys)
      ensures a.Keys == at.Keys - {chains[b][r]}
    {
      forall e | e in at
        ensures Listed(chains, at, e)
      {
        PlaceOf(chains, at, e);
      }
    }

    /** The element `r` that `prev`, or the bucket itself, leads to leaves the table. */
    method Drop(prev: Element?<K>, r: Element<K>, b: nat, ghost k: int)
      requires Valid() && table != null && b < length && Here(chains, at, b, k) && r == chains[b][k]
      requires prev == if k + 1 == |chains[b]| then null else chains[b][k + 1]
      modifies this, table, at.Keys`next
      ensures Valid() && at.Keys == old(at.Keys) - {r} && count == old(count) - 1 && r.next == old(r.next)
      ensures table == old(table) && length == old(length)
      ensures Taken(old(chains), chains, old(at), at, b, k)
    {
      hide Consistent, Tied, Heads, Limit, Agreed, InPlace, Hashed, Taken;
      assert prev == null || prev in at by {
        if prev != null {
          AtPlace(chains, at, b, k + 1);
        }
      }
      ghost var c, a := Unlink(table, prev, r, b, k, chains, at);
      TakeOut(c, a, b, k);
      Settle(c, a, count - 1);
    }

    /** The first element that matches leaves the table and is returned, null when there is none. */
    method Remove(x: Element<K>) returns (r: Element?<K>)
      requires Valid() && x.hash == hashOf(x.key)
      modifies this, Slots(), at.Keys`next
      ensures Valid()
      ensures r == null ==> unchanged(this) && unchanged(Slots()) && unchanged(at.Keys)
                            && Unmatched(at.Keys, eq, x.key)
      ensures r != null ==> FirstMatch(old(at), eq, x.key, r) && r.next == null
                            && at.Keys == old(at.Keys) - {r} && count == old(count) - 1
    {
      hide Consistent, Tied, Heads, Limit, Agreed, InPlace, Hashed, Taken, FirstMatch, Unmatched;
      r := null;
      ghost var k := -1;
      var prev: Element?<K> := null;
      if table != null {
        prev, r, k := FindPlace(x);
      }
      MatchAt(x, r, k);
      if r != null {
        AtPlace(chains, at, x.hash % length, k);
        Drop(prev, r, x.hash % length, k);
        Cut(r);
      }
    }

    /** An element outside the table loses its link. */
    method Cut(r: Element<K>)
      requires Valid() && r !in at
      modifies r`next
      ensures Valid() && r.next == null
    {
      hide Consistent, Heads, Limit, Agreed, InPlace, Hashed;
      r.next := null;
      forall e | e in at
        ensures TiedAt(chains, at, e)
      {
        assert old(TiedAt(chains, at, e));
      }
    }

    /** An element takes the place of one that matches it, and that one is returned; without one it is added. */
    method Replace(x: Element<K>, room: bool, more: bool) returns (r: Element?<K>)
      requires Valid() && x !in at && x.hash == hashOf(x.key) && x.next == null
      requires table == null || count >= limit ==> CanGrow(count + 1)
      requires table == null ==> room || more
      modifies this, Slots(), at.Keys`next, x`next
      ensures Valid() && table != null && x in at && at[x].bucket == x.hash % length
      ensures r == null ==> at.Keys == old(at.Keys) + {x} && count == old(count) + 1
      ensures r == null ==> Unmatched(old(at.Keys), eq, x.key)
      ensures r != null ==> r in old(at.Keys) && eq(r.key, x.key) && r.next == null
      ensures r != null ==> at.Keys == old(at.Keys) - {r} + {x} && count == old(count)
    {
      hide Consistent, Tied, Heads, Limit, Agreed, InPlace, Hashed, Unmatched;
      Ready(room, more);
      var prev;
      ghost var k;
      prev, r, k := FindPlace(x);
      MatchAt(x, r, k);
      if r == null {
        AddLast(prev, x, x.hash % length);
      } else {
        AtPlace(chains, at, x.hash % length, k);
        PutFor(prev, r, x, x.hash % length, k);
      }
    }

    method AddLast(prev: Element?<K>, x: Element<K>, b: nat)
      requires Valid() && table != null && x !in at && x.hash == hashOf(x.key) && x.next == null && b == x.hash % length
      requires prev == if chains[b] == [] then null else chains[b][0]
      modifies this, table, at.Keys`next, x`next
      ensures Valid() && table == old(table) && length == old(length) && count == old(count) + 1
      ensures at.Keys == old(at.Keys) + {x} && at[x] == Place(b, 0)
    {
      hide Consistent, Tied, Heads, Limit, Agreed, InPlace, Hashed, Inserted;
      assert prev == null || prev in at by {
        if prev != null {
          AtPlace(chains, at, b, 0);
        }
      }
      ghost var c, a := LinkLast(table, prev, null, x, b, 0, 0, chains, at);
      PutIn(c, a, x, 0);
      Settle(c, a, count + 1);
    }

    method PutFor(prev: Element?<K>, r: Element<K>, x: Element<K>, b: nat, ghost k: int)
      requires Valid() && table != null && x !in at && x.hash == hashOf(x.key) && b == x.hash % length
      requires Here(chains, at, b, k) && r == chains[b][k]
      requires prev == if k + 1 == |chains[b]| then null else chains[b][k + 1]
      modifies this, table, at.Keys`next, x`next
      ensures Valid() && table == old(table) && length == old(length) && count == old(count)
      ensures at.Keys == old(at.Keys) - {r} + {x} && at[x] == Place(b, k) && r.next == null
    {
      hide Consistent, Tied, Heads, Limit, Agreed, InPlace, Hashed, TableModel.Replaced;
      assert prev == null || prev in at by {
        if prev != null {
          AtPlace(chains, at, b, k + 1);
        }
      }
      ghost var c, a := Substitute(table, prev, r, x, b, k, chains, at);
      PutOver(c, a, b, k, x);
      Settle(c, a, count);
    }

    lemma PutOver(c: Chains<K>, a: Places<K>, b: int, k: int, x: Element<K>)
      requires 0 < length == |chains| && InPlace(at, 0, length, 0, length) && Consistent(chains, at)
      requires TableModel.Replaced(chains, c, at, a, b, k, x) && Hashed(at.Keys) && x.hash == hashOf(x.key)
      requires b == x.hash % length
      ensures |c| == length && InPlace(a, 0, length, 0, length) && |a.Keys| == |at.Keys| && Hashed(a.Keys)
      ensures a.Keys == at.Keys - {chains[b][k]} + {x} && a[x] == Place(b, k) && chains[b][k] in at
    {
      var y := chains[b][k];
      assert |at.Keys - {y}| == |at.Keys| - 1;
      assert x !in at.Keys - {y};
      forall e | e in at
        ensures Listed(chains, at, e)
      {
        PlaceOf(chains, at, e);
      }
    }

    // ----- Walking over all elements -----

    /** The head of the first chain from number `from` on that is not empty. */
    method ScanFrom(from: nat) returns (r: Element?<K>)
      requires Linked() && (table == null ==> length == 0)
      ensures FirstFrom(at, from, r)
    {
      hide Consistent;
      var b := from;
      r := null;
      while b < length
        invariant from <= b && forall k :: from <= k < b && k < length ==> chains[k] == []
      {
        assert table[..][b] == Head(chains, b);
        if table[b] != null {
          r := table[b];
          HeadIsFirst(from, b);
          return;
        }
        b := b + 1;
      }
      forall e | e in at
        ensures at[e].bucket < from
      {
        PlaceOf(chains, at, e);
      }
    }

    lemma HeadIsFirst(from: nat, b: nat)
      requires Consistent(chains, at) && from <= b < |chains| && chains[b] != []
      requires forall k :: from <= k < b ==> chains[k] == []
      ensures FirstFrom(at, from, Head(chains, b))
    {
      AtPlace(chains, at, b, |chains[b]| - 1);
      forall e | e in at
        ensures Listed(chains, at, e)
      {
        PlaceOf(chains, at, e);
      }
    }

    lemma LinkIsNext(e: Element<K>)
      requires Linked() && e in at && e.next != null
      ensures NextOf(at, e, e.next)
    {
      assert TiedAt(chains, at, e);
      AtPlace(chains, at, at[e].bucket, at[e].rank - 1);
      forall f | f in at
        ensures Listed(chains, at, f)
      {
        PlaceOf(chains, at, f);
      }
    }

    lemma FirstOfAll(r: Element?<K>)
      requires Valid() && FirstFrom(at, 0, r)
      ensures forall e {:trigger at[e]} :: e in at ==> r != null && (e == r || Before(at, r, e))
      ensures r == null <==> count == 0
    {
      forall e | e in at
        ensures Listed(chains, at, e)
      {
        PlaceOf(chains, at, e);
      }
      if r == null {
        assert at.Keys == {};
      } else {
        assert r in at.Keys;
      }
    }

    /** The first element of the traversal, null in an empty table. */
    method Start() returns (r: Element?<K>)
      requires Valid()
      ensures r != null ==> r in at
      ensures forall e {:trigger at[e]} :: e in at ==> r != null && (e == r || Before(at, r, e))
      ensures r == null <==> count == 0
    {
      hide Consistent, Tied, Heads, Limit, Agreed, InPlace, Hashed;
      r := ScanFrom(0);
      FirstOfAll(r);
    }

    lemma HomeOf(e: Element<K>)
      requires Valid() && e in at
      ensures table != null && at[e].bucket == e.hash % length && Listed(chains, at, e)
      ensures e.next == null <==> at[e].rank == 0
    {
      PlaceOf(chains, at, e);
      assert TiedAt(chains, at, e);
    }

    method Next(e: Element<K>) returns (r: Element?<K>)
      requires Valid() && e in at
      ensures NextOf(at, e, r)
    {
      if e.next != null {
        LinkIsNext(e);
        return e.next;
      }
      HomeOf(e);
      r := ScanFrom(e.hash % length + 1);
      FirstIsNext(chains, at, e, r);
    }

    /** Removes `x`, reached from `prev` or from its bucket, and goes on to the element after it. */
    method NextRemove(prev: Element?<K>, x: Element<K>) returns (r: Element?<K>)
      requires Valid() && x in at
      requires Listed(chains, at, x)
      requires prev == var p := at[x]; if p.rank + 1 == |chains[p.bucket]| then null else chains[p.bucket][p.rank + 1]
      modifies this, Slots(), at.Keys`next
      ensures Valid() && at.Keys == old(at.Keys) - {x} && count == old(count) - 1
      ensures NextOf(old(at), x, r)
    {
      hide Consistent, Tied, Heads, Limit, Agreed, InPlace, Hashed, Taken, NextOf, FirstFrom;
      HomeOf(x);
      var b := x.hash % length;
      ghost var c0, at0 := chains, at;
      AtPlace(chains, at, b, at[x].rank);
      r := x.next;
      if r != null {
        LinkIsNext(x);
        Drop(prev, x, b, at[x].rank);
      } else {
        Drop(prev, x, b, 0);
        r := ScanFrom(b + 1);
        FirstWithout(c0, chains, at0, at, b, 0, r);
        FirstIsNext(c0, at0, x, r);
      }
    }

    /** `s` lists the elements of `seen` in the traversal order. */
    ghost predicate Met(s: seq<Element<K>>, seen: set<Element<K>>)
      reads this
    {
      && |seen| == |s| && seen <= at.Keys && (forall e :: e in seen ==> e in s)
      && (forall i :: 0 <= i < |s| ==> s[i] in seen)
      && forall i, j :: 0 <= i < j < |s| ==> s[i] in at && s[j] in at && Before(at, s[i], s[j])
    }

    lemma MoreMet(s: seq<Element<K>>, seen: set<Element<K>>, e: Element<K>)
      requires Met(s, seen) && e in at && forall f :: f in seen ==> Before(at, f, e)
      ensures Met(s + [e], seen + {e}) && |seen| < |at.Keys|
    {
      assert e !in seen;
      assert seen + {e} <= at.Keys;
      Fewer(seen + {e}, at.Keys);
    }

    /** The loop over all elements: each is met exactly once, in the traversal order. */
    method Walk() returns (s: seq<Element<K>>)
      requires Valid()
      ensures |s| == count && forall i :: 0 <= i < |s| ==> s[i] in at
      ensures forall i, j :: 0 <= i < j < |s| ==> Before(at, s[i], s[j])
      ensures forall e :: e in at ==> e in s
    {
      hide Consistent, Tied, Heads, Limit, Agreed, InPlace, Hashed;
      s := [];
      ghost var seen: set<Element<K>> := {};
      var e := Start();
      while e != null
        invariant e != null ==> e in at
        invariant Met(s, seen) && (forall f :: f in at && f !in seen ==> e != null && (f == e || Before(at, e, f)))
        invariant forall f :: f in seen ==> e == null || Before(at, f, e)
        decreases |at.Keys| - |seen|
      {
        MoreMet(s, seen, e);
        s, seen := s + [e], seen + {e};
        e := Next(e);
      }
      assert seen == at.Keys;
    }

    // ----- The debugging helper -----

    ghost predicate Good(e: Element<K>)
      requires 0 < length
      reads this
    {
      e.hash == hashOf(e.key) && e in at && at[e].bucket == e.hash % length
    }

    /** `seen` has the elements of the chains before number `i`, and those of chain `i` behind rank `k`. */
    ghost predicate Seen(seen: set<Element<K>>, i: int, k: int)
      reads this
    {
      && seen <= at.Keys
      && forall e {:trigger at[e]} {:trigger e in seen} :: e in at ==>
           (e in seen <==> at[e].bucket < i || (at[e].bucket == i && at[e].rank > k))
    }

    lemma SeenNone()
      requires Linked()
      ensures Seen({}, -1, -1)
    {
      forall e | e in at
        ensures Listed(chains, at, e)
      {
        PlaceOf(chains, at, e);
      }
    }

    lemma SeenChain(seen: set<Element<K>>, i: nat)
      requires Linked() && i < |chains| && Seen(seen, i - 1, -1)
      ensures Seen(seen, i, |chains[i]| - 1)
    {
      forall e | e in at
        ensures Listed(chains, at, e)
      {
        PlaceOf(chains, at, e);
      }
    }

    lemma SeenMore(seen: set<Element<K>>, i: nat, k: nat)
      requires Linked() && Seen(seen, i, k) && Here(chains, at, i, k)
      ensures Seen(seen + {chains[i][k]}, i, k - 1) && chains[i][k] !in seen
    {
      forall e | e in at
        ensures Listed(chains, at, e)
      {
        PlaceOf(chains, at, e);
      }
    }

    lemma SeenAll(seen: set<Element<K>>)
      requires Linked() && Seen(seen, |chains| - 1, -1)
      ensures seen == at.Keys
    {
      forall e | e in at
        ensures Listed(chains, at, e)
      {
        PlaceOf(chains, at, e);
      }
    }

    lemma NotGood(e: Element<K>)
      requires Linked() && 0 < length && e in at && !Good(e)
      ensures !Placed()
    {
      PlaceOf(chains, at, e);
      assert e in at.Keys;
    }

    lemma AllGood(seen: set<Element<K>>, n: nat)
      requires Linked() && 0 < length && table != null && seen == at.Keys && n == |seen|
      requires forall e :: e in seen ==> Good(e)
      requires 0 <= primeIdx && 0 < limit && length == PRIMES[primeIdx] && limit == Limit(load, length)
      ensures Placed() <==> n == count
    {
    }

    lemma NoChains()
      requires Linked() && length == 0
      ensures |at.Keys| == 0 && Hashed(at.Keys)
    {
      if at.Keys != {} {
        var e :| e in at.Keys;
        PlaceOf(chains, at, e);
      }
    }

    /** Zero exactly for a table whose fields agree and that is not over its limit. */
    method RepIsBad() returns (bad: nat)
      requires Linked()
      ensures bad == 0 <==> Placed() && count <= limit
      ensures Placed() && count > limit ==> bad == 3
    {
      hide Consistent, Tied, Heads, Limit, InPlace, Hashed, Good, Seen;
      if length == 0 {
        NoChains();
        return if table == null && count == 0 && limit == 0 && primeIdx == -1 then 0 else 1;
      }
      if table == null || primeIdx < 0 || limit == 0 {
        return 2;
      }
      if count > limit {
        return 3;
      }
      if length != PRIMES[primeIdx] {
        return 4;
      }
      if limit != Limit(load, length) {
        return 5;
      }
      var n: nat, i: nat := 0, 0;
      ghost var seen: set<Element<K>> := {};
      SeenNone();
      while i < length
        invariant i <= length && n == |seen| && Seen(seen, i - 1, -1) && forall e :: e in seen ==> Good(e)
      {
        bad, n, seen := CheckChain(i, n, seen);
        if bad != 0 {
          return;
        }
        i := i + 1;
      }
      SeenAll(seen);
      AllGood(seen, n);
      bad := if n != count then 6 else 0;
    }

    /** One round of the check: counts the elements of chain `i`, unless one of them is in the wrong place. */
    method CheckChain(i: nat, n0: nat, ghost seen0: set<Element<K>>)
      returns (bad: nat, n: nat, ghost seen: set<Element<K>>)
      requires Linked() && table != null && i < length
      requires n0 == |seen0| && Seen(seen0, i - 1, -1) && forall e :: e in seen0 ==> Good(e)
      ensures bad != 0 ==> bad != 3 && !Placed()
      ensures bad == 0 ==> n == |seen| && Seen(seen, i, -1) && forall e :: e in seen ==> Good(e)
    {
      hide Consistent, Limit, InPlace, Hashed, Seen;
      n, seen := n0, seen0;
      var elm := table[i];
      assert table[..][i] == Head(chains, i);
      ghost var k := |chains[i]| - 1;
      SeenChain(seen, i);
      while elm != null
        invariant -1 <= k < |chains[i]| && elm == if k < 0 then null else chains[i][k]
        invariant n == |seen| && Seen(seen, i, k) && forall e :: e in seen ==> Good(e)
        decreases k
      {
        AtPlace(chains, at, i, k);
        if elm.hash != hashOf(elm.key) {
          NotGood(elm);
          return 1000 + i, n, seen;
        }
        if elm.hash % length != i {
          NotGood(elm);
          return 10000 + i, n, seen;
        }
        SeenMore(seen, i, k);
        assert TiedAt(chains, at, elm);
        n, seen := n + 1, seen + {elm};
        elm := elm.next;
        k := k - 1;
      }
      bad := 0;
    }
  }
}
