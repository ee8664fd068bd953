/** Hash chains seen from outside the heap.  A chain is listed from its end to its head, so that an element keeps its
    index while others come in at the head. */
module TableModel {

  class Element<K> {
    var next: Element?<K>
    const key: K
    const hash: nat

    constructor (key: K, hash: nat)
      ensures this.key == key && this.hash == hash && next == null
    {
      this.key, this.hash, next := key, hash, null;
    }
  }

  type Chains<!K> = seq<seq<Element<K>>>

  datatype Place = Place(bucket: int, rank: int)

  type Places<!K> = map<Element<K>, Place>

  ghost predicate Listed<K>(c: Chains<K>, at: Places<K>, e: Element<K>) {
    && e in at && 0 <= at[e].bucket < |c| && 0 <= at[e].rank < |c[at[e].bucket]|
    && c[at[e].bucket][at[e].rank] == e
  }

  ghost predicate Here<K>(c: Chains<K>, at: Places<K>, b: int, r: int) {
    0 <= b < |c| && 0 <= r < |c[b]| && c[b][r] in at && at[c[b][r]] == Place(b, r)
  }

  /** The chains hold every element exactly once. */
  ghost predicate Consistent<K>(c: Chains<K>, at: Places<K>) {
    && (forall b, r {:trigger Here(c, at, b, r)} :: 0 <= b < |c| && 0 <= r < |c[b]| ==> Here(c, at, b, r))
    && (forall e {:trigger Listed(c, at, e)} :: e in at ==> Listed(c, at, e))
  }

  lemma AtPlace<K>(c: Chains<K>, at: Places<K>, b: int, r: int)
    requires Consistent(c, at) && 0 <= b < |c| && 0 <= r < |c[b]|
    ensures Here(c, at, b, r)
  {
  }

  lemma PlaceOf<K>(c: Chains<K>, at: Places<K>, e: Element<K>)
    requires Consistent(c, at) && e in at
    ensures Listed(c, at, e)
  {
  }

  /** The successor of an element in its chain. */
  ghost function After<K>(c: Chains<K>, p: Place): Element?<K>
    requires 0 <= p.bucket < |c| && 0 <= p.rank < |c[p.bucket]|
  {
    if p.rank == 0 then null else c[p.bucket][p.rank - 1]
  }

  ghost function Head<K>(c: Chains<K>, b: int): Element?<K>
    requires 0 <= b < |c|
  {
    if c[b] == [] then null else c[b][|c[b]| - 1]
  }

  // ----- Moving an element to the head of another chain -----

  ghost function Removed<T>(s: seq<T>, r: int): seq<T>
    requires 0 <= r < |s|
  {
    s[..r] + s[r + 1..]
  }

  /** The element at `b`, `r` has gone to the head of chain `d`. */
  ghost predicate Moved<K>(c: Chains<K>, c': Chains<K>, at: Places<K>, at': Places<K>, b: int, r: int, d: int) {
    && Here(c, at, b, r) && 0 <= d < |c| && b != d
    && c' == c[b := Removed(c[b], r)][d := c[d] + [c[b][r]]]
    && at'.Keys == at.Keys && at'[c[b][r]] == Place(d, |c[d]|)
    && (forall e {:trigger at'[e]} :: e in at && e != c[b][r] ==>
          at'[e] == if at[e].bucket == b && at[e].rank > r then Place(b, at[e].rank - 1) else at[e])
  }

  lemma Move<K>(c: Chains<K>, at: Places<K>, b: int, r: int, d: int) returns (c': Chains<K>, at': Places<K>)
    requires Here(c, at, b, r) && 0 <= d < |c| && b != d
    ensures Moved(c, c', at, at', b, r, d)
  {
    var x := c[b][r];
    c' := c[b := Removed(c[b], r)][d := c[d] + [x]];
    at' := map e | e in at :: if e == x then Place(d, |c[d]|)
                              else if at[e].bucket == b && at[e].rank > r then Place(b, at[e].rank - 1) else at[e];
  }

  lemma MoveKeeps<K>(c: Chains<K>, c': Chains<K>, at: Places<K>, at': Places<K>, b: int, r: int, d: int)
    requires Consistent(c, at) && Moved(c, c', at, at', b, r, d)
    ensures Consistent(c', at')
  {
    var x := c[b][r];
    forall k, q | 0 <= k < |c'| && 0 <= q < |c'[k]|
      ensures Here(c', at', k, q)
    {
      if k == b {
        assert Here(c, at, b, if q < r then q else q + 1);
      } else if k == d {
        assert q < |c[d]| ==> Here(c, at, d, q);
      } else {
        assert Here(c, at, k, q);
      }
    }
    forall e | e in at'
      ensures Listed(c', at', e)
    {
      assert Listed(c, at, e);
    }
  }

  lemma MovedShape<K>(c: Chains<K>, c': Chains<K>, at: Places<K>, at': Places<K>, b: int, r: int, d: int)
    requires Moved(c, c', at, at', b, r, d)
    ensures |c'| == |c| && at'.Keys == at.Keys && |c'[b]| == |c[b]| - 1
    ensures forall q {:trigger c'[b][q]} :: 0 <= q < |c'[b]| ==> c'[b][q] == c[b][if q < r then q else q + 1]
  {
  }

  /** The links after a move: only those of the moved element and of the one before it differ, and two heads. */
  lemma MovedLink<K>(c: Chains<K>, c': Chains<K>, at: Places<K>, at': Places<K>, b: int, r: int, d: int, e: Element<K>)
    requires Consistent(c, at) && Consistent(c', at') && Moved(c, c', at, at', b, r, d) && e in at
    ensures Listed(c, at, e) && Listed(c', at', e)
    ensures After(c', at'[e]) == if e == c[b][r] then Head(c, d)
                                 else if at[e] == Place(b, r + 1) then After(c, Place(b, r)) else After(c, at[e])
  {
    assert Listed(c, at, e) && Listed(c', at', e);
  }

  lemma MovedHead<K>(c: Chains<K>, c': Chains<K>, at: Places<K>, at': Places<K>, b: int, r: int, d: int, k: int)
    requires Moved(c, c', at, at', b, r, d) && 0 <= k < |c|
    ensures |c'| == |c|
    ensures Head(c', k) == if k == d then c[b][r]
                           else if k == b && r + 1 == |c[b]| then After(c, Place(b, r)) else Head(c, k)
  {
  }

  // ----- Adding and taking out -----

  /** `x` has come into chain `d` at rank `r`. */
  ghost predicate Inserted<K>(c: Chains<K>, c': Chains<K>, at: Places<K>, at': Places<K>, x: Element<K>, d: int, r: int) {
    && x !in at && 0 <= d < |c| && 0 <= r <= |c[d]| && c' == c[d := c[d][..r] + [x] + c[d][r..]]
    && at'.Keys == at.Keys + {x} && at'[x] == Place(d, r)
    && (forall e {:trigger at'[e]} :: e in at ==>
          at'[e] == if at[e].bucket == d && at[e].rank >= r then Place(d, at[e].rank + 1) else at[e])
  }

  lemma Insert<K>(c: Chains<K>, at: Places<K>, x: Element<K>, d: int, r: int) returns (c': Chains<K>, at': Places<K>)
    requires Consistent(c, at) && x !in at && 0 <= d < |c| && 0 <= r <= |c[d]|
    ensures Inserted(c, c', at, at', x, d, r) && Consistent(c', at')
  {
    c' := c[d := c[d][..r] + [x] + c[d][r..]];
    at' := map e | e in at.Keys + {x} ::
      if e == x then Place(d, r) else if at[e].bucket == d && at[e].rank >= r then Place(d, at[e].rank + 1) else at[e];
    forall k, q | 0 <= k < |c'| && 0 <= q < |c'[k]|
      ensures Here(c', at', k, q)
    {
      if k != d || q != r {
        AtPlace(c, at, k, if k == d && q > r then q - 1 else q);
      }
    }
    forall e | e in at'
      ensures Listed(c', at', e)
    {
      if e != x {
        PlaceOf(c, at, e);
      }
    }
  }

  lemma InsertedLink<K>(c: Chains<K>, c': Chains<K>, at: Places<K>, at': Places<K>, x: Element<K>, d: int, r: int,
                        e: Element<K>)
    requires Consistent(c, at) && Consistent(c', at') && Inserted(c, c', at, at', x, d, r) && e in at'
    ensures Listed(c', at', e) && (e != x ==> Listed(c, at, e))
    ensures After(c', at'[e]) == if e == x then (if r == 0 then null else c[d][r - 1])
                                 else if at[e] == Place(d, r) then x else After(c, at[e])
  {
    assert Listed(c', at', e);
    if e != x {
      PlaceOf(c, at, e);
    }
  }

  lemma InsertedHead<K>(c: Chains<K>, c': Chains<K>, at: Places<K>, at': Places<K>, x: Element<K>, d: int, r: int, k: int)
    requires Inserted(c, c', at, at', x, d, r) && 0 <= k < |c|
    ensures |c'| == |c|
    ensures Head(c', k) == if k == d && r == |c[d]| then x else Head(c, k)
  {
  }

  ghost predicate Taken<K>(c: Chains<K>, c': Chains<K>, at: Places<K>, at': Places<K>, b: int, r: int) {
    && Here(c, at, b, r) && c' == c[b := Removed(c[b], r)] && at'.Keys == at.Keys - {c[b][r]}
    && (forall e {:trigger at'[e]} :: e in at' ==>
          at'[e] == if at[e].bucket == b && at[e].rank > r then Place(b, at[e].rank - 1) else at[e])
  }

  lemma Take<K>(c: Chains<K>, at: Places<K>, b: int, r: int) returns (c': Chains<K>, at': Places<K>)
    requires Consistent(c, at) && Here(c, at, b, r)
    ensures Taken(c, c', at, at', b, r) && Consistent(c', at')
  {
    var x := c[b][r];
    c' := c[b := Removed(c[b], r)];
    at' := map e | e in at.Keys - {x} :: if at[e].bucket == b && at[e].rank > r then Place(b, at[e].rank - 1) else at[e];
    forall k, q | 0 <= k < |c'| && 0 <= q < |c'[k]|
      ensures Here(c', at', k, q)
    {
      assert Here(c, at, k, if k == b && q >= r then q + 1 else q);
    }
    forall e | e in at'
      ensures Listed(c', at', e)
    {
      assert Listed(c, at, e);
    }
  }

  lemma TakenLink<K>(c: Chains<K>, c': Chains<K>, at: Places<K>, at': Places<K>, b: int, r: int, e: Element<K>)
    requires Consistent(c, at) && Consistent(c', at') && Taken(c, c', at, at', b, r) && e in at'
    ensures Listed(c, at, e) && Listed(c', at', e)
    ensures After(c', at'[e]) == if at[e] == Place(b, r + 1) then After(c, Place(b, r)) else After(c, at[e])
  {
    assert Listed(c, at, e) && Listed(c', at', e);
  }

  lemma TakenHead<K>(c: Chains<K>, c': Chains<K>, at: Places<K>, at': Places<K>, b: int, r: int, k: int)
    requires Taken(c, c', at, at', b, r) && 0 <= k < |c|
    ensures |c'| == |c|
    ensures Head(c', k) == if k == b && r + 1 == |c[b]| then After(c, Place(b, r)) else Head(c, k)
  {
  }

  // ----- Taking the place of an element -----

  ghost predicate Replaced<K>(c: Chains<K>, c': Chains<K>, at: Places<K>, at': Places<K>, b: int, r: int, x: Element<K>) {
    && Here(c, at, b, r) && x !in at && c' == c[b := c[b][r := x]]
    && at'.Keys == at.Keys - {c[b][r]} + {x} && at'[x] == Place(b, r)
    && (forall e {:trigger at'[e]} :: e in at' && e != x ==> at'[e] == at[e])
  }

  lemma Replace<K>(c: Chains<K>, at: Places<K>, b: int, r: int, x: Element<K>) returns (c': Chains<K>, at': Places<K>)
    requires Consistent(c, at) && Here(c, at, b, r) && x !in at
    ensures Replaced(c, c', at, at', b, r, x) && Consistent(c', at')
  {
    c' := c[b := c[b][r := x]];
    at' := map e | e in at.Keys - {c[b][r]} + {x} :: if e == x then Place(b, r) else at[e];
    forall k, q | 0 <= k < |c'| && 0 <= q < |c'[k]|
      ensures Here(c', at', k, q)
    {
      AtPlace(c, at, k, q);
    }
    forall e | e in at'
      ensures Listed(c', at', e)
    {
      if e != x {
        PlaceOf(c, at, e);
      }
    }
  }

  lemma ReplacedLink<K>(c: Chains<K>, c': Chains<K>, at: Places<K>, at': Places<K>, b: int, r: int, x: Element<K>,
                        e: Element<K>)
    requires Consistent(c, at) && Consistent(c', at') && Replaced(c, c', at, at', b, r, x) && e in at'
    ensures Listed(c', at', e) && (e != x ==> Listed(c, at, e))
    ensures After(c', at'[e]) == if e == x then After(c, Place(b, r))
                                 else if at[e] == Place(b, r + 1) then x else After(c, at[e])
  {
    assert Listed(c', at', e);
    if e != x {
      PlaceOf(c, at, e);
    }
  }

  lemma ReplacedHead<K>(c: Chains<K>, c': Chains<K>, at: Places<K>, at': Places<K>, b: int, r: int, x: Element<K>, k: int)
    requires Replaced(c, c', at, at', b, r, x) && 0 <= k < |c|
    ensures |c'| == |c|
    ensures Head(c', k) == if k == b && r + 1 == |c[b]| then x else Head(c, k)
  {
  }
}
