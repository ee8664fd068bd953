/** The chained hash table that allows equal keys and keeps them next to each other.  A sentinel stands in a slot of its
    own behind the buckets and ends every walk. */
module MultiTable {
  import opened TableModel
  import opened HashTable

  const SIZES: seq<nat> := [
    11, 19, 37, 67, 131, 283, 521, 1033, 2053, 4099, 8219, 16427, 32771, 65581, 131101, 262147, 524309, 1048583, 2097169,
    4194319, 8388617, 16777259, 33554467, 67108879, 134217757, 268435459, 536870923, 1073741909
  ]

  /** The number of buckets for `n` entries: the first of the sizes that is large enough, or the last one. */
  /** The least size that is enough for `n`, or the last one. */
  ghost predicate IsNextSize(r: nat, n: nat) {
    && r in SIZES && (n <= r || r == SIZES[|SIZES| - 1])
    && forall s :: s in SIZES && n <= s ==> r <= s
  }

  lemma EnoughFor(r: nat, n: nat)
    requires IsNextSize(r, n)
    ensures n <= r || r == SIZES[|SIZES| - 1]
  {
  }

  method NextSize(n: nat) returns (r: nat)
    ensures IsNextSize(r, n) && 2 < r
  {
    SizesIncrease();
    var i := 0;
    while i < |SIZES|
      invariant 0 <= i <= |SIZES| && forall j :: 0 <= j < i ==> SIZES[j] < n
    {
      if SIZES[i] >= n {
        return SIZES[i];
      }
      i := i + 1;
    }
    r := SIZES[|SIZES| - 1];
  }

  lemma SizesIncrease()
    ensures forall i, j :: 0 <= i < j < |SIZES| ==> 2 < SIZES[i] < SIZES[j]
  {
    forall i, j | 0 <= i < j < |SIZES|
      ensures 2 < SIZES[i] < SIZES[j]
    {
      SizesIncreaseTo(i, j);
    }
  }

  lemma SizesIncreaseTo(i: nat, j: nat)
    requires i < j < |SIZES|
    ensures 2 < SIZES[i] < SIZES[j]
  {
    if i + 1 < j {
      SizesIncreaseTo(i, j - 1);
    }
  }

  // ----- Keys -----

  ghost predicate Triple<K>(same: (K, K) -> bool, x: K, y: K, z: K) {
    same(x, y) && same(y, z) ==> same(x, z)
  }

  /** Comparing as equal is an equivalence, and equal keys have the same hash. */
  ghost predicate Fair<K(!new)>(same: (K, K) -> bool, hashOf: K -> nat) {
    && (forall x :: same(x, x)) && (forall x, y :: same(x, y) ==> same(y, x) && hashOf(x) == hashOf(y))
    && (forall x, y, z {:trigger Triple(same, x, y, z)} :: Triple(same, x, y, z))
  }

  // ----- Equal keys stand together -----

  ghost predicate GroupAt<K>(c: Chains<K>, same: (K, K) -> bool, b: int, i: int, j: int, k: int)
    requires 0 <= b < |c| && 0 <= i <= j <= k < |c[b]|
  {
    same(c[b][i].key, c[b][k].key) ==> same(c[b][i].key, c[b][j].key)
  }

  /** What stands between two elements with equal keys has that key too. */
  ghost predicate Grouped<K>(c: Chains<K>, from: int, to: int, same: (K, K) -> bool) {
    forall b, i, j, k {:trigger GroupAt(c, same, b, i, j, k)} ::
      0 <= from <= b < to <= |c| && 0 <= i <= j <= k < |c[b]| ==> GroupAt(c, same, b, i, j, k)
  }

  lemma TakenGrouped<K>(c: Chains<K>, c': Chains<K>, at: Places<K>, at': Places<K>, b: int, r: int, from: int, to: int,
                        same: (K, K) -> bool)
    requires Taken(c, c', at, at', b, r) && 0 <= from <= to <= |c| && Grouped(c, from, to, same)
    ensures Grouped(c', from, to, same)
  {
    forall d, i, j, k | from <= d < to && 0 <= i <= j <= k < |c'[d]|
      ensures GroupAt(c', same, d, i, j, k)
    {
      assert GroupAt(c, same, d, Behind(d == b, i, r), Behind(d == b, j, r), Behind(d == b, k, r));
    }
  }

  function Behind(here: bool, i: int, r: int): int {
    if here && i >= r then i + 1 else i
  }

  /** The rank at which an element with key `key` may come in. */
  ghost predicate Spot<K>(s: seq<Element<K>>, same: (K, K) -> bool, key: K, r: int) {
    && 0 <= r <= |s| && (forall q :: r <= q < |s| ==> !same(key, s[q].key))
    && (r < |s| ==> r > 0) && (r > 0 && r < |s| ==> same(key, s[r - 1].key))
    && (r == |s| && r > 0 && !same(key, s[r - 1].key) ==> forall q :: 0 <= q < |s| ==> !same(key, s[q].key))
  }

  lemma InsertedGrouped<K(!new)>(c: Chains<K>, c': Chains<K>, at: Places<K>, at': Places<K>, x: Element<K>, d: int, r: int,
                                 from: int, to: int, same: (K, K) -> bool, hashOf: K -> nat)
    requires Inserted(c, c', at, at', x, d, r) && 0 <= from <= to <= |c| && Grouped(c, from, to, same)
    requires Fair(same, hashOf) && Spot(c[d], same, x.key, r)
    ensures Grouped(c', from, to, same)
  {
    forall b, i, j, k | from <= b < to && 0 <= i <= j <= k < |c'[b]|
      ensures GroupAt(c', same, b, i, j, k)
    {
      if b != d {
        assert GroupAt(c, same, b, i, j, k);
      } else {
        GroupedAround(c, c', x, d, r, i, j, k, from, to, same, hashOf);
      }
    }
  }

  lemma GroupedAround<K(!new)>(c: Chains<K>, c': Chains<K>, x: Element<K>, d: int, r: int, i: int, j: int, k: int, from: int,
                               to: int, same: (K, K) -> bool, hashOf: K -> nat)
    requires 0 <= d < |c| == |c'| && 0 <= r <= |c[d]| && c'[d] == c[d][..r] + [x] + c[d][r..]
    requires 0 <= from <= d < to <= |c| && Grouped(c, from, to, same)
    requires Fair(same, hashOf) && Spot(c[d], same, x.key, r) && 0 <= i <= j <= k < |c'[d]|
    ensures GroupAt(c', same, d, i, j, k)
  {
    var s, t := c[d], c'[d];
    assert k > r ==> t[k] == s[k - 1];
    if same(t[i].key, t[k].key) && i < j < k {
      var i', j', k' := if i > r then i - 1 else i, if j > r then j - 1 else j, if k > r then k - 1 else k;
      if k == r {
        assert same(x.key, t[i].key) && t[i] == s[i];
        assert r > 0 && same(x.key, s[r - 1].key);
        assert Triple(same, t[i].key, x.key, s[r - 1].key);
        assert GroupAt(c, same, d, i, j, r - 1);
      } else if j == r {
        assert t[i] == s[i] && t[k] == s[k - 1] && r < |s|;
        assert GroupAt(c, same, d, i, r - 1, k - 1);
        assert Triple(same, t[i].key, s[r - 1].key, x.key);
      } else if i != r {
        assert GroupAt(c, same, d, i', j', k');
      }
    }
  }

  /** Finds the place for `x` in chain `off + d`, next to an equal key or else at the head, and links it in. */
  method Settle<K(!new)>(t: array<Element?<K>>, x: Element<K>, d: nat, same: (K, K) -> bool, ghost hashOf: K -> nat,
                         ghost off: nat, ghost c: Chains<K>, ghost at: Places<K>)
    returns (ghost c': Chains<K>, ghost at': Places<K>, ghost r: nat)
    requires Consistent(c, at) && Tied(c, at) && Heads(c, off, t[..]) && x !in at && d < t.Length && Fair(same, hashOf)
    modifies t, x`next, at.Keys`next
    ensures off + d < |c| && r <= |c[off + d]| && Spot(c[off + d], same, x.key, r)
    ensures Inserted(c, c', at, at', x, off + d, r)
    ensures Consistent(c', at') && Tied(c', at') && Heads(c', off, t[..])
  {
    hide Consistent, Inserted, Fair;
    ghost var s := c[off + d];
    var pos := t[d];
    var prev: Element?<K> := null;
    assert t[..][d] == Head(c, off + d);
    ghost var k := |s| - 1;
    while pos != null
      invariant -1 <= k < |s| && pos == (if k < 0 then null else s[k]) && prev == if k + 1 == |s| then null else s[k + 1]
      invariant forall q {:trigger s[q]} :: k < q < |s| ==> !same(x.key, s[q].key)
      invariant Tied(c, at) && Heads(c, off, t[..])
      decreases k
    {
      AtPlace(c, at, off + d, k);
      if same(x.key, pos.key) {
        assert prev == null || prev in at by {
          if prev != null {
            AtPlace(c, at, off + d, k + 1);
          }
        }
        r := k + 1;
        c', at' := Link(t, prev, pos, x, d, r, off, c, at);
        return;
      }
      assert TiedAt(c, at, pos);
      prev := pos;
      pos := pos.next;
      k := k - 1;
    }
    r := |s|;
    c', at' := LinkFirst(t, x, d, off, c, at);
  }

  // ----- Rehashing -----

  /** What the bucket pointers of the elements say: old buckets count from 0, new ones from `off`. */
  ghost predicate Knows<K>(bucketOf: map<Element<K>, nat>, at: Places<K>, last: Element<K>, off: nat) {
    forall e {:trigger at[e]} :: e in at && e != last ==>
      e in bucketOf && bucketOf[e] == if at[e].bucket < off then at[e].bucket else at[e].bucket - off
  }

  /** The state in the middle of a rehash: buckets up to `off` are old, the last of them holds the sentinel. */
  ghost predicate Moving<K>(c: Chains<K>, at: Places<K>, last: Element<K>, off: nat, len: nat, same: (K, K) -> bool,
                            bucketOf: map<Element<K>, nat>)
  {
    && 1 < off && 0 < len && |c| == off + len + 1 && c[off - 1] == [last] && c[off + len] == [] && Consistent(c, at)
    && InPlace(at, off, off + len, off, len) && Grouped(c, off, off + len, same) && Knows(bucketOf, at, last, off)
  }

  lemma MoveOne<K(!new)>(c: Chains<K>, c1: Chains<K>, c': Chains<K>, at: Places<K>, at1: Places<K>, at': Places<K>,
                         last: Element<K>, off: nat, len: nat, same: (K, K) -> bool, hashOf: K -> nat,
                         bucketOf: map<Element<K>, nat>, x: Element<K>, b: nat, r: nat)
    requires Moving(c, at, last, off, len, same, bucketOf) && Fair(same, hashOf) && b < off - 1
    requires c[b] != [] && x == c[b][|c[b]| - 1] && Taken(c, c1, at, at1, b, |c[b]| - 1) && Consistent(c1, at1)
    requires var d := off + x.hash % len; r <= |c1[d]| && Inserted(c1, c', at1, at', x, d, r) && Spot(c1[d], same, x.key, r)
    requires Consistent(c', at')
    ensures Moving(c', at', last, off, len, same, bucketOf[x := x.hash % len]) && at'.Keys == at.Keys
    ensures |c'[b]| == |c[b]| - 1 && c'[b] == c[b][..|c[b]| - 1]
    ensures forall k :: 0 <= k < off && k != b ==> c'[k] == c[k]
  {
    var d := off + x.hash % len;
    TakenGrouped(c, c1, at, at1, b, |c[b]| - 1, off, off + len, same);
    InsertedGrouped(c1, c', at1, at', x, d, r, off, off + len, same, hashOf);
    forall e | e in at
      ensures Listed(c, at, e)
    {
      PlaceOf(c, at, e);
    }
    AtPlace(c, at, off - 1, 0);
    assert c1[d] == c[d];
  }

  /** The first slot from number `from` on that is not empty. */
  method Scan<K>(t: array<Element?<K>>, from: nat, ghost c: Chains<K>)
    returns (r: Element<K>, b: nat)
    requires Heads(c, 0, t[..]) && from < t.Length && c[t.Length - 1] != []
    ensures from <= b < t.Length <= |c| && c[b] != [] && r == c[b][|c[b]| - 1]
    ensures forall k :: from <= k < b ==> c[k] == []
  {
    b := from;
    while t[b] == null
      invariant from <= b < t.Length && forall k :: from <= k < b ==> c[k] == []
      decreases t.Length - b
    {
      assert t[..][b] == Head(c, b);
      assert t[..][t.Length - 1] == Head(c, t.Length - 1);
      b := b + 1;
    }
    assert t[..][b] == Head(c, b);
    r := t[b];
  }

  lemma MovingEnd<K>(c: Chains<K>, at: Places<K>, last: Element<K>, off: nat, len: nat, same: (K, K) -> bool,
                     bucketOf: map<Element<K>, nat>, b: nat)
    requires Moving(c, at, last, off, len, same, bucketOf) && b < off && c[b] != []
    ensures (c[b][|c[b]| - 1] == last <==> b == off - 1) && |c| == off + len + 1
  {
    AtPlace(c, at, b, |c[b]| - 1);
    AtPlace(c, at, off - 1, 0);
  }

  /** One element goes from the front of the old table to its place in the new one; `tmp` is the next to go. */
  method RehashOne<K(!new)>(src: array<Element?<K>>, dst: array<Element?<K>>, x: Element<K>, len: nat,
                            bucketOf: map<Element<K>, nat>, ghost last: Element<K>, same: (K, K) -> bool,
                            ghost hashOf: K -> nat, ghost b: nat, ghost c: Chains<K>, ghost at: Places<K>)
    returns (tmp: Element<K>, bucketOf': map<Element<K>, nat>, ghost b': nat, ghost c': Chains<K>, ghost at': Places<K>)
    requires dst.Length == len + 1 && Moving(c, at, last, src.Length, len, same, bucketOf) && Fair(same, hashOf)
    requires Tied(c, at) && Heads(c, 0, src[..]) && Heads(c, src.Length, dst[..]) && src != dst
    requires b < src.Length - 1 && c[b] != [] && x == c[b][|c[b]| - 1]
    modifies src, dst, at.Keys`next
    ensures Moving(c', at', last, src.Length, len, same, bucketOf') && at'.Keys == at.Keys
    ensures Tied(c', at') && Heads(c', 0, src[..]) && Heads(c', src.Length, dst[..])
    ensures b <= b' < src.Length && c'[b'] != [] && tmp == c'[b'][|c'[b']| - 1]
    ensures (forall k :: b <= k < b' ==> c'[k] == []) && forall k :: 0 <= k < b ==> c'[k] == c[k]
    ensures b' == b ==> |c'[b]| < |c[b]|
  {
    hide Consistent, Taken, Inserted, InPlace, Grouped, Fair, Moving, Tied, Heads;
    tmp, b' := Follow(src, x, len, bucketOf, last, same, b, c, at);
    ghost var c1, at1;
    MovingParts(c, at, last, src.Length, len, same, bucketOf, b);
    c1, at1 := Unlink(src, null, x, bucketOf[x], |c[b]| - 1, c, at);
    StillHeads(c, c1, at, at1, b, |c[b]| - 1, src.Length, dst[..]);
    Cut(x, c1, at1);
    ghost var r;
    c', at', r := Settle(dst, x, x.hash % len, same, hashOf, src.Length, c1, at1);
    OldHeads(c1, c', at1, at', x, src.Length + x.hash % len, r, src[..]);
    bucketOf' := bucketOf[x := x.hash % len];
    MoveOne(c, c1, c', at, at1, at', last, src.Length, len, same, hashOf, bucketOf, x, b, r);
  }

  /** The element after `x` among those that have not moved yet. */
  method Follow<K>(t: array<Element?<K>>, x: Element<K>, ghost len: nat, bucketOf: map<Element<K>, nat>,
                   ghost last: Element<K>, ghost same: (K, K) -> bool, ghost b: nat, ghost c: Chains<K>, ghost at: Places<K>)
    returns (tmp: Element<K>, ghost b': nat)
    requires Moving(c, at, last, t.Length, len, same, bucketOf) && Tied(c, at) && Heads(c, 0, t[..])
    requires b < t.Length - 1 && c[b] != [] && x == c[b][|c[b]| - 1]
    ensures b <= b' < t.Length && (b' == b <==> |c[b]| > 1) && x in bucketOf && bucketOf[x] == b
    ensures c[b'] != [] && tmp == (if b' == b then c[b][|c[b]| - 2] else c[b'][|c[b']| - 1])
    ensures forall k :: b < k < b' ==> c[k] == []
  {
    AtPlace(c, at, b, |c[b]| - 1);
    AtPlace(c, at, t.Length - 1, 0);
    assert TiedAt(c, at, x);
    if x.next != null {
      tmp, b' := x.next, b;
    } else {
      var s;
      tmp, s := Scan(t, bucketOf[x] + 1, c);
      b' := s;
    }
  }

  lemma MovingParts<K>(c: Chains<K>, at: Places<K>, last: Element<K>, off: nat, len: nat, same: (K, K) -> bool,
                       bucketOf: map<Element<K>, nat>, b: nat)
    requires Moving(c, at, last, off, len, same, bucketOf) && b < off && c[b] != []
    ensures 1 < off && 0 < len && |c| == off + len + 1 && Consistent(c, at) && Here(c, at, b, |c[b]| - 1)
  {
    AtPlace(c, at, b, |c[b]| - 1);
  }

  lemma StillHeads<K>(c: Chains<K>, c': Chains<K>, at: Places<K>, at': Places<K>, b: nat, r: int, off: nat,
                      t: seq<Element?<K>>)
    requires Taken(c, c', at, at', b, r) && b < off && Heads(c, off, t)
    ensures Heads(c', off, t) && at'.Keys == at.Keys - {c[b][r]}
  {
    forall k | 0 <= k < |t|
      ensures t[k] == Head(c', off + k)
    {
      TakenHead(c, c', at, at', b, r, off + k);
    }
  }

  lemma OldHeads<K>(c: Chains<K>, c': Chains<K>, at: Places<K>, at': Places<K>, x: Element<K>, d: nat, r: int,
                    t: seq<Element?<K>>)
    requires Inserted(c, c', at, at', x, d, r) && |t| <= d && Heads(c, 0, t)
    ensures Heads(c', 0, t)
  {
    forall k | 0 <= k < |t|
      ensures t[k] == Head(c', k)
    {
      InsertedHead(c, c', at, at', x, d, r, k);
    }
  }

  /** An element outside the chains loses its link. */
  method Cut<K>(x: Element<K>, ghost c: Chains<K>, ghost at: Places<K>)
    requires Tied(c, at) && x !in at
    modifies x`next
    ensures Tied(c, at) && x.next == null
  {
    x.next := null;
    forall e | e in at
      ensures TiedAt(c, at, e)
    {
      assert old(TiedAt(c, at, e));
    }
  }

  /** All elements go; the sentinel stays. */
  method MoveAll<K(!new)>(src: array<Element?<K>>, dst: array<Element?<K>>, first: Element<K>, len: nat,
                          bucketOf: map<Element<K>, nat>, last: Element<K>, same: (K, K) -> bool, ghost hashOf: K -> nat,
                          ghost b0: nat, ghost c0: Chains<K>, ghost at0: Places<K>)
    returns (known: map<Element<K>, nat>, ghost c: Chains<K>, ghost at: Places<K>)
    requires dst.Length == len + 1 && Moving(c0, at0, last, src.Length, len, same, bucketOf) && Fair(same, hashOf)
    requires Tied(c0, at0) && Heads(c0, 0, src[..]) && Heads(c0, src.Length, dst[..]) && src != dst
    requires b0 < src.Length && c0[b0] != [] && first == c0[b0][|c0[b0]| - 1] && forall k :: 0 <= k < b0 ==> c0[k] == []
    modifies src, dst, at0.Keys`next
    ensures Moving(c, at, last, src.Length, len, same, known) && at.Keys == at0.Keys
    ensures Tied(c, at) && Heads(c, src.Length, dst[..]) && forall k :: 0 <= k < src.Length - 1 ==> c[k] == []
  {
    hide Consistent, Tied, Heads, Moving, Fair;
    c, at, known := c0, at0, bucketOf;
    var node := first;
    ghost var b := b0;
    MovingEnd(c, at, last, src.Length, len, same, known, b);
    while node != last
      invariant Moving(c, at, last, src.Length, len, same, known) && Tied(c, at) && at.Keys == at0.Keys
      invariant Heads(c, 0, src[..]) && Heads(c, src.Length, dst[..])
      invariant b < src.Length <= |c| && c[b] != [] && node == c[b][|c[b]| - 1] && forall k :: 0 <= k < b ==> c[k] == []
      decreases src.Length - b, |c[b]|
    {
      MovingEnd(c, at, last, src.Length, len, same, known, b);
      node, known, b, c, at := RehashOne(src, dst, node, len, known, last, same, hashOf, b, c, at);
      MovingEnd(c, at, last, src.Length, len, same, known, b);
    }
    MovingEnd(c, at, last, src.Length, len, same, known, b);
  }

  /** Chains without the empty ones in front. */
  lemma GroupedShift<K>(c: Chains<K>, c': Chains<K>, off: nat, len: nat, same: (K, K) -> bool)
    requires Grouped(c, off, off + len, same) && off + len <= |c| && len <= |c'|
    requires forall b :: 0 <= b < len ==> c'[b] == c[off + b]
    ensures Grouped(c', 0, len, same)
  {
    forall b, i, j, k | 0 <= b < len && 0 <= i <= j <= k < |c'[b]|
      ensures GroupAt(c', same, b, i, j, k)
    {
      var d := off + b;
      assert GroupAt(c, same, d, i, j, k);
    }
  }

  /** Only the new buckets are left, and the sentinel is in the last of them. */
  ghost predicate Arrived<K>(c: Chains<K>, at: Places<K>, last: Element<K>, off: nat, len: nat, same: (K, K) -> bool,
                           bucketOf: map<Element<K>, nat>)
  {
    && 0 < len && |c| == off + len + 1 && c[off + len] == [last] && Consistent(c, at) && last in at
    && InPlace(at, off, off + len, off, len) && Grouped(c, off, off + len, same) && Knows(bucketOf, at, last, off)
    && forall k :: 0 <= k < off ==> c[k] == []
  }

  /** The sentinel follows the others. */
  lemma MoveLast<K>(c0: Chains<K>, at0: Places<K>, last: Element<K>, off: nat, len: nat, same: (K, K) -> bool,
                    bucketOf: map<Element<K>, nat>, t: seq<Element?<K>>)
    returns (c: Chains<K>, at: Places<K>)
    requires Moving(c0, at0, last, off, len, same, bucketOf) && Tied(c0, at0) && Heads(c0, off, t) && |t| == len + 1
    requires forall k :: 0 <= k < off - 1 ==> c0[k] == []
    ensures Arrived(c, at, last, off, len, same, bucketOf) && Tied(c, at) && Heads(c, off, t[len := last])
    ensures at.Keys == at0.Keys
  {
    hide Tied, Grouped, Consistent;
    AtPlace(c0, at0, off - 1, 0);
    c, at := Move(c0, at0, off - 1, 0, off + len);
    MoveKeeps(c0, c, at0, at, off - 1, 0, off + len);
    LastTied(c0, c, at0, at, off - 1, off + len);
    assert forall b :: off <= b < off + len ==> c[b] == c0[b];
    GroupedSame(c0, c, off, off + len, same);
  }

  lemma LastTied<K>(c0: Chains<K>, c: Chains<K>, at0: Places<K>, at: Places<K>, b: nat, d: nat)
    requires Consistent(c0, at0) && Consistent(c, at) && Tied(c0, at0) && Moved(c0, c, at0, at, b, 0, d) && |c0[b]| == 1 && c0[d] == []
    ensures Tied(c, at)
  {
    forall e | e in at
      ensures TiedAt(c, at, e)
    {
      MovedLink(c0, c, at0, at, b, 0, d, e);
      assert TiedAt(c0, at0, e);
    }
  }

  lemma GroupedSame<K>(c: Chains<K>, c': Chains<K>, from: nat, to: nat, same: (K, K) -> bool)
    requires Grouped(c, from, to, same) && to <= |c| && to <= |c'| && forall b :: from <= b < to ==> c'[b] == c[b]
    ensures Grouped(c', from, to, same)
  {
    forall b, i, j, k | from <= b < to && 0 <= i <= j <= k < |c'[b]|
      ensures GroupAt(c', same, b, i, j, k)
    {
      assert GroupAt(c, same, b, i, j, k);
    }
  }

  // ----- Ranges in the traversal order -----

  /** `e` is in the range that starts at `first` and ends in front of `last`. */
  ghost predicate Within<K>(at: Places<K>, e: Element<K>, first: Element<K>, last: Element<K>)
    requires e in at && first in at && last in at
  {
    !Before(at, e, first) && Before(at, e, last)
  }

  /** The range holds the elements of `m` and no others. */
  ghost predicate RangeOf<K>(at: Places<K>, m: set<Element<K>>, first: Element<K>, last: Element<K>) {
    && first in at && last in at && !Before(at, last, first) && m <= at.Keys
    && forall e {:trigger at[e]} {:trigger e in m} :: e in at ==> (e in m <==> Within(at, e, first, last))
  }

  /** No two elements stand at the same place. */
  ghost predicate Total<K>(at: Places<K>) {
    forall e, f {:trigger Before(at, e, f)} :: e in at && f in at && e != f ==> (Before(at, e, f) <==> !Before(at, f, e))
  }

  lemma ConsistentIsTotal<K>(c: Chains<K>, at: Places<K>)
    requires Consistent(c, at)
    ensures Total(at)
  {
    forall e, f | e in at && f in at && e != f
      ensures Before(at, e, f) <==> !Before(at, f, e)
    {
      PlaceOf(c, at, e);
      PlaceOf(c, at, f);
    }
  }

  ghost predicate SameOrder<K>(a: Places<K>, b: Places<K>) {
    && a.Keys <= b.Keys
    && forall e, f {:trigger Before(a, e, f)} {:trigger Before(b, e, f)} :: e in a && f in a ==>
         (Before(a, e, f) <==> Before(b, e, f))
  }

  lemma TakenOrder<K>(c: Chains<K>, c': Chains<K>, at: Places<K>, at': Places<K>, b: int, r: int)
    requires Consistent(c, at) && Taken(c, c', at, at', b, r)
    ensures SameOrder(at', at)
  {
    ConsistentIsTotal(c, at);
    forall e | e in at
      ensures Listed(c, at, e)
    {
      PlaceOf(c, at, e);
    }
  }

  lemma RangeFacts<K>(at: Places<K>, m: set<Element<K>>, first: Element<K>, last: Element<K>)
    requires RangeOf(at, m, first, last)
    ensures first in at && last in at && !Before(at, last, first) && !Before(at, first, first) && RangeOf(at, {}, first, first)
    ensures first == last ==> m == {}
  {
  }

  /** The range up to `e` and that up to the element after `e`. */
  lemma PassOne<K>(at: Places<K>, seen: set<Element<K>>, first: Element<K>, e: Element<K>, last: Element<K>, r: Element<K>)
    requires Total(at) && last in at && r in at && RangeOf(at, seen, first, e)
    requires e != last && !Before(at, last, e) && NextOf(at, e, r)
    ensures RangeOf(at, seen + {e}, first, r) && e !in seen && !Before(at, last, r)
  {
  }

  lemma OneRange<K>(at: Places<K>, m: set<Element<K>>, n: set<Element<K>>, first: Element<K>, last: Element<K>)
    requires RangeOf(at, m, first, last) && RangeOf(at, n, first, last)
    ensures m == n
  {
    forall e
      ensures e in m <==> e in n
    {
    }
  }

  /** The first element of a range is erased. */
  lemma RangeLeft<K>(at: Places<K>, a: Places<K>, m: set<Element<K>>, x: Element<K>, last: Element<K>, pos: Element<K>)
    requires Total(at) && RangeOf(at, m, x, last) && x != last && NextOf(at, x, pos) && pos in at
    requires SameOrder(a, at) && a.Keys == at.Keys - {x}
    ensures x in m && RangeOf(a, m - {x}, pos, last)
  {
    assert Before(at, x, last);
    forall e | e in a
      ensures e in m - {x} <==> Within(a, e, pos, last)
    {
      assert Before(a, e, last) <==> Before(at, e, last);
      assert Before(a, e, pos) <==> Before(at, e, pos);
      assert Before(at, e, x) <==> !Before(at, x, e);
    }
    assert Before(a, last, pos) <==> Before(at, last, pos);
  }

  ghost function All<K>(s: seq<Element<K>>): set<Element<K>> {
    set x | x in s
  }

  /** The elements of `s`, in the order of the walk. */
  ghost predicate InTurn<K>(at: Places<K>, s: seq<Element<K>>) {
    && (forall i {:trigger s[i]} :: 0 <= i < |s| ==> s[i] in at)
    && forall i, j {:trigger Before(at, s[i], s[j])} :: 0 <= i < j < |s| ==> Before(at, s[i], s[j])
  }

  /** `s` has been met on the way from `first` to `pos`. */
  ghost predicate Passed<K>(at: Places<K>, s: seq<Element<K>>, first: Element<K>, pos: Element<K>) {
    RangeOf(at, All(s), first, pos) && InTurn(at, s) && |All(s)| == |s|
  }

  lemma PassedNone<K>(at: Places<K>, m: set<Element<K>>, first: Element<K>, last: Element<K>)
    requires RangeOf(at, m, first, last)
    ensures Passed<K>(at, [], first, first) && first in at && last in at && !Before(at, last, first)
  {
    RangeFacts(at, m, first, last);
    assert All<K>([]) == {};
  }

  lemma PassedMore<K>(at: Places<K>, s: seq<Element<K>>, first: Element<K>, e: Element<K>, last: Element<K>, r: Element<K>)
    requires Total(at) && last in at && r in at && Passed(at, s, first, e)
    requires e != last && !Before(at, last, e) && NextOf(at, e, r)
    ensures Passed(at, s + [e], first, r) && !Before(at, last, r) && |s| < |at.Keys|
  {
    hide NextOf, Total;
    PassOne(at, All(s), first, e, last, r);
    RangeFacts(at, All(s), first, e);
    FewerThan(at.Keys, All(s), e);
    assert All(s + [e]) == All(s) + {e};
    var t := s + [e];
    forall i, j | 0 <= i < j < |t|
      ensures Before(at, t[i], t[j])
    {
      if j == |s| {
        assert t[i] in All(s);
      }
    }
  }

  lemma PassedAll<K>(at: Places<K>, s: seq<Element<K>>, m: set<Element<K>>, first: Element<K>, last: Element<K>)
    requires Passed(at, s, first, last) && RangeOf(at, m, first, last)
    ensures All(s) == m && |s| == |m| && InTurn(at, s)
  {
    hide RangeOf;
    OneRange(at, All(s), m, first, last);
  }

  lemma FewerThan<K>(all: set<Element<K>>, seen: set<Element<K>>, e: Element<K>)
    requires seen <= all && e in all && e !in seen
    ensures |seen| < |all| && seen + {e} <= all && |seen + {e}| == |seen| + 1
  {
    Fewer(seen + {e}, all);
  }

  lemma InsertedPlaces<K>(c: Chains<K>, c': Chains<K>, at: Places<K>, at': Places<K>, x: Element<K>, idx: nat, r: nat,
                          known: map<Element<K>, nat>, last: Element<K>)
    requires Consistent(c, at) && Inserted(c, c', at, at', x, idx, r) && 1 < |c| && idx == x.hash % (|c| - 1)
    requires InPlace(at, 0, |c| - 1, 0, |c| - 1) && Knows(known, at, last, |c|)
    ensures InPlace(at', 0, |c| - 1, 0, |c| - 1) && Knows(known[x := idx], at', last, |c|)
  {
    hide Consistent;
    forall e | e in at
      ensures Listed(c, at, e)
    {
      PlaceOf(c, at, e);
    }
  }

  class Map<K(!new)> {
    var buckets: array<Element?<K>>
    var size: nat
    var maxLoad: real
    /** The bucket pointers of the elements, as indices. */
    var bucketOf: map<Element<K>, nat>
    const endNode: Element<K>
    const hashOf: K -> nat
    const same: (K, K) -> bool
    ghost var chains: Chains<K>
    ghost var at: Places<K>

    /** `any` stands for what happens to be in the sentinel. */
    constructor (n: nat, hashOf: K -> nat, same: (K, K) -> bool, any: K)
      requires Fair(same, hashOf)
      ensures Valid() && Members() == {} && maxLoad == 1.0 && fresh(buckets) && fresh(endNode)
    {
      var len := NextSize(n);
      var t := new Element?<K>[len + 1](_ => null);
      var e := new Element<K>(any, 0);
      t[len] := e;
      this.hashOf, this.same, endNode := hashOf, same, e;
      buckets, size, maxLoad, bucketOf := t, 0, 1.0, map[];
      chains, at := seq(len, _ => []) + [[e]], map[e := Place(len, 0)];
      new;
      Founded(len);
    }

    lemma Founded(len: nat)
      requires 2 < len && buckets.Length == len + 1 && chains == seq(len, _ => []) + [[endNode]]
      requires at == map[endNode := Place(len, 0)] && endNode.next == null && size == 0 && maxLoad > 0.0
      requires forall i :: 0 <= i <= len ==> buckets[i] == if i == len then endNode else null
      requires Fair(same, hashOf)
      ensures Valid() && Members() == {}
    {
      assert Consistent(chains, at) by {
        assert Here(chains, at, len, 0);
        assert Listed(chains, at, endNode);
      }
      assert TiedAt(chains, at, endNode);
    }

    /** What holds of chains, places and bucket pointers apart from the links. */
    ghost predicate Sound(c: Chains<K>, a: Places<K>, known: map<Element<K>, nat>, n: nat, len: nat) {
      && 3 < len == |c| && Consistent(c, a) && c[len - 1] == [endNode] && endNode in a && n == |a.Keys - {endNode}|
      && InPlace(a, 0, len - 1, 0, len - 1) && Grouped(c, 0, len - 1, same) && Hashed(a.Keys - {endNode})
      && Knows(known, a, endNode, len) && Fair(same, hashOf)
    }

    ghost predicate Valid()
      reads this, buckets, at.Keys
    {
      && Sound(chains, at, bucketOf, size, buckets.Length) && Tied(chains, at) && Heads(chains, 0, buckets[..])
      && maxLoad > 0.0
    }

    ghost predicate Hashed(s: set<Element<K>>) {
      forall e :: e in s ==> e.hash == hashOf(e.key)
    }

    /** The elements without the sentinel. */
    ghost function Members(): set<Element<K>>
      reads this
    {
      at.Keys - {endNode}
    }

    ghost function Matching(key: K): set<Element<K>>
      reads this
    {
      set e | e in Members() && same(key, e.key)
    }

    // ----- Walking -----

    /** The first element, the sentinel when there is none. */
    method Begin() returns (r: Element<K>, ghost b: nat)
      requires Valid()
      ensures b < |chains| && chains[b] != [] && r == chains[b][|chains[b]| - 1] && forall k :: 0 <= k < b ==> chains[k] == []
      ensures r in at && (r == endNode <==> size == 0)
      ensures forall e {:trigger at[e]} :: e in at && e != r ==> Before(at, r, e)
    {
      hide Consistent, Tied, InPlace, Grouped, Knows, Fair, Hashed;
      if size == 0 {
        Alone();
        return endNode, |chains| - 1;
      }
      var slot;
      r, slot := Scan(buckets, 0, chains);
      b := slot;
      IsFirst(r, slot, 0);
    }

    /** The head of the first chain from number `from` on that is not empty comes before all others there. */
    lemma IsFirst(r: Element<K>, b: nat, from: nat)
      requires Valid() && from <= b < |chains| && chains[b] != [] && r == chains[b][|chains[b]| - 1]
      requires forall k :: from <= k < b ==> chains[k] == []
      ensures FirstFrom(at, from, r) && Here(chains, at, b, |chains[b]| - 1)
      ensures from == 0 ==> (r == endNode <==> size == 0) && forall e {:trigger at[e]} :: e in at && e != r ==> Before(at, r, e)
    {
      AtPlace(chains, at, b, |chains[b]| - 1);
      AtPlace(chains, at, |chains| - 1, 0);
      forall e | e in at
        ensures Listed(chains, at, e)
      {
        PlaceOf(chains, at, e);
      }
      if from == 0 && r != endNode {
        assert r in Members();
      }
      if from == 0 && r == endNode {
        forall e | e in at
          ensures e == endNode
        {
          assert at[e].bucket == |chains| - 1;
        }
        assert Members() == {};
      }
    }

    lemma Alone()
      requires Valid() && size == 0
      ensures at.Keys == {endNode} && forall k :: 0 <= k < |chains| - 1 ==> chains[k] == []
    {
      assert Members() == {};
      AtPlace(chains, at, |chains| - 1, 0);
      forall k | 0 <= k < |chains| - 1
        ensures chains[k] == []
      {
        if chains[k] != [] {
          AtPlace(chains, at, k, 0);
        }
      }
    }

    /** The element after `e`, at last the sentinel. */
    method Next(e: Element<K>) returns (r: Element<K>)
      requires Valid() && e in Members()
      ensures r in at && NextOf(at, e, r)
      ensures if at[e].rank > 0 then at[e].bucket < |chains| - 1 && at[e].rank <= |chains[at[e].bucket]|
                                     && r == chains[at[e].bucket][at[e].rank - 1]
              else FirstFrom(at, at[e].bucket + 1, r)
    {
      hide Consistent, Tied, InPlace, Grouped, Fair, Hashed, NextOf, FirstFrom;
      Home(e);
      if e.next != null {
        return e.next;
      }
      var b;
      r, b := Scan(buckets, bucketOf[e] + 1, chains);
      IsFirst(r, b, bucketOf[e] + 1);
      FirstIsNext(chains, at, e, r);
    }

    lemma Home(e: Element<K>)
      requires Valid() && e in Members()
      ensures e in bucketOf && bucketOf[e] == at[e].bucket == e.hash % (|chains| - 1) && at[e].bucket < |chains| - 1
      ensures e.hash == hashOf(e.key) && Listed(chains, at, e) && (e.next == null <==> at[e].rank == 0)
      ensures e.next != null ==> e.next in at && e.next == chains[at[e].bucket][at[e].rank - 1] && NextOf(at, e, e.next)
    {
      PlaceOf(chains, at, e);
      AtPlace(chains, at, |chains| - 1, 0);
      assert TiedAt(chains, at, e);
      if e.next != null {
        AtPlace(chains, at, at[e].bucket, at[e].rank - 1);
        forall f | f in at
          ensures Listed(chains, at, f)
        {
          PlaceOf(chains, at, f);
        }
      }
    }

    // ----- Looking up -----

    /** The first element of chain `idx` with the key, the sentinel when there is none. */
    method FindNode(key: K, idx: nat) returns (r: Element<K>, ghost k: int)
      requires Valid() && idx < |chains| - 1
      ensures -1 <= k < |chains[idx]| && r == (if k < 0 then endNode else chains[idx][k])
      ensures k >= 0 ==> same(key, r.key)
      ensures forall q {:trigger chains[idx][q]} :: k < q < |chains[idx]| ==> !same(key, chains[idx][q].key)
    {
      hide Consistent, InPlace, Grouped, Knows, Fair, Hashed;
      var pos := buckets[idx];
      assert buckets[..][idx] == Head(chains, idx);
      k := |chains[idx]| - 1;
      while pos != null
        invariant -1 <= k < |chains[idx]| && pos == (if k < 0 then null else chains[idx][k])
        invariant forall q {:trigger chains[idx][q]} :: k < q < |chains[idx]| ==> !same(key, chains[idx][q].key)
        decreases k
      {
        AtPlace(chains, at, idx, k);
        if same(key, pos.key) {
          return pos, k;
        }
        assert TiedAt(chains, at, pos);
        pos := pos.next;
        k := k - 1;
      }
      r := endNode;
    }

    /** An element with the key, the sentinel when there is none. */
    method Find(key: K) returns (r: Element<K>)
      requires Valid()
      ensures r == endNode ==> Matching(key) == {}
      ensures r != endNode ==> r in Matching(key) && forall e {:trigger at[e]} :: e in Matching(key) && e != r ==> Before(at, r, e)
    {
      hide Consistent, InPlace, Grouped, Knows, Fair, Hashed, Tied, Heads;
      var idx := hashOf(key) % (buckets.Length - 1);
      ghost var k;
      r, k := FindNode(key, idx);
      Found(key, idx, r, k);
    }

    /** Elements with the key are in the chain of its hash only. */
    lemma OnlyThere(key: K, e: Element<K>)
      requires Valid() && e in Matching(key)
      ensures at[e].bucket == hashOf(key) % (|chains| - 1) && Listed(chains, at, e)
    {
      Home(e);
    }

    lemma Found(key: K, idx: nat, r: Element<K>, k: int)
      requires Valid() && idx == hashOf(key) % (|chains| - 1) && -1 <= k < |chains[idx]|
      requires r == (if k < 0 then endNode else chains[idx][k]) && (k >= 0 ==> same(key, r.key))
      requires forall q {:trigger chains[idx][q]} :: k < q < |chains[idx]| ==> !same(key, chains[idx][q].key)
      ensures k < 0 ==> r == endNode && Matching(key) == {}
      ensures k >= 0 ==> r in Matching(key) && at[r] == Place(idx, k)
      ensures forall e {:trigger at[e]} :: e in Matching(key) && e != r ==> Before(at, r, e)
      ensures forall e {:trigger at[e]} :: e in Matching(key) ==> at[e].bucket == idx && 0 <= at[e].rank <= k
    {
      AtPlace(chains, at, |chains| - 1, 0);
      if k >= 0 {
        AtPlace(chains, at, idx, k);
      }
      forall e | e in Matching(key)
        ensures at[e].bucket == idx && 0 <= at[e].rank <= k && (e != r ==> at[e].rank != k)
      {
        OnlyThere(key, e);
      }
    }

    lemma NotEnd(b: nat, k: int)
      requires Valid() && b < |chains| - 1 && k < |chains[b]|
      ensures k >= 0 ==> chains[b][k] in Members() && at[chains[b][k]] == Place(b, k)
    {
      if k >= 0 {
        AtPlace(chains, at, b, k);
        AtPlace(chains, at, |chains| - 1, 0);
      }
    }

    lemma NoRange(key: K)
      requires Valid() && Matching(key) == {}
      ensures RangeOf(at, Matching(key), endNode, endNode)
    {
    }

    lemma SameBucket(key: K, idx: nat, e: Element<K>)
      requires Valid() && idx == hashOf(key) % (|chains| - 1) && e in Members() && FirstFrom(at, idx + 1, e)
      ensures !same(key, e.key)
    {
      if same(key, e.key) {
        OnlyThere(key, e);
      }
    }

    /** From the first match down to rank `j` the elements match, and then no more. */
    lemma Stretch(key: K, idx: nat, k: nat, j: int, first: Element<K>, last: Element<K>)
      requires Valid() && idx == hashOf(key) % (|chains| - 1) && -1 <= j < k < |chains[idx]| && first == chains[idx][k]
      requires last in at && if j >= 0 then last == chains[idx][j] && !same(key, last.key) else FirstFrom(at, idx + 1, last)
      requires forall q {:trigger chains[idx][q]} :: j < q <= k ==> same(key, chains[idx][q].key)
      requires forall e {:trigger at[e]} :: e in Matching(key) ==> at[e].bucket == idx && 0 <= at[e].rank <= k
      ensures RangeOf(at, Matching(key), first, last)
    {
      NotEnd(idx, k);
      NotEnd(idx, j);
      forall e | e in at
        ensures e in Matching(key) <==> Within(at, e, first, last)
      {
        PlaceOf(chains, at, e);
        AtPlace(chains, at, |chains| - 1, 0);
        if e in Matching(key) && j >= 0 {
          NoneBelow(key, idx, k, j, at[e].rank);
        }
      }
    }

    lemma NoneBelow(key: K, idx: nat, k: nat, j: nat, r: nat)
      requires Valid() && idx < |chains| - 1 && r < |chains[idx]| && j < k < |chains[idx]|
      requires same(key, chains[idx][k].key) && !same(key, chains[idx][j].key) && same(key, chains[idx][r].key)
      ensures j < r
    {
      var s := chains[idx];
      assert Triple(same, s[r].key, key, s[k].key);
      assert Triple(same, key, s[r].key, s[j].key);
      assert r <= j ==> GroupAt(chains, same, idx, r, j, k);
    }

    method EqualRange(key: K) returns (first: Element<K>, last: Element<K>)
      requires Valid()
      ensures RangeOf(at, Matching(key), first, last) && (first == endNode ==> last == endNode)
    {
      hide Consistent, InPlace, Grouped, Knows, Fair, Hashed, Tied, Heads, RangeOf, FirstFrom, NextOf;
      var idx := hashOf(key) % (buckets.Length - 1);
      ghost var k;
      first, k := FindNode(key, idx);
      Found(key, idx, first, k);
      if first == endNode {
        NotEnd(idx, k);
        NoRange(key);
        return first, first;
      }
      NotEnd(idx, k);
      var pos := Next(first);
      ghost var j := k - 1;
      NotEnd(idx, j);
      while pos != endNode
        invariant -1 <= j < k && pos in at
        invariant if j >= 0 then pos == chains[idx][j] && at[pos] == Place(idx, j) && pos != endNode
                  else FirstFrom(at, idx + 1, pos)
        invariant forall q {:trigger chains[idx][q]} :: j < q <= k ==> same(key, chains[idx][q].key)
        decreases j + 1, pos != endNode
      {
        if !same(key, pos.key) {
          Stretch(key, idx, k, j, first, pos);
          return first, pos;
        }
        if j < 0 {
          SameBucket(key, idx, pos);
        }
        pos := Next(pos);
        j := j - 1;
        NotEnd(idx, j);
      }
      Stretch(key, idx, k, j, first, pos);
      last := pos;
    }

    /** Meets the elements of a range one after the other. */
    method Visit(first: Element<K>, last: Element<K>, ghost m: set<Element<K>>) returns (s: seq<Element<K>>)
      requires Valid() && RangeOf(at, m, first, last)
      ensures All(s) == m && |s| == |m| && InTurn(at, s)
    {
      hide Sound, Tied, Heads, RangeOf, NextOf, FirstFrom, Before, Total, Passed, InTurn;
      InTotal();
      PassedNone(at, m, first, last);
      s := [];
      var pos := first;
      while pos != last
        invariant pos in at && last in at && Passed(at, s, first, pos) && !Before(at, last, pos)
        decreases |at.Keys| - |s|
      {
        ghost var e := pos;
        s := s + [pos];
        BeforeEnd(pos, last);
        pos := Next(pos);
        PassedMore(at, s[..|s| - 1], first, e, last, pos);
        assert s[..|s| - 1] + [e] == s;
      }
      PassedAll(at, s, m, first, last);
    }

    /** The walk from the first element to the sentinel meets every element exactly once. */
    method Walk() returns (s: seq<Element<K>>)
      requires Valid()
      ensures |s| == size && All(s) == Members() && InTurn(at, s)
    {
      hide Sound, Tied, Heads, RangeOf, FirstFrom, InTurn;
      var first;
      ghost var b;
      first, b := Begin();
      WholeRange(first);
      s := Visit(first, endNode, Members());
    }

    lemma WholeRange(first: Element<K>)
      requires Valid() && first in at && forall e {:trigger at[e]} :: e in at && e != first ==> Before(at, first, e)
      ensures RangeOf(at, Members(), first, endNode) && |Members()| == size
    {
      AtPlace(chains, at, |chains| - 1, 0);
      ConsistentIsTotal(chains, at);
      forall e | e in at
        ensures e in Members() <==> Within(at, e, first, endNode)
      {
        if e != endNode {
          Home(e);
        }
      }
    }

    // ----- Counting -----

    method Count(key: K) returns (n: nat)
      requires Valid()
      ensures n == |Matching(key)|
    {
      hide Consistent, InPlace, Grouped, Knows, Fair, Hashed, Tied, Heads, RangeOf, NextOf, FirstFrom, Before, Total;
      n := 0;
      ConsistentIsTotal(chains, at);
      var first, last := EqualRange(key);
      ghost var seen: set<Element<K>> := {};
      RangeFacts(at, Matching(key), first, last);
      var pos := first;
      while pos != last
        invariant pos in at && RangeOf(at, seen, first, pos) && n == |seen| && seen <= at.Keys && !Before(at, last, pos)
        decreases |at.Keys| - |seen|
      {
        ghost var e := pos;
        BeforeEnd(pos, last);
        pos := Next(pos);
        PassOne(at, seen, first, e, last, pos);
        FewerThan(at.Keys, seen, e);
        seen := seen + {e};
        n := n + 1;
      }
      OneRange(at, seen, Matching(key), first, last);
    }

    /** An element in front of another is not the sentinel. */
    lemma BeforeEnd(e: Element<K>, last: Element<K>)
      requires Valid() && e in at && last in at && e != last && !Before(at, last, e)
      ensures e in Members() && Before(at, e, last)
    {
      ConsistentIsTotal(chains, at);
      PlaceOf(chains, at, last);
      PlaceOf(chains, at, e);
      AtPlace(chains, at, |chains| - 1, 0);
    }

    // ----- Erasing -----

    method Adopt(t: array<Element?<K>>, n: nat, known: map<Element<K>, nat>, ghost c: Chains<K>, ghost a: Places<K>)
      requires Sound(c, a, known, n, t.Length) && Tied(c, a) && Heads(c, 0, t[..]) && maxLoad > 0.0
      modifies this`buckets, this`size, this`bucketOf, this`chains, this`at
      ensures Valid() && buckets == t && size == n && bucketOf == known && chains == c && at == a
    {
      hide Consistent, InPlace, Grouped, Knows, Fair, Hashed, Tied, Heads;
      buckets, size, bucketOf, chains, at := t, n, known, c, a;
    }

    /** The element in front of `pos` in its chain, if any. */
    method FindPrev(pos: Element<K>) returns (prev: Element?<K>)
      requires Valid() && pos in Members()
      ensures var p := at[pos];
              0 <= p.bucket < |chains| && 0 <= p.rank < |chains[p.bucket]|
              && prev == (if p.rank + 1 == |chains[p.bucket]| then null else chains[p.bucket][p.rank + 1])
    {
      hide Consistent, InPlace, Grouped, Knows, Fair, Hashed;
      Home(pos);
      var b := bucketOf[pos];
      var i := buckets[b];
      assert buckets[..][b] == Head(chains, b);
      prev := null;
      ghost var k := |chains[b]| - 1;
      while i != pos
        invariant at[pos].rank <= k < |chains[b]| && i == chains[b][k]
        invariant prev == if k + 1 == |chains[b]| then null else chains[b][k + 1]
        decreases k
      {
        AtPlace(chains, at, b, k);
        assert TiedAt(chains, at, i);
        prev := i;
        i := i.next;
        k := k - 1;
      }
      AtPlace(chains, at, b, k);
    }

    /** Takes `pos` out and returns the element after it. */
    method Erase(pos: Element<K>) returns (ret: Element<K>)
      requires Valid() && pos in Members()
      modifies this, buckets, at.Keys`next
      ensures Valid() && buckets == old(buckets) && at.Keys == old(at.Keys) - {pos}
      ensures NextOf(old(at), pos, ret) && ret in at && SameOrder(at, old(at))
    {
      hide Consistent, InPlace, Grouped, Knows, Fair, Hashed, Tied, Heads, NextOf, FirstFrom, Taken, Before, SameOrder;
      ret := Next(pos);
      var prev := FindPrev(pos);
      Home(pos);
      var b := bucketOf[pos];
      ghost var r := at[pos].rank;
      AtPlace(chains, at, b, r);
      assert prev == null || prev in at by {
        if prev != null {
          AtPlace(chains, at, b, r + 1);
        }
      }
      ghost var c, a := Unlink(buckets, prev, pos, b, r, chains, at);
      AfterErase(c, a, b, r, pos);
      TakenOrder(chains, c, at, a, b, r);
      NotSelf(at, pos, ret);
      Adopt(buckets, size - 1, bucketOf - {pos}, c, a);
    }

    lemma NotSelf(at: Places<K>, e: Element<K>, r: Element<K>)
      requires e in at && r in at && NextOf(at, e, r)
      ensures r != e
    {
    }

    lemma AfterErase(c: Chains<K>, a: Places<K>, b: int, r: int, x: Element<K>)
      requires Sound(chains, at, bucketOf, size, |chains|)
      requires Taken(chains, c, at, a, b, r) && Consistent(c, a) && x == chains[b][r] && x != endNode
      ensures Sound(c, a, bucketOf - {x}, size - 1, |chains|) && a.Keys == at.Keys - {x} && size > 0
    {
      hide Consistent, Grouped, Fair;
      AtPlace(chains, at, |chains| - 1, 0);
      TakenGrouped(chains, c, at, a, b, r, 0, |chains| - 1, same);
      assert x in Members();
      assert a.Keys - {endNode} == Members() - {x};
      forall e | e in at
        ensures Listed(chains, at, e)
      {
        PlaceOf(chains, at, e);
      }
    }

    /** Erases the elements with the key and says how many there were. */
    method EraseKey(key: K) returns (count: nat)
      requires Valid()
      modifies this, buckets, at.Keys`next
      ensures Valid() && Members() == old(Members()) - old(Matching(key)) && count == |old(Matching(key))|
    {
      hide Valid, Sound, RangeOf;
      count := 0;
      ghost var m := Matching(key);
      var pos, last := EqualRange(key);
      ghost var left := m;
      while pos != last
        invariant Valid() && buckets == old(buckets) && RangeOf(at, left, pos, last) && count + |left| == |m|
        invariant Rest(old(at.Keys), m, left, at.Keys)
        decreases |left|
      {
        ghost var x := pos;
        pos := EraseFirst(left, pos, last);
        RestLess(old(at.Keys), m, left, x);
        left := left - {x};
        count := count + 1;
      }
      RangeFacts(at, left, pos, last);
      InTotal();
    }

    /** Erases the first element of a range. */
    method EraseFirst(ghost m: set<Element<K>>, pos: Element<K>, last: Element<K>) returns (next: Element<K>)
      requires Valid() && RangeOf(at, m, pos, last) && pos != last
      modifies this, buckets, at.Keys`next
      ensures Valid() && buckets == old(buckets) && at.Keys == old(at.Keys) - {pos}
      ensures pos in m && RangeOf(at, m - {pos}, next, last)
    {
      hide Valid, Sound, RangeOf, NextOf, Before, Total, SameOrder;
      RangeFacts(at, m, pos, last);
      BeforeEnd(pos, last);
      InTotal();
      ghost var at0 := at;
      next := Erase(pos);
      RangeLeft(at0, at, m, pos, last, next);
    }

    ghost predicate Rest(all: set<Element<K>>, m: set<Element<K>>, left: set<Element<K>>, now: set<Element<K>>) {
      left <= m <= all - {endNode} && now == all - (m - left)
    }

    lemma RestLess(all: set<Element<K>>, m: set<Element<K>>, left: set<Element<K>>, x: Element<K>)
      requires x in left && left <= m <= all - {endNode}
      ensures Rest(all, m, left - {x}, all - (m - left) - {x}) && |left - {x}| == |left| - 1
    {
    }

    lemma InTotal()
      requires Valid()
      ensures Total(at) && endNode in at
    {
      ConsistentIsTotal(chains, at);
    }

    // ----- Growing -----

    lemma StartMoving(c: Chains<K>, len: nat)
      requires Sound(chains, at, bucketOf, size, |chains|) && 0 < len && |c| == |chains| + len + 1 && Consistent(c, at)
      requires forall k :: 0 <= k < |chains| ==> c[k] == chains[k]
      requires forall k :: |chains| <= k < |c| ==> c[k] == []
      ensures Moving(c, at, endNode, |chains|, len, same, bucketOf)
    {
      forall e | e in at
        ensures at[e].bucket < |chains|
      {
        PlaceOf(chains, at, e);
      }
    }

    /** The old table is dropped. */
    lemma FinishMoving(c0: Chains<K>, a0: Places<K>, off: nat, len: nat, known: map<Element<K>, nat>, n: nat,
                       t: seq<Element?<K>>)
      returns (c: Chains<K>, a: Places<K>)
      requires Arrived(c0, a0, endNode, off, len, same, known) && Tied(c0, a0) && Heads(c0, off, t) && |t| == len + 1 && 2 < len
      requires n == |a0.Keys - {endNode}| && Hashed(a0.Keys - {endNode}) && Fair(same, hashOf)
      ensures a.Keys == a0.Keys && Sound(c, a, known, n, len + 1) && Tied(c, a) && Heads(c, 0, t)
    {
      hide Grouped, Fair, Consistent, Tied, Heads;
      c, a := DropFront(c0, a0, off);
      GroupedShift(c0, c, off, len, same);
      DropTied(c0, a0, off, t, c, a);
    }

    /** Grows to the next size for `n` entries. */
    method Rehash(n: nat, room: bool) returns (ok: bool, ghost len: nat)
      requires Valid()
      modifies this, buckets, at.Keys`next
      ensures Valid() && at.Keys == old(at.Keys) && size == old(size) && maxLoad == old(maxLoad)
      ensures IsNextSize(len, n)
      ensures if len < old(buckets.Length) then ok && buckets == old(buckets)
              else (ok <==> room) && (ok ==> buckets.Length == len + 1)
      ensures !ok || buckets == old(buckets) ==> unchanged(this) && unchanged(old(buckets)) && unchanged(old(at.Keys))
      ensures buckets == old(buckets) || fresh(buckets)
      ensures ok ==> n < buckets.Length || SIZES[|SIZES| - 1] < buckets.Length
      ensures buckets.Length >= old(buckets.Length) && (!old(Crowded(size)) ==> !Crowded(size))
    {
      hide Valid, IsNextSize, Over;
      var nbuckets := NextSize(n);
      len := nbuckets;
      EnoughFor(len, n);
      Lengths();
      if nbuckets <= buckets.Length - 1 {
        ok := true;
        return;
      }
      if !room {
        ok := false;
        return;
      }
      ghost var was := buckets.Length - 1;
      Regrow(nbuckets);
      if !Over(size, maxLoad, was) {
        LessOver(size, maxLoad, was, len);
      }
      ok := true;
    }

    static lemma LessOver(n: nat, load: real, len: nat, len': nat)
      requires load > 0.0 && len <= len' && !Over(n, load, len)
      ensures !Over(n, load, len')
    {
      assert load * len as real <= load * len' as real;
    }

    lemma Lengths()
      requires Valid()
      ensures 3 < buckets.Length && maxLoad > 0.0
    {
    }

    method Regrow(len: nat)
      requires Valid() && 2 < len
      modifies this, buckets, at.Keys`next
      ensures Valid() && at.Keys == old(at.Keys) && size == old(size) && maxLoad == old(maxLoad)
      ensures fresh(buckets) && buckets.Length == len + 1
    {
      hide Consistent, InPlace, Grouped, Knows, Fair, Hashed, Tied, Heads, Moving, Before, Arrived;
      var t := new Element?<K>[len + 1](_ => null);
      ghost var off := buckets.Length;
      ghost var c := Beside(chains, at, t[..]);
      var node;
      ghost var b;
      node, b := Begin();
      StartMoving(c, len);
      var known;
      ghost var a;
      BesideHeads(chains, c, buckets[..]);
      known, c, a := MoveAll(buckets, t, node, len, bucketOf, endNode, same, hashOf, b, c, at);
      c, a := MoveLast(c, a, endNode, off, len, same, known, t[..]);
      ghost var heads := t[..][len := endNode];
      t[len] := endNode;
      assert t[..] == heads;
      c, a := FinishMoving(c, a, off, len, known, size, t[..]);
      Adopt(t, size, known, c, a);
    }

    lemma BesideHeads(c: Chains<K>, c': Chains<K>, t: seq<Element?<K>>)
      requires Heads(c, 0, t) && |t| == |c| <= |c'| && forall k :: 0 <= k < |c| ==> c'[k] == c[k]
      ensures Heads(c', 0, t)
    {
    }

    // ----- Inserting -----

    predicate Crowded(n: nat)
      reads this
    {
      Over(n, maxLoad, buckets.Length - 1)
    }

    static predicate Over(n: nat, load: real, len: int) {
      n as real > load * len as real
    }

    /** The number of buckets with which `n` entries surely fit. */
    static function Wanted(n: nat, load: real): nat
      requires load > 0.0
    {
      Positive(n, load);
      (n as real / load).Floor + 1
    }

    static lemma Positive(n: nat, load: real)
      requires load > 0.0
      ensures n as real / load >= 0.0
    {
    }

    /** Growth before `n` entries are held: 0 is returned when there is no memory. */
    method Ready(n: nat, room: bool) returns (ok: bool, ghost len: nat)
      requires Valid()
      modifies this, buckets, at.Keys`next
      ensures Valid() && at.Keys == old(at.Keys) && size == old(size) && maxLoad == old(maxLoad)
      ensures !old(Crowded(n)) ==> ok && buckets == old(buckets)
      ensures old(Crowded(n)) ==> IsNextSize(len, Wanted(n, maxLoad))
      ensures old(Crowded(n)) && len < old(buckets.Length) ==> ok && buckets == old(buckets)
      ensures old(Crowded(n)) && len >= old(buckets.Length) ==> (ok <==> room) && (ok ==> buckets.Length == len + 1)
      ensures buckets == old(buckets) || fresh(buckets)
      ensures !ok || buckets == old(buckets) ==> unchanged(this) && unchanged(old(buckets)) && unchanged(old(at.Keys))
      ensures ok ==> !Crowded(n) || SIZES[|SIZES| - 1] < buckets.Length
    {
      hide Valid, IsNextSize;
      ok, len := true, 0;
      Lengths();
      if Crowded(n) {
        var s := Wanted(n, maxLoad);
        LoadFits(n, maxLoad, s);
        ok, len := Rehash(s, room);
        Lengths();
        if ok && s < buckets.Length {
          MoreFits(n, maxLoad, s, buckets.Length - 1);
        }
      }
    }

    lemma LoadFits(n: nat, load: real, s: int)
      requires load > 0.0 && s == (n as real / load).Floor + 1
      ensures s > 0 && n as real <= load * s as real
    {
      assert n as real / load <= s as real;
      assert n as real == load * (n as real / load);
    }

    lemma MoreFits(n: nat, load: real, s: int, len: nat)
      requires load > 0.0 && n as real <= load * s as real && s <= len
      ensures n as real <= load * len as real
    {
      assert load * s as real <= load * len as real;
    }

    /** Adds an element next to those with an equal key. */
    method Insert(x: Element<K>, room: bool) returns (ok: bool)
      requires Valid() && x !in at && x.hash == hashOf(x.key)
      modifies this, buckets, at.Keys`next, x`next
      ensures Valid() && maxLoad == old(maxLoad) && (room ==> ok) && (buckets == old(buckets) || fresh(buckets))
      ensures !old(Crowded(size + 1)) ==> ok && buckets == old(buckets)
      ensures at.Keys == old(at.Keys) + if ok then {x} else {}
      ensures ok ==> !Crowded(size) || SIZES[|SIZES| - 1] < buckets.Length
    {
      hide Valid, IsNextSize, Wanted;
      ghost var len;
      ok, len := Ready(size + 1, room);
      if ok {
        Put(x);
      }
    }

    /** Links an element into the bucket of its hash. */
    method Put(x: Element<K>)
      requires Valid() && x !in at && x.hash == hashOf(x.key)
      modifies this, buckets, at.Keys`next, x`next
      ensures Valid() && maxLoad == old(maxLoad) && buckets == old(buckets)
      ensures at.Keys == old(at.Keys) + {x} && size == old(size) + 1
    {
      hide Consistent, InPlace, Grouped, Knows, Fair, Hashed, Tied, Heads, Inserted;
      var idx := x.hash % (buckets.Length - 1);
      ghost var c, a, r := Settle(buckets, x, idx, same, hashOf, 0, chains, at);
      AfterInsert(c, a, x, idx, r);
      Adopt(buckets, size + 1, bucketOf[x := idx], c, a);
    }

    lemma AfterInsert(c: Chains<K>, a: Places<K>, x: Element<K>, idx: nat, r: nat)
      requires Sound(chains, at, bucketOf, size, |chains|) && idx == x.hash % (|chains| - 1) && x.hash == hashOf(x.key)
      requires Inserted(chains, c, at, a, x, idx, r) && Consistent(c, a) && Spot(chains[idx], same, x.key, r)
      ensures Sound(c, a, bucketOf[x := idx], size + 1, |chains|) && a.Keys == at.Keys + {x}
    {
      hide Consistent, Grouped, Fair, InPlace, Knows;
      AtPlace(chains, at, |chains| - 1, 0);
      InsertedGrouped(chains, c, at, a, x, idx, r, 0, |chains| - 1, same, hashOf);
      InsertedPlaces(chains, c, at, a, x, idx, r, bucketOf, endNode);
      assert x !in Members();
      assert a.Keys - {endNode} == Members() + {x};
    }

    lemma OneMore(s: seq<Element<K>>, i: nat)
      requires i < |s|
      ensures All(s[i..]) == All(s[i + 1..]) + {s[i]} && All(s[i..]) <= All(s)
    {
      assert s[i..] == [s[i]] + s[i + 1..];
    }

    /** New elements that belong into this table, each given once. */
    ghost predicate Suits(xs: seq<Element<K>>) {
      forall i {:trigger xs[i]} :: 0 <= i < |xs| ==> xs[i] !in xs[i + 1..] && xs[i].hash == hashOf(xs[i].key)
    }

    /** The keys of the range are copied, in the order of the walk, into elements for this table; `mem` says for which of them
        there is memory. */
    method Copies(src: Map<K>, first: Element<K>, last: Element<K>, ghost m: set<Element<K>>, mem: nat -> bool)
      returns (ok: bool, xs: seq<Element<K>>, ghost s: seq<Element<K>>)
      requires src.Valid() && RangeOf(src.at, m, first, last)
      ensures ok <==> forall i :: 0 <= i < |m| ==> mem(i)
      ensures fresh(All(xs)) && Suits(xs)
      ensures ok ==> All(s) == m && InTurn(src.at, s) && |xs| == |s| == |m| && forall i :: 0 <= i < |s| ==> xs[i].key == s[i].key
    {
      hide Sound, Tied, Heads, RangeOf, NextOf, FirstFrom, Before, Total, Passed, InTurn;
      src.InTotal();
      PassedNone(src.at, m, first, last);
      xs, s := [], [];
      var pos := first;
      while pos != last
        invariant pos in src.at && last in src.at && Passed(src.at, s, first, pos) && !Before(src.at, last, pos)
        invariant |xs| == |s| && forall i :: 0 <= i < |s| ==> xs[i].key == s[i].key && mem(i)
        invariant fresh(All(xs)) && Suits(xs)
        decreases |src.at.Keys| - |s|
      {
        ghost var e := pos;
        src.PassedPart(s, m, first, pos, last);
        if !mem(|xs|) {
          return false, xs, s;
        }
        var x := new Element<K>(pos.key, hashOf(pos.key));
        SuitsMore(xs, x);
        xs := xs + [x];
        src.BeforeEnd(pos, last);
        pos := src.Next(pos);
        PassedMore(src.at, s, first, e, last, pos);
        s := s + [e];
      }
      PassedAll(src.at, s, m, first, last);
      ok := true;
    }

    /** What is met in front of the end is less than the range. */
    lemma PassedPart(s: seq<Element<K>>, m: set<Element<K>>, first: Element<K>, pos: Element<K>, last: Element<K>)
      requires Valid() && pos in at && last in at && Passed(at, s, first, pos) && RangeOf(at, m, first, last)
      requires pos != last && !Before(at, last, pos)
      ensures |s| < |m|
    {
      BeforeEnd(pos, last);
      ConsistentIsTotal(chains, at);
      assert !Before(at, pos, first) && pos in m && pos !in All(s);
      forall e | e in All(s)
        ensures e in m
      {
        assert e in at && Within(at, e, first, pos);
      }
      FewerThan(m, All(s), pos);
    }

    lemma SuitsMore(xs: seq<Element<K>>, x: Element<K>)
      requires Suits(xs) && x !in xs && x.hash == hashOf(x.key)
      ensures Suits(xs + [x]) && All(xs + [x]) == All(xs) + {x}
    {
      var ys := xs + [x];
      forall i | 0 <= i < |ys|
        ensures ys[i] !in ys[i + 1..] && ys[i].hash == hashOf(ys[i].key)
      {
        if i < |xs| {
          assert ys[i + 1..] == xs[i + 1..] + [x];
          assert xs[i] in xs;
        }
      }
    }

    /** Adds copies of a range, which may be one of this very table. */
    method InsertRange(src: Map<K>, first: Element<K>, last: Element<K>, ghost m: set<Element<K>>, mem: nat -> bool, room: bool)
      returns (ok: bool, ghost xs: seq<Element<K>>, ghost s: seq<Element<K>>)
      requires Valid() && src.Valid() && RangeOf(src.at, m, first, last)
      modifies this, buckets, at.Keys`next
      ensures Valid() && maxLoad == old(maxLoad) && (buckets == old(buckets) || fresh(buckets))
      ensures ok ==> forall i :: 0 <= i < |m| ==> mem(i)
      ensures (room || !old(Crowded(size + |m|))) && (forall i :: 0 <= i < |m| ==> mem(i)) ==> ok
      ensures !ok ==> unchanged(this) && unchanged(old(buckets)) && unchanged(old(at.Keys))
      ensures ok ==> at.Keys == old(at.Keys) + All(xs) && fresh(All(xs)) && Suits(xs) && size == old(size) + |m|
      ensures ok ==> All(s) == m && InTurn(old(src.at), s) && |xs| == |s| == |m| && forall i :: 0 <= i < |s| ==> xs[i].key == s[i].key
      ensures ok ==> !Crowded(size) || SIZES[|SIZES| - 1] < buckets.Length
    {
      hide Valid, Suits, RangeOf, InTurn;
      var ys;
      ok, ys, s := Copies(src, first, last, m, mem);
      xs := ys;
      if ok {
        ok := AddAll(ys, room);
      }
    }

    /** Adds the copies of a range: the table grows once, or nothing is added. */
    method AddAll(xs: seq<Element<K>>, room: bool) returns (ok: bool)
      requires Valid() && Suits(xs) && All(xs) !! at.Keys
      modifies this, buckets, at.Keys`next, All(xs)`next
      ensures Valid() && maxLoad == old(maxLoad) && (room ==> ok) && (buckets == old(buckets) || fresh(buckets))
      ensures !old(Crowded(size + |xs|)) ==> ok && buckets == old(buckets)
      ensures ok ==> at.Keys == old(at.Keys) + All(xs) && size == old(size) + |xs|
      ensures !ok ==> unchanged(this) && unchanged(old(buckets)) && unchanged(old(at.Keys))
      ensures ok ==> !Crowded(size) || SIZES[|SIZES| - 1] < buckets.Length
    {
      hide Valid, Suits, All, IsNextSize, Wanted;
      ghost var len;
      ok, len := Ready(size + |xs|, room);
      if ok {
        PutAll(xs);
      }
    }

    method PutAll(xs: seq<Element<K>>)
      requires Valid() && Suits(xs) && All(xs) !! at.Keys
      modifies this, buckets, at.Keys`next, All(xs)`next
      ensures Valid() && maxLoad == old(maxLoad) && buckets == old(buckets)
      ensures at.Keys == old(at.Keys) + All(xs) && size == old(size) + |xs|
    {
      hide Valid, All;
      var i := |xs|;
      NoneOf(xs);
      while i > 0
        invariant 0 <= i <= |xs| && Valid() && maxLoad == old(maxLoad) && buckets == old(buckets)
        invariant size + i == old(size) + |xs| && at.Keys == old(at.Keys) + All(xs[i..])
      {
        i := i - 1;
        OneMore(xs, i);
        NotIn(xs, i);
        Put(xs[i]);
      }
      assert xs[0..] == xs;
    }

    lemma NoneOf(s: seq<Element<K>>)
      ensures All(s[|s|..]) == {}
    {
    }

    lemma NotIn(s: seq<Element<K>>, i: nat)
      requires i < |s| && s[i] !in s[i + 1..]
      ensures s[i] !in All(s[i + 1..]) && s[i] in All(s)
    {
    }

    /** The bound is never below a thousandth. */
    method SetMaxLoad(z: real)
      requires Valid()
      modifies this`maxLoad
      ensures Valid() && maxLoad == if z < 0.001 then 0.001 else z
    {
      hide Sound;
      maxLoad := if z < 0.001 then 0.001 else z;
    }
  }
}
