/** The heap of timers of libevent/minheap-internal.h: every event in it knows its place. */
module MinHeap {

  datatype Time = Time(sec: int, usec: int)

  predicate Later(a: Time, b: Time) {
    if a.sec == b.sec then a.usec > b.usec else a.sec > b.sec
  }

  /** A time whose microseconds make less than a second. */
  predicate Proper(t: Time) {
    0 <= t.usec < 1000000
  }

  /** A time as a number of microseconds. */
  function Micros(t: Time): int {
    t.sec * 1000000 + t.usec
  }

  /** The later one of two times is the one of more microseconds. */
  lemma LaterIsMore(a: Time, b: Time)
    requires Proper(a) && Proper(b)
    ensures Later(a, b) <==> Micros(a) > Micros(b)
  {
  }

  /** The event has the least number of microseconds of all, when these are proper times. */
  ghost predicate IsFirst(e: Event, events: seq<Event>) {
    e in events && ((forall x :: x in events ==> Proper(x.timeout)) ==>
                      forall x :: x in events ==> Micros(e.timeout) <= Micros(x.timeout))
  }

  lemma FirstOfAll(e: Event, events: seq<Event>)
    requires e in events && forall x :: x in events ==> !Later(e.timeout, x.timeout)
    ensures IsFirst(e, events)
  {
    if forall x :: x in events ==> Proper(x.timeout) {
      forall x | x in events
        ensures Micros(e.timeout) <= Micros(x.timeout)
      {
        LaterIsMore(e.timeout, x.timeout);
      }
    }
  }

  class Event {
    const timeout: Time
    var idx: int

    constructor (timeout: Time)
      ensures this.timeout == timeout && idx == -1
    {
      this.timeout, idx := timeout, -1;
    }
  }

  // ----- Heap order -----

  function Parent(i: nat): nat
    requires i > 0
  {
    (i - 1) / 2
  }

  ghost predicate NotAbove(s: seq<Event>, i: nat) {
    0 < i < |s| && !Later(s[Parent(i)].timeout, s[i].timeout)
  }

  ghost predicate Ordered(s: seq<Event>) {
    forall i {:trigger NotAbove(s, i)} :: 0 < i < |s| ==> NotAbove(s, i)
  }

  /** In order but for the event at `hole`, which may be too early for its place. */
  ghost predicate Rising(s: seq<Event>, hole: nat) {
    && hole < |s|
    && (forall i {:trigger NotAbove(s, i)} :: 0 < i < |s| && i != hole ==> NotAbove(s, i))
    && (forall i {:trigger s[i]} :: 0 < hole < i < |s| && Parent(i) == hole ==> !Later(s[Parent(hole)].timeout, s[i].timeout))
  }

  /** In order but for the event at `hole`, which may be too late for its place. */
  ghost predicate Sinking(s: seq<Event>, hole: nat) {
    && hole < |s|
    && (forall i {:trigger NotAbove(s, i)} :: 0 < i < |s| && Parent(i) != hole ==> NotAbove(s, i))
    && (forall i {:trigger s[i]} :: 0 < hole < i < |s| && Parent(i) == hole ==> !Later(s[Parent(hole)].timeout, s[i].timeout))
  }

  lemma {:induction false} TopIsFirst(s: seq<Event>, i: nat)
    requires Ordered(s) && i < |s|
    ensures !Later(s[0].timeout, s[i].timeout)
  {
    if i > 0 {
      assert NotAbove(s, i);
      TopIsFirst(s, Parent(i));
    }
  }

  lemma RiseStep(s: seq<Event>, hole: nat)
    requires Rising(s, hole) && hole > 0 && Later(s[Parent(hole)].timeout, s[hole].timeout)
    ensures Rising(s[hole := s[Parent(hole)]][Parent(hole) := s[hole]], Parent(hole))
  {
    var p := Parent(hole);
    var t := s[hole := s[p]][p := s[hole]];
    forall i | 0 < i < |t| && i != p
      ensures NotAbove(t, i)
    {
      assert i != hole ==> NotAbove(s, i);
      assert i != hole && Parent(i) == hole ==> !Later(s[p].timeout, s[i].timeout);
    }
    forall i | 0 < p < i < |t| && Parent(i) == p
      ensures !Later(t[Parent(p)].timeout, t[i].timeout)
    {
      assert NotAbove(s, p);
      assert i != hole ==> NotAbove(s, i);
    }
  }

  lemma RiseEnd(s: seq<Event>, hole: nat)
    requires Rising(s, hole) && (hole == 0 || !Later(s[Parent(hole)].timeout, s[hole].timeout))
    ensures Ordered(s)
  {
    forall i | 0 < i < |s|
      ensures NotAbove(s, i)
    {
      assert i != hole ==> NotAbove(s, i);
    }
  }

  // `c` is the child of `hole` that is due first.
  ghost predicate FirstChild(s: seq<Event>, hole: nat, c: nat) {
    && 0 < c < |s| && hole < |s| && Parent(c) == hole
    && (forall i {:trigger s[i]} :: 0 < i < |s| && Parent(i) == hole ==> !Later(s[c].timeout, s[i].timeout))
  }

  lemma SinkStep(s: seq<Event>, hole: nat, c: nat)
    requires Sinking(s, hole) && FirstChild(s, hole, c) && Later(s[hole].timeout, s[c].timeout)
    ensures Sinking(s[hole := s[c]][c := s[hole]], c)
  {
    var t := s[hole := s[c]][c := s[hole]];
    forall i | 0 < i < |t| && Parent(i) != c
      ensures NotAbove(t, i)
    {
      assert Parent(i) != hole ==> NotAbove(s, i);
      assert i == hole ==> !Later(s[Parent(hole)].timeout, s[c].timeout);
    }
    forall i | c < i < |t| && Parent(i) == c
      ensures !Later(t[Parent(c)].timeout, t[i].timeout)
    {
      assert NotAbove(s, i);
    }
  }

  lemma SinkEnd(s: seq<Event>, hole: nat, c: nat)
    requires Sinking(s, hole) && (2 * hole + 1 >= |s| || (FirstChild(s, hole, c) && !Later(s[hole].timeout, s[c].timeout)))
    ensures Ordered(s)
  {
    forall i | 0 < i < |s|
      ensures NotAbove(s, i)
    {
      if Parent(i) != hole {
        assert NotAbove(s, i);
      } else {
        assert !Later(s[c].timeout, s[i].timeout);
      }
    }
  }

  // ----- Taking an event out of the middle -----

  /** The last event in the place of the one at `i`: it is either too early there or too late, never both. */
  lemma Replaced(s: seq<Event>, i: nat)
    requires Ordered(s) && i + 1 < |s|
    ensures var t := s[..|s| - 1][i := s[|s| - 1]];
      if i > 0 && Later(t[Parent(i)].timeout, t[i].timeout) then Rising(t, i) else Sinking(t, i)
  {
    var t := s[..|s| - 1][i := s[|s| - 1]];
    forall k | 0 < k < |t| && k != i && Parent(k) != i
      ensures NotAbove(t, k)
    {
      assert NotAbove(s, k);
    }
    forall k {:trigger t[k]} | i < k < |t| && Parent(k) == i
      ensures !Later(s[i].timeout, t[k].timeout) && (i > 0 ==> !Later(t[Parent(i)].timeout, t[k].timeout))
    {
      assert NotAbove(s, k);
      assert i > 0 ==> NotAbove(s, i);
    }
    if i > 0 {
      assert NotAbove(s, i);
      if Later(t[Parent(i)].timeout, t[i].timeout) {
        forall k | 0 < k < |t| && k != i
          ensures NotAbove(t, k)
        {
          assert NotAbove(s, k);
        }
      } else {
        assert NotAbove(t, i);
      }
    }
  }

  /** And without the last event the rest stays in order. */
  lemma Shortened(s: seq<Event>)
    requires Ordered(s) && |s| > 0
    ensures Ordered(s[..|s| - 1])
  {
    var t := s[..|s| - 1];
    forall i | 0 < i < |t|
      ensures NotAbove(t, i)
    {
      assert NotAbove(s, i);
    }
  }

  // ----- The heap -----

  /** All places but `hole` hold their event, and these know their places; `e` belongs into the hole. */
  ghost predicate Placed(p: array<Event?>, s: seq<Event>, hole: nat, e: Event)
    reads p, s
  {
    && |s| <= p.Length && hole < |s| && s[hole] == e
    && (forall i {:trigger s[i]} :: 0 <= i < |s| && i != hole ==> s[i] != e && p[i] == s[i] && s[i].idx == i)
  }

  // The event at `from` moves into the hole, and the hole to where it was.
  method Move(p: array<Event?>, ghost s: seq<Event>, hole: nat, from: nat, e: Event, x: Event) returns (ghost s': seq<Event>)
    requires Placed(p, s, hole, e) && from < |s| && from != hole && x == p[from]
    modifies p, x`idx
    ensures s' == s[hole := s[from]][from := e] && Placed(p, s', from, e) && multiset(s') == multiset(s)
  {
    s' := s[hole := s[from]][from := e];
    assert x == s[from] && x.idx == from;
    p[hole] := x;
    x.idx := hole;
    forall i | 0 <= i < |s'| && i != from
      ensures s'[i] != e && p[i] == s'[i] && s'[i].idx == i
    {
      assert i != hole ==> s'[i] == s[i] && old(s[i].idx) == i;
    }
  }

  ghost predicate Known(p: array<Event?>, s: seq<Event>)
    reads p, s
  {
    |s| <= p.Length && forall i {:trigger s[i]} :: 0 <= i < |s| ==> p[i] == s[i] && s[i].idx == i
  }

  class Heap {
    var p: array<Event?>
    var n: nat
    var a: nat
    ghost var events: seq<Event>

    /** The heap holds `events`, in heap order, and every one of them knows its place. */
    ghost predicate Valid()
      reads this, p, events
    {
      n == |events| <= a == p.Length && Known(p, events) && Ordered(events)
    }

    ghost function Members(): set<Event>
      reads this`events
    {
      set x | x in events
    }

    constructor ()
      ensures Valid() && events == [] && fresh(p)
    {
      p := new Event?[0];
      n, a, events := 0, 0, [];
    }

    method ShiftUp(start: nat, e: Event, ghost s0: seq<Event>, ghost ns: set<Event>) returns (ghost s: seq<Event>)
      requires start < n == |s0| <= p.Length && Placed(p, s0, start, e) && Rising(s0, start)
      requires e in ns && forall x {:trigger x in s0} :: x in s0 ==> x in ns
      modifies p, ns`idx
      ensures |s| == n && Known(p, s) && Ordered(s) && multiset(s) == multiset(s0)
    {
      hide Rising;
      hide Ordered;
      hide Placed;
      s := s0;
      var hole: nat := start;
      PlacedAt(p, s, hole, e, if hole > 0 then Parent(hole) else hole);
      while hole > 0 && Later(p[(hole - 1) / 2].timeout, e.timeout)
        invariant hole < |s| == |s0| && Placed(p, s, hole, e) && Rising(s, hole) && multiset(s) == multiset(s0) && s[hole] == e
        invariant hole > 0 ==> p[Parent(hole)] == s[Parent(hole)]
      {
        RiseStep(s, hole);
        SameMembers(s, s0);
        assert s[Parent(hole)] in s;
        s := Move(p, s, hole, Parent(hole), e, p[Parent(hole)]);
        hole := Parent(hole);
        PlacedAt(p, s, hole, e, if hole > 0 then Parent(hole) else hole);
      }
      RiseEnd(s, hole);
      SameMembers(s, s0);
      Settle(hole, e, s);
    }

    // The child of the hole that is due first.
    method EarlierChild(hole: nat, e: Event, ghost s: seq<Event>) returns (c: nat)
      requires n == |s| <= p.Length && Placed(p, s, hole, e) && 2 * hole + 1 < n
      ensures FirstChild(s, hole, c) && p[c] == s[c] && c > hole
    {
      c := 2 * (hole + 1);
      assert p[2 * hole + 1] == s[2 * hole + 1] && (c < n ==> p[c] == s[c]);
      c := c - if c == n || Later(p[c].timeout, p[c - 1].timeout) then 1 else 0;
    }

    /** Moves `e` down from its place; when the hole is behind the last event, it just stays there. */
    method ShiftDown(start: nat, e: Event, ghost s0: seq<Event>, ghost ns: set<Event>) returns (ghost s: seq<Event>)
      requires start <= n == |s0| <= p.Length
      requires if start < n then Placed(p, s0, start, e) && Sinking(s0, start)
               else n < p.Length && Known(p, s0) && Ordered(s0) && e !in s0
      requires e in ns && forall x {:trigger x in s0} :: x in s0 ==> x in ns
      modifies p, ns`idx
      ensures |s| == n && Known(p, s) && Ordered(s) && multiset(s) == multiset(s0)
    {
      hide Sinking;
      hide Ordered;
      hide Placed;
      hide FirstChild;
      s := s0;
      var hole: nat, minChild: nat := start, start;
      while 2 * (hole + 1) <= n
        invariant hole <= n == |s| == |s0| <= p.Length && multiset(s) == multiset(s0) && (start < n ==> hole < n)
        invariant if start < n then Placed(p, s, hole, e) && Sinking(s, hole) else hole == n && s == s0 && Known(p, s0)
        decreases n - hole
      {
        minChild := EarlierChild(hole, e, s);
        PlacedAt(p, s, hole, e, hole);
        InRange(s, hole, minChild);
        if !Later(e.timeout, p[minChild].timeout) {
          break;
        }
        SinkStep(s, hole, minChild);
        SameMembers(s, s0);
        assert s[minChild] in s;
        s := Move(p, s, hole, minChild, e, p[minChild]);
        hole := minChild;
      }
      if start < n {
        PlacedAt(p, s, hole, e, hole);
        SinkEnd(s, hole, minChild);
      }
      Settle(hole, e, s);
    }

    lemma InRange(s: seq<Event>, hole: nat, c: nat)
      requires FirstChild(s, hole, c)
      ensures 0 < c < |s| && c != hole
    {
    }

    // The last step of both: `e` goes into the hole.
    method Settle(hole: nat, e: Event, ghost s: seq<Event>)
      requires if hole < |s| then Placed(p, s, hole, e) else hole == |s| < p.Length && Known(p, s) && e !in s
      modifies p, e`idx
      ensures Known(p, s)
    {
      p[hole] := e;
      e.idx := hole;
    }

    lemma PlacedAt(p: array<Event?>, s: seq<Event>, hole: nat, e: Event, i: nat)
      requires Placed(p, s, hole, e) && i < |s|
      ensures |s| <= p.Length && s[hole] == e && (i != hole ==> p[i] == s[i])
    {
    }

    lemma SameMembers(s: seq<Event>, t: seq<Event>)
      requires multiset(s) == multiset(t)
      ensures forall x {:trigger x in s} :: x in s <==> x in t
    {
      assert forall x {:trigger x in s} :: x in s <==> x in multiset(s);
      assert forall x {:trigger x in t} :: x in t <==> x in multiset(t);
    }

    // ----- The operations -----

    method Top() returns (e: Event?)
      requires Valid()
      ensures if events == [] then e == null else e == events[0] && forall x :: x in events ==> !Later(e.timeout, x.timeout)
      ensures e != null ==> IsFirst(e, events)
    {
      if n == 0 {
        return null;
      }
      assert events[0] == p[0];
      forall i | 0 <= i < |events|
        ensures !Later(events[0].timeout, events[i].timeout)
      {
        TopIsFirst(events, i);
      }
      e := p[0];
      FirstOfAll(e, events);
    }

    /** Makes room for `size` events; `enough` says whether the memory could be had. */
    method Reserve(size: nat, enough: bool) returns (r: int)
      requires Valid()
      modifies this`p, this`a
      ensures Valid() && (r == 0 || r == -1) && (r == 0 ==> size <= a) && (enough ==> r == 0)
      ensures r == 0 <==> size <= old(a) || enough
      ensures size <= old(a) || r == -1 ==> p == old(p) && a == old(a)
      ensures size > old(a) && r == 0 ==> a == if old(a) != 0 && size <= old(a) * 2 then old(a) * 2 else if old(a) == 0 && size <= 8 then 8 else size
      ensures p != old(p) ==> fresh(p)
    {
      if a < size {
        var size' := if a != 0 then a * 2 else 8;
        if size' < size {
          size' := size;
        }
        if !enough {
          return -1;
        }
        var q := new Event?[size'](_ => null);
        forall i | 0 <= i < n {
          q[i] := p[i];
        }
        p, a := q, size';
      }
      return 0;
    }

    method Push(e: Event, enough: bool) returns (r: int)
      requires Valid() && e !in events
      modifies this, p, Members()`idx, e`idx
      ensures Valid() && (r == 0 || r == -1) && (r == 0 <==> |old(events)| < old(a) || enough)
      ensures r == 0 ==> multiset(events) == multiset(old(events)) + multiset{e}
      ensures r == -1 ==> events == old(events) && e.idx == old(e.idx)
      ensures p != old(p) ==> fresh(p)
    {
      r := Reserve(n + 1, enough);
      if r != 0 {
        return -1;
      }
      ghost var s := events + [e];
      AppendRises(events, e);
      n := n + 1;
      events := ShiftUp(n - 1, e, s, old(Members()) + {e});
      return 0;
    }

    lemma AppendRises(s: seq<Event>, e: Event)
      requires Ordered(s)
      ensures Rising(s + [e], |s|)
    {
      var t := s + [e];
      forall i | 0 < i < |t| && i != |s|
        ensures NotAbove(t, i)
      {
        assert NotAbove(s, i);
      }
    }

    /** Takes an event that is due first. */
    method Pop() returns (e: Event?)
      requires Valid()
      modifies this`n, this`events, p, Members()`idx
      ensures Valid() && (e == null <==> old(events) == [])
      ensures e != null ==> e.idx == -1 && e == old(events)[0] && multiset(old(events)) == multiset(events) + multiset{e}
      ensures e != null ==> forall x :: x in old(events) ==> !Later(e.timeout, x.timeout)
      ensures e != null ==> IsFirst(e, old(events))
      ensures e == null ==> events == []
    {
      if n == 0 {
        return null;
      }
      ghost var e0 := Top();
      e := p[0];
      ghost var r := Take(0, e);
    }

    /** Takes an event out, wherever it is; one that is in no heap stays out. */
    method Erase(e: Event) returns (r: int)
      requires Valid() && (e.idx != -1 ==> e in events)
      modifies this`n, this`events, p, Members()`idx
      ensures Valid()
      ensures if old(e.idx) == -1 then r == -1 && events == old(events)
              else r == 0 && e.idx == -1 && multiset(old(events)) == multiset(events) + multiset{e}
    {
      if e.idx == -1 {
        return -1;
      }
      ghost var k :| 0 <= k < |events| && events[k] == e;
      assert e.idx == k;
      r := Take(e.idx, e);
    }

    // Puts the last event in the place of `e`, and moves it up or down from there.
    method Take(i: nat, e: Event) returns (r: int)
      requires Valid() && i < n && events[i] == e
      modifies this`n, this`events, p, Members()`idx
      ensures Valid() && r == 0 && e.idx == -1 && multiset(old(events)) == multiset(events) + multiset{e}
    {
      var last := p[n - 1];
      n := n - 1;
      ghost var s := Rearranged(i);
      if i > 0 && Later(p[(i - 1) / 2].timeout, last.timeout) {
        events := ShiftUp(i, last, s, old(Members()));
      } else {
        events := ShiftDown(i, last, s, old(Members()));
      }
      SameMembers(events, s);
      assert forall k :: 0 <= k < |events| ==> events[k] in events;
      e.idx := -1;
      return 0;
    }

    /** What is left, with the last event in the place of the one that goes. */
    lemma Rearranged(i: nat) returns (s: seq<Event>)
      requires n + 1 == |events| <= a == p.Length && Known(p, events) && Ordered(events) && i <= n
      ensures |s| == n && multiset(events) == multiset(s) + multiset{events[i]} && events[i] !in s
      ensures forall x {:trigger x in s} :: x in s ==> x in events
      ensures i < n ==> Placed(p, s, i, events[n])
      ensures i < n ==> if i > 0 && Later(events[Parent(i)].timeout, events[n].timeout) then Rising(s, i) else Sinking(s, i)
      ensures i == n ==> Known(p, s) && Ordered(s) && (i > 0 ==> !Later(events[Parent(i)].timeout, events[n].timeout))
    {
      TakeOut(events, i);
      if i == n {
        s := events[..n];
        Shortened(events);
        assert i > 0 ==> NotAbove(events, i);
      } else {
        s := events[..n][i := events[n]];
        Replaced(events, i);
      }
    }

    lemma TakeOut(s: seq<Event>, i: nat)
      requires i < |s|
      ensures if i == |s| - 1 then multiset(s) == multiset(s[..i]) + multiset{s[i]}
              else multiset(s) == multiset(s[..|s| - 1][i := s[|s| - 1]]) + multiset{s[i]}
    {
      var n := |s| - 1;
      assert s == s[..n] + [s[n]];
    }
  }
}
