/** The ordered double locking of libevent/evthread-internal.h: threads that take recursive locks in pairs, as a state
    machine over single lock operations. */
module Locks {

  /** A lock is its address; 0 is the null pointer, for which nothing is done. */
  type Lock = nat

  datatype Op = Acquire(lock: Lock) | Release(lock: Lock)

  // ----- The two macros -----

  function Sorted(a: Lock, b: Lock): (Lock, Lock) {
    if a != 0 && b != 0 && a > b then (b, a) else (a, b)
  }

  function One(l: Lock, op: Op): seq<Op> {
    if l != 0 then [op] else []
  }

  /** The lock operations of EVLOCK_LOCK2. */
  function Lock2(a: Lock, b: Lock): seq<Op> {
    var (x, y) := Sorted(a, b);
    One(x, Acquire(x)) + if y != x then One(y, Acquire(y)) else []
  }

  /** The lock operations of EVLOCK_UNLOCK2. */
  function Unlock2(a: Lock, b: Lock): seq<Op> {
    var (x, y) := Sorted(a, b);
    (if y != x then One(y, Release(y)) else []) + One(x, Release(x))
  }

  /** A section under two locks, with the sections that are entered inside of it. */
  datatype Section = Section(a: Lock, b: Lock, inside: seq<Section>)

  /** The lock operations of a thread that enters the sections one after the other. */
  function Program(sections: seq<Section>): seq<Op> {
    if sections == [] then []
    else Lock2(sections[0].a, sections[0].b) + (Program(sections[0].inside)
           + (Unlock2(sections[0].a, sections[0].b) + Program(sections[1..])))
  }

  // ----- The state machine -----

  /** A lock that is held: by which thread, and how often. */
  datatype Hold = Hold(owner: nat, count: nat)

  /** The locks that are held, and what every thread has still to do. */
  datatype State = State(locks: map<Lock, Hold>, rest: seq<seq<Op>>)

  predicate CanStep(s: State, t: nat) {
    && t < |s.rest| && s.rest[t] != []
    && match s.rest[t][0]
       case Acquire(l) => l !in s.locks || s.locks[l].owner == t
       case Release(l) => l in s.locks && s.locks[l].owner == t
  }

  /** Thread `t` performs its next operation. */
  function Step(s: State, t: nat): State
    requires CanStep(s, t)
  {
    var rest := s.rest[t := s.rest[t][1..]];
    match s.rest[t][0]
    case Acquire(l) =>
      State(s.locks[l := Hold(t, if l in s.locks then s.locks[l].count + 1 else 1)], rest)
    case Release(l) =>
      State(if s.locks[l].count > 1 then s.locks[l := Hold(t, s.locks[l].count - 1)] else s.locks - {l}, rest)
  }

  /** The states that the threads can get to by any interleaving. */
  ghost predicate Run(s: State, schedule: seq<nat>, s': State)
    decreases |schedule|
  {
    if schedule == [] then s == s' else CanStep(s, schedule[0]) && Run(Step(s, schedule[0]), schedule[1..], s')
  }

  function Finished(s: State, t: nat): bool {
    t >= |s.rest| || s.rest[t] == []
  }

  // ----- Programs that take locks in ascending order -----

  /** The program, begun with `held` locks, takes only locks that it holds already or that are above all of these, gives back
      only what it holds, and in the end all of it. */
  ghost predicate Ascending(ops: seq<Op>, held: multiset<Lock>) {
    if ops == [] then held == multiset{}
    else
      match ops[0]
      case Acquire(l) => (l in held || forall h :: h in held ==> h < l) && Ascending(ops[1..], held + multiset{l})
      case Release(l) => l in held && Ascending(ops[1..], held - multiset{l})
  }

  /** How often `t` holds the lock. */
  function Times(s: State, t: nat, l: Lock): nat {
    if l in s.locks && s.locks[l].owner == t then s.locks[l].count else 0
  }

  /** The locks of the state are those that the threads hold, every one only by its owner. */
  ghost predicate Tracks(s: State, held: seq<multiset<Lock>>) {
    && |held| == |s.rest|
    && (forall t {:trigger held[t]} {:trigger s.rest[t]} :: 0 <= t < |held| ==> Ascending(s.rest[t], held[t]))
    && (forall t, l {:trigger held[t][l]} :: 0 <= t < |held| ==> held[t][l] == Times(s, t, l))
    && (forall l {:trigger s.locks[l]} :: l in s.locks ==> s.locks[l].owner < |held| && s.locks[l].count > 0)
  }

  lemma NextOp(ops: seq<Op>, held: multiset<Lock>)
    requires Ascending(ops, held) && ops != []
    ensures if ops[0].Acquire? then Ascending(ops[1..], held + multiset{ops[0].lock})
            else ops[0].lock in held && Ascending(ops[1..], held - multiset{ops[0].lock})
  {
  }

  // A step counts its own lock up or down, for its own thread.
  lemma TimesStep(s: State, t: nat, u: nat, k: Lock)
    requires CanStep(s, t) && forall l {:trigger s.locks[l]} :: l in s.locks ==> s.locks[l].count > 0
    ensures Times(Step(s, t), u, k) == Times(s, u, k) + if u != t || k != s.rest[t][0].lock then 0 else if s.rest[t][0].Acquire? then 1 else -1
  {
  }

  lemma LocksStep(s: State, t: nat)
    requires CanStep(s, t) && forall l {:trigger s.locks[l]} :: l in s.locks ==> s.locks[l].owner < |s.rest| && s.locks[l].count > 0
    ensures var s' := Step(s, t); forall l {:trigger s'.locks[l]} :: l in s'.locks ==> s'.locks[l].owner < |s.rest| && s'.locks[l].count > 0
  {
  }

  lemma StepTracks(s: State, held: seq<multiset<Lock>>, t: nat) returns (held': seq<multiset<Lock>>)
    requires Tracks(s, held) && CanStep(s, t)
    ensures Tracks(Step(s, t), held')
  {
    hide Ascending;
    hide Times;
    var l := s.rest[t][0].lock;
    NextOp(s.rest[t], held[t]);
    LocksStep(s, t);
    held' := held[t := if s.rest[t][0].Acquire? then held[t] + multiset{l} else held[t] - multiset{l}];
    var s' := Step(s, t);
    forall u, k | 0 <= u < |held'|
      ensures held'[u][k] == Times(s', u, k)
    {
      TimesStep(s, t, u, k);
      assert held[u][k] == Times(s, u, k);
    }
    forall u | 0 <= u < |held'|
      ensures Ascending(s'.rest[u], held'[u])
    {
      assert Ascending(s.rest[u], held[u]);
    }
  }

  /** Every interleaving keeps the order. */
  lemma {:induction false} RunTracks(s: State, held: seq<multiset<Lock>>, schedule: seq<nat>, s': State) returns (held': seq<multiset<Lock>>)
    requires Tracks(s, held) && Run(s, schedule, s')
    ensures Tracks(s', held')
    decreases |schedule|
  {
    if schedule == [] {
      held' := held;
    } else {
      var next := StepTracks(s, held, schedule[0]);
      held' := RunTracks(Step(s, schedule[0]), next, schedule[1..], s');
    }
  }

  // ----- No deadlock -----

  ghost predicate Bounded(s: State, bound: nat) {
    forall l {:trigger l in s.locks} :: l in s.locks ==> l < bound
  }

  /** A thread that waits is waited for by one that holds a lower lock, so the search for one that can step ends. */
  lemma {:induction false} SomeoneSteps(s: State, held: seq<multiset<Lock>>, t: nat, bound: nat) returns (u: nat)
    requires Tracks(s, held) && !Finished(s, t) && Bounded(s, bound)
    ensures CanStep(s, u)
    decreases bound - s.rest[t][0].lock, if CanStep(s, t) then 0 else 1
  {
    if CanStep(s, t) {
      u := t;
    } else {
      var l := s.rest[t][0].lock;
      assert Ascending(s.rest[t], held[t]);
      assert held[t][l] == Times(s, t, l);
      var w := s.locks[l].owner;
      assert held[w][l] == Times(s, w, l);
      assert Ascending(s.rest[w], held[w]);
      if CanStep(s, w) {
        u := w;
      } else {
        assert s.rest[w] != [];
        var k := s.rest[w][0].lock;
        assert held[w][k] == Times(s, w, k);
        u := SomeoneSteps(s, held, w, bound);
      }
    }
  }

  lemma {:induction false} BoundExists(locks: map<Lock, Hold>) returns (bound: nat)
    ensures forall l {:trigger l in locks} :: l in locks ==> l < bound
    decreases |locks|
  {
    if locks == map[] {
      bound := 0;
    } else {
      var l :| l in locks;
      var b := BoundExists(locks - {l});
      bound := if b > l then b else l + 1;
      forall k | k in locks
        ensures k < bound
      {
        assert k != l ==> k in locks - {l};
      }
    }
  }

  // ----- Sections in order -----

  /** The lock is null, held already, or above all that are held. */
  ghost predicate Fits(l: Lock, held: multiset<Lock>) {
    l == 0 || l in held || forall h :: h in held ==> h < l
  }

  function With(held: multiset<Lock>, l: Lock): multiset<Lock> {
    if l != 0 then held + multiset{l} else held
  }

  /** What a thread holds inside of a section under `a` and `b`. */
  function Under(held: multiset<Lock>, a: Lock, b: Lock): multiset<Lock> {
    if a == b then With(held, a) else With(With(held, a), b)
  }

  /** Every section, entered by a thread that holds `held`, is under locks that fit to what the thread then holds. */
  ghost predicate InOrder(sections: seq<Section>, held: multiset<Lock>) {
    sections == [] ||
    var s := sections[0];
    Fits(s.a, held) && Fits(s.b, held) && InOrder(s.inside, Under(held, s.a, s.b)) && InOrder(sections[1..], held)
  }

  ghost predicate Flat(sections: seq<Section>) {
    forall s :: s in sections ==> s.inside == []
  }

  lemma Unfold(op: Op, rest: seq<Op>, held: multiset<Lock>)
    ensures Ascending([op] + rest, held) <==>
      if op.Acquire? then (op.lock in held || forall h :: h in held ==> h < op.lock) && Ascending(rest, held + multiset{op.lock})
      else op.lock in held && Ascending(rest, held - multiset{op.lock})
  {
    assert ([op] + rest)[1..] == rest;
  }

  lemma UnfoldOne(l: Lock, rest: seq<Op>, held: multiset<Lock>)
    ensures Ascending(One(l, Acquire(l)) + rest, held) <==> Fits(l, held) && Ascending(rest, With(held, l))
    ensures Ascending(One(l, Release(l)) + rest, With(held, l)) <==> Ascending(rest, held)
  {
    hide Ascending;
    if l == 0 {
      assert [] + rest == rest;
    } else {
      Unfold(Acquire(l), rest, held);
      Unfold(Release(l), rest, With(held, l));
      assert held + multiset{l} - multiset{l} == held;
    }
  }

  /** The lower one of two locks does not keep the other one from fitting. */
  lemma FitsSecond(x: Lock, y: Lock, held: multiset<Lock>)
    requires x == 0 || y == 0 || x < y
    ensures Fits(y, With(held, x)) <==> Fits(y, held)
  {
    assert forall h :: h in held ==> h in With(held, x);
    assert forall h :: h in With(held, x) ==> h in held || h == x;
  }

  /** The two operations of LOCK2 are in order just when both locks fit. */
  lemma EnterInOrder(a: Lock, b: Lock, rest: seq<Op>, held: multiset<Lock>)
    ensures Ascending(Lock2(a, b) + rest, held) <==> Fits(a, held) && Fits(b, held) && Ascending(rest, Under(held, a, b))
  {
    hide Ascending;
    var (x, y) := Sorted(a, b);
    if x == y {
      assert Lock2(a, b) + rest == One(x, Acquire(x)) + rest;
      UnfoldOne(x, rest, held);
    } else {
      assert Lock2(a, b) + rest == One(x, Acquire(x)) + (One(y, Acquire(y)) + rest);
      UnfoldOne(x, One(y, Acquire(y)) + rest, held);
      UnfoldOne(y, rest, With(held, x));
      FitsSecond(x, y, held);
      assert With(With(held, x), y) == Under(held, a, b);
    }
  }

  lemma LeaveInOrder(a: Lock, b: Lock, rest: seq<Op>, held: multiset<Lock>)
    ensures Ascending(Unlock2(a, b) + rest, Under(held, a, b)) <==> Ascending(rest, held)
  {
    hide Ascending;
    var (x, y) := Sorted(a, b);
    if x == y {
      assert Unlock2(a, b) + rest == One(x, Release(x)) + rest;
      UnfoldOne(x, rest, held);
    } else {
      assert Unlock2(a, b) + rest == One(y, Release(y)) + (One(x, Release(x)) + rest);
      UnfoldOne(y, One(x, Release(x)) + rest, With(held, x));
      UnfoldOne(x, rest, held);
      assert With(With(held, x), y) == Under(held, a, b);
    }
  }

  /** A program of sections takes its locks in ascending order just when its sections are in order. */
  lemma {:induction false} OrderOfSections(sections: seq<Section>, rest: seq<Op>, held: multiset<Lock>)
    ensures Ascending(Program(sections) + rest, held) <==> InOrder(sections, held) && Ascending(rest, held)
  {
    if sections == [] {
      assert Program(sections) + rest == rest;
    } else {
      var s, more := sections[0], Program(sections[1..]) + rest;
      assert Program(sections) + rest
          == Lock2(s.a, s.b) + (Program(s.inside) + (Unlock2(s.a, s.b) + more));
      EnterInOrder(s.a, s.b, Program(s.inside) + (Unlock2(s.a, s.b) + more), held);
      OrderOfSections(s.inside, Unlock2(s.a, s.b) + more, Under(held, s.a, s.b));
      LeaveInOrder(s.a, s.b, more, held);
      OrderOfSections(sections[1..], rest, held);
    }
  }

  lemma SectionsAscend(sections: seq<Section>)
    ensures Ascending(Program(sections), multiset{}) <==> InOrder(sections, multiset{})
  {
    OrderOfSections(sections, [], multiset{});
    assert Program(sections) + [] == Program(sections);
  }

  /** Sections that are not inside of each other are in order, null and equal locks included. */
  lemma {:induction false} FlatInOrder(sections: seq<Section>)
    requires Flat(sections)
    ensures InOrder(sections, multiset{})
  {
    if sections != [] {
      assert sections[0].inside == [];
      FlatInOrder(sections[1..]);
    }
  }

  // ----- The theorems -----

  /** Threads that hold nothing yet. */
  function Start(programs: seq<seq<Op>>): State {
    State(map[], programs)
  }

  ghost predicate AllAscending(programs: seq<seq<Op>>) {
    forall p :: p in programs ==> Ascending(p, multiset{})
  }

  lemma StartTracks(programs: seq<seq<Op>>) returns (held: seq<multiset<Lock>>)
    requires AllAscending(programs)
    ensures Tracks(Start(programs), held)
  {
    held := seq(|programs|, t => multiset{});
    var s := Start(programs);
    assert forall t {:trigger programs[t]} :: 0 <= t < |programs| ==> Ascending(programs[t], multiset{});
    assert forall t, l {:trigger held[t][l]} :: 0 <= t < |held| ==> held[t][l] == Times(s, t, l);
  }

  /** In every interleaving of threads that take their locks in ascending order, as long as some thread is not finished,
      some thread can go on. */
  lemma NoDeadlock(programs: seq<seq<Op>>, schedule: seq<nat>, s: State, t: nat) returns (u: nat)
    requires AllAscending(programs) && Run(Start(programs), schedule, s) && !Finished(s, t)
    ensures CanStep(s, u)
  {
    var held := StartTracks(programs);
    var held' := RunTracks(Start(programs), held, schedule, s);
    var bound := BoundExists(s.locks);
    u := SomeoneSteps(s, held', t, bound);
  }

  /** Once all threads are finished, no lock is held: all counts are back at zero. */
  lemma AllReleased(programs: seq<seq<Op>>, schedule: seq<nat>, s: State)
    requires AllAscending(programs) && Run(Start(programs), schedule, s) && forall t :: Finished(s, t)
    ensures s.locks == map[]
  {
    var held := StartTracks(programs);
    var held' := RunTracks(Start(programs), held, schedule, s);
    NothingHeld(s, held');
  }

  /** From wherever the threads have got to, they can all come to their end, with no lock held. */
  lemma AllComplete(programs: seq<seq<Op>>, schedule: seq<nat>, s: State) returns (more: seq<nat>, s': State)
    requires AllAscending(programs) && Run(Start(programs), schedule, s)
    ensures Run(s, more, s') && s'.locks == map[] && forall t :: Finished(s', t)
  {
    var held := StartTracks(programs);
    var held' := RunTracks(Start(programs), held, schedule, s);
    more, s' := Completes(s, held');
  }

  lemma NothingHeld(s: State, held: seq<multiset<Lock>>)
    requires Tracks(s, held) && forall t :: Finished(s, t)
    ensures s.locks == map[]
  {
    forall t | 0 <= t < |held|
      ensures held[t] == multiset{}
    {
      assert Finished(s, t) && Ascending(s.rest[t], held[t]);
    }
    assert forall l {:trigger l in s.locks.Keys} :: l in s.locks.Keys ==>
      s.locks[l].count > 0 && held[s.locks[l].owner][l] == Times(s, s.locks[l].owner, l);
    assert s.locks.Keys == {};
  }

  function Total(rest: seq<seq<Op>>): nat {
    if rest == [] then 0 else |rest[0]| + Total(rest[1..])
  }

  lemma {:induction false} TotalDrops(rest: seq<seq<Op>>, t: nat)
    requires t < |rest| && rest[t] != []
    ensures Total(rest[t := rest[t][1..]]) == Total(rest) - 1
  {
    var rest' := rest[t := rest[t][1..]];
    if t == 0 {
      assert rest'[1..] == rest[1..];
    } else {
      TotalDrops(rest[1..], t - 1);
      assert rest'[1..] == rest[1..][t - 1 := rest[1..][t - 1][1..]];
    }
  }

  lemma {:induction false} NothingLeft(rest: seq<seq<Op>>)
    requires Total(rest) == 0
    ensures forall t :: 0 <= t < |rest| ==> rest[t] == []
  {
    if rest != [] {
      NothingLeft(rest[1..]);
      assert forall t :: 1 <= t < |rest| ==> rest[t] == rest[1..][t - 1];
    }
  }

  /** Every run has at most as many steps as there are operations. */
  lemma {:induction false} RunsEnd(s: State, schedule: seq<nat>, s': State)
    requires Run(s, schedule, s')
    ensures |schedule| + Total(s'.rest) == Total(s.rest)
    decreases |schedule|
  {
    if schedule != [] {
      TotalDrops(s.rest, schedule[0]);
      RunsEnd(Step(s, schedule[0]), schedule[1..], s');
    }
  }

  /** From wherever the threads have got to, they can all come to their end. */
  lemma {:induction false} Completes(s: State, held: seq<multiset<Lock>>) returns (schedule: seq<nat>, s': State)
    requires Tracks(s, held)
    ensures Run(s, schedule, s') && s'.locks == map[] && forall t :: Finished(s', t)
    decreases Total(s.rest)
  {
    if Total(s.rest) == 0 {
      NothingLeft(s.rest);
      schedule, s' := [], s;
      NothingHeld(s, held);
    } else {
      var t := SomeoneLeft(s.rest);
      var bound := BoundExists(s.locks);
      var u := SomeoneSteps(s, held, t, bound);
      var next := StepTracks(s, held, u);
      TotalDrops(s.rest, u);
      var more;
      more, s' := Completes(Step(s, u), next);
      schedule := [u] + more;
      assert schedule[1..] == more;
    }
  }

  lemma {:induction false} SomeoneLeft(rest: seq<seq<Op>>) returns (t: nat)
    requires Total(rest) > 0
    ensures t < |rest| && rest[t] != []
  {
    if rest[0] != [] {
      t := 0;
    } else {
      t := SomeoneLeft(rest[1..]);
      t := t + 1;
    }
  }

  // ----- The order is needed -----

  ghost predicate Stuck(s: State) {
    (exists t :: !Finished(s, t)) && forall t :: !CanStep(s, t)
  }

  function Programs(threads: seq<seq<Section>>): seq<seq<Op>> {
    seq(|threads|, t requires 0 <= t < |threads| => Program(threads[t]))
  }

  /** Beside any number of other threads, which enter one section after the other, the thread cannot get into a deadlock. */
  ghost predicate DeadlockFree(sections: seq<Section>) {
    forall others: seq<seq<Section>>, schedule, s ::
      (forall o :: o in others ==> Flat(o)) && Run(Start([Program(sections)] + Programs(others)), schedule, s) ==> !Stuck(s)
  }

  /** The program, begun with `held` locks, comes to take `l` while it holds `h` above it and does not hold `l`. */
  ghost predicate Stumbles(ops: seq<Op>, held: multiset<Lock>, l: Lock, h: Lock) {
    ops != [] &&
    match ops[0]
    case Acquire(k) => (k == l && l !in held && h in held && 0 < l < h) || Stumbles(ops[1..], held + multiset{k}, l, h)
    case Release(k) => k in held && Stumbles(ops[1..], held - multiset{k}, l, h)
  }

  lemma StumbleStep(op: Op, rest: seq<Op>, held: multiset<Lock>, l: Lock, h: Lock)
    requires if op.Acquire? then Stumbles(rest, held + multiset{op.lock}, l, h)
             else op.lock in held && Stumbles(rest, held - multiset{op.lock}, l, h)
    ensures Stumbles([op] + rest, held, l, h)
  {
    assert ([op] + rest)[1..] == rest;
  }

  lemma StumbleLater(k: Lock, rest: seq<Op>, held: multiset<Lock>, l: Lock, h: Lock)
    ensures Stumbles(rest, With(held, k), l, h) ==> Stumbles(One(k, Acquire(k)) + rest, held, l, h)
    ensures Stumbles(rest, held, l, h) ==> Stumbles(One(k, Release(k)) + rest, With(held, k), l, h)
  {
    hide Stumbles;
    if k == 0 {
      assert [] + rest == rest;
    } else {
      assert held + multiset{k} - multiset{k} == held;
      if Stumbles(rest, With(held, k), l, h) {
        StumbleStep(Acquire(k), rest, held, l, h);
      }
      if Stumbles(rest, held, l, h) {
        StumbleStep(Release(k), rest, With(held, k), l, h);
      }
    }
  }

  lemma EnterStumbles(a: Lock, b: Lock, rest: seq<Op>, held: multiset<Lock>, l: Lock, h: Lock)
    requires Stumbles(rest, Under(held, a, b), l, h)
    ensures Stumbles(Lock2(a, b) + rest, held, l, h)
  {
    hide Stumbles;
    var (x, y) := Sorted(a, b);
    if x == y {
      assert Lock2(a, b) + rest == One(x, Acquire(x)) + rest;
      StumbleLater(x, rest, held, l, h);
    } else {
      assert Lock2(a, b) + rest == One(x, Acquire(x)) + (One(y, Acquire(y)) + rest);
      assert With(With(held, x), y) == Under(held, a, b);
      StumbleLater(y, rest, With(held, x), l, h);
      StumbleLater(x, One(y, Acquire(y)) + rest, held, l, h);
    }
  }

  lemma LeaveStumbles(a: Lock, b: Lock, rest: seq<Op>, held: multiset<Lock>, l: Lock, h: Lock)
    requires Stumbles(rest, held, l, h)
    ensures Stumbles(Unlock2(a, b) + rest, Under(held, a, b), l, h)
  {
    hide Stumbles;
    var (x, y) := Sorted(a, b);
    if x == y {
      assert Unlock2(a, b) + rest == One(x, Release(x)) + rest;
      StumbleLater(x, rest, held, l, h);
    } else {
      assert Unlock2(a, b) + rest == One(y, Release(y)) + (One(x, Release(x)) + rest);
      assert With(With(held, x), y) == Under(held, a, b);
      StumbleLater(x, rest, held, l, h);
      StumbleLater(y, One(x, Release(x)) + rest, With(held, x), l, h);
    }
  }

  lemma StumbleNow(k: Lock, rest: seq<Op>, held: multiset<Lock>) returns (l: Lock, h: Lock)
    requires !Fits(k, held)
    ensures Stumbles(One(k, Acquire(k)) + rest, held, l, h)
  {
    l := k;
    h :| h in held && h > k;
  }

  lemma TwoStumble(a: Lock, b: Lock, rest: seq<Op>, held: multiset<Lock>) returns (l: Lock, h: Lock)
    requires !Fits(a, held) || !Fits(b, held)
    ensures Stumbles(Lock2(a, b) + rest, held, l, h)
  {
    var (x, y) := Sorted(a, b);
    if x == y {
      assert Lock2(a, b) + rest == One(x, Acquire(x)) + rest;
      l, h := StumbleNow(x, rest, held);
    } else {
      assert Lock2(a, b) + rest == One(x, Acquire(x)) + (One(y, Acquire(y)) + rest);
      if !Fits(x, held) {
        l, h := StumbleNow(x, One(y, Acquire(y)) + rest, held);
      } else {
        FitsSecond(x, y, held);
        l, h := StumbleNow(y, rest, With(held, x));
        StumbleLater(x, One(y, Acquire(y)) + rest, held, l, h);
      }
    }
  }

  /** Sections that are not in order come to a lock below one that is held, or what follows them does. */
  lemma {:induction false} SectionsStumble(sections: seq<Section>, rest: seq<Op>, held: multiset<Lock>) returns (l: Lock, h: Lock)
    requires !InOrder(sections, held)
    ensures Stumbles(Program(sections) + rest, held, l, h)
  {
    hide Stumbles;
    var s, more := sections[0], Program(sections[1..]) + rest;
    var inner := Program(s.inside) + (Unlock2(s.a, s.b) + more);
    assert Program(sections) + rest == Lock2(s.a, s.b) + inner;
    if !Fits(s.a, held) || !Fits(s.b, held) {
      l, h := TwoStumble(s.a, s.b, inner, held);
    } else if !InOrder(s.inside, Under(held, s.a, s.b)) {
      l, h := SectionsStumble(s.inside, Unlock2(s.a, s.b) + more, Under(held, s.a, s.b));
      EnterStumbles(s.a, s.b, inner, held, l, h);
    } else {
      l, h := SectionsStumble(sections[1..], rest, held);
      LeaveStumbles(s.a, s.b, more, held, l, h);
      PassStumbles(s.inside, Unlock2(s.a, s.b) + more, Under(held, s.a, s.b), l, h);
      EnterStumbles(s.a, s.b, inner, held, l, h);
    }
  }

  lemma {:induction false} PassStumbles(sections: seq<Section>, rest: seq<Op>, held: multiset<Lock>, l: Lock, h: Lock)
    requires Stumbles(rest, held, l, h)
    ensures Stumbles(Program(sections) + rest, held, l, h)
  {
    hide Stumbles;
    if sections == [] {
      assert Program(sections) + rest == rest;
    } else {
      var s, more := sections[0], Program(sections[1..]) + rest;
      assert Program(sections) + rest == Lock2(s.a, s.b) + (Program(s.inside) + (Unlock2(s.a, s.b) + more));
      PassStumbles(sections[1..], rest, held, l, h);
      LeaveStumbles(s.a, s.b, more, held, l, h);
      PassStumbles(s.inside, Unlock2(s.a, s.b) + more, Under(held, s.a, s.b), l, h);
      EnterStumbles(s.a, s.b, Program(s.inside) + (Unlock2(s.a, s.b) + more), held, l, h);
    }
  }

  /** All that is held is held by thread 0. */
  ghost predicate Alone(s: State, held: multiset<Lock>) {
    && (forall k {:trigger held[k]} :: held[k] == Times(s, 0, k))
    && forall k {:trigger s.locks[k]} :: k in s.locks ==> s.locks[k].owner == 0 && s.locks[k].count > 0
  }

  lemma AloneCan(s: State, held: multiset<Lock>)
    requires Alone(s, held) && |s.rest| > 0 && s.rest[0] != [] && (s.rest[0][0].Release? ==> s.rest[0][0].lock in held)
    ensures CanStep(s, 0)
  {
    var k := s.rest[0][0].lock;
    assert held[k] == Times(s, 0, k);
  }

  lemma AloneStep(s: State, held: multiset<Lock>)
    requires Alone(s, held) && |s.rest| > 0 && s.rest[0] != [] && (s.rest[0][0].Release? ==> s.rest[0][0].lock in held)
    ensures CanStep(s, 0)
    ensures var k := s.rest[0][0].lock;
            Alone(Step(s, 0), if s.rest[0][0].Acquire? then held + multiset{k} else held - multiset{k})
  {
    hide Times;
    var k := s.rest[0][0].lock;
    AloneCan(s, held);
    var held' := if s.rest[0][0].Acquire? then held + multiset{k} else held - multiset{k};
    forall j
      ensures held'[j] == Times(Step(s, 0), 0, j)
    {
      TimesStep(s, 0, 0, j);
      assert held[j] == Times(s, 0, j);
    }
  }

  /** The first thread goes on until it wants `l`; the other one takes `l` and then wants `h`. */
  lemma {:induction false} Block(s: State, held: multiset<Lock>, l: Lock, h: Lock) returns (schedule: seq<nat>, s': State)
    requires |s.rest| == 2 && Stumbles(s.rest[0], held, l, h) && Alone(s, held)
    requires s.rest[1] == [Acquire(l), Acquire(h), Release(h), Release(l)]
    ensures Run(s, schedule, s') && Stuck(s')
    decreases |s.rest[0]|
  {
    var k := s.rest[0][0].lock;
    if s.rest[0][0].Acquire? && k == l && l !in held && h in held && l < h {
      assert held[l] == Times(s, 0, l) && held[h] == Times(s, 0, h);
      schedule, s' := [1], Step(s, 1);
      assert Run(s', [], s') && [1][1..] == [];
      assert !Finished(s', 0);
    } else {
      AloneStep(s, held);
      var held' := if s.rest[0][0].Acquire? then held + multiset{k} else held - multiset{k};
      var more;
      more, s' := Block(Step(s, 0), held', l, h);
      schedule := [0] + more;
      assert schedule[1..] == more;
    }
  }

  /** A thread of sections inside of each other cannot get into a deadlock beside threads of plain sections if and only if
      its sections are in order: whatever it locks inside of other sections is held already or above all that is held. */
  lemma ExactOrder(sections: seq<Section>)
    ensures DeadlockFree(sections) <==> InOrder(sections, multiset{})
  {
    if InOrder(sections, multiset{}) {
      forall others: seq<seq<Section>>, schedule, s |
        (forall o :: o in others ==> Flat(o)) && Run(Start([Program(sections)] + Programs(others)), schedule, s)
        ensures !Stuck(s)
      {
        OrderSuffices(sections, others, schedule, s);
      }
    } else {
      var l, h := SectionsStumble(sections, [], multiset{});
      assert Program(sections) + [] == Program(sections);
      NotFree(sections, l, h);
    }
  }

  lemma OrderSuffices(sections: seq<Section>, others: seq<seq<Section>>, schedule: seq<nat>, s: State)
    requires InOrder(sections, multiset{}) && forall o :: o in others ==> Flat(o)
    requires Run(Start([Program(sections)] + Programs(others)), schedule, s)
    ensures !Stuck(s)
  {
    hide Run, Ascending;
    var programs := [Program(sections)] + Programs(others);
    BesideFlat(sections, others);
    if t :| !Finished(s, t) {
      var u := NoDeadlock(programs, schedule, s, t);
    }
  }

  lemma BesideFlat(sections: seq<Section>, others: seq<seq<Section>>)
    requires InOrder(sections, multiset{}) && forall o :: o in others ==> Flat(o)
    ensures AllAscending([Program(sections)] + Programs(others))
  {
    hide Program, InOrder, Ascending, Flat;
    SectionsAscend(sections);
    forall o | o in others
      ensures Ascending(Program(o), multiset{})
    {
      FlatInOrder(o);
      SectionsAscend(o);
    }
    assert forall p :: p in Programs(others) ==> exists o :: o in others && p == Program(o);
  }

  lemma NotFree(sections: seq<Section>, l: Lock, h: Lock)
    requires Stumbles(Program(sections), multiset{}, l, h)
    ensures !DeadlockFree(sections)
  {
    StumbleOn(Program(sections), multiset{}, l, h);
    var other := [Section(l, h, [])];
    var others := [other];
    assert Program(other[1..]) == [];
    assert Program(other) == [Acquire(l), Acquire(h), Release(h), Release(l)];
    var s := Start([Program(sections)] + Programs(others));
    var schedule, s' := Block(s, multiset{}, l, h);
    assert forall o :: o in others ==> Flat(o);
    assert Run(Start([Program(sections)] + Programs(others)), schedule, s') && Stuck(s');
  }

  lemma {:induction false} StumbleOn(ops: seq<Op>, held: multiset<Lock>, l: Lock, h: Lock)
    requires Stumbles(ops, held, l, h)
    ensures 0 < l < h
    decreases |ops|
  {
    var k := ops[0].lock;
    if !(ops[0].Acquire? && k == l && l !in held && h in held && 0 < l < h) {
      StumbleOn(ops[1..], if ops[0].Acquire? then held + multiset{k} else held - multiset{k}, l, h);
    }
  }

  /** So the promise fails for a section inside of another one under a lower lock: the first thread takes 2 and wants 1
      inside, the second one takes 1 and wants 2. */
  lemma NestedDeadlock() returns (s: State)
    ensures Run(Start([Program([Section(2, 2, [Section(1, 1, [])])]), Program([Section(1, 2, [])])]), [0, 1], s) && Stuck(s)
  {
    var inner := [Section(1, 1, [])];
    var outer := [Section(2, 2, inner)];
    var other := [Section(1, 2, [])];
    assert inner[1..] == [] && outer[1..] == [] && other[1..] == [];
    assert Program(inner) == [Acquire(1), Release(1)];
    assert Program(outer) == [Acquire(2), Acquire(1), Release(1), Release(2)];
    assert Program(other) == [Acquire(1), Acquire(2), Release(2), Release(1)];
    var s0 := Start([Program(outer), Program(other)]);
    var s1 := Step(s0, 0);
    s := Step(s1, 1);
    assert [0, 1][1..] == [1] && [1][1..] == [];
    assert Run(s1, [1], s);
    assert !Finished(s, 0);
  }
}
