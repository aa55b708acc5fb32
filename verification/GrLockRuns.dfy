/** Whole histories on the granularity lock's own data: every thread that has to wait owns
    one waiter record, and runs the sections of the code with it. */
module GrLockRuns {
  import opened GrLockModel
  import opened GrLocks

  /** The records of the blocked threads are the waiters in the list, thread by thread. */
  ghost predicate Aligned(records: map<nat, Waiter>, threads: seq<nat>, queue: seq<Waiter>) {
    && |threads| == |queue|
    && forall i :: 0 <= i < |threads| ==> threads[i] in records && records[threads[i]] == queue[i]
  }

  /** The lock's data and the threads' records and holds show the state s. */
  ghost predicate Mirrors(g: GrLock, records: map<nat, Waiter>, threads: seq<nat>, held: seq<Grant>, s: System)
    reads g, g.counts, g.queue
  {
    && g.Valid() && g.State() == s.lock
    && threads == s.waiting && held == s.grants
    && Aligned(records, threads, g.queue)
  }

  lemma RecordAdded(records: map<nat, Waiter>, threads: seq<nat>, queue: seq<Waiter>, t: nat, w: Waiter)
    requires Aligned(records, threads, queue) && t !in Members(threads)
    ensures Aligned(records[t := w], threads + [t], queue + [w])
  {
    assert forall i :: 0 <= i < |threads| ==> threads[i] in Members(threads);
  }

  lemma RecordDropped(records: map<nat, Waiter>, threads: seq<nat>, queue: seq<Waiter>, i: nat)
    requires Aligned(records, threads, queue) && i < |threads|
    ensures i < |queue| && Aligned(records, Drop(threads, i), queue[..i] + queue[i + 1..])
  {
  }

  /** A lock call up to its return or its first wait. */
  method DoRequest(g: GrLock, records: map<nat, Waiter>, threads: seq<nat>, held: seq<Grant>,
                   t: nat, m: Mode, ghost s: System)
    returns (records': map<nat, Waiter>, threads': seq<nat>, held': seq<Grant>)
    requires Mirrors(g, records, threads, held, s) && Inv(s) && Enabled(s, Request(t, m))
    modifies g, g.counts, g.queue
    ensures Mirrors(g, records', threads', held', Next(s, Request(t, m)))
    ensures forall w :: w in g.queue ==> w in old(g.queue) || fresh(w)
  {
    hide Linked, Shows, Joins, Aligned, CountsRight, PairwiseCompatible, NoLostWakeup, GrLock.Valid;
    var w := g.LockSection(m);
    if w == null {
      records', threads', held' := records, threads, held + [Grant(t, m)];
    } else {
      RecordAdded(records, threads, old(g.queue), t, w);
      records', threads', held' := records[t := w], threads + [t], held;
    }
  }

  /** The blocked thread at a place of the list looks again with its own record. */
  method DoRetry(g: GrLock, records: map<nat, Waiter>, threads: seq<nat>, held: seq<Grant>, place: nat, ghost s: System)
    returns (threads': seq<nat>, held': seq<Grant>)
    requires Mirrors(g, records, threads, held, s) && Enabled(s, Retry(place))
    modifies g, g.counts, g.queue
    ensures Mirrors(g, records, threads', held', Next(s, Retry(place)))
    ensures forall w :: w in g.queue ==> w in old(g.queue)
  {
    hide Linked, Joins, GrLock.Valid;
    g.QueueShown();
    RecordDropped(records, threads, g.queue, place);
    var t := threads[place];
    var w := records[t];
    var acquired := g.WakeSection(w, place);
    if acquired {
      threads', held' := threads[..place] + threads[place + 1..], held + [Grant(t, w.mode)];
    } else {
      threads', held' := threads, held;
    }
  }

  method DoTry(g: GrLock, records: map<nat, Waiter>, threads: seq<nat>, held: seq<Grant>,
               t: nat, m: Mode, mutexFree: bool, ghost s: System)
    returns (held': seq<Grant>)
    requires Mirrors(g, records, threads, held, s) && Enabled(s, Try(t, m, mutexFree))
    modifies g.counts
    ensures Mirrors(g, records, threads, held', Next(s, Try(t, m, mutexFree)))
  {
    hide Linked, Shows, Joins, Aligned, GrLock.Valid;
    var r := g.TrySection(m, mutexFree);
    held' := if r then held + [Grant(t, m)] else held;
  }

  method DoUnlock(g: GrLock, records: map<nat, Waiter>, threads: seq<nat>, held: seq<Grant>, i: nat, ghost s: System)
    returns (held': seq<Grant>)
    requires Mirrors(g, records, threads, held, s) && Inv(s) && Enabled(s, Unlock(i))
    modifies g, g.counts, g.queue
    ensures g.queue == old(g.queue)
    ensures Mirrors(g, records, threads, held', Next(s, Unlock(i)))
  {
    hide Linked, Shows, Joins, Aligned, Inv, GrLock.Valid;
    HoldCounted(s, i);
    g.UnlockSection(held[i].mode);
    held' := held[..i] + held[i + 1..];
  }

  /** The history from place i on, one event unfolded. */
  lemma NextEvent(s: System, events: seq<Event>, i: nat)
    requires i < |events| && History(s, events[i..])
    ensures Enabled(s, events[i]) && History(Next(s, events[i]), events[i + 1..])
    ensures After(s, events[i..]) == After(Next(s, events[i]), events[i + 1..])
  {
    assert events[i..][1..] == events[i + 1..];
  }

  lemma LastEvent(s: System, events: seq<Event>)
    requires History(s, events[|events|..])
    ensures After(s, events[|events|..]) == s
  {
  }

  /** For every history of any number of threads, the code's counts and waiter list go
      through the states of the state machine, with each blocked thread's own record at
      the thread's place of the list; so all that is proved of the reachable states holds
      of them. */
  method Drive(events: seq<Event>)
    returns (g: GrLock, records: map<nat, Waiter>, threads: seq<nat>, held: seq<Grant>)
    requires History(AtStart(), events)
    ensures var s := After(AtStart(), events);
            && Inv(s) && g.Valid() && g.State() == s.lock && threads == s.waiting && held == s.grants
            && |threads| == |g.queue|
            && forall i :: 0 <= i < |threads| ==> threads[i] in records && records[threads[i]] == g.queue[i]
  {
    hide Mirrors, Inv, Enabled, Next, History, After;
    g := new GrLock();
    ghost var s := AtStart();
    records, threads, held := map[], [], [];
    Started(g);
    StartInv(s);
    var i := 0;
    assert events[0..] == events;
    while i < |events|
      invariant i <= |events| && fresh(g) && fresh(g.counts) && fresh(g.queue)
      invariant Mirrors(g, records, threads, held, s) && Inv(s)
      invariant History(s, events[i..]) && After(s, events[i..]) == After(AtStart(), events)
    {
      NextEvent(s, events, i);
      InvStep(s, events[i]);
      ghost var before := g.queue;
      match events[i] {
        case Request(t, m) =>
          records, threads, held := DoRequest(g, records, threads, held, t, m, s);
          assert forall j :: 0 <= j < |g.queue| ==> g.queue[j] in before || fresh(g.queue[j]);
        case Retry(place) =>
          threads, held := DoRetry(g, records, threads, held, place, s);
          assert forall j :: 0 <= j < |g.queue| ==> g.queue[j] in before;
        case Try(t, m, free) =>
          held := DoTry(g, records, threads, held, t, m, free, s);
        case Unlock(k) =>
          held := DoUnlock(g, records, threads, held, k, s);
      }
      s := Next(s, events[i]);
      i := i + 1;
    }
    LastEvent(s, events);
    Mirrored(g, records, threads, held, s);
  }

  lemma Mirrored(g: GrLock, records: map<nat, Waiter>, threads: seq<nat>, held: seq<Grant>, s: System)
    requires Mirrors(g, records, threads, held, s)
    ensures g.Valid() && g.State() == s.lock && threads == s.waiting && held == s.grants
    ensures |threads| == |g.queue|
    ensures forall i :: 0 <= i < |threads| ==> threads[i] in records && records[threads[i]] == g.queue[i]
  {
  }

  /** Two intentions to write parts of what lies below, one after the other. */
  method TwoIntentions() returns (first: bool, second: bool)
    ensures first && second
  {
    var g := new GrLock();
    first := g.TrySection(IX, true);
    assert g.State().counts == [0, 1, 0, 0, 0];
    second := g.TrySection(IX, true);
  }

  lemma Started(g: GrLock)
    requires g.Valid() && g.State() == Lock([0, 0, 0, 0, 0], []) && g.queue == []
    ensures Mirrors(g, map[], [], [], AtStart())
  {
  }
}
