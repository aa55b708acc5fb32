/** The granularity lock as a state machine: each section of code that runs under
    the lock's mutex is one step. */
module GrLockModel {

  datatype Mode = IS | IX | S | SIX | X

  const LM_COUNT: nat := 5

  function Index(m: Mode): (i: nat)
    ensures i < LM_COUNT
  {
    match m
    case IS => 0
    case IX => 1
    case S => 2
    case SIX => 3
    case X => 4
  }

  function ModeOf(i: nat): (m: Mode)
    requires i < LM_COUNT
    ensures Index(m) == i
  {
    match i
    case 0 => IS
    case 1 => IX
    case 2 => S
    case 3 => SIX
    case _ => X
  }

  /** The compatibility matrix, row by row. */
  function Compatible(a: Mode, b: Mode): bool {
    match a
    case IS => b != X
    case IX => b == IS || b == IX
    case S => b == IS || b == S
    case SIX => b == IS
    case X => false
  }

  /** Mode m can join the holders counted. */
  ghost predicate Joins(counts: seq<nat>, m: Mode)
    requires |counts| == LM_COUNT
  {
    forall h: Mode :: counts[Index(h)] > 0 ==> Compatible(m, h)
  }

  /** A blocked request; signalled says that it has been woken since it last looked. */
  datatype Wait = Wait(mode: Mode, signalled: bool)

  datatype Lock = Lock(counts: seq<nat>, waits: seq<Wait>)

  ghost predicate WellFormed(l: Lock) {
    |l.counts| == LM_COUNT
  }

  ghost function Granted(l: Lock, m: Mode): Lock
    requires WellFormed(l)
  {
    l.(counts := l.counts[Index(m) := l.counts[Index(m)] + 1])
  }

  ghost function Without(waits: seq<Wait>, i: nat): seq<Wait>
    requires i < |waits|
  {
    waits[..i] + waits[i + 1..]
  }

  /** The first section of a lock call: grant at once or join the waiters. */
  ghost function Enter(l: Lock, m: Mode): Lock
    requires WellFormed(l)
  {
    if Joins(l.counts, m) then Granted(l, m) else l.(waits := l.waits + [Wait(m, false)])
  }

  /** A waiter looks again, woken by a signal or for no reason. */
  ghost function Recheck(l: Lock, i: nat): Lock
    requires WellFormed(l) && i < |l.waits|
  {
    var m := l.waits[i].mode;
    if Joins(l.counts, m) then Granted(l, m).(waits := Without(l.waits, i))
    else l.(waits := l.waits[i := Wait(m, false)])
  }

  ghost function TryEnter(l: Lock, m: Mode): Lock
    requires WellFormed(l)
  {
    if Joins(l.counts, m) then Granted(l, m) else l
  }

  /** Signal every waiter that could join the holders now. */
  ghost function WakeAll(counts: seq<nat>, waits: seq<Wait>): (r: seq<Wait>)
    requires |counts| == LM_COUNT
    ensures |r| == |waits|
    ensures forall i :: 0 <= i < |waits| ==>
              r[i] == Wait(waits[i].mode, waits[i].signalled || Joins(counts, waits[i].mode))
  {
    seq(|waits|, i requires 0 <= i < |waits| =>
      Wait(waits[i].mode, waits[i].signalled || Joins(counts, waits[i].mode)))
  }

  ghost function Release(l: Lock, m: Mode): Lock
    requires WellFormed(l) && l.counts[Index(m)] > 0
  {
    var counts := l.counts[Index(m) := l.counts[Index(m)] - 1];
    Lock(counts, WakeAll(counts, l.waits))
  }

  // ------------------------------------------------------- the threads' system

  /** Who holds what, and which thread waits at which place of the list; tickets
      number the waiters by arrival. */
  datatype System = System(lock: Lock, grants: seq<Grant>, waiting: seq<nat>, tickets: seq<nat>, clock: nat,
                           blocked: set<nat>)

  datatype Grant = Grant(owner: nat, mode: Mode)

  datatype Event =
    | Request(t: nat, m: Mode)
    | Retry(place: nat)
    | Try(t: nat, m: Mode, mutexFree: bool)
    | Unlock(grant: nat)

  /** The lock, free, and no thread at it. */
  ghost function AtStart(): System {
    System(Lock([0, 0, 0, 0, 0], []), [], [], [], 0, {})
  }

  ghost predicate Start(s: System) {
    s == AtStart()
  }

  ghost predicate Enabled(s: System, e: Event) {
    && WellFormed(s.lock)
    && |s.lock.waits| == |s.waiting| == |s.tickets|
    && match e
       case Request(t, _) => t !in s.blocked
       case Retry(place) => place < |s.waiting|
       case Try(t, _, _) => t !in s.blocked
       case Unlock(g) => g < |s.grants|
  }

  ghost function Drop<T>(q: seq<T>, i: nat): seq<T>
    requires i < |q|
  {
    q[..i] + q[i + 1..]
  }

  ghost function Next(s: System, e: Event): System
    requires Enabled(s, e)
  {
    match e
    case Request(t, m) =>
      if Joins(s.lock.counts, m) then s.(lock := Enter(s.lock, m), grants := s.grants + [Grant(t, m)])
      else s.(lock := Enter(s.lock, m), waiting := s.waiting + [t], tickets := s.tickets + [s.clock],
              clock := s.clock + 1, blocked := s.blocked + {t})
    case Retry(i) =>
      var m := s.lock.waits[i].mode;
      if Joins(s.lock.counts, m) then
        System(Recheck(s.lock, i), s.grants + [Grant(s.waiting[i], m)], Drop(s.waiting, i), Drop(s.tickets, i),
               s.clock, s.blocked - {s.waiting[i]})
      else s.(lock := Recheck(s.lock, i))
    case Try(t, m, free) =>
      if free && Joins(s.lock.counts, m) then s.(lock := TryEnter(s.lock, m), grants := s.grants + [Grant(t, m)])
      else s
    case Unlock(g) =>
      // with nothing counted the code's assertion stops the program: UnlockNeverStops
      if s.lock.counts[Index(s.grants[g].mode)] == 0 then s
      else s.(lock := Release(s.lock, s.grants[g].mode), grants := Drop(s.grants, g))
  }

  ghost function Members(q: seq<nat>): set<nat> {
    set t | t in q
  }

  /** A history of events, each enabled where it happens. */
  ghost predicate History(s: System, events: seq<Event>)
    decreases |events|
  {
    events == [] || (Enabled(s, events[0]) && History(Next(s, events[0]), events[1..]))
  }

  ghost function After(s: System, events: seq<Event>): System
    requires History(s, events)
    decreases |events|
  {
    if events == [] then s else After(Next(s, events[0]), events[1..])
  }

  // ---------------------------------------------------------------- invariants

  ghost function HeldIn(grants: seq<Grant>, m: Mode): nat {
    if grants == [] then 0
    else HeldIn(grants[..|grants| - 1], m) + (if grants[|grants| - 1].mode == m then 1 else 0)
  }

  /** The counts are those of the outstanding grants. */
  ghost predicate CountsRight(s: System) {
    WellFormed(s.lock) && forall m: Mode :: s.lock.counts[Index(m)] == HeldIn(s.grants, m)
  }

  /** Any two distinct grants are compatible. */
  ghost predicate PairwiseCompatible(grants: seq<Grant>) {
    forall i, j :: 0 <= i < j < |grants| ==> Compatible(grants[i].mode, grants[j].mode)
  }

  /** Every waiter that could join the holders has been signalled since it last looked. */
  ghost predicate NoLostWakeup(l: Lock)
    requires WellFormed(l)
  {
    forall i :: 0 <= i < |l.waits| && Joins(l.counts, l.waits[i].mode) ==> l.waits[i].signalled
  }

  /** The list holds exactly the blocked threads, each once, in arrival order. */
  ghost predicate InArrivalOrder(s: System) {
    && |s.lock.waits| == |s.waiting| == |s.tickets|
    && s.blocked == Members(s.waiting)
    && (forall i, j :: 0 <= i < j < |s.waiting| ==> s.waiting[i] != s.waiting[j] && s.tickets[i] < s.tickets[j])
    && (forall i :: 0 <= i < |s.tickets| ==> s.tickets[i] < s.clock)
  }

  ghost predicate Inv(s: System) {
    CountsRight(s) && PairwiseCompatible(s.grants) && NoLostWakeup(s.lock) && InArrivalOrder(s)
  }

  lemma CompatibleSymmetric(a: Mode, b: Mode)
    ensures Compatible(a, b) == Compatible(b, a)
  {
  }

  lemma {:induction false} HeldPositive(grants: seq<Grant>, i: nat)
    requires i < |grants|
    ensures HeldIn(grants, grants[i].mode) > 0
  {
    if i < |grants| - 1 {
      HeldPositive(grants[..|grants| - 1], i);
    }
  }

  lemma HeldAppend(grants: seq<Grant>, g: Grant, m: Mode)
    ensures HeldIn(grants + [g], m) == HeldIn(grants, m) + (if g.mode == m then 1 else 0)
  {
    assert (grants + [g])[..|grants|] == grants;
  }

  lemma {:induction false} HeldDrop(grants: seq<Grant>, i: nat, m: Mode)
    requires i < |grants|
    ensures HeldIn(Drop(grants, i), m) == HeldIn(grants, m) - (if grants[i].mode == m then 1 else 0)
  {
    var n := |grants| - 1;
    if i == n {
      assert Drop(grants, i) == grants[..n];
    } else {
      HeldDrop(grants[..n], i, m);
      assert Drop(grants, i) == Drop(grants[..n], i) + [grants[n]];
      HeldAppend(Drop(grants[..n], i), grants[n], m);
    }
  }

  /** A mode that joins the counted holders is compatible with every grant. */
  lemma JoinsAll(s: System, g: Grant)
    requires CountsRight(s) && PairwiseCompatible(s.grants) && Joins(s.lock.counts, g.mode)
    ensures PairwiseCompatible(s.grants + [g])
  {
    forall i | 0 <= i < |s.grants| ensures Compatible(s.grants[i].mode, g.mode) {
      HeldPositive(s.grants, i);
      CompatibleSymmetric(s.grants[i].mode, g.mode);
    }
  }

  /** More holders let fewer modes join. */
  lemma GrantShrinks(l: Lock, m: Mode, w: Mode)
    requires WellFormed(l) && Joins(Granted(l, m).counts, w)
    ensures Joins(l.counts, w)
  {
    forall h: Mode | l.counts[Index(h)] > 0 ensures Compatible(w, h) {
      assert Granted(l, m).counts[Index(h)] > 0;
    }
  }

  lemma GrantCounts(s: System, g: Grant)
    requires CountsRight(s)
    ensures CountsRight(s.(lock := Granted(s.lock, g.mode), grants := s.grants + [g]))
  {
    forall m: Mode ensures Granted(s.lock, g.mode).counts[Index(m)] == HeldIn(s.grants + [g], m) {
      HeldAppend(s.grants, g, m);
      assert Index(m) == Index(g.mode) <==> m == g.mode;
    }
  }

  lemma GrantKeepsWakeups(l: Lock, m: Mode)
    requires WellFormed(l) && NoLostWakeup(l)
    ensures NoLostWakeup(Granted(l, m))
  {
    forall i | 0 <= i < |l.waits| && Joins(Granted(l, m).counts, l.waits[i].mode) ensures l.waits[i].signalled {
      GrantShrinks(l, m, l.waits[i].mode);
    }
  }

  lemma DropOrder(s: System, i: nat)
    requires InArrivalOrder(s) && i < |s.waiting|
    ensures var t := s.(waiting := Drop(s.waiting, i), tickets := Drop(s.tickets, i),
                        blocked := s.blocked - {s.waiting[i]}, lock := s.lock.(waits := Without(s.lock.waits, i)));
            InArrivalOrder(t)
  {
    DropMembers(s.waiting, i);
  }

  lemma DropMembers(q: seq<nat>, i: nat)
    requires i < |q| && forall j, k :: 0 <= j < k < |q| ==> q[j] != q[k]
    ensures Members(Drop(q, i)) == Members(q) - {q[i]}
  {
    assert q == q[..i] + [q[i]] + q[i + 1..];
  }

  lemma RequestKeeps(s: System, t: nat, m: Mode)
    requires Inv(s) && Enabled(s, Request(t, m))
    ensures Inv(Next(s, Request(t, m)))
  {
    hide Joins, HeldIn, Granted;
    if Joins(s.lock.counts, m) {
      GrantCounts(s, Grant(t, m));
      JoinsAll(s, Grant(t, m));
      GrantKeepsWakeups(s.lock, m);
      GrantWaits(s.lock, m);
    } else {
      assert Members(s.waiting + [t]) == s.blocked + {t};
    }
  }

  lemma GrantWaits(l: Lock, m: Mode)
    requires WellFormed(l)
    ensures WellFormed(Granted(l, m)) && Granted(l, m).waits == l.waits
  {
  }

  lemma RetryKeeps(s: System, i: nat)
    requires Inv(s) && Enabled(s, Retry(i))
    ensures Inv(Next(s, Retry(i)))
  {
    hide Joins, HeldIn, Granted;
    var m := s.lock.waits[i].mode;
    if Joins(s.lock.counts, m) {
      GrantCounts(s, Grant(s.waiting[i], m));
      JoinsAll(s, Grant(s.waiting[i], m));
      GrantKeepsWakeups(s.lock, m);
      GrantWaits(s.lock, m);
      DropOrder(s, i);
    }
  }

  lemma TryKeeps(s: System, t: nat, m: Mode, free: bool)
    requires Inv(s) && Enabled(s, Try(t, m, free))
    ensures Inv(Next(s, Try(t, m, free)))
  {
    hide Joins, HeldIn, Granted;
    if free && Joins(s.lock.counts, m) {
      GrantCounts(s, Grant(t, m));
      JoinsAll(s, Grant(t, m));
      GrantKeepsWakeups(s.lock, m);
      GrantWaits(s.lock, m);
    }
  }

  /** What is held is counted. */
  lemma HoldCounted(s: System, g: nat)
    requires Inv(s) && g < |s.grants|
    ensures s.lock.counts[Index(s.grants[g].mode)] > 0
  {
    HeldPositive(s.grants, g);
  }

  lemma UnlockKeeps(s: System, g: nat)
    requires Inv(s) && Enabled(s, Unlock(g))
    ensures Inv(Next(s, Unlock(g)))
  {
    hide Joins, HeldIn;
    HoldCounted(s, g);
    var s' := Next(s, Unlock(g));
    var held := s.grants[g].mode;
    forall m: Mode ensures s'.lock.counts[Index(m)] == HeldIn(s'.grants, m) {
      HeldDrop(s.grants, g, m);
      assert Index(m) == Index(held) <==> m == held;
    }
  }

  lemma InvStep(s: System, e: Event)
    requires Inv(s) && Enabled(s, e)
    ensures Inv(Next(s, e))
  {
    hide Inv, Enabled, Next;
    match e {
      case Request(t, m) => RequestKeeps(s, t, m);
      case Retry(i) => RetryKeeps(s, i);
      case Try(t, m, free) => TryKeeps(s, t, m, free);
      case Unlock(g) => UnlockKeeps(s, g);
    }
  }

  /** The invariant holds after every history of any number of threads. */
  lemma {:induction false} InvAlways(s: System, events: seq<Event>)
    requires Inv(s) && History(s, events)
    ensures Inv(After(s, events))
    decreases |events|
  {
    hide Inv, Enabled, Next;
    if events != [] {
      InvStep(s, events[0]);
      InvAlways(Next(s, events[0]), events[1..]);
    }
  }

  lemma StartInv(s: System)
    requires Start(s)
    ensures Inv(s)
  {
  }

  /** The assertion of an unlock call holds whenever a hold is given back. */
  lemma UnlockNeverStops(s: System, events: seq<Event>, g: nat)
    requires Start(s) && History(s, events) && g < |After(s, events).grants|
    ensures WellFormed(After(s, events).lock)
    ensures After(s, events).lock.counts[Index(After(s, events).grants[g].mode)] > 0
  {
    hide After, History;
    StartInv(s);
    InvAlways(s, events);
    HoldCounted(After(s, events), g);
  }

  /** In every reachable state two distinct grants are compatible by the matrix;
      so an exclusive grant stands alone and there is at most one SIX. */
  lemma ReachableGrants(s: System, events: seq<Event>, i: nat, j: nat)
    requires Start(s) && History(s, events)
    requires i < |After(s, events).grants| && j < |After(s, events).grants| && i != j
    ensures Compatible(After(s, events).grants[i].mode, After(s, events).grants[j].mode)
    ensures After(s, events).grants[i].mode != X
    ensures !(After(s, events).grants[i].mode == SIX && After(s, events).grants[j].mode == SIX)
  {
    hide After, History;
    StartInv(s);
    InvAlways(s, events);
    var g := After(s, events).grants;
    CompatibleSymmetric(g[i].mode, g[j].mode);
  }

  /** No wakeup is lost: in every reachable state each waiter that could join has
      been signalled; with no holders left, every waiter has been, and the retry of
      any of them acquires the lock. */
  lemma WaitersGetOn(s: System, events: seq<Event>, i: nat)
    requires Start(s) && History(s, events)
    requires i < |After(s, events).lock.waits|
    ensures WellFormed(After(s, events).lock)
    ensures Joins(After(s, events).lock.counts, After(s, events).lock.waits[i].mode) ==>
              After(s, events).lock.waits[i].signalled
    ensures After(s, events).grants == [] ==>
              && After(s, events).lock.waits[i].signalled
              && Enabled(After(s, events), Retry(i))
              && |Next(After(s, events), Retry(i)).grants| == 1
  {
    hide After, History;
    StartInv(s);
    InvAlways(s, events);
  }
}
