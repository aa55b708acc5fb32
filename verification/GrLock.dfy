/** The granularity lock's data as the code keeps it: an array of holder counts and
    a doubly linked list of waiters. Every mutex-protected section is a method,
    proved to be one step of the state machine. */
module GrLocks {
  import opened GrLockModel

  /** A blocked request, living on the stack of the thread that waits; signalled
      stands for a signal of its condition variable since it last looked. */
  class Waiter {
    const mode: Mode
    var signalled: bool
    var prev: Waiter?
    var next: Waiter?

    constructor (mode: Mode)
      ensures this.mode == mode && !signalled && prev == null && next == null
    {
      this.mode := mode;
      signalled, prev, next := false, null, null;
    }
  }

  /** queue is the doubly linked list from head on. */
  ghost predicate Linked(head: Waiter?, queue: seq<Waiter>)
    reads queue`prev, queue`next
  {
    && head == (if queue == [] then null else queue[0])
    && (queue != [] ==> queue[0].prev == null && queue[|queue| - 1].next == null)
    && (forall i {:trigger queue[i].next} :: 0 <= i < |queue| - 1 ==> queue[i].next == queue[i + 1])
    && (forall i {:trigger queue[i].prev} :: 1 <= i < |queue| ==> queue[i].prev == queue[i - 1])
    && (forall i, j :: 0 <= i < j < |queue| ==> queue[i] != queue[j])
  }

  /** The waiters of queue, as the state machine sees them. */
  ghost predicate Shows(queue: seq<Waiter>, waits: seq<Wait>)
    reads queue`signalled
  {
    && |queue| == |waits|
    && forall i :: 0 <= i < |queue| ==> waits[i] == Wait(queue[i].mode, queue[i].signalled)
  }

  /** Take w, the waiter at place i, out of the list; the new head is returned. */
  method Unlink(head: Waiter?, w: Waiter, ghost queue: seq<Waiter>, ghost i: nat) returns (newHead: Waiter?)
    requires Linked(head, queue) && i < |queue| && w == queue[i]
    modifies queue`next, queue`prev
    ensures Linked(newHead, queue[..i] + queue[i + 1..])
  {
    assert i > 0 ==> queue[i].prev == queue[i - 1];
    assert i + 1 < |queue| ==> queue[i].next == queue[i + 1];
    newHead := head;
    if w.prev != null {
      w.prev.next := w.next;
    } else {
      assert head == w;
      newHead := w.next;
    }
    if w.next != null {
      w.next.prev := w.prev;
    }
  }

  lemma ShowsRemoved(queue: seq<Waiter>, waits: seq<Wait>, i: nat)
    requires Shows(queue, waits) && i < |queue|
    ensures |waits| == |queue| && Shows(queue[..i] + queue[i + 1..], Without(waits, i))
  {
  }

  /** The waiters when the first i of them have been looked at for waking. */
  ghost function PartWoken(counts: seq<nat>, waits: seq<Wait>, i: nat): seq<Wait>
    requires |counts| == LM_COUNT && i <= |waits|
  {
    WakeAll(counts, waits)[..i] + waits[i..]
  }

  lemma WakeEnds(counts: seq<nat>, waits: seq<Wait>)
    requires |counts| == LM_COUNT
    ensures PartWoken(counts, waits, 0) == waits
    ensures PartWoken(counts, waits, |waits|) == WakeAll(counts, waits)
  {
  }

  lemma WakeNext(counts: seq<nat>, waits: seq<Wait>, i: nat)
    requires |counts| == LM_COUNT && i < |waits|
    ensures var part := PartWoken(counts, waits, i);
            && |part| == |waits| && part[i] == waits[i]
            && PartWoken(counts, waits, i + 1)
            == if Joins(counts, waits[i].mode) then part[i := Wait(waits[i].mode, true)] else part
  {
    hide Joins;
  }

  class GrLock {
    const counts: array<nat>
    var head: Waiter?
    ghost var queue: seq<Waiter>
    ghost var waits: seq<Wait>

    ghost predicate Valid()
      reads this, counts, queue
    {
      counts.Length == LM_COUNT && Linked(head, queue) && Shows(queue, waits)
    }

    /** The state of the lock in the state machine. */
    ghost function State(): Lock
      reads this, counts
    {
      Lock(counts[..], waits)
    }

    constructor ()
      ensures Valid() && State() == Lock([0, 0, 0, 0, 0], []) && fresh(counts) && queue == []
    {
      counts := new nat[LM_COUNT](_ => 0);
      head, queue, waits := null, [], [];
    }

    method IsCompatible(mode: Mode) returns (r: bool)
      requires Valid()
      ensures r <==> Joins(counts[..], mode)
    {
      for i := 0 to LM_COUNT
        invariant forall h: Mode :: Index(h) < i && counts[Index(h)] > 0 ==> Compatible(mode, h)
      {
        if counts[i] > 0 && !Compatible(mode, ModeOf(i)) {
          assert counts[..][Index(ModeOf(i))] > 0;
          return false;
        }
        assert forall h: Mode :: Index(h) == i ==> h == ModeOf(i);
      }
      return true;
    }

    method Count(mode: Mode)
      requires Valid()
      modifies counts
      ensures Valid() && State() == Granted(old(State()), mode)
    {
      counts[Index(mode)] := counts[Index(mode)] + 1;
    }

    /** Walk to the end of the list and link the new waiter there. */
    method Append(w: Waiter)
      requires Valid() && w !in queue && !w.signalled && w.prev == null && w.next == null
      modifies this`head, this`queue, this`waits, queue`next, w`prev
      ensures Valid() && queue == old(queue) + [w]
      ensures waits == old(waits) + [Wait(w.mode, false)]
    {
      if head == null {
        head := w;
      } else {
        var last := head;
        ghost var i := 0;
        while last.next != null
          invariant i < |queue| && last == queue[i]
          decreases |queue| - i
        {
          assert i + 1 < |queue|;
          last := last.next;
          i := i + 1;
        }
        AtEnd(i);
        last.next := w;
        w.prev := last;
      }
      queue, waits := queue + [w], waits + [Wait(w.mode, false)];
    }

    /** The list's last node is the only one without a successor. */
    lemma AtEnd(i: nat)
      requires Valid() && i < |queue|
      ensures queue[i].next == if i + 1 < |queue| then queue[i + 1] else null
      ensures waits[i] == Wait(queue[i].mode, queue[i].signalled)
    {
    }

    /** Unlink a waiter that has got the lock. */
    method Remove(w: Waiter, ghost i: nat)
      requires Valid() && i < |queue| && w == queue[i]
      modifies this`head, this`queue, this`waits, queue`next, queue`prev
      ensures Valid() && queue == old(queue)[..i] + old(queue)[i + 1..]
      ensures waits == Without(old(waits), i)
    {
      hide Linked, Shows;
      head := Unlink(head, w, queue, i);
      ShowsRemoved(queue, waits, i);
      queue, waits := queue[..i] + queue[i + 1..], Without(waits, i);
    }

    method SetSignal(w: Waiter, on: bool, ghost i: nat)
      requires Valid() && i < |queue| == |waits| && w == queue[i]
      modifies this`waits, w`signalled
      ensures Valid() && waits == old(waits)[i := Wait(w.mode, on)]
    {
      w.signalled := on;
      waits := waits[i := Wait(w.mode, on)];
      forall j | 0 <= j < |queue| ensures waits[j] == Wait(queue[j].mode, queue[j].signalled) {
        assert j != i ==> queue[j] != queue[i];
      }
    }

    method WakeWaiters()
      requires Valid()
      modifies this`waits, queue`signalled
      ensures Valid() && waits == WakeAll(counts[..], old(waits))
    {
      hide Linked, Shows, Joins, Valid, PartWoken, WakeAll;
      ListStart();
      ghost var before := waits;
      WakeEnds(counts[..], before);
      var w := head;
      ghost var i := 0;
      while w != null
        invariant i <= |queue| == |before| && w == (if i < |queue| then queue[i] else null)
        invariant Valid() && waits == PartWoken(counts[..], before, i)
        decreases |queue| - i
      {
        AtEnd(i);
        WakeNext(counts[..], before, i);
        var compatible := IsCompatible(w.mode);
        if compatible {
          SetSignal(w, true, i);
        }
        w := w.next;
        i := i + 1;
      }
    }

    /** The waiters in the list are those of the abstract state. */
    lemma QueueShown()
      requires Valid()
      ensures |queue| == |waits| && forall i :: 0 <= i < |queue| ==> waits[i].mode == queue[i].mode
    {
    }

    lemma ListStart()
      requires Valid()
      ensures counts.Length == LM_COUNT && |queue| == |waits|
      ensures head == if queue == [] then null else queue[0]
    {
    }

    /** The section of a lock call up to its first wait: null when granted at once. */
    method LockSection(mode: Mode) returns (w: Waiter?)
      requires Valid()
      modifies this, counts, queue`next
      ensures Valid() && State() == Enter(old(State()), mode)
      ensures w == null <==> Joins(old(counts[..]), mode)
      ensures w == null ==> queue == old(queue)
      ensures w != null ==> fresh(w) && queue == old(queue) + [w]
    {
      var compatible := IsCompatible(mode);
      if compatible {
        Count(mode);
        return null;
      }
      w := new Waiter(mode);
      Append(w);
    }

    /** The section a waiter runs each time it wakes up, by a signal or for no reason. */
    method WakeSection(w: Waiter, ghost i: nat) returns (acquired: bool)
      requires Valid() && i < |queue| && w == queue[i]
      modifies this, counts, queue
      ensures Valid() && State() == Recheck(old(State()), i)
      ensures acquired <==> Joins(old(counts[..]), w.mode)
      ensures queue == if acquired then old(queue)[..i] + old(queue)[i + 1..] else old(queue)
    {
      hide Linked, Shows, Joins, Valid;
      AtEnd(i);
      ListStart();
      acquired := IsCompatible(w.mode);
      if !acquired {
        SetSignal(w, false, i);
        return;
      }
      Remove(w, i);
      Count(w.mode);
    }

    method TrySection(mode: Mode, mutexFree: bool) returns (r: bool)
      requires Valid()
      modifies counts
      ensures Valid() && r == (mutexFree && Joins(old(counts[..]), mode))
      ensures State() == if mutexFree then TryEnter(old(State()), mode) else old(State())
    {
      if !mutexFree {
        return false;
      }
      r := IsCompatible(mode);
      if r {
        Count(mode);
      }
    }

    method UnlockSection(mode: Mode)
      requires Valid() && counts[Index(mode)] > 0
      modifies this`waits, counts, queue`signalled
      ensures Valid() && State() == Release(old(State()), mode)
    {
      counts[Index(mode)] := counts[Index(mode)] - 1;
      assert counts[..] == old(counts[..])[Index(mode) := old(counts[..])[Index(mode)] - 1];
      if head != null {
        WakeWaiters();
      } else {
        assert waits == [];
      }
    }
  }
}
