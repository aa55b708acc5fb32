/** What the granularity lock's modes are for: the rights each gives on a node and on what
    lies below it. Two holders clash when one may write what the other may read or write
    as a whole; intentions, which cover parts only, do not clash with each other. */
module LockRights {
  import opened GrLockModel
  import opened LockTree

  /** The holder may read everything at and below the node. */
  predicate ReadsAll(m: Mode) {
    m == S || m == SIX || m == X
  }

  /** The holder may write some of what lies below, with further locks there. */
  predicate WritesSome(m: Mode) {
    m == IX || m == SIX || m == X
  }

  /** The holder may write everything. */
  predicate WritesAll(m: Mode) {
    m == X
  }

  predicate Clash(a: Mode, b: Mode) {
    || WritesAll(a) || WritesAll(b)
    || (ReadsAll(a) && WritesSome(b)) || (WritesSome(a) && ReadsAll(b))
  }

  /** The matrix is what the rights demand, entry by entry. */
  lemma MatrixIsRights(a: Mode, b: Mode)
    ensures Compatible(a, b) <==> !Clash(a, b)
  {
  }

  /** The order of the modes is that of their rights. */
  lemma OrderIsRights(a: Mode, b: Mode)
    ensures AtLeast(a, b) <==>
              && (ReadsAll(b) ==> ReadsAll(a)) && (WritesSome(b) ==> WritesSome(a)) && (WritesAll(b) ==> WritesAll(a))
  {
  }

  /** Below a node exactly the rights that cover everything are implied. */
  lemma ImpliedRights(above: Mode)
    ensures ReadsAll(above) <==> exists below: Mode :: Implies(above, below) && ReadsAll(below)
    ensures WritesAll(above) <==> exists below: Mode :: Implies(above, below) && WritesAll(below)
    ensures forall below: Mode :: Implies(above, below) && WritesSome(below) ==> WritesAll(above)
  {
    assert Implies(S, S) && Implies(SIX, S) && Implies(X, X);
  }

  /** The lock is held by nobody in a way that clashes with mode m. */
  ghost predicate Free(grants: seq<Grant>, m: Mode) {
    forall i :: 0 <= i < |grants| ==> !Clash(m, grants[i].mode)
  }

  lemma JoinsIsFree(s: System, m: Mode)
    requires Inv(s)
    ensures Joins(s.lock.counts, m) <==> Free(s.grants, m)
  {
    forall h: Mode {
      MatrixIsRights(m, h);
    }
    if Joins(s.lock.counts, m) {
      forall i | 0 <= i < |s.grants| ensures !Clash(m, s.grants[i].mode) {
        HeldPositive(s.grants, i);
      }
    } else {
      var h: Mode :| s.lock.counts[Index(h)] > 0 && !Compatible(m, h);
      var i := SomeHolder(s.grants, h);
    }
  }

  lemma {:induction false} SomeHolder(grants: seq<Grant>, m: Mode) returns (i: nat)
    requires HeldIn(grants, m) > 0
    ensures i < |grants| && grants[i].mode == m
  {
    var n := |grants| - 1;
    if grants[n].mode == m {
      i := n;
    } else {
      i := SomeHolder(grants[..n], m);
    }
  }

  /** In every reachable state a lock call is granted at once if and only if no holder's
      rights clash; otherwise its thread is the last in the list. */
  lemma GrantedIffFree(events: seq<Event>, t: nat, m: Mode)
    requires History(AtStart(), events) && Enabled(After(AtStart(), events), Request(t, m))
    ensures var s := After(AtStart(), events);
            var s' := Next(s, Request(t, m));
            if Free(s.grants, m) then s'.grants == s.grants + [Grant(t, m)] && s'.waiting == s.waiting
            else s'.grants == s.grants && s'.waiting == s.waiting + [t]
  {
    hide History, After, Joins, Inv, Free;
    StartInv(AtStart());
    InvAlways(AtStart(), events);
    JoinsIsFree(After(AtStart(), events), m);
  }

  /** So it is for a try, when the mutex is free, and for a waiter that looks again. */
  lemma TriedAndRetried(events: seq<Event>, t: nat, m: Mode, place: nat)
    requires History(AtStart(), events)
    ensures var s := After(AtStart(), events);
            && (Enabled(s, Try(t, m, true)) ==>
                  Next(s, Try(t, m, true)).grants == if Free(s.grants, m) then s.grants + [Grant(t, m)] else s.grants)
            && (Enabled(s, Retry(place)) ==>
                  var w := s.lock.waits[place].mode;
                  Next(s, Retry(place)).grants
                  == if Free(s.grants, w) then s.grants + [Grant(s.waiting[place], w)] else s.grants)
  {
    hide History, After, Joins, Inv, Free;
    StartInv(AtStart());
    InvAlways(AtStart(), events);
    var s := After(AtStart(), events);
    JoinsIsFree(s, m);
    if Enabled(s, Retry(place)) {
      JoinsIsFree(s, s.lock.waits[place].mode);
    }
  }

  // -------------------------------------------------------- histories of requests

  /** Lock calls of threads, one after another. */
  ghost function Requests(calls: seq<Grant>): seq<Event> {
    seq(|calls|, i requires 0 <= i < |calls| => Request(calls[i].owner, calls[i].mode))
  }

  ghost predicate NoneClash(calls: seq<Grant>) {
    forall i, j :: 0 <= i < j < |calls| ==> !Clash(calls[i].mode, calls[j].mode)
  }

  /** Calls that do not clash are all granted, in any number and order. */
  lemma AllGranted(calls: seq<Grant>)
    requires NoneClash(calls)
    ensures History(AtStart(), Requests(calls))
    ensures After(AtStart(), Requests(calls)).grants == calls && After(AtStart(), Requests(calls)).waiting == []
  {
    hide Inv, Next, NoneClash;
    StartInv(AtStart());
    assert [] + calls == calls;
    GrantedFrom(AtStart(), calls);
  }

  lemma {:induction false} GrantedFrom(s: System, calls: seq<Grant>)
    requires Inv(s) && s.waiting == [] && NoneClash(s.grants + calls)
    ensures History(s, Requests(calls))
    ensures After(s, Requests(calls)).grants == s.grants + calls && After(s, Requests(calls)).waiting == []
    decreases |calls|
  {
    if calls == [] {
      assert s.grants + calls == s.grants;
    } else {
      var e := Request(calls[0].owner, calls[0].mode);
      NextGranted(s, calls);
      InvStep(s, e);
      assert Requests(calls)[1..] == Requests(calls[1..]);
      assert Requests(calls)[0] == e;
      assert s.grants + calls == s.grants + [calls[0]] + calls[1..];
      hide Inv, Next, Enabled, NoneClash;
      GrantedFrom(Next(s, e), calls[1..]);
    }
  }

  lemma NextGranted(s: System, calls: seq<Grant>)
    requires Inv(s) && s.waiting == [] && calls != [] && NoneClash(s.grants + calls)
    ensures var e := Request(calls[0].owner, calls[0].mode);
            && Enabled(s, e)
            && Next(s, e).grants == s.grants + [calls[0]] && Next(s, e).waiting == []
  {
    hide Joins;
    forall i | 0 <= i < |s.grants| ensures !Clash(calls[0].mode, s.grants[i].mode) {
      assert (s.grants + calls)[i] == s.grants[i] && (s.grants + calls)[|s.grants|] == calls[0];
    }
    JoinsIsFree(s, calls[0].mode);
  }

  /** Any number of intentions, readers with reading intentions, and one SIX beside
      reading intentions are granted without a wait. */
  lemma GrantedTogether(calls: seq<Grant>)
    requires || (forall i :: 0 <= i < |calls| ==> calls[i].mode == IS || calls[i].mode == IX)
             || (forall i :: 0 <= i < |calls| ==> calls[i].mode == IS || calls[i].mode == S)
             || (calls != [] && calls[0].mode == SIX && forall i :: 1 <= i < |calls| ==> calls[i].mode == IS)
             || (|calls| == 1 && calls[0].mode == X)
    ensures History(AtStart(), Requests(calls))
    ensures After(AtStart(), Requests(calls)).grants == calls && After(AtStart(), Requests(calls)).waiting == []
  {
    AllGranted(calls);
  }

  /** Two writers in different children of a node: they hold the node with intentions,
      each its own child exclusively, and keep to the rule about parents. */
  lemma TwoWriters()
    ensures var holds := {Hold(0, [], IX), Hold(1, [], IX), Hold(0, [0], X), Hold(1, [1], X)};
            ParentsHeld(holds) && NodesSafe(holds) && Effective(holds, 0, [0, 5, 7], X) && Effective(holds, 1, [1], X)
  {
    var holds := {Hold(0, [], IX), Hold(1, [], IX), Hold(0, [0], X), Hold(1, [1], X)};
    assert HasParent(holds, Hold(0, [0], X)) by {
      assert Hold(0, [], IX) in holds && [0][..0] == [];
    }
    assert HasParent(holds, Hold(1, [1], X)) by {
      assert Hold(1, [], IX) in holds && [1][..0] == [];
    }
    assert Gives(Hold(0, [0], X), [0, 5, 7], X) && Gives(Hold(1, [1], X), [1], X);
  }

  /** Their holds are grants that the nodes' own locks reach. */
  lemma TwoWritersReached() returns (locks: map<Node, System>, histories: map<Node, seq<Event>>)
    ensures forall x :: x in locks ==> x in histories && Reached(locks[x], histories[x])
    ensures GrantedBy({Hold(0, [], IX), Hold(1, [], IX), Hold(0, [0], X), Hold(1, [1], X)}, locks)
  {
    hide History, After, Requests;
    var root, left, right := [Grant(0, IX), Grant(1, IX)], [Grant(0, X)], [Grant(1, X)];
    GrantedTogether(root);
    GrantedTogether(left);
    GrantedTogether(right);
    histories := map[[] := Requests(root), [0] := Requests(left), [1] := Requests(right)];
    locks := map[[] := After(AtStart(), Requests(root)), [0] := After(AtStart(), Requests(left)),
                 [1] := After(AtStart(), Requests(right))];
    assert [0] != [1];
    assert locks[[]].grants[0] == Grant(0, IX) && locks[[]].grants[1] == Grant(1, IX);
    assert locks[[0]].grants[0] == Grant(0, X) && locks[[1]].grants[0] == Grant(1, X);
  }

  // ------------------------------------------------------- who may do what when

  /** In every reachable state a thread that does not wait may call and try, any waiter may
      look again, signalled or not, and any hold may be given back. */
  lemma AnyoneMayCall(events: seq<Event>, t: nat, m: Mode, free: bool, place: nat, g: nat)
    requires History(AtStart(), events)
    ensures var s := After(AtStart(), events);
            && (t !in s.waiting ==> Enabled(s, Request(t, m)) && Enabled(s, Try(t, m, free)))
            && (place < |s.waiting| ==> Enabled(s, Retry(place)))
            && (g < |s.grants| ==> Enabled(s, Unlock(g)))
  {
    hide History, After, PairwiseCompatible, NoLostWakeup, HeldIn;
    StartInv(AtStart());
    InvAlways(AtStart(), events);
  }

  /** A waiter counts as signalled only for signals since it last looked; a release signals
      those whose rights do not clash with any hold that is left. */
  lemma SignalsTell(events: seq<Event>, t: nat, m: Mode, place: nat, g: nat, i: nat)
    requires History(AtStart(), events)
    ensures var s := After(AtStart(), events);
            && (Enabled(s, Request(t, m)) && !Free(s.grants, m) ==>
                  Next(s, Request(t, m)).lock.waits == s.lock.waits + [Wait(m, false)])
            && (Enabled(s, Retry(place)) && !Free(s.grants, s.lock.waits[place].mode) ==>
                  Next(s, Retry(place)).lock.waits
                  == s.lock.waits[place := Wait(s.lock.waits[place].mode, false)])
            && (g < |s.grants| && i < |s.lock.waits| ==>
                  Enabled(s, Unlock(g)) &&
                  var s' := Next(s, Unlock(g));
                  && s'.grants == s.grants[..g] + s.grants[g + 1..]
                  && i < |s'.lock.waits| && s'.lock.waits[i].mode == s.lock.waits[i].mode
                  && (s'.lock.waits[i].signalled <==>
                        s.lock.waits[i].signalled || Free(s'.grants, s.lock.waits[i].mode)))
  {
    hide History, After, Joins, Inv, Free, Enabled, Next;
    StartInv(AtStart());
    InvAlways(AtStart(), events);
    var s := After(AtStart(), events);
    AnyoneMayCall(events, t, m, true, place, g);
    if Enabled(s, Request(t, m)) {
      Unheard(s, t, m);
    }
    if Enabled(s, Retry(place)) {
      StillWaiting(s, place);
    }
    if g < |s.grants| && i < |s.lock.waits| {
      Signalled(s, g, i);
    }
  }

  lemma Unheard(s: System, t: nat, m: Mode)
    requires Inv(s) && Enabled(s, Request(t, m))
    ensures !Free(s.grants, m) ==> Next(s, Request(t, m)).lock.waits == s.lock.waits + [Wait(m, false)]
  {
    hide Joins, Inv, Free;
    JoinsIsFree(s, m);
  }

  lemma StillWaiting(s: System, place: nat)
    requires Inv(s) && Enabled(s, Retry(place))
    ensures place < |s.lock.waits|
    ensures !Free(s.grants, s.lock.waits[place].mode) ==>
              Next(s, Retry(place)).lock.waits == s.lock.waits[place := Wait(s.lock.waits[place].mode, false)]
  {
    hide Joins, Inv, Free;
    JoinsIsFree(s, s.lock.waits[place].mode);
  }

  lemma Signalled(s: System, g: nat, i: nat)
    requires Inv(s) && Enabled(s, Unlock(g)) && i < |s.lock.waits|
    ensures var s' := Next(s, Unlock(g));
            && s'.grants == s.grants[..g] + s.grants[g + 1..]
            && i < |s'.lock.waits| && s'.lock.waits[i].mode == s.lock.waits[i].mode
            && (s'.lock.waits[i].signalled <==>
                  s.lock.waits[i].signalled || Free(s'.grants, s.lock.waits[i].mode))
  {
    hide Joins, Free;
    HoldCounted(s, g);
    InvStep(s, Unlock(g));
    JoinsIsFree(Next(s, Unlock(g)), s.lock.waits[i].mode);
  }
}
