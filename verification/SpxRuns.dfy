/** What a thread at the spin latch gets: the way of a lock call and of an upgrade over
    any run, and the runs of a thread that nobody keeps from it. */
module SpxRuns {
  import opened SpxLatch

  /** A lock call of a plain reader, or the one made from inside an upgrade. */
  predicate Locking(p: Thread, up: bool) {
    match p
    case LockLoad(u) => u == up
    case LockTry(u, _) => u == up
    case LockSpin(u) => u == up
    case LockRetry(u, _) => u == up
    case _ => false
  }

  /** An upgrade that has begun and not ended, with or without the shared hold. */
  predicate Upgrading(p: Thread) {
    p.UpLoad? || p.UpTest? || p.UpSpin? || p.Drain? || Locking(p, true)
  }

  /** Where one access can lead: lock calls end with the shared hold only, and upgrades
      with the exclusive one only. */
  lemma WayOfStep(s: State, s': State, t: nat)
    requires StepBy(s, s', t)
    ensures var p, p' := s.threads[t], s'.threads[t];
            && (p == Idle ==> p' == LockLoad(false))
            && (Locking(p, false) ==> Locking(p', false) || p' == Shared)
            && (p == Shared ==> p' == Idle || p' == UpLoad)
            && (Upgrading(p) ==> Upgrading(p') || p' == Exclusive)
            && (p == Exclusive ==> p' == Idle)
  {
  }

  lemma OthersStay(s: State, s': State, t: nat, u: nat)
    requires StepBy(s, s', u) && t != u && t < |s.threads|
    ensures t < |s'.threads| && s'.threads[t] == s.threads[t]
  {
  }

  lemma {:induction false} SameThreads(states: seq<State>, who: seq<nat>, j: nat, k: nat)
    requires Run(states, who) && j <= k < |states|
    ensures |states[k].threads| == |states[j].threads|
    decreases k - j
  {
    if j < k {
      assert StepBy(states[j], states[j + 1], who[j]);
      SameThreads(states, who, j + 1, k);
    }
  }

  /** Over any run of any number of threads: an upgrade under way at j and over at k has
      ended with the exclusive hold, at m, and was under way until then. */
  lemma {:induction false} UpgradeEndsExclusive(states: seq<State>, who: seq<nat>, t: nat, j: nat, k: nat)
    returns (m: nat)
    requires Run(states, who) && j <= k < |states| && t < |states[j].threads|
    requires Upgrading(states[j].threads[t])
    requires t < |states[k].threads| && !Upgrading(states[k].threads[t])
    ensures j < m <= k && t < |states[m].threads| && states[m].threads[t] == Exclusive
    ensures forall i :: j <= i < m ==> t < |states[i].threads| && Upgrading(states[i].threads[t])
    decreases k - j
  {
    hide Access, Upgrading;
    SameThreads(states, who, j, j + 1);
    if who[j] == t {
      WayOfStep(states[j], states[j + 1], t);
    } else {
      OthersStay(states[j], states[j + 1], t, who[j]);
    }
    if states[j + 1].threads[t] == Exclusive {
      m := j + 1;
    } else {
      m := UpgradeEndsExclusive(states, who, t, j + 1, k);
    }
  }

  /** The same for a reader's lock call, which ends with the shared hold. */
  lemma {:induction false} LockEndsShared(states: seq<State>, who: seq<nat>, t: nat, j: nat, k: nat)
    returns (m: nat)
    requires Run(states, who) && j <= k < |states| && t < |states[j].threads|
    requires Locking(states[j].threads[t], false)
    requires t < |states[k].threads| && !Locking(states[k].threads[t], false)
    ensures j < m <= k && t < |states[m].threads| && states[m].threads[t] == Shared
    ensures forall i :: j <= i < m ==> t < |states[i].threads| && Locking(states[i].threads[t], false)
    decreases k - j
  {
    hide Access, Locking;
    SameThreads(states, who, j, j + 1);
    if who[j] == t {
      WayOfStep(states[j], states[j + 1], t);
    } else {
      OthersStay(states[j], states[j + 1], t, who[j]);
    }
    if states[j + 1].threads[t] == Shared {
      m := j + 1;
    } else {
      m := LockEndsShared(states, who, t, j + 1, k);
    }
  }

  // ---------------------------------------------------------------- solo runs

  /** A run in which only thread t steps. */
  ghost predicate Solo(states: seq<State>, t: nat) {
    states != [] && forall k :: 0 <= k < |states| - 1 ==> StepBy(states[k], states[k + 1], t)
  }

  /** A solo run is a run. */
  lemma SoloRuns(states: seq<State>, t: nat)
    requires Solo(states, t)
    ensures Run(states, seq(|states| - 1, _ => t))
  {
  }

  lemma Begin(s: State, states: seq<State>, t: nat)
    requires Solo(states, t) && StepBy(s, states[0], t)
    ensures Solo([s] + states, t) && ([s] + states)[|states|] == states[|states| - 1]
  {
  }

  lemma Follow(a: seq<State>, b: seq<State>, t: nat)
    requires Solo(a, t) && Solo(b, t) && a[|a| - 1] == b[0]
    ensures Solo(a + b[1..], t)
    ensures (a + b[1..])[|a| - 1] == b[0] && (a + b[1..])[|a + b[1..]| - 1] == b[|b| - 1]
    ensures forall i :: 0 <= i < |a| ==> (a + b[1..])[i] == a[i]
  {
  }

  /** Nobody but t holds the latch in any way. */
  ghost predicate NoOther(s: State, t: nat) {
    forall u :: 0 <= u < |s.threads| && u != t ==> !HoldsS(s.threads[u]) && !HoldsX(s.threads[u])
  }

  lemma {:induction false} NobodyCounted(ts: seq<Thread>)
    requires forall u :: 0 <= u < |ts| ==> !HoldsS(ts[u]) && !HoldsX(ts[u])
    ensures CountS(ts) == 0 && CountX(ts) == 0
  {
    if ts != [] {
      NobodyCounted(ts[..|ts| - 1]);
    }
  }

  /** Without other holders the word shows what t itself holds. */
  lemma OwnWord(s: State, t: nat)
    requires Inv(s) && t < |s.threads| && NoOther(s, t)
    ensures s.word == if HoldsS(s.threads[t]) then 1 else if HoldsX(s.threads[t]) then X else 0
  {
    hide CountS, CountX;
    CountChange(s.threads, t, Idle);
    NobodyCounted(s.threads[t := Idle]);
  }

  /** Without an exclusive or draining thread the word is free to be incremented. */
  lemma WordFree(s: State)
    requires Inv(s) && CountX(s.threads) == 0
    ensures !XLocked(s.word) && s.word + 1 < WORDS && s.word == CountS(s.threads)
  {
    hide CountS, CountX;
    CountBounds(s.threads);
    WordParts(CountS(s.threads), 0);
  }

  function Moved(s: State, t: nat, w: nat, p: Thread): State
    requires t < |s.threads|
  {
    State(w, s.threads[t := p])
  }

  /** While no thread has the exclusive bit, a thread that runs alone in a lock call, from
      wherever it stands and however stale its copy of the word is, gets the shared hold:
      the word grows by one, and no other thread moves. */
  lemma {:induction false} LockGranted(s: State, t: nat, up: bool) returns (states: seq<State>)
    requires Inv(s) && CountX(s.threads) == 0 && t < |s.threads| && Locking(s.threads[t], up)
    ensures Solo(states, t) && states[0] == s
    ensures states[|states| - 1] == Moved(s, t, s.word + 1, if up then UpLoad else Shared)
    decreases match s.threads[t]
              case LockRetry(_, val) => if val == s.word then 1 else 3
              case LockSpin(_) => 2
              case LockTry(_, val) => if val == s.word then 1 else 3
              case _ => 4
  {
    hide CountS, CountX, XLocked;
    WordFree(s);
    var p := s.threads[t];
    if (p.LockTry? || p.LockRetry?) && p.val == s.word {
      var s' := Moved(s, t, s.word + 1, if up then UpLoad else Shared);
      assert StepBy(s, s', t);
      states := [s, s'];
    } else {
      var p' := if p.LockLoad? then LockTry(up, s.word)
                else if p.LockSpin? then LockRetry(up, s.word) else LockSpin(up);
      var s' := Moved(s, t, s.word, p');
      assert StepBy(s, s', t);
      InvStep(s, s', t);
      CountChange(s.threads, t, p');
      var rest := LockGranted(s', t, up);
      Begin(s, rest, t);
      states := [s] + rest;
      assert s'.threads[t := if up then UpLoad else Shared] == s.threads[t := if up then UpLoad else Shared];
    }
  }

  /** While nobody else holds the latch, a thread that runs alone in an upgrade, from
      wherever it stands in it, becomes exclusive: the word is the exclusive bit, and no
      other thread moves. */
  lemma {:induction false} UpgradeGranted(s: State, t: nat) returns (states: seq<State>)
    requires Inv(s) && t < |s.threads| && NoOther(s, t) && Upgrading(s.threads[t])
    ensures Solo(states, t) && states[0] == s
    ensures states[|states| - 1] == Moved(s, t, 0x1_0000, Exclusive)
    decreases match s.threads[t]
              case Drain => 0
              case UpTest(val) => if val == s.word then 1 else if !XLocked(val) then 2 else 6
              case UpLoad => 3
              case UpSpin => 5
              case _ => 4
  {
    hide CountS, CountX, XLocked, SLocked;
    OwnWord(s, t);
    WordParts(0, 0);
    WordParts(1, 0);
    WordParts(0, 1);
    var p := s.threads[t];
    if Locking(p, true) {
      NoneExclusive(s, t);
      var first := LockGranted(s, t, true);
      var s' := first[|first| - 1];
      RunKeeps(first, t);
      var rest := UpgradeGranted(s', t);
      Follow(first, rest, t);
      states := first + rest[1..];
      assert s'.threads[t := Exclusive] == s.threads[t := Exclusive];
    } else if p.Drain? {
      var s' := Moved(s, t, s.word, Exclusive);
      assert StepBy(s, s', t);
      states := [s, s'];
    } else {
      var s' := UpgradeStep(s, t);
      InvStep(s, s', t);
      var rest := UpgradeGranted(s', t);
      Begin(s, rest, t);
      states := [s] + rest;
      assert s'.threads[t := Exclusive] == s.threads[t := Exclusive];
    }
  }

  /** The next step of an upgrade outside its lock calls. */
  lemma UpgradeStep(s: State, t: nat) returns (s': State)
    requires t < |s.threads| && (s.threads[t].UpLoad? || s.threads[t].UpTest? || s.threads[t].UpSpin?)
    requires s.word == if HoldsS(s.threads[t]) then 1 else 0
    ensures StepBy(s, s', t) && s'.threads == s.threads[t := s'.threads[t]]
    ensures match s.threads[t]
            case UpTest(val) =>
              if XLocked(val) then s' == Moved(s, t, 0, UpSpin)
              else if val == 1 then s' == Moved(s, t, 0x1_0000, Drain)
              else s' == Moved(s, t, 1, UpTest(1))
            case UpSpin => s' == Moved(s, t, 0, LockLoad(true))
            case _ => s' == Moved(s, t, 1, UpTest(1))
  {
    var p := s.threads[t];
    s' := if p.UpLoad? then Moved(s, t, 1, UpTest(1))
          else if p.UpSpin? then Moved(s, t, 0, LockLoad(true))
          else if XLocked(p.val) then Moved(s, t, 0, UpSpin)
          else if p.val == 1 then Moved(s, t, 0x1_0000, Drain)
          else Moved(s, t, 1, UpTest(1));
  }

  lemma NoneExclusive(s: State, t: nat)
    requires Inv(s) && t < |s.threads| && NoOther(s, t) && !HoldsX(s.threads[t])
    ensures CountX(s.threads) == 0
  {
    hide CountS, CountX;
    CountChange(s.threads, t, Idle);
    NobodyCounted(s.threads[t := Idle]);
  }

  lemma {:induction false} RunKeeps(states: seq<State>, t: nat)
    requires Solo(states, t) && Inv(states[0])
    ensures Inv(states[|states| - 1])
    decreases |states|
  {
    hide Inv, Access;
    if |states| > 1 {
      var front := states[..|states| - 1];
      assert Solo(front, t);
      RunKeeps(front, t);
      InvStep(states[|states| - 2], states[|states| - 1], t);
    }
  }

  /** Up to 65535 threads, all idle, and a word of 0 are a start. */
  lemma Starts(s: State)
    requires |s.threads| <= 65535 && s.word == 0 && forall t :: 0 <= t < |s.threads| ==> s.threads[t] == Idle
    ensures Init(s) && Inv(s)
  {
    InitInv(s);
  }

  /** One thread's whole way from idle through shared and exclusive back to idle, with the
      words 0, 1, 0x10000 and 0, while all others are idle. */
  lemma WholeWay(s: State, t: nat) returns (states: seq<State>, i: nat, j: nat)
    requires |s.threads| <= 65535 && s.word == 0 && forall u :: 0 <= u < |s.threads| ==> s.threads[u] == Idle
    requires t < |s.threads|
    ensures Solo(states, t) && states[0] == s == states[|states| - 1] && i < j < |states| - 1
    ensures states[i] == State(1, s.threads[t := Shared])
    ensures states[j] == State(0x1_0000, s.threads[t := Exclusive])
  {
    hide CountS, CountX, XLocked, SLocked;
    Starts(s);
    NobodyCounted(s.threads);
    var s1 := Moved(s, t, 0, LockLoad(false));
    assert StepBy(s, s1, t);
    InvStep(s, s1, t);
    CountChange(s.threads, t, LockLoad(false));
    var locking := LockGranted(s1, t, false);
    Begin(s, locking, t);
    var up := [s] + locking;
    i := |up| - 1;
    var shared := up[i];
    assert shared.threads == s.threads[t := Shared];
    RunKeeps(up, t);
    var s2 := Moved(shared, t, 1, UpLoad);
    assert StepBy(shared, s2, t);
    InvStep(shared, s2, t);
    assert s2.threads == s.threads[t := UpLoad];
    var upgrading := UpgradeGranted(s2, t);
    Begin(shared, upgrading, t);
    var rest := [shared] + upgrading;
    Follow(up, rest, t);
    var most := up + rest[1..];
    j := |most| - 1;
    assert most[j].threads == s.threads[t := Exclusive];
    assert StepBy(most[j], s, t);
    Follow(most, [most[j], s], t);
    states := most + [s];
    assert [most[j], s][1..] == [s];
    assert i < j;
  }

  /** A weak compare-and-swap may fail although the word is the expected one; a failed one
      reloads the word. */
  lemma SwapMayFail(s: State, t: nat, up: bool)
    requires t < |s.threads|
    ensures s.threads[t] == LockTry(up, s.word) ==> StepBy(s, Moved(s, t, s.word, LockSpin(up)), t)
    ensures s.threads[t] == LockRetry(up, s.word) ==> StepBy(s, Moved(s, t, s.word, LockSpin(up)), t)
    ensures s.threads[t].UpTest? && !XLocked(s.threads[t].val) ==> StepBy(s, Moved(s, t, s.word, UpTest(s.word)), t)
  {
  }
}
