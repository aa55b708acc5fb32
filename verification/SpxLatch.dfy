/** The shared/exclusive spin latch: one 32-bit word, and any number of threads
    whose atomic loads, compare-and-swaps, subtractions and stores interleave. */
module SpxLatch {

  const X: nat := 0x10000
  const WORDS: nat := 0x1_0000_0000
  const MAX_THREADS: nat := 0xFFFF

  /** Bits 15..0 of the word. */
  function SLocked(w: nat): nat {
    w % X
  }

  /** Bit 16 of the word. */
  predicate XLocked(w: nat) {
    w / X % 2 == 1
  }

  /** w | X */
  function SetX(w: nat): nat {
    if XLocked(w) then w else w + X
  }

  /** 32-bit increment and decrement, wrapping around. */
  function Inc(w: nat): nat {
    (w + 1) % WORDS
  }

  function Dec(w: nat): nat {
    (w + WORDS - 1) % WORDS
  }

  /** Where a thread stands between two atomic accesses; val is its stale local
      copy of the word, up says that the shared lock is taken from inside an upgrade. */
  datatype Thread =
    | Idle
    | LockLoad(up: bool)
    | LockTry(up: bool, val: nat)
    | LockSpin(up: bool)
    | LockRetry(up: bool, val: nat)
    | Shared
    | UpLoad
    | UpTest(val: nat)
    | UpSpin
    | Drain
    | Exclusive

  datatype State = State(word: nat, threads: seq<Thread>)

  function Acquired(up: bool): Thread {
    if up then UpLoad else Shared
  }

  /** One atomic access of one thread: the word w and the thread p become w' and p'.
      A weak compare-and-swap may fail although the word has the expected value. */
  ghost predicate Access(w: nat, p: Thread, w': nat, p': Thread) {
    match p
    case Idle => w' == w && p' == LockLoad(false)
    case LockLoad(up) => w' == w && p' == LockTry(up, w)
    case LockTry(up, val) =>
      || (!XLocked(val) && w == val && w' == Inc(val) && p' == Acquired(up))
      || (w' == w && p' == LockSpin(up))
    case LockSpin(up) => w' == w && p' == if XLocked(w) then LockSpin(up) else LockRetry(up, w)
    case LockRetry(up, val) =>
      || (w == val && w' == Inc(val) && p' == Acquired(up))
      || (w' == w && p' == LockSpin(up))
    case Shared =>
      || (w' == Dec(w) && p' == Idle)
      || (w' == w && p' == UpLoad)
    case UpLoad => w' == w && p' == UpTest(w)
    case UpTest(val) =>
      if XLocked(val) then w' == Dec(w) && p' == UpSpin
      else
        || (w == val && w' == SetX(Dec(val)) && p' == Drain)
        || (w' == w && p' == UpTest(w))
    case UpSpin => w' == w && p' == if XLocked(w) then UpSpin else LockLoad(true)
    case Drain => w' == w && p' == if SLocked(w) != 0 then Drain else Exclusive
    case Exclusive => w' == 0 && p' == Idle
  }

  ghost predicate StepBy(s: State, s': State, t: nat) {
    && t < |s.threads| == |s'.threads|
    && s'.threads == s.threads[t := s'.threads[t]]
    && Access(s.word, s.threads[t], s'.word, s'.threads[t])
  }

  ghost predicate Init(s: State) {
    s.word == 0 && |s.threads| <= MAX_THREADS && forall t :: 0 <= t < |s.threads| ==> s.threads[t] == Idle
  }

  /** A run: who[k] is the thread that takes the step from states[k] to states[k + 1]. */
  ghost predicate Run(states: seq<State>, who: seq<nat>) {
    && |states| == |who| + 1
    && forall k :: 0 <= k < |who| ==> StepBy(states[k], states[k + 1], who[k])
  }

  // ----------------------------------------------------------------- counting

  /** The thread holds the latch shared. */
  predicate HoldsS(p: Thread) {
    p.Shared? || p.UpLoad? || p.UpTest?
  }

  /** The thread has set the exclusive bit: it drains readers or is alone. */
  predicate HoldsX(p: Thread) {
    p.Drain? || p.Exclusive?
  }

  ghost function CountS(ts: seq<Thread>): nat {
    if ts == [] then 0 else CountS(ts[..|ts| - 1]) + (if HoldsS(ts[|ts| - 1]) then 1 else 0)
  }

  ghost function CountX(ts: seq<Thread>): nat {
    if ts == [] then 0 else CountX(ts[..|ts| - 1]) + (if HoldsX(ts[|ts| - 1]) then 1 else 0)
  }

  lemma {:induction false} CountChange(ts: seq<Thread>, t: nat, p: Thread)
    requires t < |ts|
    ensures CountS(ts[t := p]) == CountS(ts) + (if HoldsS(p) then 1 else 0) - (if HoldsS(ts[t]) then 1 else 0)
    ensures CountX(ts[t := p]) == CountX(ts) + (if HoldsX(p) then 1 else 0) - (if HoldsX(ts[t]) then 1 else 0)
  {
    var n := |ts| - 1;
    if t == n {
      assert ts[t := p][..n] == ts[..n];
    } else {
      CountChange(ts[..n], t, p);
      assert ts[t := p][..n] == ts[..n][t := p];
    }
  }

  lemma {:induction false} CountBounds(ts: seq<Thread>)
    ensures CountS(ts) + CountX(ts) <= |ts|
  {
    if ts != [] {
      CountBounds(ts[..|ts| - 1]);
    }
  }

  lemma {:induction false} Counted(ts: seq<Thread>, t: nat)
    requires t < |ts|
    ensures HoldsS(ts[t]) ==> CountS(ts) >= 1
    ensures HoldsX(ts[t]) ==> CountX(ts) >= 1
    ensures !HoldsS(ts[t]) ==> CountS(ts) + CountX(ts) - (if HoldsX(ts[t]) then 1 else 0) < |ts|
  {
    CountChange(ts, t, Idle);
    CountBounds(ts[t := Idle]);
    CountBounds(ts);
    IdleRoom(ts[t := Idle], t);
  }

  lemma {:induction false} IdleRoom(ts: seq<Thread>, t: nat)
    requires t < |ts| && ts[t] == Idle
    ensures CountS(ts) + CountX(ts) < |ts|
  {
    var n := |ts| - 1;
    if t == n {
      CountBounds(ts[..n]);
    } else {
      IdleRoom(ts[..n], t);
    }
  }

  /** Two different threads that hold the latch count twice. */
  lemma CountedTwice(ts: seq<Thread>, t: nat, u: nat)
    requires t < |ts| && u < |ts| && t != u && HoldsX(ts[t])
    ensures HoldsX(ts[u]) ==> CountX(ts) >= 2
    ensures HoldsS(ts[u]) ==> CountS(ts) >= 1
  {
    CountChange(ts, t, Idle);
    Counted(ts[t := Idle], u);
  }

  // ---------------------------------------------------------------- invariant

  /** The word is the number of shared holders plus the exclusive bit, which is set
      exactly when one thread drains or is exclusive; an exclusive thread has no
      shared holders beside it. */
  ghost predicate Inv(s: State) {
    && |s.threads| <= MAX_THREADS
    && s.word == CountS(s.threads) + X * CountX(s.threads)
    && CountX(s.threads) <= 1
    && (forall t :: 0 <= t < |s.threads| && s.threads[t] == Exclusive ==> CountS(s.threads) == 0)
    && (forall t :: 0 <= t < |s.threads| && s.threads[t].LockRetry? ==> !XLocked(s.threads[t].val))
  }

  lemma {:induction false} NoneCounted(ts: seq<Thread>)
    requires forall t :: 0 <= t < |ts| ==> ts[t] == Idle
    ensures CountS(ts) == 0 && CountX(ts) == 0
  {
    if ts != [] {
      NoneCounted(ts[..|ts| - 1]);
    }
  }

  lemma WordParts(c: nat, x: nat)
    requires c < X && x <= 1
    ensures SLocked(c + X * x) == c && (XLocked(c + X * x) <==> x == 1)
  {
  }

  lemma InvStep(s: State, s': State, t: nat)
    requires Inv(s) && StepBy(s, s', t)
    ensures Inv(s')
  {
    hide CountS, CountX, SLocked, XLocked, SetX;
    var ts, p, p' := s.threads, s.threads[t], s'.threads[t];
    StepCounts(s, s', t);
    forall u | 0 <= u < |ts| && s'.threads[u] == Exclusive ensures CountS(s'.threads) == 0 {
      if u != t {
        assert ts[u] == Exclusive;
        Counted(ts, u);
      }
    }
  }

  /** The effect of a step on the counts and on the word. */
  lemma StepCounts(s: State, s': State, t: nat)
    requires Inv(s) && StepBy(s, s', t)
    ensures s'.word == CountS(s'.threads) + X * CountX(s'.threads) && CountX(s'.threads) <= 1
    ensures HoldsS(s'.threads[t]) && !HoldsS(s.threads[t]) ==> CountX(s.threads) == 0
    ensures s'.threads[t] == Exclusive ==> CountS(s'.threads) == 0
    ensures CountS(s'.threads) > CountS(s.threads) ==> HoldsS(s'.threads[t]) && !HoldsS(s.threads[t])
    ensures HoldsX(s'.threads[t]) && !HoldsX(s.threads[t]) ==> CountX(s.threads) == 0
  {
    hide CountS, CountX, SLocked, XLocked;
    var ts, p, p' := s.threads, s.threads[t], s'.threads[t];
    CountChange(ts, t, p');
    Counted(ts, t);
    CountBounds(ts);
    WordParts(CountS(ts), CountX(ts));
    if HoldsS(p) {
      WordParts(CountS(ts) - 1, CountX(ts));
    }
  }

  lemma InitInv(s: State)
    requires Init(s)
    ensures Inv(s)
  {
    NoneCounted(s.threads);
  }

  /** The invariant holds in every state of every run of at most 65535 threads. */
  lemma {:induction false} InvAlways(states: seq<State>, who: seq<nat>, k: nat)
    requires Run(states, who) && Init(states[0]) && k < |states|
    ensures Inv(states[k])
    ensures states[k].word == CountS(states[k].threads) + 0x1_0000 * CountX(states[k].threads)
    ensures CountX(states[k].threads) <= 1
  {
    if k == 0 {
      InitInv(states[0]);
    } else {
      InvAlways(states, who, k - 1);
      InvStep(states[k - 1], states[k], who[k - 1]);
    }
  }

  /** Mutual exclusion: beside an exclusive thread no other thread holds the latch
      in any way, and the word is just the exclusive bit, so that storing 0 on
      unlock discards no reader's count. */
  lemma ExclusiveIsAlone(states: seq<State>, who: seq<nat>, k: nat, t: nat)
    requires Run(states, who) && Init(states[0]) && k < |states|
    requires t < |states[k].threads| && states[k].threads[t] == Exclusive
    ensures states[k].word == X
    ensures forall u :: 0 <= u < |states[k].threads| && u != t ==>
              !HoldsS(states[k].threads[u]) && !HoldsX(states[k].threads[u])
  {
    hide CountS, CountX;
    InvAlways(states, who, k);
    var ts := states[k].threads;
    Counted(ts, t);
    forall u | 0 <= u < |ts| && u != t ensures !HoldsS(ts[u]) && !HoldsX(ts[u]) {
      CountedTwice(ts, t, u);
    }
  }

  // ------------------------------------------------------------------ progress

  /** How many more steps of its own a thread may take before it gives its shared
      hold back, while another thread drains. */
  function Rank(p: Thread): nat {
    match p
    case Shared => 4
    case UpLoad => 3
    case UpTest(val) => if XLocked(val) then 1 else 2
    case _ => 0
  }

  ghost function Measure(ts: seq<Thread>): nat {
    if ts == [] then 0 else Measure(ts[..|ts| - 1]) + Rank(ts[|ts| - 1])
  }

  lemma {:induction false} MeasureChange(ts: seq<Thread>, t: nat, p: Thread)
    requires t < |ts|
    ensures Measure(ts[t := p]) == Measure(ts) + Rank(p) - Rank(ts[t])
  {
    var n := |ts| - 1;
    if t == n {
      assert ts[t := p][..n] == ts[..n];
    } else {
      MeasureChange(ts[..n], t, p);
      assert ts[t := p][..n] == ts[..n][t := p];
    }
  }

  lemma {:induction false} MeasureBounds(ts: seq<Thread>)
    ensures CountS(ts) <= Measure(ts) <= 4 * CountS(ts)
  {
    if ts != [] {
      MeasureBounds(ts[..|ts| - 1]);
    }
  }

  /** While thread d drains, no thread gains a shared hold, and every step of a
      thread with a shared hold brings it nearer to giving it back. */
  lemma DrainStep(s: State, s': State, t: nat, d: nat)
    requires Inv(s) && StepBy(s, s', t)
    requires d < |s.threads| && s.threads[d] == Drain && s'.threads[d] == Drain
    ensures HoldsS(s'.threads[t]) ==> HoldsS(s.threads[t])
    ensures HoldsS(s.threads[t]) ==> Rank(s'.threads[t]) < Rank(s.threads[t])
    ensures CountS(s'.threads) <= CountS(s.threads)
    ensures if HoldsS(s.threads[t]) then Measure(s'.threads) < Measure(s.threads)
            else Measure(s'.threads) == Measure(s.threads)
  {
    hide CountS, CountX, Measure, SLocked;
    var ts, p' := s.threads, s'.threads[t];
    Counted(ts, d);
    CountBounds(ts);
    WordParts(CountS(ts), CountX(ts));
    CountChange(ts, t, p');
    MeasureChange(ts, t, p');
  }

  ghost predicate HolderStep(s: State, s': State, t: nat) {
    StepBy(s, s', t) && HoldsS(s.threads[t])
  }

  /** The number of steps among the first k that are taken by a thread holding shared. */
  ghost function HolderSteps(states: seq<State>, who: seq<nat>, k: nat): nat
    requires Run(states, who) && k <= |who|
  {
    if k == 0 then 0
    else HolderSteps(states, who, k - 1) + (if HolderStep(states[k - 1], states[k], who[k - 1]) then 1 else 0)
  }

  ghost predicate DrainingThroughout(states: seq<State>, d: nat) {
    forall k :: 0 <= k < |states| ==> d < |states[k].threads| && states[k].threads[d] == Drain
  }

  /** Draining ends: however the threads interleave while thread d drains, the
      shared holders take at most four steps each before all have given back, and
      no other step adds to what is left to do. */
  lemma {:induction false} DrainBound(states: seq<State>, who: seq<nat>, d: nat, k: nat)
    requires Run(states, who) && Inv(states[0]) && DrainingThroughout(states, d) && k <= |who|
    ensures Inv(states[k])
    ensures HolderSteps(states, who, k) + Measure(states[k].threads) <= Measure(states[0].threads)
    ensures CountS(states[k].threads) <= CountS(states[0].threads)
    ensures HolderSteps(states, who, k) + CountS(states[k].threads) <= 4 * CountS(states[0].threads)
  {
    hide CountS, CountX, Measure, Access, SLocked, XLocked;
    MeasureBounds(states[0].threads);
    MeasureBounds(states[k].threads);
    if k > 0 {
      DrainBound(states, who, d, k - 1);
      InvStep(states[k - 1], states[k], who[k - 1]);
      DrainStep(states[k - 1], states[k], who[k - 1], d);
    }
  }

  /** The number of steps among the first k that thread u takes. */
  ghost function OwnSteps(who: seq<nat>, u: nat, k: nat): nat
    requires k <= |who|
  {
    if k == 0 then 0 else OwnSteps(who, u, k - 1) + (if who[k - 1] == u then 1 else 0)
  }

  /** Upgraders cannot deadlock: while thread d drains, another thread that is in
      an upgrade with its shared hold takes at most two more steps of its own with
      the hold; the third at the latest gives it back. */
  lemma {:induction false} UpgraderGivesBack(states: seq<State>, who: seq<nat>, d: nat, u: nat, k: nat)
    requires Run(states, who) && Inv(states[0]) && DrainingThroughout(states, d) && k <= |who|
    requires u < |states[0].threads| && (states[0].threads[u].UpLoad? || states[0].threads[u].UpTest?)
    requires forall j :: 0 <= j <= k ==> u < |states[j].threads| && HoldsS(states[j].threads[u])
    ensures OwnSteps(who, u, k) + Rank(states[k].threads[u]) <= 3
    ensures OwnSteps(who, u, k) <= 2
  {
    hide CountS, CountX, Measure, Access, SLocked, XLocked, Inv, Rank;
    if k == 0 {
      UpgraderRank(states[0].threads[u]);
    } else {
      UpgraderGivesBack(states, who, d, u, k - 1);
      DrainBound(states, who, d, k - 1);
      DrainStep(states[k - 1], states[k], who[k - 1], d);
    }
    UpgraderRank(states[k].threads[u]);
  }

  lemma UpgraderRank(p: Thread)
    ensures p.UpLoad? || p.UpTest? ==> Rank(p) <= 3
    ensures HoldsS(p) ==> Rank(p) >= 1
  {
  }

  /** No thread is ever stuck: each has a next step in every state. */
  lemma AlwaysEnabled(s: State, t: nat) returns (s': State)
    requires t < |s.threads|
    ensures StepBy(s, s', t)
  {
    var w, p := s.word, s.threads[t];
    var (w', p') := match p
      case Idle => (w, LockLoad(false))
      case LockLoad(up) => (w, LockTry(up, w))
      case LockTry(up, _) => (w, LockSpin(up))
      case LockSpin(up) => (w, if XLocked(w) then LockSpin(up) else LockRetry(up, w))
      case LockRetry(up, _) => (w, LockSpin(up))
      case Shared => (Dec(w), Idle)
      case UpLoad => (w, UpTest(w))
      case UpTest(val) => if XLocked(val) then (Dec(w), UpSpin) else (w, UpTest(w))
      case UpSpin => (w, if XLocked(w) then UpSpin else LockLoad(true))
      case Drain => (w, if SLocked(w) != 0 then Drain else Exclusive)
      case Exclusive => (0, Idle);
    s' := State(w', s.threads[t := p']);
  }

  /** The draining thread becomes exclusive with its next step exactly when no
      shared holder is left. */
  lemma DrainFinishes(s: State, s': State, d: nat)
    requires Inv(s) && StepBy(s, s', d) && s.threads[d] == Drain
    ensures s'.threads[d] == Exclusive <==> CountS(s.threads) == 0
  {
    hide CountS, CountX, SLocked, XLocked;
    CountBounds(s.threads);
    WordParts(CountS(s.threads), CountX(s.threads));
  }
}
