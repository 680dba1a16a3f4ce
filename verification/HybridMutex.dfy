/** The futex mutex (mutex.h lock, linux.cpp tryLock, lockSlow, unlock): any number of
    threads, one atomic access or futex call a step.  The kernel is a set of sleepers; it
    may also return from a wait for no reason. */
module HybridMutex {

  const UNLOCKED: nat := 0
  const LOCKED: nat := 1
  const SLEEPING: nat := 2
  const NUMBER_OF_TRIES: nat := 32

  datatype Pc =
    | Idle
      /** tryLock on its own, and its refusal. */
    | TryOnce
    | Refused
      /** In lock: about to tryLock, after that many failures. */
    | Spin(failures: nat)
      /** lockSlow: about to compare-exchange, to exchange, to call the futex wait. */
    | SlowCompare
    | Exchange
    | Wait
    | Asleep
      /** Back from the futex wait and about to exchange again. */
    | Returned
    | Holding
      /** unlock: the fetch_sub found waiters; about to store, then to wake one. */
    | UnlockStore
    | UnlockWake

  datatype State = State(word: nat, pcs: seq<Pc>)

  function At(s: State, word: nat, t: nat, pc: Pc): State
    requires t < |s.pcs|
  {
    State(word, s.pcs[t := pc])
  }

  ghost predicate Init(s: State) {
    s.word == UNLOCKED && forall t | 0 <= t < |s.pcs| :: s.pcs[t] == Idle
  }

  /** compare-exchange of Unlocked by Locked */
  predicate TryLock(s: State, s': State, t: nat, onFailure: Pc)
    requires t < |s.pcs|
  {
    s' == if s.word == UNLOCKED then At(s, LOCKED, t, Holding) else At(s, s.word, t, onFailure)
  }

  predicate ExchangeSleeping(s: State, s': State, t: nat)
    requires t < |s.pcs|
  {
    s' == At(s, SLEEPING, t, if s.word == UNLOCKED then Holding else Wait)
  }

  /** FUTEX_WAKE of one sleeper, if there is any. */
  ghost predicate WakeOne(s: State, s': State, t: nat)
    requires t < |s.pcs|
  {
    if exists u :: 0 <= u < |s.pcs| && s.pcs[u] == Asleep then
      exists u: nat :: u < |s.pcs| && s.pcs[u] == Asleep && s' == State(s.word, s.pcs[u := Returned][t := Idle])
    else
      s' == At(s, s.word, t, Idle)
  }

  ghost predicate ThreadStep(s: State, s': State, t: nat) {
    t < |s.pcs| &&
    match s.pcs[t]
    case Idle => s' == At(s, s.word, t, Spin(0)) || s' == At(s, s.word, t, TryOnce)
    case TryOnce => TryLock(s, s', t, Refused)
    case Refused => s' == At(s, s.word, t, Idle)
    case Spin(n) => TryLock(s, s', t, if n < NUMBER_OF_TRIES then Spin(n + 1) else SlowCompare)
    case SlowCompare => TryLock(s, s', t, if s.word == SLEEPING then Wait else Exchange)
    case Exchange => ExchangeSleeping(s, s', t)
    case Wait => s' == At(s, s.word, t, if s.word == SLEEPING then Asleep else Returned)
    case Asleep => s' == At(s, s.word, t, Returned)
    case Returned => ExchangeSleeping(s, s', t)
    case Holding => s.word > 0 && s' == At(s, s.word - 1, t, if s.word == LOCKED then Idle else UnlockStore)
    case UnlockStore => s' == At(s, UNLOCKED, t, UnlockWake)
    case UnlockWake => WakeOne(s, s', t)
  }

  ghost predicate Step(s: State, s': State) {
    exists t: nat :: ThreadStep(s, s', t)
  }

  /** A thread owns the word from its acquisition until its unlock has cleared it. */
  predicate Owns(pc: Pc) {
    pc.Holding? || pc.UnlockStore?
  }

  ghost predicate SomeOwner(s: State) {
    exists t :: 0 <= t < |s.pcs| && Owns(s.pcs[t])
  }

  /** Someone who will wake a sleeper or make the next unlock do so. */
  predicate Rescues(pc: Pc) {
    pc.UnlockStore? || pc.UnlockWake? || pc.Returned?
  }

  ghost predicate SomeRescuer(s: State) {
    exists t :: 0 <= t < |s.pcs| && Rescues(s.pcs[t])
  }

  ghost predicate SomeAsleep(s: State) {
    exists t :: 0 <= t < |s.pcs| && s.pcs[t] == Asleep
  }

  ghost predicate Inv(s: State) {
    && s.word <= SLEEPING
    && (s.word != UNLOCKED <==> SomeOwner(s))
    && (forall t, u | 0 <= t < u < |s.pcs| && Owns(s.pcs[t]) :: !Owns(s.pcs[u]))
    && (SomeAsleep(s) ==> s.word == SLEEPING || SomeRescuer(s))
    && (forall t | 0 <= t < |s.pcs| && s.pcs[t].Spin? :: s.pcs[t].failures <= NUMBER_OF_TRIES)
  }

  lemma InitInv(s: State)
    requires Init(s)
    ensures Inv(s)
  {
  }

  /** What changing one thread's place does to who owns, rescues and sleeps. */
  lemma Moved(s: State, s': State, t: nat)
    requires t < |s.pcs| && |s'.pcs| == |s.pcs| && s'.pcs == s.pcs[t := s'.pcs[t]]
    ensures Owns(s'.pcs[t]) ==> SomeOwner(s')
    ensures SomeOwner(s) && (Owns(s.pcs[t]) ==> Owns(s'.pcs[t])) ==> SomeOwner(s')
    ensures SomeOwner(s') && !Owns(s'.pcs[t]) ==> SomeOwner(s)
    ensures Rescues(s'.pcs[t]) ==> SomeRescuer(s')
    ensures SomeRescuer(s) && (Rescues(s.pcs[t]) ==> Rescues(s'.pcs[t])) ==> SomeRescuer(s')
    ensures SomeAsleep(s') && s'.pcs[t] != Asleep ==> SomeAsleep(s)
  {
    if SomeOwner(s) {
      var u :| 0 <= u < |s.pcs| && Owns(s.pcs[u]);
      assert u != t ==> Owns(s'.pcs[u]);
    }
    if SomeOwner(s') && !Owns(s'.pcs[t]) {
      var u :| 0 <= u < |s'.pcs| && Owns(s'.pcs[u]);
      assert Owns(s.pcs[u]);
    }
    if SomeRescuer(s) {
      var u :| 0 <= u < |s.pcs| && Rescues(s.pcs[u]);
      assert u != t ==> Rescues(s'.pcs[u]);
    }
    if SomeAsleep(s') && s'.pcs[t] != Asleep {
      var u :| 0 <= u < |s'.pcs| && s'.pcs[u] == Asleep;
      assert s.pcs[u] == Asleep;
    }
  }

  /** A sole owner that gives up its ownership leaves none. */
  lemma OwnerLeft(s: State, s': State, t: nat)
    requires Inv(s) && t < |s.pcs| && Owns(s.pcs[t])
    requires |s'.pcs| == |s.pcs| && s'.pcs == s.pcs[t := s'.pcs[t]] && !Owns(s'.pcs[t])
    ensures !SomeOwner(s')
  {
    forall u | 0 <= u < |s'.pcs| ensures !Owns(s'.pcs[u]) {
      if u < t {
        assert !Owns(s.pcs[u]);
      }
    }
  }

  /** A step that neither takes nor gives up the mutex: the word stays or becomes
      Sleeping, and a rescuer that leaves has made it so. */
  lemma BystanderKeepsInv(s: State, s': State, t: nat)
    requires Inv(s) && t < |s.pcs| && |s'.pcs| == |s.pcs| && s'.pcs == s.pcs[t := s'.pcs[t]]
    requires !Owns(s.pcs[t]) && !Owns(s'.pcs[t])
    requires s'.word == s.word || (s.word != UNLOCKED && s'.word == SLEEPING)
    requires Rescues(s.pcs[t]) && !Rescues(s'.pcs[t]) ==> s'.word == SLEEPING
    requires s'.pcs[t] == Asleep ==> s'.word == SLEEPING
    requires s'.pcs[t].Spin? ==> s'.pcs[t].failures <= NUMBER_OF_TRIES
    ensures Inv(s')
  {
    hide SomeOwner, SomeRescuer, SomeAsleep;
    Moved(s, s', t);
    Moved(s', s, t);
  }

  /** The unlocker goes, leaving no sleeper or another rescuer. */
  lemma WakerLeaves(s: State, s': State, t: nat)
    requires Inv(s) && t < |s.pcs| && s.pcs[t] == UnlockWake && s' == At(s, s.word, t, Idle)
    requires !SomeAsleep(s) || SomeRescuer(s')
    ensures Inv(s')
  {
    hide SomeOwner, SomeRescuer, SomeAsleep;
    Moved(s, s', t);
    Moved(s', s, t);
  }

  /** The wake: whoever was asleep is now on its way to the exchange. */
  lemma WakeKeepsInv(s: State, s': State, t: nat)
    requires Inv(s) && t < |s.pcs| && s.pcs[t] == UnlockWake && WakeOne(s, s', t)
    ensures Inv(s')
  {
    hide Inv;
    if SomeAsleep(s) {
      var u: nat :| u < |s.pcs| && s.pcs[u] == Asleep && s' == State(s.word, s.pcs[u := Returned][t := Idle]);
      var mid := At(s, s.word, u, Returned);
      BystanderKeepsInv(s, mid, u);
      assert Rescues(s'.pcs[u]);
      WakerLeaves(mid, s', t);
    } else {
      WakerLeaves(s, s', t);
    }
  }

  /** A step that takes the free mutex. */
  lemma AcquireKeepsInv(s: State, s': State, t: nat)
    requires Inv(s) && t < |s.pcs| && s.word == UNLOCKED
    requires s' == At(s, s'.word, t, Holding) && s'.word in {LOCKED, SLEEPING}
    requires Rescues(s.pcs[t]) ==> s'.word == SLEEPING
    ensures Inv(s')
  {
    OwnerExcludes(s);
    hide SomeOwner, SomeRescuer, SomeAsleep;
    Moved(s, s', t);
  }

  lemma OwnerExcludes(s: State)
    ensures !SomeOwner(s) ==> forall u | 0 <= u < |s.pcs| :: !Owns(s.pcs[u])
  {
  }

  lemma ThreadStepKeepsInv(s: State, s': State, t: nat)
    requires Inv(s) && ThreadStep(s, s', t)
    ensures Inv(s')
  {
    match s.pcs[t]
    case UnlockWake =>
      WakeKeepsInv(s, s', t);
    case Holding =>
      ReleaseKeepsInv(s, s', t);
    case UnlockStore =>
      ReleaseKeepsInv(s, s', t);
    case _ =>
      hide Inv;
      assert !Owns(s.pcs[t]);
      SpinsWithin(s);
      if Owns(s'.pcs[t]) {
        AcquireKeepsInv(s, s', t);
      } else {
        BystanderKeepsInv(s, s', t);
      }
  }

  lemma SpinsWithin(s: State)
    requires Inv(s)
    ensures forall t | 0 <= t < |s.pcs| && s.pcs[t].Spin? :: s.pcs[t].failures <= NUMBER_OF_TRIES
  {
  }

  /** The two halves of unlock. */
  lemma ReleaseKeepsInv(s: State, s': State, t: nat)
    requires Inv(s) && t < |s.pcs| && Owns(s.pcs[t]) && ThreadStep(s, s', t)
    ensures Inv(s')
  {
    Moved(s, s', t);
    if !Owns(s'.pcs[t]) {
      OwnerLeft(s, s', t);
    }
    hide SomeOwner, SomeRescuer, SomeAsleep;
  }

  lemma StepKeepsInv(s: State, s': State)
    requires Inv(s) && Step(s, s')
    ensures Inv(s')
  {
    var t: nat :| ThreadStep(s, s', t);
    ThreadStepKeepsInv(s, s', t);
  }

  ghost predicate Run(run: seq<State>) {
    && |run| > 0 && Init(run[0])
    && forall i | 0 <= i < |run| - 1 :: Step(run[i], run[i + 1])
  }

  lemma {:induction false} RunInv(run: seq<State>, i: nat)
    requires Run(run) && i < |run|
    ensures Inv(run[i])
  {
    if i == 0 {
      InitInv(run[0]);
    } else {
      RunInv(run, i - 1);
      StepKeepsInv(run[i - 1], run[i - 1 + 1]);
    }
  }

  /** Over every run, at most one thread holds the mutex, and while one does the word is
      not Unlocked. */
  lemma MutualExclusion(run: seq<State>, i: nat, t: nat, u: nat)
    requires Run(run) && i < |run| && t < |run[i].pcs| && u < |run[i].pcs|
    requires run[i].pcs[t] == Holding && Owns(run[i].pcs[u])
    ensures t == u && run[i].word in {LOCKED, SLEEPING}
  {
    RunInv(run, i);
    assert Owns(run[i].pcs[t]);
  }

  /** The places of lockSlow, up to the acquisition. */
  predicate InSlowPath(pc: Pc) {
    pc.SlowCompare? || pc.Exchange? || pc.Wait? || pc.Asleep? || pc.Returned?
  }

  function TriesAfter(pc: Pc, pc': Pc, n: nat): nat {
    if pc'.Idle? then 0 else if pc.Spin? && pc' != pc then n + 1 else n
  }

  /** How often thread t has run the tryLock of its call of lock, up to state i: a thread
      leaves a Spin place by trying. */
  ghost function Tries(run: seq<State>, i: nat, t: nat): nat
    requires i < |run| && forall j | 0 <= j <= i :: t < |run[j].pcs|
  {
    if i == 0 then 0 else TriesAfter(run[i - 1].pcs[t], run[i].pcs[t], Tries(run, i - 1, t))
  }

  lemma {:induction false} ThreadsStay(run: seq<State>, i: nat)
    requires Run(run) && i < |run|
    ensures forall j | 0 <= j <= i :: |run[j].pcs| == |run[i].pcs|
  {
    if i == 0 {
    } else {
      ThreadsStay(run, i - 1);
      assert Step(run[i - 1], run[i - 1 + 1]);
    }
  }

  /** How many tries belong to a place. */
  predicate TriesFit(pc: Pc, n: nat) {
    && n <= 1 + NUMBER_OF_TRIES
    && (pc.Idle? ==> n == 0)
    && (InSlowPath(pc) ==> n == 1 + NUMBER_OF_TRIES)
    && (pc.Spin? ==> n == pc.failures <= NUMBER_OF_TRIES)
  }

  /** A wake-up leaves the waker idle and moves at most a sleeper. */
  lemma WakeMoves(s: State, s': State, u: nat, t: nat)
    requires u < |s.pcs| && WakeOne(s, s', u) && s.pcs[u] == UnlockWake && t < |s.pcs| && t < |s'.pcs|
    ensures t == u ==> s'.pcs[t].Idle?
    ensures t != u ==> s'.pcs[t] == s.pcs[t] || (s.pcs[t].Asleep? && s'.pcs[t].Returned?)
  {
  }

  lemma OthersStay(s: State, s': State, u: nat, t: nat)
    requires ThreadStep(s, s', u) && t < |s.pcs| && t < |s'.pcs| && t != u
    ensures s'.pcs[t] == s.pcs[t] || (s.pcs[t].Asleep? && s'.pcs[t].Returned?)
  {
    if s.pcs[u].UnlockWake? {
      WakeMoves(s, s', u, t);
    }
    hide WakeOne;
  }

  lemma OwnStepKeepsTriesFit(s: State, s': State, t: nat, n: nat)
    requires ThreadStep(s, s', t) && t < |s'.pcs| && TriesFit(s.pcs[t], n)
    ensures TriesFit(s'.pcs[t], TriesAfter(s.pcs[t], s'.pcs[t], n))
  {
    if s.pcs[t].UnlockWake? {
      WakeMoves(s, s', t, t);
    }
    hide WakeOne;
  }

  lemma StepKeepsTriesFit(s: State, s': State, t: nat, n: nat)
    requires Step(s, s') && t < |s.pcs| && t < |s'.pcs| && TriesFit(s.pcs[t], n)
    ensures TriesFit(s'.pcs[t], TriesAfter(s.pcs[t], s'.pcs[t], n))
  {
    var u: nat :| ThreadStep(s, s', u);
    if u == t {
      OwnStepKeepsTriesFit(s, s', t, n);
    } else {
      OthersStay(s, s', u, t);
    }
    hide ThreadStep, Step;
  }

  /** lock tries once and then NumberOfTries times, no more and, before it goes the slow
      way, no less. */
  lemma {:induction false} TriesBeforeSleeping(run: seq<State>, i: nat, t: nat)
    requires Run(run) && i < |run| && t < |run[0].pcs|
    ensures forall j | 0 <= j <= i :: t < |run[j].pcs|
    ensures Tries(run, i, t) <= 1 + NUMBER_OF_TRIES
    ensures InSlowPath(run[i].pcs[t]) ==> Tries(run, i, t) == 1 + NUMBER_OF_TRIES
    ensures run[i].pcs[t].Spin? ==> Tries(run, i, t) == run[i].pcs[t].failures <= NUMBER_OF_TRIES
  {
    ThreadsStay(run, i);
    if i == 0 {
    } else {
      TriesBeforeSleeping(run, i - 1, t);
      assert Step(run[i - 1], run[i - 1 + 1]);
      hide Step, Run;
      StepKeepsTriesFit(run[i - 1], run[i], t, Tries(run, i - 1, t));
    }
  }

  /** No sleeper is forgotten: while a thread sleeps on the futex, the word is Sleeping
      and some thread owns it, or an unlocker is between its fetch_sub and its wake, or a
      thread back from its wait has not yet redone its exchange. */
  lemma NoLostWakeup(run: seq<State>, i: nat, t: nat)
    requires Run(run) && i < |run| && t < |run[i].pcs| && run[i].pcs[t] == Asleep
    ensures (run[i].word == SLEEPING && SomeOwner(run[i])) || SomeRescuer(run[i])
  {
    RunInv(run, i);
    assert SomeAsleep(run[i]);
  }

  // ------------------------------------------------------------------ refusals and contention

  /** The places at which a compare-exchange comes next, and what its failure leads to. */
  predicate AboutToTry(pc: Pc) {
    pc.TryOnce? || pc.Spin? || pc.SlowCompare?
  }

  /** A compare-exchange takes the mutex if it is free, with nobody to wake later, and fails
      only while another thread owns it. */
  lemma TryTakesFreeMutex(run: seq<State>, i: nat, t: nat)
    requires Run(run) && i + 1 < |run| && t < |run[i].pcs| && t < |run[i + 1].pcs|
    requires AboutToTry(run[i].pcs[t]) && run[i + 1].pcs[t] != run[i].pcs[t]
    ensures run[i].word == UNLOCKED ==> run[i + 1].pcs[t] == Holding && run[i + 1].word == LOCKED
    ensures run[i + 1].pcs[t] != Holding ==>
      && run[i + 1].word == run[i].word != UNLOCKED
      && (run[i].pcs[t].SlowCompare? ==> run[i + 1].pcs[t] == if run[i].word == SLEEPING then Wait else Exchange)
      && exists u :: 0 <= u < |run[i].pcs| && u != t && (run[i].pcs[u].Holding? || run[i].pcs[u].UnlockStore?)
  {
    RunInv(run, i);
    var s, s' := run[i], run[i + 1];
    assert Step(s, s');
    var v: nat :| ThreadStep(s, s', v);
    if v != t {
      OthersStay(s, s', v, t);
      assert false;
    }
    if s.word != UNLOCKED {
      var u :| 0 <= u < |s.pcs| && Owns(s.pcs[u]);
    }
  }

  /** No thread is ever stuck. */
  lemma EveryoneCanStep(run: seq<State>, i: nat, t: nat)
    requires Run(run) && i < |run| && t < |run[i].pcs|
    ensures exists s' :: ThreadStep(run[i], s', t)
  {
    RunInv(run, i);
    var s := run[i];
    match s.pcs[t]
    case Idle => assert ThreadStep(s, At(s, s.word, t, Spin(0)), t);
    case TryOnce =>
      assert ThreadStep(s, if s.word == UNLOCKED then At(s, LOCKED, t, Holding) else At(s, s.word, t, Refused), t);
    case Refused => assert ThreadStep(s, At(s, s.word, t, Idle), t);
    case Spin(n) =>
      var next := if n < NUMBER_OF_TRIES then Spin(n + 1) else SlowCompare;
      assert ThreadStep(s, if s.word == UNLOCKED then At(s, LOCKED, t, Holding) else At(s, s.word, t, next), t);
    case SlowCompare =>
      var next := if s.word == SLEEPING then Wait else Exchange;
      assert ThreadStep(s, if s.word == UNLOCKED then At(s, LOCKED, t, Holding) else At(s, s.word, t, next), t);
    case Exchange => assert ThreadStep(s, At(s, SLEEPING, t, if s.word == UNLOCKED then Holding else Wait), t);
    case Wait => assert ThreadStep(s, At(s, s.word, t, if s.word == SLEEPING then Asleep else Returned), t);
    case Asleep => assert ThreadStep(s, At(s, s.word, t, Returned), t);
    case Returned => assert ThreadStep(s, At(s, SLEEPING, t, if s.word == UNLOCKED then Holding else Wait), t);
    case Holding =>
      assert Owns(s.pcs[t]);
      assert ThreadStep(s, At(s, s.word - 1, t, if s.word == LOCKED then Idle else UnlockStore), t);
    case UnlockStore => assert ThreadStep(s, At(s, UNLOCKED, t, UnlockWake), t);
    case UnlockWake =>
      if u: nat :| u < |s.pcs| && s.pcs[u] == Asleep {
        assert ThreadStep(s, State(s.word, s.pcs[u := Returned][t := Idle]), t);
      } else {
        assert ThreadStep(s, At(s, s.word, t, Idle), t);
      }
  }

  /** A thread alone takes the mutex at its first try and gives it back in one step. */
  lemma LockAndUnlock() returns (run: seq<State>)
    ensures Run(run) && |run| == 4 && forall i | 0 <= i < 4 :: NoOverlap(run[i])
    ensures run[2] == State(LOCKED, [Holding]) && run[3] == run[0] == State(UNLOCKED, [Idle])
  {
    run := [State(UNLOCKED, [Idle]), State(UNLOCKED, [Spin(0)]), State(LOCKED, [Holding]), State(UNLOCKED, [Idle])];
    assert ThreadStep(run[0], run[1], 0) && ThreadStep(run[1], run[2], 0) && ThreadStep(run[2], run[3], 0);
    assert Step(run[0], run[0 + 1]) && Step(run[1], run[1 + 1]) && Step(run[2], run[2 + 1]);
  }

  /** The word is Sleeping only if, since it last was anything else, some thread has given up
      trying or come back from a wait, and exchanged. */
  lemma {:induction false} SleepingMeansContended(run: seq<State>, i: nat) returns (j: nat, t: nat)
    requires Run(run) && i < |run| && run[i].word == SLEEPING
    ensures j < i && t < |run[j].pcs| && (run[j].pcs[t].Exchange? || run[j].pcs[t].Returned?)
    ensures forall k | j < k <= i :: run[k].word == SLEEPING
  {
    RunInv(run, i - 1);
    assert Step(run[i - 1], run[i - 1 + 1]);
    var s, s' := run[i - 1], run[i];
    t :| ThreadStep(s, s', t);
    if s.pcs[t].Exchange? || s.pcs[t].Returned? {
      j := i - 1;
    } else {
      SleepingStays(s, s', t);
      j, t := SleepingMeansContended(run, i - 1);
    }
  }

  lemma SleepingStays(s: State, s': State, t: nat)
    requires ThreadStep(s, s', t) && s'.word == SLEEPING && !s.pcs[t].Exchange? && !s.pcs[t].Returned?
    requires s.word <= SLEEPING
    ensures s.word == SLEEPING
  {
    if s.pcs[t].UnlockWake? && WakeOne(s, s', t) {
      assert s'.word == s.word;
    }
  }

  /** A waiter goes to sleep exactly if the word is still Sleeping when the kernel looks,
      which it is only under an owner. */
  lemma SleepsUnderOwner(run: seq<State>, i: nat, t: nat)
    requires Run(run) && i + 1 < |run| && t < |run[i].pcs| && t < |run[i + 1].pcs|
    requires run[i].pcs[t] == Wait && run[i + 1].pcs[t] != Wait
    ensures run[i + 1].pcs[t] == (if run[i].word == SLEEPING then Asleep else Returned)
    ensures run[i + 1].pcs[t] == Asleep ==> SomeOwner(run[i])
  {
    RunInv(run, i);
    assert Step(run[i], run[i + 1]);
    var v: nat :| ThreadStep(run[i], run[i + 1], v);
    if v != t {
      OthersStay(run[i], run[i + 1], v, t);
      assert false;
    }
  }

  /** No two threads are in calls, from the call of lock to the return of unlock. */
  ghost predicate NoOverlap(s: State) {
    forall t, u | 0 <= t < u < |s.pcs| && s.pcs[t] != Idle :: s.pcs[u] == Idle
  }

  /** Calls that do not overlap never wait, wake or fail: the mutex goes to and fro between
      Unlocked and Locked. */
  lemma {:induction false} UncontendedIsFast(run: seq<State>, i: nat)
    requires Run(run) && i < |run| && forall j | 0 <= j <= i :: NoOverlap(run[j])
    ensures run[i].word in {UNLOCKED, LOCKED}
    ensures forall t | 0 <= t < |run[i].pcs| :: run[i].pcs[t] in {Idle, TryOnce, Spin(0), Holding}
  {
    if i == 0 {
    } else {
      UncontendedIsFast(run, i - 1);
      RunInv(run, i - 1);
      var s, s' := run[i - 1], run[i];
      assert Step(run[i - 1], run[i - 1 + 1]);
      var t: nat :| ThreadStep(s, s', t);
      FastStep(s, s', t);
    }
  }

  lemma FastStep(s: State, s': State, t: nat)
    requires Inv(s) && NoOverlap(s) && ThreadStep(s, s', t) && s.word in {UNLOCKED, LOCKED}
    requires forall u | 0 <= u < |s.pcs| :: s.pcs[u] in {Idle, TryOnce, Spin(0), Holding}
    ensures s'.word in {UNLOCKED, LOCKED}
    ensures forall u | 0 <= u < |s'.pcs| :: s'.pcs[u] in {Idle, TryOnce, Spin(0), Holding}
  {
    if s.pcs[t] != Idle && s.pcs[t] != Holding {
      assert forall u | 0 <= u < |s.pcs| :: !Owns(s.pcs[u]);
      assert !SomeOwner(s);
    }
  }

  /** So it never happens that all the threads that are not idle sleep. */
  lemma SomeoneIsAwake(run: seq<State>, i: nat, t: nat) returns (u: nat)
    requires Run(run) && i < |run| && t < |run[i].pcs| && run[i].pcs[t] == Asleep
    ensures u < |run[i].pcs| && !run[i].pcs[u].Idle? && !run[i].pcs[u].Asleep?
    ensures exists s' :: ThreadStep(run[i], s', u)
  {
    NoLostWakeup(run, i, t);
    RunInv(run, i);
    var s := run[i];
    if SomeRescuer(s) {
      u :| 0 <= u < |s.pcs| && Rescues(s.pcs[u]);
    } else {
      u :| 0 <= u < |s.pcs| && Owns(s.pcs[u]);
    }
    assert s.pcs[u].Holding? ==> SomeOwner(s);
    match s.pcs[u]
    case Holding =>
      assert ThreadStep(s, At(s, s.word - 1, u, if s.word == LOCKED then Idle else UnlockStore), u);
    case UnlockStore =>
      assert ThreadStep(s, At(s, UNLOCKED, u, UnlockWake), u);
    case Returned =>
      assert ThreadStep(s, At(s, SLEEPING, u, if s.word == UNLOCKED then Holding else Wait), u);
    case UnlockWake =>
      assert SomeAsleep(s);
      assert ThreadStep(s, State(s.word, s.pcs[t := Returned][u := Idle]), u);
    case _ =>
  }
}
