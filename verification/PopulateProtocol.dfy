/** Who refills a region's free list, and who waits for it (primary64.h popBlocksWithCV
    with condition_variable_linux.cpp waitImpl and notifyAllImpl): any number of threads
    popping through the condition variable, popping plainly and pushing.  FLLock is a
    mutex (see HybridMutex); each write under it is a step of its own, because the kernel
    reads Counter without it.  Counter is a number here: it does not come round to the
    same word during one wait. */
module PopulateProtocol {

  datatype Pc =
    | Idle
      /** The top of the loop: take FLLock, look at the flag, set it or not, release. */
    | TopLock
    | TopHeld
    | PopulateUnlock
    | SkipUnlock
      /** The flag is this thread's: refill, take FLLock again, clear the flag. */
    | Populating
    | FinishLock
    | FinishHeld
      /** The flag is another's: take FLLock, pop, look at the flag again. */
    | PopLock
    | PopHeld
    | RetryUnlock
    | DoneUnlock
      /** waitImpl: count, release, call the futex wait for the count, take FLLock. */
    | WaitHeld
    | WaitUnlock(v: nat)
    | WaitFutex(v: nat)
    | Asleep(v: nat)
    | Relock
    | AfterWait
      /** A pusher. */
    | PushLock
    | PushHeld
      /** notifyAllImpl: count, wake unless no one has waited, remember; `clears` says the
          caller has just cleared the flag. */
    | NotifyStore(clears: bool)
    | NotifyWake(v: nat, clears: bool)
    | NotifyLast(v: nat, clears: bool)

  datatype Thread = None | Only(t: nat)

  datatype State = State(holder: Thread, populating: bool, counter: nat, lastNotifyAll: nat, blocks: nat, pcs: seq<Pc>)

  ghost predicate Init(s: State) {
    && s.holder == None && !s.populating && s.counter == 0 && s.lastNotifyAll == 0
    && forall t | 0 <= t < |s.pcs| :: s.pcs[t] == Idle
  }

  function Goes(s: State, t: nat, pc: Pc): State
    requires t < |s.pcs|
  {
    s.(pcs := s.pcs[t := pc])
  }

  predicate Acquires(s: State, s': State, t: nat, pc: Pc)
    requires t < |s.pcs|
  {
    s.holder == None && s' == Goes(s, t, pc).(holder := Only(t))
  }

  predicate Releases(s: State, s': State, t: nat, pc: Pc)
    requires t < |s.pcs|
  {
    s' == Goes(s, t, pc).(holder := None)
  }

  /** popBlocksImpl takes something whenever there is something. */
  predicate Pops(s: State, s': State, t: nat, onEmpty: Pc)
    requires t < |s.pcs|
  {
    if s.blocks > 0 then s'.blocks < s.blocks && s' == Goes(s, t, DoneUnlock).(blocks := s'.blocks)
    else s' == Goes(s, t, onEmpty)
  }

  /** FUTEX_WAKE of all sleepers. */
  function Woken(pcs: seq<Pc>): (w: seq<Pc>)
    ensures |w| == |pcs|
    ensures forall t | 0 <= t < |pcs| :: w[t] == if pcs[t].Asleep? then Relock else pcs[t]
  {
    seq(|pcs|, t requires 0 <= t < |pcs| => if pcs[t].Asleep? then Relock else pcs[t])
  }

  ghost predicate ThreadStep(s: State, s': State, t: nat) {
    t < |s.pcs| &&
    match s.pcs[t]
    case Idle =>
      || s' == Goes(s, t, TopLock)
      || s' == Goes(s, t, PushLock)
      || (s.holder == None && s'.blocks <= s.blocks && s' == s.(blocks := s'.blocks))
    case TopLock => Acquires(s, s', t, TopHeld)
    case TopHeld =>
      s' == if s.populating then Goes(s, t, SkipUnlock) else Goes(s, t, PopulateUnlock).(populating := true)
    case PopulateUnlock => Releases(s, s', t, Populating)
    case SkipUnlock => Releases(s, s', t, PopLock)
    case Populating =>
      || s' == Goes(s, t, FinishLock)
      || (s.holder == None && s' == s.(blocks := s'.blocks))
    case FinishLock => Acquires(s, s', t, FinishHeld)
    case FinishHeld => s' == Goes(s, t, NotifyStore(true)).(populating := false)
    case PopLock => Acquires(s, s', t, PopHeld)
    case PopHeld => Pops(s, s', t, if s.populating then WaitHeld else RetryUnlock)
    case RetryUnlock => Releases(s, s', t, TopLock)
    case DoneUnlock => Releases(s, s', t, Idle)
    case WaitHeld => s' == Goes(s, t, WaitUnlock(s.counter + 1)).(counter := s.counter + 1)
    case WaitUnlock(v) => Releases(s, s', t, WaitFutex(v))
    case WaitFutex(v) => s' == Goes(s, t, if s.counter == v then Asleep(v) else Relock)
    case Asleep(v) => s' == Goes(s, t, Relock)
    case Relock => Acquires(s, s', t, AfterWait)
    case AfterWait => Pops(s, s', t, RetryUnlock)
    case PushLock => Acquires(s, s', t, PushHeld)
    case PushHeld => s'.blocks > s.blocks && s' == Goes(s, t, NotifyStore(false)).(blocks := s'.blocks)
    case NotifyStore(clears) =>
      s' == Goes(s, t, NotifyWake(s.counter, clears)).(counter := s.counter + 1)
    case NotifyWake(v, clears) =>
      s' == s.(pcs := (if s.lastNotifyAll != v then Woken(s.pcs) else s.pcs)[t := NotifyLast(v, clears)])
    case NotifyLast(v, clears) => s' == Goes(s, t, DoneUnlock).(lastNotifyAll := v + 1)
  }

  ghost predicate Step(s: State, s': State) {
    exists t: nat :: ThreadStep(s, s', t)
  }

  predicate InSection(pc: Pc) {
    pc.TopHeld? || pc.PopulateUnlock? || pc.SkipUnlock? || pc.FinishHeld? || pc.PopHeld? || pc.RetryUnlock?
    || pc.DoneUnlock? || pc.WaitHeld? || pc.WaitUnlock? || pc.AfterWait? || pc.PushHeld?
    || pc.NotifyStore? || pc.NotifyWake? || pc.NotifyLast?
  }

  /** Has set the flag and not cleared it yet. */
  predicate Populates(pc: Pc) {
    pc.PopulateUnlock? || pc.Populating? || pc.FinishLock? || pc.FinishHeld?
  }

  function HolderPc(s: State): Pc {
    if s.holder.Only? && s.holder.t < |s.pcs| then s.pcs[s.holder.t] else Idle
  }

  /** Someone will call notifyAll, or is in it and has not counted yet. */
  predicate Pending(s: State) {
    s.populating || HolderPc(s) == NotifyStore(true)
  }

  /** ... or has not woken yet. */
  predicate WakePending(s: State) {
    Pending(s) || (HolderPc(s).NotifyWake? && HolderPc(s).clears)
  }

  predicate WaiterOk(s: State, pc: Pc) {
    match pc
    case WaitHeld => s.populating
    case WaitUnlock(v) => s.populating && s.lastNotifyAll < v == s.counter
    case WaitFutex(v) =>
      && v <= s.counter && (v == s.counter ==> s.lastNotifyAll < v && Pending(s))
      && (HolderPc(s).NotifyWake? || HolderPc(s).NotifyLast? ==> v < s.counter)
    case Asleep(v) =>
      && s.lastNotifyAll < v <= s.counter && WakePending(s)
      && (HolderPc(s).NotifyWake? ==> v < s.counter)
      && !HolderPc(s).NotifyLast?
    case _ => true
  }

  predicate NotifierOk(s: State) {
    && s.lastNotifyAll <= s.counter
    && (HolderPc(s).NotifyWake? ==> s.lastNotifyAll <= HolderPc(s).v && s.counter == HolderPc(s).v + 1)
    && (HolderPc(s).NotifyLast? ==> s.counter == HolderPc(s).v + 1)
  }

  /** Exactly the holder of FLLock is in a critical section. */
  ghost predicate SectionOk(s: State) {
    && (forall t | 0 <= t < |s.pcs| :: InSection(s.pcs[t]) <==> s.holder == Only(t))
    && (s.holder.Only? ==> s.holder.t < |s.pcs|)
  }

  /** Exactly `p` is populating, and the flag says whether someone is. */
  ghost predicate FlagOk(s: State, p: Thread) {
    && (forall t | 0 <= t < |s.pcs| :: Populates(s.pcs[t]) <==> p == Only(t))
    && (p.Only? ==> p.t < |s.pcs|)
    && (s.populating <==> p.Only?)
  }

  ghost predicate WaitersOk(s: State) {
    forall t | 0 <= t < |s.pcs| :: WaiterOk(s, s.pcs[t])
  }

  ghost predicate Inv(s: State) {
    && SectionOk(s) && NotifierOk(s) && WaitersOk(s)
    && exists p :: FlagOk(s, p)
  }

  function NextPopulater(s: State, p: Thread, t: nat): Thread
    requires t < |s.pcs|
  {
    if s.pcs[t].TopHeld? && !s.populating then Only(t) else if s.pcs[t].FinishHeld? then None else p
  }

  /** No step moves another thread, but for the wake, which moves sleepers. */
  lemma OthersMove(s: State, s': State, t: nat)
    requires ThreadStep(s, s', t)
    ensures |s'.pcs| == |s.pcs|
    ensures forall u | 0 <= u < |s.pcs| && u != t ::
      s'.pcs[u] == s.pcs[u] || (s.pcs[t].NotifyWake? && s.pcs[u].Asleep? && s'.pcs[u] == Relock)
  {
  }

  lemma SectionEffect(s: State, s': State, t: nat)
    requires ThreadStep(s, s', t)
    ensures t < |s'.pcs|
    ensures InSection(s'.pcs[t]) == InSection(s.pcs[t]) ==> s'.holder == s.holder
    ensures InSection(s'.pcs[t]) && !InSection(s.pcs[t]) ==> s.holder == None && s'.holder == Only(t)
    ensures !InSection(s'.pcs[t]) && InSection(s.pcs[t]) ==> s'.holder == None
  {
  }

  lemma SectionKept(s: State, s': State, t: nat)
    requires SectionOk(s) && ThreadStep(s, s', t)
    ensures SectionOk(s')
  {
    assert t < |s.pcs|;
    hide ThreadStep, InSection;
    OthersMove(s, s', t);
    SectionEffect(s, s', t);
    SleepersAreOutside();
  }

  lemma SleepersAreOutside()
    ensures forall v: nat :: !InSection(Asleep(v)) && !Populates(Asleep(v))
    ensures !InSection(Relock) && !Populates(Relock)
  {
  }

  lemma FlagEffect(s: State, s': State, t: nat)
    requires ThreadStep(s, s', t)
    ensures t < |s'.pcs|
    ensures
      if s.pcs[t].TopHeld? && !s.populating then !Populates(s.pcs[t]) && Populates(s'.pcs[t]) && s'.populating
      else if s.pcs[t].FinishHeld? then Populates(s.pcs[t]) && !Populates(s'.pcs[t]) && !s'.populating
      else Populates(s'.pcs[t]) == Populates(s.pcs[t]) && s'.populating == s.populating
  {
  }

  lemma FlagKept(s: State, s': State, p: Thread, t: nat)
    requires FlagOk(s, p) && ThreadStep(s, s', t)
    ensures FlagOk(s', NextPopulater(s, p, t))
  {
    assert t < |s.pcs|;
    hide ThreadStep, Populates;
    OthersMove(s, s', t);
    FlagEffect(s, s', t);
    SleepersAreOutside();
  }

  /** Moving around outside notifyAll. */
  predicate Quiet(pc: Pc) {
    !pc.NotifyStore? && !pc.NotifyWake? && !pc.NotifyLast? && !pc.WaitHeld? && !pc.TopHeld? && !pc.FinishHeld?
  }

  /** A quiet step changes nothing a waiter depends on. */
  lemma QuietEffect(s: State, s': State, t: nat)
    requires SectionOk(s) && SectionOk(s') && ThreadStep(s, s', t) && Quiet(s.pcs[t])
    ensures s'.populating == s.populating && s'.counter == s.counter && s'.lastNotifyAll == s.lastNotifyAll
    ensures HolderPc(s') == HolderPc(s) || (Silent(HolderPc(s)) && Silent(HolderPc(s')))
  {
  }

  predicate Silent(pc: Pc) {
    pc != NotifyStore(true) && !pc.NotifyWake? && !pc.NotifyLast?
  }

  lemma QuietWaiter(s: State, s': State, pc: Pc)
    requires s'.populating == s.populating && s'.counter == s.counter && s'.lastNotifyAll == s.lastNotifyAll
    requires HolderPc(s') == HolderPc(s) || (Silent(HolderPc(s)) && Silent(HolderPc(s')))
    requires WaiterOk(s, pc)
    ensures WaiterOk(s', pc)
  {
  }

  lemma QuietKept(s: State, s': State, t: nat)
    requires SectionOk(s) && SectionOk(s') && NotifierOk(s) && WaitersOk(s)
    requires ThreadStep(s, s', t) && Quiet(s.pcs[t])
    ensures NotifierOk(s') && WaitersOk(s')
  {
    QuietEffect(s, s', t);
    OthersMove(s, s', t);
    QuietMover(s, s', t);
    hide ThreadStep, WaiterOk, HolderPc;
    forall u | 0 <= u < |s'.pcs| ensures WaiterOk(s', s'.pcs[u]) {
      if u != t {
        QuietWaiter(s, s', s.pcs[u]);
      }
    }
  }

  /** The mover itself, when it goes to wait. */
  lemma QuietMover(s: State, s': State, t: nat)
    requires SectionOk(s) && SectionOk(s') && WaitersOk(s) && ThreadStep(s, s', t) && Quiet(s.pcs[t])
    requires s'.populating == s.populating && s'.counter == s.counter && s'.lastNotifyAll == s.lastNotifyAll
    ensures WaiterOk(s', s'.pcs[t])
  {
    assert WaiterOk(s, s.pcs[t]);
  }

  lemma NotifierKept(s: State, s': State, t: nat)
    requires SectionOk(s) && SectionOk(s') && NotifierOk(s) && WaitersOk(s)
    requires ThreadStep(s, s', t) && !Quiet(s.pcs[t])
    ensures NotifierOk(s')
  {
  }

  lemma WaitersKept(s: State, s': State, t: nat)
    requires SectionOk(s) && SectionOk(s') && NotifierOk(s) && WaitersOk(s)
    requires ThreadStep(s, s', t) && !Quiet(s.pcs[t])
    ensures WaitersOk(s')
  {
  }

  lemma InitInv(s: State)
    requires Init(s)
    ensures Inv(s)
  {
    assert FlagOk(s, None);
  }

  /** Every step of every thread keeps the invariant. */
  lemma StepKeepsInv(s: State, s': State)
    requires Inv(s) && Step(s, s')
    ensures Inv(s')
  {
    var t: nat :| ThreadStep(s, s', t);
    var p :| FlagOk(s, p);
    hide ThreadStep, SectionOk, NotifierOk, WaitersOk, FlagOk;
    SectionKept(s, s', t);
    StepIndex(s, s', t);
    FlagKept(s, s', p, t);
    if Quiet(s.pcs[t]) {
      QuietKept(s, s', t);
    } else {
      NotifierKept(s, s', t);
      WaitersKept(s, s', t);
    }
  }

  lemma StepIndex(s: State, s': State, t: nat)
    requires ThreadStep(s, s', t)
    ensures t < |s.pcs|
  {
  }

  ghost predicate Run(run: seq<State>) {
    && |run| > 0 && Init(run[0])
    && forall i | 0 <= i < |run| - 1 :: Step(run[i], run[i + 1])
  }

  lemma {:induction false} RunInv(run: seq<State>, i: nat)
    requires Run(run) && i < |run|
    ensures Inv(run[i])
  {
    hide Inv, Step, Init;
    if i == 0 {
      InitInv(run[0]);
    } else {
      RunInv(run, i - 1);
      StepKeepsInv(run[i - 1], run[i - 1 + 1]);
    }
  }

  /** Over every run, at most one thread is populating the region. */
  lemma OnePopulater(run: seq<State>, i: nat, t: nat, u: nat)
    requires Run(run) && i < |run| && t < |run[i].pcs| && u < |run[i].pcs|
    requires Populates(run[i].pcs[t]) && Populates(run[i].pcs[u])
    ensures t == u && run[i].populating
  {
    RunInv(run, i);
    var p :| FlagOk(run[i], p);
  }

  /** Over every run, a thread waits only when the list is empty and another is filling it;
      one that looks for blocks leaves exactly when there are some, and leaves with fewer. */
  lemma WaitsOnlyIfEmpty(run: seq<State>, i: nat, t: nat)
    requires Run(run) && i + 1 < |run| && t < |run[i].pcs| && run[i].pcs[t] != run[i + 1].pcs[t]
    ensures
      var s, s' := run[i], run[i + 1];
      var looks := s.pcs[t].PopHeld? || s.pcs[t].AfterWait?;
      && (s'.pcs[t].WaitHeld? ==> s.blocks == 0 && s.populating && !Populates(s.pcs[t]))
      && (looks ==> (s'.pcs[t].DoneUnlock? <==> s.blocks > 0))
      && (looks && s'.pcs[t].DoneUnlock? ==> s'.blocks < s.blocks)
  {
    var u: nat :| ThreadStep(run[i], run[i + 1], u);
    OthersMove(run[i], run[i + 1], u);
  }

  /** Over every run, the list changes only under its lock: while a thread holds it, no
      other thread takes or adds blocks, and only pushing or populating adds any. */
  lemma ListChangesUnderLock(run: seq<State>, i: nat)
    requires Run(run) && i + 1 < |run| && run[i].blocks != run[i + 1].blocks
    ensures
      var s, s' := run[i], run[i + 1];
      && (s.holder.Only? ==>
            HolderPc(s).PopHeld? || HolderPc(s).AfterWait? || HolderPc(s).PushHeld?)
      && (s.holder.Only? ==> s'.holder == s.holder && HolderPc(s') != HolderPc(s))
      && (s'.blocks > s.blocks ==> if s.holder.Only? then HolderPc(s).PushHeld? else s.populating)
  {
    RunInv(run, i);
    var s, s' := run[i], run[i + 1];
    var u: nat :| ThreadStep(s, s', u);
    var p :| FlagOk(s, p);
  }

  /** Over every run, while a thread sleeps on the condition variable the flag is set, with
      a thread that will clear it and notify, or that thread has cleared it and is still
      on its way, under the lock, to the wake. */
  lemma SleeperIsAwaited(run: seq<State>, i: nat, t: nat)
    requires Run(run) && i < |run| && t < |run[i].pcs| && run[i].pcs[t].Asleep?
    ensures
      || (run[i].populating && exists u :: 0 <= u < |run[i].pcs| && Populates(run[i].pcs[u]))
      || HolderPc(run[i]) == NotifyStore(true)
      || (HolderPc(run[i]).NotifyWake? && HolderPc(run[i]).clears)
  {
    RunInv(run, i);
    assert WaiterOk(run[i], run[i].pcs[t]);
    var p :| FlagOk(run[i], p);
    if run[i].populating {
      assert Populates(run[i].pcs[p.t]);
    }
  }

  /** The wake is never skipped while someone sleeps, and leaves no one asleep. */
  lemma WakeReachesAll(run: seq<State>, i: nat, t: nat, next: State)
    requires Run(run) && i < |run| && t < |run[i].pcs| && run[i].pcs[t].NotifyWake?
    requires ThreadStep(run[i], next, t)
    ensures forall u | 0 <= u < |run[i].pcs| && run[i].pcs[u].Asleep? :: run[i].lastNotifyAll != run[i].pcs[t].v
    ensures forall u | 0 <= u < |next.pcs| :: !next.pcs[u].Asleep?
  {
    RunInv(run, i);
    var s := run[i];
    assert InSection(s.pcs[t]);
    assert HolderPc(s) == s.pcs[t];
    forall u | 0 <= u < |s.pcs| && s.pcs[u].Asleep? ensures s.lastNotifyAll != s.pcs[t].v {
      assert WaiterOk(s, s.pcs[u]);
    }
  }

  lemma SectionCanStep(s: State, t: nat)
    requires t < |s.pcs| && InSection(s.pcs[t])
    ensures exists s' :: ThreadStep(s, s', t)
  {
    var s' := match s.pcs[t]
      case TopHeld => if s.populating then Goes(s, t, SkipUnlock) else Goes(s, t, PopulateUnlock).(populating := true)
      case PopulateUnlock => Goes(s, t, Populating).(holder := None)
      case SkipUnlock => Goes(s, t, PopLock).(holder := None)
      case FinishHeld => Goes(s, t, NotifyStore(true)).(populating := false)
      case PopHeld =>
        if s.blocks > 0 then Goes(s, t, DoneUnlock).(blocks := 0)
        else Goes(s, t, if s.populating then WaitHeld else RetryUnlock)
      case RetryUnlock => Goes(s, t, TopLock).(holder := None)
      case DoneUnlock => Goes(s, t, Idle).(holder := None)
      case WaitHeld => Goes(s, t, WaitUnlock(s.counter + 1)).(counter := s.counter + 1)
      case WaitUnlock(v) => Goes(s, t, WaitFutex(v)).(holder := None)
      case AfterWait => if s.blocks > 0 then Goes(s, t, DoneUnlock).(blocks := 0) else Goes(s, t, RetryUnlock)
      case PushHeld => Goes(s, t, NotifyStore(false)).(blocks := s.blocks + 1)
      case NotifyStore(clears) => Goes(s, t, NotifyWake(s.counter, clears)).(counter := s.counter + 1)
      case NotifyWake(v, clears) =>
        s.(pcs := (if s.lastNotifyAll != v then Woken(s.pcs) else s.pcs)[t := NotifyLast(v, clears)])
      case NotifyLast(v, clears) => Goes(s, t, DoneUnlock).(lastNotifyAll := v + 1)
      case _ => s;
    assert ThreadStep(s, s', t);
  }

  /** The protocol never blocks for good: while a thread sleeps, some thread that is
      neither idle nor asleep has a step. */
  lemma SomeoneCanStep(run: seq<State>, i: nat, t: nat) returns (u: nat)
    requires Run(run) && i < |run| && t < |run[i].pcs| && run[i].pcs[t].Asleep?
    ensures u < |run[i].pcs| && !run[i].pcs[u].Idle? && !run[i].pcs[u].Asleep?
    ensures exists s' :: ThreadStep(run[i], s', u)
  {
    SleeperIsAwaited(run, i, t);
    RunInv(run, i);
    var s := run[i];
    if s.holder.Only? {
      u := s.holder.t;
      SectionCanStep(s, u);
    } else {
      u :| 0 <= u < |s.pcs| && Populates(s.pcs[u]);
      assert !InSection(s.pcs[u]);
      var s' := if s.pcs[u].Populating? then Goes(s, u, FinishLock)
        else Goes(s, u, FinishHeld).(holder := Only(u));
      assert ThreadStep(s, s', u);
    }
  }

  /** A thread alone. */
  function One(holder: Thread, populating: bool, counter: nat, lastNotifyAll: nat, blocks: nat, pc: Pc): State {
    State(holder, populating, counter, lastNotifyAll, blocks, [pc])
  }

  lemma Alone(s: State, s': State, pc: Pc)
    requires |s.pcs| == 1 && s'.pcs == [pc]
    requires s.pcs[0 := pc] == [pc] ==> ThreadStep(s, s', 0)
    ensures Step(s, s')
  {
    assert s.pcs[0 := pc] == [pc];
    hide ThreadStep;
    assert ThreadStep(s, s', 0);
  }

  lemma SetsFlag()
    ensures Step(One(None, false, 0, 0, 0, Idle), One(None, false, 0, 0, 0, TopLock))
    ensures Step(One(None, false, 0, 0, 0, TopLock), One(Only(0), false, 0, 0, 0, TopHeld))
    ensures Step(One(Only(0), false, 0, 0, 0, TopHeld), One(Only(0), true, 0, 0, 0, PopulateUnlock))
    ensures Step(One(Only(0), true, 0, 0, 0, PopulateUnlock), One(None, true, 0, 0, 0, Populating))
  {
    Alone(One(None, false, 0, 0, 0, Idle), One(None, false, 0, 0, 0, TopLock), TopLock);
    Alone(One(None, false, 0, 0, 0, TopLock), One(Only(0), false, 0, 0, 0, TopHeld), TopHeld);
    Alone(One(Only(0), false, 0, 0, 0, TopHeld), One(Only(0), true, 0, 0, 0, PopulateUnlock), PopulateUnlock);
    Alone(One(Only(0), true, 0, 0, 0, PopulateUnlock), One(None, true, 0, 0, 0, Populating), Populating);
  }

  lemma FillsAndClearsFlag()
    ensures Step(One(None, true, 0, 0, 0, Populating), One(None, true, 0, 0, 4, Populating))
    ensures Step(One(None, true, 0, 0, 4, Populating), One(None, true, 0, 0, 4, FinishLock))
    ensures Step(One(None, true, 0, 0, 4, FinishLock), One(Only(0), true, 0, 0, 4, FinishHeld))
    ensures Step(One(Only(0), true, 0, 0, 4, FinishHeld), One(Only(0), false, 0, 0, 4, NotifyStore(true)))
  {
    Alone(One(None, true, 0, 0, 0, Populating), One(None, true, 0, 0, 4, Populating), Populating);
    Alone(One(None, true, 0, 0, 4, Populating), One(None, true, 0, 0, 4, FinishLock), FinishLock);
    Alone(One(None, true, 0, 0, 4, FinishLock), One(Only(0), true, 0, 0, 4, FinishHeld), FinishHeld);
    Alone(One(Only(0), true, 0, 0, 4, FinishHeld), One(Only(0), false, 0, 0, 4, NotifyStore(true)), NotifyStore(true));
  }

  lemma NotifiesNobody()
    ensures Step(One(Only(0), false, 0, 0, 4, NotifyStore(true)), One(Only(0), false, 1, 0, 4, NotifyWake(0, true)))
    ensures Step(One(Only(0), false, 1, 0, 4, NotifyWake(0, true)), One(Only(0), false, 1, 0, 4, NotifyLast(0, true)))
    ensures Step(One(Only(0), false, 1, 0, 4, NotifyLast(0, true)), One(Only(0), false, 1, 1, 4, DoneUnlock))
    ensures Step(One(Only(0), false, 1, 1, 4, DoneUnlock), One(None, false, 1, 1, 4, Idle))
  {
    Alone(One(Only(0), false, 0, 0, 4, NotifyStore(true)), One(Only(0), false, 1, 0, 4, NotifyWake(0, true)),
          NotifyWake(0, true));
    Alone(One(Only(0), false, 1, 0, 4, NotifyWake(0, true)), One(Only(0), false, 1, 0, 4, NotifyLast(0, true)),
          NotifyLast(0, true));
    Alone(One(Only(0), false, 1, 0, 4, NotifyLast(0, true)), One(Only(0), false, 1, 1, 4, DoneUnlock), DoneUnlock);
    Alone(One(Only(0), false, 1, 1, 4, DoneUnlock), One(None, false, 1, 1, 4, Idle), Idle);
  }

  /** A thread that finds the list empty and is alone fills it and is back, in twelve steps. */
  lemma FillAlone() returns (run: seq<State>)
    ensures Run(run) && |run| == 13
    ensures run[0] == One(None, false, 0, 0, 0, Idle) && run[12] == One(None, false, 1, 1, 4, Idle)
  {
    SetsFlag();
    FillsAndClearsFlag();
    NotifiesNobody();
    hide Step;
    run := [
      One(None, false, 0, 0, 0, Idle), One(None, false, 0, 0, 0, TopLock), One(Only(0), false, 0, 0, 0, TopHeld),
      One(Only(0), true, 0, 0, 0, PopulateUnlock), One(None, true, 0, 0, 0, Populating),
      One(None, true, 0, 0, 4, Populating), One(None, true, 0, 0, 4, FinishLock),
      One(Only(0), true, 0, 0, 4, FinishHeld), One(Only(0), false, 0, 0, 4, NotifyStore(true)),
      One(Only(0), false, 1, 0, 4, NotifyWake(0, true)), One(Only(0), false, 1, 0, 4, NotifyLast(0, true)),
      One(Only(0), false, 1, 1, 4, DoneUnlock), One(None, false, 1, 1, 4, Idle)
    ];
  }
}
