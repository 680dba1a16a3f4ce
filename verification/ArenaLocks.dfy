/** The spin locks of the arenas (shared_arena_linux.cpp lock, unlock, and the order in
    which store takes two of them): any number of threads in any number of processes,
    one atomic access a step. */
module ArenaLocks {

  /** Where a thread is in store or retrieve.  `own` is the arena whose list changes,
      `ring` the arena whose ring takes the log entry; retrieve has `ring == own`. */
  datatype Pc =
    | Idle
    | TakingFirst(own: nat, ring: nat)
    | TakingSecond(own: nat, ring: nat)
    | Inside(own: nat, ring: nat)
    | Logged(own: nat)

  /** The lock word of each arena, and each thread's place. */
  datatype State = State(words: seq<nat>, pcs: seq<Pc>)

  function First(pc: Pc): nat
    requires pc.TakingFirst? || pc.TakingSecond?
  {
    if pc.ring < pc.own then pc.ring else pc.own
  }

  function Second(pc: Pc): nat
    requires pc.TakingFirst? || pc.TakingSecond?
  {
    if pc.ring < pc.own then pc.own else pc.ring
  }

  predicate Holds(pc: Pc, l: nat) {
    match pc
    case Idle => false
    case TakingFirst(own, ring) => false
    case TakingSecond(own, ring) => l == First(pc)
    case Inside(own, ring) => l == own || l == ring
    case Logged(own) => l == own
  }

  predicate InBounds(pc: Pc, arenas: nat) {
    match pc
    case Idle => true
    case TakingFirst(own, ring) => own < arenas && ring < arenas
    case TakingSecond(own, ring) => own < arenas && ring < arenas && own != ring
    case Inside(own, ring) => own < arenas && ring < arenas
    case Logged(own) => own < arenas
  }

  ghost predicate Init(s: State) {
    && (forall l | 0 <= l < |s.words| :: s.words[l] == 0)
    && (forall t | 0 <= t < |s.pcs| :: s.pcs[t] == Idle)
  }

  /** compare-exchange of 0 by 1 */
  ghost predicate Acquires(s: State, s': State, t: nat, l: nat, next: Pc)
    requires t < |s.pcs|
  {
    && l < |s.words| && s.words[l] == 0
    && s' == State(s.words[l := 1], s.pcs[t := next])
  }

  ghost predicate Frees(s: State, s': State, t: nat, l: nat, next: Pc)
    requires t < |s.pcs|
  {
    && l < |s.words|
    && s' == State(s.words[l := 0], s.pcs[t := next])
  }

  /** One step of thread `t`; a failed compare-exchange is a step that changes nothing. */
  ghost predicate ThreadStep(s: State, s': State, t: nat) {
    t < |s.pcs| &&
    match s.pcs[t]
    case Idle =>
      exists own: nat, ring: nat | own < |s.words| && ring < |s.words| ::
        s' == s.(pcs := s.pcs[t := TakingFirst(own, ring)])
    case TakingFirst(own, ring) =>
      Acquires(s, s', t, First(s.pcs[t]), if own == ring then Inside(own, ring) else TakingSecond(own, ring))
    case TakingSecond(own, ring) =>
      Acquires(s, s', t, Second(s.pcs[t]), Inside(own, ring))
    case Inside(own, ring) =>
      if own == ring then Frees(s, s', t, own, Idle) else Frees(s, s', t, ring, Logged(own))
    case Logged(own) =>
      Frees(s, s', t, own, Idle)
  }

  ghost predicate Step(s: State, s': State) {
    s' == s || exists t: nat :: ThreadStep(s, s', t)
  }

  /** A lock word is 1 exactly while some thread holds the lock, and no two do. */
  ghost predicate Inv(s: State) {
    && (forall t | 0 <= t < |s.pcs| :: InBounds(s.pcs[t], |s.words|))
    && (forall l | 0 <= l < |s.words| :: s.words[l] == 1 || s.words[l] == 0)
    && (forall t, l | 0 <= t < |s.pcs| && 0 <= l < |s.words| && Holds(s.pcs[t], l) :: s.words[l] == 1)
    && (forall l | 0 <= l < |s.words| && s.words[l] == 1 :: exists t :: 0 <= t < |s.pcs| && Holds(s.pcs[t], l))
    && (forall t, u, l | 0 <= t < u < |s.pcs| && 0 <= l < |s.words| && Holds(s.pcs[t], l) :: !Holds(s.pcs[u], l))
  }

  lemma InitInv(s: State)
    requires Init(s)
    ensures Inv(s)
  {
  }

  lemma AcquireKeepsInv(s: State, s': State, t: nat, l: nat, next: Pc)
    requires Inv(s) && t < |s.pcs| && Acquires(s, s', t, l, next)
    requires InBounds(next, |s.words|)
    requires forall m: nat :: Holds(next, m) <==> (Holds(s.pcs[t], m) || m == l)
    ensures Inv(s')
  {
    assert Holds(s'.pcs[t], l);
    forall m | 0 <= m < |s'.words| && s'.words[m] == 1 ensures exists u :: 0 <= u < |s'.pcs| && Holds(s'.pcs[u], m) {
      if m != l {
        var u :| 0 <= u < |s.pcs| && Holds(s.pcs[u], m);
        assert Holds(s'.pcs[u], m);
      }
    }
  }

  lemma FreeKeepsInv(s: State, s': State, t: nat, l: nat, next: Pc)
    requires Inv(s) && t < |s.pcs| && Frees(s, s', t, l, next)
    requires InBounds(next, |s.words|) && Holds(s.pcs[t], l)
    requires forall m: nat :: Holds(next, m) <==> (Holds(s.pcs[t], m) && m != l)
    ensures Inv(s')
  {
    forall m | 0 <= m < |s'.words| && s'.words[m] == 1 ensures exists u :: 0 <= u < |s'.pcs| && Holds(s'.pcs[u], m) {
      var u :| 0 <= u < |s.pcs| && Holds(s.pcs[u], m);
      assert Holds(s'.pcs[u], m);
    }
  }

  /** Every step keeps the invariant. */
  lemma StepKeepsInv(s: State, s': State)
    requires Inv(s) && Step(s, s')
    ensures Inv(s')
  {
    if s' != s {
      var t: nat :| ThreadStep(s, s', t);
      match s.pcs[t]
      case Idle =>
        forall m | 0 <= m < |s'.words| && s'.words[m] == 1
          ensures exists u :: 0 <= u < |s'.pcs| && Holds(s'.pcs[u], m)
        {
          var u :| 0 <= u < |s.pcs| && Holds(s.pcs[u], m);
          assert Holds(s'.pcs[u], m);
        }
      case TakingFirst(own, ring) =>
        AcquireKeepsInv(s, s', t, First(s.pcs[t]), if own == ring then Inside(own, ring) else TakingSecond(own, ring));
      case TakingSecond(own, ring) =>
        AcquireKeepsInv(s, s', t, Second(s.pcs[t]), Inside(own, ring));
      case Inside(own, ring) =>
        FreeKeepsInv(s, s', t, ring, if own == ring then Idle else Logged(own));
      case Logged(own) =>
        FreeKeepsInv(s, s', t, own, Idle);
    }
  }

  ghost predicate Run(run: seq<State>) {
    && |run| > 0 && Init(run[0])
    && forall i | 0 <= i < |run| - 1 :: Step(run[i], run[i + 1])
  }

  /** At most one thread is ever inside an arena's critical section. */
  lemma {:induction false} MutualExclusion(run: seq<State>, i: nat, t: nat, u: nat, l: nat)
    requires Run(run) && i < |run|
    requires t < |run[i].pcs| && u < |run[i].pcs| && l < |run[i].words|
    requires Holds(run[i].pcs[t], l) && Holds(run[i].pcs[u], l)
    ensures t == u
  {
    RunInv(run, i);
  }

  lemma {:induction false} RunInv(run: seq<State>, i: nat)
    requires Run(run) && i < |run|
    ensures Inv(run[i])
  {
    if i == 0 {
      InitInv(run[0]);
    } else {
      RunInv(run, i - 1);
      StepKeepsInv(run[i - 1], run[i - 1 + 1]);
    }
  }

  /** A step that gets somewhere. */
  ghost predicate CanProgress(s: State, t: nat) {
    && t < |s.pcs| && s.pcs[t] != Idle
    && exists s' :: ThreadStep(s, s', t)
  }

  lemma HolderOrFree(s: State, t: nat, l: nat, next: Pc) returns (u: nat)
    requires Inv(s) && t < |s.pcs| && l < |s.words|
    ensures s.words[l] == 0 ==> u == t && exists s' :: Acquires(s, s', t, l, next)
    ensures s.words[l] == 1 ==> u < |s.pcs| && Holds(s.pcs[u], l)
  {
    if s.words[l] == 0 {
      u := t;
      assert Acquires(s, State(s.words[l := 1], s.pcs[t := next]), t, l, next);
    } else {
      u :| 0 <= u < |s.pcs| && Holds(s.pcs[u], l);
    }
  }

  lemma CanFree(s: State, t: nat)
    requires Inv(s) && t < |s.pcs| && (s.pcs[t].Inside? || s.pcs[t].Logged?)
    ensures CanProgress(s, t)
  {
    var pc := s.pcs[t];
    var l := if pc.Inside? then pc.ring else pc.own;
    var next := if pc.Inside? && pc.own != pc.ring then Logged(pc.own) else Idle;
    var s' := State(s.words[l := 0], s.pcs[t := next]);
    assert Frees(s, s', t, l, next);
    assert ThreadStep(s, s', t);
  }

  /** Because two locks are always taken in core order, the threads never wait for each
      other in a circle: while anyone is busy, someone can move. */
  lemma {:induction false} NoDeadlock(s: State, t: nat) returns (u: nat)
    requires Inv(s) && t < |s.pcs| && s.pcs[t] != Idle
    ensures CanProgress(s, u)
    decreases
      match s.pcs[t]
      case TakingFirst(own, ring) => 2 * |s.words|
      case TakingSecond(own, ring) => |s.words| - Second(s.pcs[t])
      case _ => 0
  {
    u := t;
    match s.pcs[t]
    case Idle =>
    case Inside(own, ring) => CanFree(s, t);
    case Logged(own) => CanFree(s, t);
    case TakingFirst(own, ring) =>
      var next := if own == ring then Inside(own, ring) else TakingSecond(own, ring);
      u := HolderOrFree(s, t, First(s.pcs[t]), next);
      if s.words[First(s.pcs[t])] == 0 {
        var s' :| Acquires(s, s', t, First(s.pcs[t]), next);
        assert ThreadStep(s, s', t);
      } else {
        u := NoDeadlock(s, u);
      }
    case TakingSecond(own, ring) =>
      u := HolderOrFree(s, t, Second(s.pcs[t]), Inside(own, ring));
      if s.words[Second(s.pcs[t])] == 0 {
        var s' :| Acquires(s, s', t, Second(s.pcs[t]), Inside(own, ring));
        assert ThreadStep(s, s', t);
      } else {
        u := NoDeadlock(s, u);
      }
  }

  /** A thread alone takes its lock and gives it back. */
  lemma TakeAndFree() returns (run: seq<State>)
    ensures Run(run) && |run| == 4
    ensures run[2] == State([1], [Inside(0, 0)]) && run[3] == run[0] == State([0], [Idle])
  {
    run := [State([0], [Idle]), State([0], [TakingFirst(0, 0)]), State([1], [Inside(0, 0)]), State([0], [Idle])];
    assert run[1] == run[0].(pcs := run[0].pcs[0 := TakingFirst(0, 0)]);
    assert ThreadStep(run[0], run[1], 0) && ThreadStep(run[1], run[2], 0) && ThreadStep(run[2], run[3], 0);
    assert Step(run[0], run[0 + 1]) && Step(run[1], run[1 + 1]) && Step(run[2], run[2 + 1]);
  }
}
