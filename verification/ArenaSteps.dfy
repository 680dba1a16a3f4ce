/** Store and retrieve as they interleave: any number of threads, each holding its one or
    two spin locks while it takes pages, appends to a log ring and rebuilds a free list,
    one such change a step.  Every run of these steps is a run of whole calls made one
    after the other (shared_arena_linux.cpp store, retrieve). */
module ArenaSteps {

  import opened ArenaModel
  import opened FreeBlockList
  import opened ArenaLog
  import opened LogRing
  import Locks = ArenaLocks

  datatype Job = Take(need: nat) | Give(r: Range)

  /** Where a thread is.  `own` is the arena whose list changes, `ring` the arena whose ring
      takes the log entry.  `books` is what arena `own` counts as while its list and its
      live ranges are out of step: as it was before the call until the entry is in the
      ring, as it will be afterwards from then on. */
  datatype Pc =
    | Idle
    | TakingFirst(own: nat, ring: nat, job: Job)
    | TakingSecond(own: nat, ring: nat, job: Job)
    | Inside(own: nat, ring: nat, job: Job)
      /** retrieve has taken `r` and neither checked the placement nor logged it. */
    | Took(own: nat, r: Range, books: ArenaState)
      /** store has logged `r`; `stage` of the three changes of the list, which was `list`,
          are made. */
    | Giving(own: nat, ring: nat, ringFreed: bool, r: Range, stage: nat, list: seq<Range>, books: ArenaState)
    | Done(own: nat, ring: nat)

  datatype State = State(words: seq<nat>, arenas: seq<ArenaState>, log: seq<Logged>, pcs: seq<Pc>)

  /** The walk stops in front of the first block at a higher address. */
  function PlaceOf(free: seq<Range>, off: nat): (k: nat)
    ensures k <= |free|
  {
    if free != [] && free[0].off < off then 1 + PlaceOf(free[1..], off) else 0
  }

  /** The list after so many of the three changes of store. */
  function Filled(list: seq<Range>, r: Range, stage: nat): seq<Range> {
    var k := PlaceOf(list, r.off);
    if stage == 0 then list
    else if stage == 1 then InsertAt(list, k, r)
    else if stage == 2 then MergeNext(InsertAt(list, k, r), k)
    else Coalesced(list, k, r)
  }

  // ------------------------------------------------------------------ the steps

  ghost predicate Init(s: State) {
    && |s.arenas| == |s.words| && s.log == []
    && (forall c | 0 <= c < |s.words| :: s.words[c] == 0)
    && (forall c | 0 <= c < |s.arenas| :: s.arenas[c] == ArenaState(s.arenas[c].total, 0, [], {}, {}))
    && (forall t | 0 <= t < |s.pcs| :: s.pcs[t] == Idle)
  }

  /** A thread that has yet to log the return of `r` to arena `own`. */
  predicate WillGive(pc: Pc, own: nat, r: Range) {
    (pc.TakingFirst? || pc.TakingSecond? || pc.Inside?) && pc.own == own && pc.job == Give(r)
  }

  /** retrieve logs to its own ring; store is called with a range that is out and that no
      other thread is returning. */
  ghost predicate MayStart(s: State, own: nat, ring: nat, job: Job) {
    && own < |s.arenas| && ring < |s.arenas|
    && match job
       case Take(need) => need > 0 && ring == own
       case Give(r) => r in s.arenas[own].live && forall u | 0 <= u < |s.pcs| :: !WillGive(s.pcs[u], own, r)
  }

  ghost predicate Acquires(s: State, s': State, t: nat, l: nat, next: Pc)
    requires t < |s.pcs|
  {
    && l < |s.words| && s.words[l] == 0
    && s' == s.(words := s.words[l := 1], pcs := s.pcs[t := next])
  }

  ghost predicate Frees(s: State, s': State, t: nat, l: nat, next: Pc)
    requires t < |s.pcs|
  {
    && l < |s.words|
    && s' == s.(words := s.words[l := 0], pcs := s.pcs[t := next])
  }

  /** Thread `t`, inside arena `c`, changes it. */
  ghost predicate Changes(s: State, s': State, t: nat, c: nat, arena: ArenaState, log: seq<Logged>, next: Pc)
    requires t < |s.pcs|
  {
    && c < |s.arenas|
    && s' == s.(arenas := s.arenas[c := arena], log := log, pcs := s.pcs[t := next])
  }

  /** The pages are gone from the list or from above the bump offset. */
  ghost predicate TakesPages(s: State, s': State, t: nat, own: nat, need: nat)
    requires t < |s.pcs|
  {
    own < |s.arenas| &&
    exists free, bump, r :: Takes(s.arenas[own].free, s.arenas[own].bump, s.arenas[own].total, need, free, bump, r) &&
      Changes(s, s', t, own, s.arenas[own].(free := free, bump := bump), s.log, Took(own, r, s.arenas[own]))
  }

  function AllocEntry(own: nat, r: Range): Logged {
    Logged(own, LogEntry(Alloc, own, r.off, r.pages))
  }

  function FreeEntry(own: nat, ring: nat, r: Range): Logged {
    Logged(ring, LogEntry(Free, own, r.off, r.pages))
  }

  /** The placement fails, the entry goes into the ring, or the ring is full and the pages
      go back. */
  ghost predicate FinishesTake(s: State, s': State, t: nat, own: nat, r: Range, books: ArenaState)
    requires t < |s.pcs|
  {
    own < |s.arenas| &&
    var a := s.arenas[own];
    || Changes(s, s', t, own, a.(stranded := a.stranded + {r}), s.log, Done(own, own))
    || Changes(s, s', t, own, a.(live := a.live + {r}), s.log + [AllocEntry(own, r)], Done(own, own))
    || Changes(s, s', t, own, books, s.log, Done(own, own))
  }

  /** The entry about `r` goes into the ring, or the ring is full. */
  ghost predicate LogsGive(s: State, s': State, t: nat, own: nat, ring: nat, r: Range)
    requires t < |s.pcs|
  {
    own < |s.arenas| &&
    var a := s.arenas[own].(live := s.arenas[own].live - {r});
    || Changes(s, s', t, own, a, s.log + [FreeEntry(own, ring, r)],
               Giving(own, ring, false, r, 0, a.free, a.(free := Filled(a.free, r, 3))))
    || Frees(s, s', t, ring, if own == ring then Idle else Done(own, ring))
  }

  ghost predicate ContinuesGive(s: State, s': State, t: nat)
    requires t < |s.pcs| && s.pcs[t].Giving?
  {
    var pc := s.pcs[t];
    pc.own < |s.arenas| &&
    if pc.ring != pc.own && !pc.ringFreed then
      Frees(s, s', t, pc.ring, pc.(ringFreed := true))
    else
      Changes(s, s', t, pc.own, s.arenas[pc.own].(free := Filled(pc.list, pc.r, pc.stage + 1)), s.log,
              if pc.stage < 2 then pc.(stage := pc.stage + 1) else Done(pc.own, pc.ring))
  }

  ghost predicate ThreadStep(s: State, s': State, t: nat) {
    t < |s.pcs| &&
    match s.pcs[t]
    case Idle =>
      exists own, ring, job ::
        MayStart(s, own, ring, job) && s' == s.(pcs := s.pcs[t := TakingFirst(own, ring, job)])
    case TakingFirst(own, ring, job) =>
      Acquires(s, s', t, Locks.First(Place(s.pcs[t])),
               if own == ring then Inside(own, ring, job) else TakingSecond(own, ring, job))
    case TakingSecond(own, ring, job) =>
      Acquires(s, s', t, Locks.Second(Place(s.pcs[t])), Inside(own, ring, job))
    case Inside(own, ring, job) =>
      (match job
       case Take(need) =>
         if own < |s.arenas| && CanTake(s.arenas[own], need) then TakesPages(s, s', t, own, need)
         else Frees(s, s', t, own, Idle)
       case Give(r) => LogsGive(s, s', t, own, ring, r))
    case Took(own, r, books) => FinishesTake(s, s', t, own, r, books)
    case Giving(own, ring, ringFreed, r, stage, list, books) => ContinuesGive(s, s', t)
    case Done(own, ring) => Frees(s, s', t, own, Idle)
  }

  ghost predicate Step(s: State, s': State) {
    s' == s || exists t: nat :: ThreadStep(s, s', t)
  }

  // ------------------------------------------------------------------ the locks

  /** A thread's place in the lock protocol. */
  function Place(pc: Pc): (place: Locks.Pc)
    ensures pc.TakingFirst? ==> place.TakingFirst?
    ensures pc.TakingSecond? ==> place.TakingSecond?
  {
    match pc
    case Idle => Locks.Idle
    case TakingFirst(own, ring, _) => Locks.TakingFirst(own, ring)
    case TakingSecond(own, ring, _) => Locks.TakingSecond(own, ring)
    case Inside(own, ring, _) => Locks.Inside(own, ring)
    case Took(own, _, _) => Locks.Inside(own, own)
    case Giving(own, ring, ringFreed, _, _, _, _) => if ringFreed then Locks.Logged(own) else Locks.Inside(own, ring)
    case Done(own, ring) => if own == ring then Locks.Inside(own, own) else Locks.Logged(own)
  }

  function Places(pcs: seq<Pc>): (places: seq<Locks.Pc>)
    ensures |places| == |pcs| && forall t | 0 <= t < |pcs| :: places[t] == Place(pcs[t])
  {
    seq(|pcs|, t requires 0 <= t < |pcs| => Place(pcs[t]))
  }

  function LocksOf(s: State): Locks.State {
    Locks.State(s.words, Places(s.pcs))
  }

  /** The list of arena `c` and its live ranges are out of step. */
  predicate Pending(pc: Pc, c: nat) {
    (pc.Took? || pc.Giving?) && pc.own == c
  }

  // ------------------------------------------------------------------ the invariant

  ghost predicate PcOk(s: State, pc: Pc) {
    match pc
    case Idle => true
    case Took(own, r, books) =>
      && own < |s.arenas| && Inv(books) && r.pages > 0
      && s.arenas[own] == books.(free := s.arenas[own].free, bump := s.arenas[own].bump)
      && Takes(books.free, books.bump, books.total, r.pages, s.arenas[own].free, s.arenas[own].bump, r)
    case Giving(own, ring, ringFreed, r, stage, list, books) =>
      && own < |s.arenas| && Inv(books) && stage <= 2 && (ringFreed ==> own != ring)
      && s.arenas[own] == books.(free := Filled(list, r, stage)) && books.free == Filled(list, r, 3)
    case Done(own, ring) => own < |s.arenas|
    case _ =>
      && pc.own < |s.arenas| && pc.ring < |s.arenas|
      && match pc.job
         case Take(need) => need > 0 && pc.ring == pc.own
         case Give(r) => r in s.arenas[pc.own].live
  }

  ghost predicate Unpended(s: State, c: nat) {
    forall t | 0 <= t < |s.pcs| :: !Pending(s.pcs[t], c)
  }

  ghost predicate LogOk(s: State, c: nat)
    requires c < |s.arenas|
  {
    Consistent(s.log, c) && Replay(s.log, c) == Outstanding(s.arenas[c].live)
  }

  ghost predicate GivenOnce(s: State) {
    forall t, u, c: nat, r | 0 <= t < u < |s.pcs| && WillGive(s.pcs[t], c, r) :: !WillGive(s.pcs[u], c, r)
  }

  ghost predicate StepsInv(s: State) {
    && |s.arenas| == |s.words| && Locks.Inv(LocksOf(s))
    && (forall t | 0 <= t < |s.pcs| :: PcOk(s, s.pcs[t]))
    && (forall c: nat | c < |s.arenas| && Unpended(s, c) :: Inv(s.arenas[c]))
    && (forall c | 0 <= c < |s.arenas| :: LogOk(s, c))
    && GivenOnce(s)
  }

  // ------------------------------------------------------------------ whole calls

  /** What all arenas count as, and the log. */
  datatype Books = Books(arenas: seq<ArenaState>, log: seq<Logged>)

  /** One whole call on arena `c`: pages are handed out and logged, lost to a failed
      placement, or returned and logged. */
  ghost predicate Call(b: Books, b': Books, c: nat, ring: nat, r: Range) {
    && c < |b.arenas| == |b'.arenas| && b'.arenas == b.arenas[c := b'.arenas[c]]
    && (|| (Hands(b.arenas[c], b'.arenas[c], r.pages, r) && b'.log == b.log + [AllocEntry(c, r)])
        || (Strands(b.arenas[c], b'.arenas[c], r.pages, r) && b'.log == b.log)
        || (Returns(b.arenas[c], b'.arenas[c], r) && b'.log == b.log + [FreeEntry(c, ring, r)]))
  }

  ghost predicate CallOrNothing(b: Books, b': Books) {
    b' == b || exists c, ring, r :: Call(b, b', c, ring, r)
  }

  /** What arena `c` counts as. */
  ghost function BooksOf(s: State, c: nat): ArenaState
    requires c < |s.arenas|
  {
    if Unpended(s, c) then
      s.arenas[c]
    else
      var t :| 0 <= t < |s.pcs| && Pending(s.pcs[t], c);
      s.pcs[t].books
  }

  ghost function AllBooks(s: State): (b: Books)
    ensures |b.arenas| == |s.arenas| && forall c | 0 <= c < |s.arenas| :: b.arenas[c] == BooksOf(s, c)
    ensures b.log == s.log
  {
    Books(seq(|s.arenas|, c requires 0 <= c < |s.arenas| => BooksOf(s, c)), s.log)
  }

  lemma Exclusive(s: State, t: nat, u: nat, c: nat)
    requires Locks.Inv(LocksOf(s)) && c < |s.words| && t < |s.pcs| && u < |s.pcs|
    requires Locks.Holds(Place(s.pcs[t]), c) && Locks.Holds(Place(s.pcs[u]), c)
    ensures t == u
  {
    var l := LocksOf(s);
    assert Locks.Holds(l.pcs[t], c) && Locks.Holds(l.pcs[u], c);
  }

  lemma PendingHolds(pc: Pc, c: nat)
    requires Pending(pc, c)
    ensures Locks.Holds(Place(pc), c)
  {
  }

  /** While a thread is inside arena `c`, what the arena counts as is up to that thread. */
  lemma BooksOfHolder(s: State, t: nat, c: nat)
    requires Locks.Inv(LocksOf(s)) && c < |s.arenas| == |s.words| && t < |s.pcs|
    requires Locks.Holds(Place(s.pcs[t]), c)
    ensures BooksOf(s, c) == if Pending(s.pcs[t], c) then s.pcs[t].books else s.arenas[c]
    ensures Pending(s.pcs[t], c) <==> !Unpended(s, c)
    ensures forall u | 0 <= u < |s.pcs| && u != t :: !Pending(s.pcs[u], c)
  {
    hide Locks.Inv;
    forall u: nat | u < |s.pcs| && u != t ensures !Pending(s.pcs[u], c) {
      if Pending(s.pcs[u], c) {
        PendingHolds(s.pcs[u], c);
        Exclusive(s, t, u, c);
      }
    }
  }

  // ------------------------------------------------------------------ one step

  /** A step of thread `t`, inside arena `c`, that changes no other arena. */
  ghost predicate Local(s: State, s': State, t: nat, c: nat) {
    && t < |s.pcs| == |s'.pcs| && s'.pcs == s.pcs[t := s'.pcs[t]]
    && c < |s.arenas| == |s'.arenas| == |s.words| == |s'.words| && s'.arenas == s.arenas[c := s'.arenas[c]]
    && Locks.Holds(Place(s.pcs[t]), c)
    && (forall d: nat | Pending(s.pcs[t], d) || Pending(s'.pcs[t], d) :: d == c)
    && (s'.log == s.log ||
        (|s'.log| == |s.log| + 1 && s'.log[..|s.log|] == s.log && s'.log[|s.log|].entry.srcCpu == c))
  }

  lemma OthersCountTheSame(s: State, s': State, t: nat, c: nat, d: nat)
    requires Local(s, s', t, c) && Locks.Inv(LocksOf(s)) && Locks.Inv(LocksOf(s')) && d < |s.arenas| && d != c
    ensures BooksOf(s', d) == BooksOf(s, d) && (Unpended(s', d) <==> Unpended(s, d))
  {
    assert forall u | 0 <= u < |s.pcs| && u != t :: s'.pcs[u] == s.pcs[u];
    if !Unpended(s, d) {
      var u :| 0 <= u < |s.pcs| && Pending(s.pcs[u], d);
      PendingHolds(s.pcs[u], d);
      BooksOfHolder(s, u, d);
      BooksOfHolder(s', u, d);
    }
  }

  lemma OthersLogTheSame(s: State, s': State, t: nat, c: nat, d: nat)
    requires Local(s, s', t, c) && d < |s.arenas| && d != c && LogOk(s, d)
    ensures LogOk(s', d)
  {
    if s'.log != s.log {
      var last := s'.log[|s.log|];
      assert s'.log == s.log + [Logged(last.ring, last.entry)];
      LogOther(s.log, d, last.entry, last.ring);
    }
  }

  /** Such a step keeps the invariant if it leaves its own place and arena in order. */
  lemma LocalKeepsInv(s: State, s': State, t: nat, c: nat)
    requires StepsInv(s) && Local(s, s', t, c) && Locks.Inv(LocksOf(s'))
    requires PcOk(s', s'.pcs[t]) && LogOk(s', c) && (!Pending(s'.pcs[t], c) ==> Inv(s'.arenas[c]))
    requires forall u, r | 0 <= u < |s.pcs| && u != t && WillGive(s.pcs[u], c, r) :: r in s'.arenas[c].live
    requires forall d, r :: WillGive(s'.pcs[t], d, r) ==> WillGive(s.pcs[t], d, r)
    ensures StepsInv(s')
  {
    hide Inv, LogOk, Replay, Consistent, Takes, Filled;
    BooksOfHolder(s, t, c);
    forall u | 0 <= u < |s'.pcs| ensures PcOk(s', s'.pcs[u]) {
      if u != t {
        assert PcOk(s, s.pcs[u]) && !Pending(s.pcs[u], c);
        OtherPcOk(s, s', t, c, u);
      }
    }
    forall d: nat | d < |s'.arenas| && Unpended(s', d) ensures Inv(s'.arenas[d]) {
      if d != c {
        OthersCountTheSame(s, s', t, c, d);
      }
    }
    forall d: nat | d < |s'.arenas| ensures LogOk(s', d) {
      if d != c {
        OthersLogTheSame(s, s', t, c, d);
      }
    }
    GivenOnceStill(s, s', t);
  }

  lemma OtherPcOk(s: State, s': State, t: nat, c: nat, u: nat)
    requires Local(s, s', t, c) && u < |s.pcs| && u != t && PcOk(s, s.pcs[u]) && !Pending(s.pcs[u], c)
    requires forall r | WillGive(s.pcs[u], c, r) :: r in s'.arenas[c].live
    ensures PcOk(s', s'.pcs[u])
  {
    hide Inv, Takes, Filled;
    var pc := s.pcs[u];
    assert s'.pcs[u] == pc;
    assert pc.Took? || pc.Giving? ==> pc.own != c;
    if (pc.TakingFirst? || pc.TakingSecond? || pc.Inside?) && pc.job.Give? {
      assert WillGive(pc, pc.own, pc.job.r);
    }
  }

  lemma GivenOnceStill(s: State, s': State, t: nat)
    requires GivenOnce(s) && t < |s.pcs| == |s'.pcs| && s'.pcs == s.pcs[t := s'.pcs[t]]
    requires forall d, r :: WillGive(s'.pcs[t], d, r) ==> WillGive(s.pcs[t], d, r)
    ensures GivenOnce(s')
  {
    hide WillGive;
    forall v, u, d: nat, r | 0 <= v < u < |s'.pcs| && WillGive(s'.pcs[v], d, r) ensures !WillGive(s'.pcs[u], d, r) {
      assert WillGive(s.pcs[v], d, r);
      assert !WillGive(s.pcs[u], d, r);
    }
  }

  /** And it changes what its own arena counts as, at most. */
  lemma LocalBooks(s: State, s': State, t: nat, c: nat)
    requires StepsInv(s) && StepsInv(s') && Local(s, s', t, c)
    ensures
      var was := if Pending(s.pcs[t], c) then s.pcs[t].books else s.arenas[c];
      var now := if Pending(s'.pcs[t], c) then s'.pcs[t].books else s'.arenas[c];
      && AllBooks(s).arenas[c] == was && AllBooks(s').arenas[c] == now
      && AllBooks(s').arenas == AllBooks(s).arenas[c := now]
  {
    BooksOfHolder(s, t, c);
    if Pending(s'.pcs[t], c) {
      PendingHolds(s'.pcs[t], c);
      BooksOfHolder(s', t, c);
    } else {
      assert forall u | 0 <= u < |s.pcs| && u != t :: s'.pcs[u] == s.pcs[u];
      assert Unpended(s', c);
    }
    hide BooksOf, Unpended;
    forall d: nat | d < |s.arenas| && d != c ensures BooksOf(s', d) == BooksOf(s, d) {
      OthersCountTheSame(s, s', t, c, d);
    }
  }

  lemma PlacesAfter(pcs: seq<Pc>, t: nat, next: Pc)
    requires t < |pcs|
    ensures Places(pcs[t := next]) == Places(pcs)[t := Place(next)]
  {
  }

  /** Every step is one of the lock protocol, or leaves the locks alone. */
  lemma LocksMove(s: State, s': State, t: nat)
    requires StepsInv(s) && ThreadStep(s, s', t)
    ensures Locks.Inv(LocksOf(s')) && |s'.pcs| == |s.pcs| && s'.pcs == s.pcs[t := s'.pcs[t]]
    ensures |s'.words| == |s.words| == |s.arenas| == |s'.arenas|
  {
    hide Inv, LogOk, Takes, Filled, Locks.Inv, CanTake, Places;
    var l, l' := LocksOf(s), LocksOf(s');
    assert PcOk(s, s.pcs[t]);
    match s.pcs[t] {
      case Idle =>
        var own, ring, job :|
          MayStart(s, own, ring, job) && s' == s.(pcs := s.pcs[t := TakingFirst(own, ring, job)]);
        PlacesAfter(s.pcs, t, TakingFirst(own, ring, job));
        assert l' == l.(pcs := l.pcs[t := Locks.TakingFirst(own, ring)]);
        assert Locks.ThreadStep(l, l', t);
      case Inside(own, ring, job) =>
        InsideMovesLocks(s, s', t);
      case _ =>
        PlacesAfter(s.pcs, t, s'.pcs[t]);
        assert Locks.ThreadStep(l, l', t) || l' == l;
    }
    Locks.StepKeepsInv(l, l');
  }

  lemma InsideMovesLocks(s: State, s': State, t: nat)
    requires t < |s.pcs| && s.pcs[t].Inside? && PcOk(s, s.pcs[t]) && |s.arenas| == |s.words| && ThreadStep(s, s', t)
    ensures Locks.Step(LocksOf(s), LocksOf(s')) && |s'.pcs| == |s.pcs| && s'.pcs == s.pcs[t := s'.pcs[t]]
    ensures |s'.words| == |s.words| == |s'.arenas|
  {
    hide Inv, Takes, Filled, CanTake, Places;
    var l, l' := LocksOf(s), LocksOf(s');
    PlacesAfter(s.pcs, t, s'.pcs[t]);
    assert Locks.ThreadStep(l, l', t) || l' == l;
  }

  lemma OthersStay(s: State, s': State, t: nat)
    requires t < |s.pcs| == |s'.pcs| && s'.pcs == s.pcs[t := s'.pcs[t]]
    ensures forall u | 0 <= u < |s.pcs| && u != t :: s'.pcs[u] == s.pcs[u]
  {
  }

  /** A step that changes no arena and no log, of a thread with nothing pending. */
  lemma QuietStep(s: State, s': State, t: nat)
    requires StepsInv(s) && Locks.Inv(LocksOf(s')) && t < |s.pcs| == |s'.pcs|
    requires s' == s.(words := s'.words, pcs := s.pcs[t := s'.pcs[t]]) && |s'.words| == |s.words|
    requires forall c: nat :: !Pending(s.pcs[t], c) && !Pending(s'.pcs[t], c)
    requires PcOk(s', s'.pcs[t]) && GivenOnce(s')
    ensures StepsInv(s') && AllBooks(s') == AllBooks(s)
  {
    hide Inv, LogOk, Takes, Filled, GivenOnce, Locks.Inv;
    OthersStay(s, s', t);
    forall c: nat | c < |s.arenas| ensures BooksOf(s', c) == BooksOf(s, c) && (Unpended(s', c) <==> Unpended(s, c)) {
      if !Unpended(s, c) {
        var u :| 0 <= u < |s.pcs| && Pending(s.pcs[u], c);
        PendingHolds(s.pcs[u], c);
        BooksOfHolder(s, u, c);
        BooksOfHolder(s', u, c);
      }
    }
    forall u | 0 <= u < |s'.pcs| ensures PcOk(s', s'.pcs[u]) {
      if u != t {
        assert PcOk(s, s.pcs[u]);
      }
    }
    forall c: nat | c < |s'.arenas| ensures LogOk(s', c) {
      SameLog(s, s', c);
    }
    assert AllBooks(s').arenas == AllBooks(s).arenas;
  }

  lemma SameLog(s: State, s': State, c: nat)
    requires c < |s.arenas| && c < |s'.arenas| && LogOk(s, c)
    requires s'.log == s.log && s'.arenas[c].live == s.arenas[c].live
    ensures LogOk(s', c)
  {
  }

  lemma StartStep(s: State, s': State, t: nat)
    requires StepsInv(s) && ThreadStep(s, s', t) && s.pcs[t].Idle? && Locks.Inv(LocksOf(s'))
    ensures StepsInv(s') && AllBooks(s') == AllBooks(s)
  {
    hide Inv, LogOk, Takes, Filled, Locks.Inv, StepsInv;
    var own, ring, job :| MayStart(s, own, ring, job) && s' == s.(pcs := s.pcs[t := TakingFirst(own, ring, job)]);
    SoonGivenOnce(s, s', t, own, ring, job);
    QuietStep(s, s', t);
  }

  lemma SoonGivenOnce(s: State, s': State, t: nat, own: nat, ring: nat, job: Job)
    requires StepsInv(s) && t < |s.pcs| && MayStart(s, own, ring, job)
    requires s' == s.(pcs := s.pcs[t := TakingFirst(own, ring, job)])
    ensures GivenOnce(s')
  {
    OthersStay(s, s', t);
    forall v, u, d: nat, r | 0 <= v < u < |s'.pcs| && WillGive(s'.pcs[v], d, r) ensures !WillGive(s'.pcs[u], d, r) {
      if v == t {
        assert !WillGive(s.pcs[u], d, r);
      } else if u == t {
        assert WillGive(s.pcs[v], d, r);
      } else {
        assert WillGive(s.pcs[v], d, r) && !WillGive(s.pcs[u], d, r);
      }
    }
  }

  lemma AcquireStep(s: State, s': State, t: nat)
    requires StepsInv(s) && ThreadStep(s, s', t) && Locks.Inv(LocksOf(s'))
    requires s.pcs[t].TakingFirst? || s.pcs[t].TakingSecond?
    ensures StepsInv(s') && AllBooks(s') == AllBooks(s)
  {
    hide Inv, LogOk, Takes, Filled, Locks.Inv, GivenOnce;
    assert PcOk(s, s.pcs[t]);
    GivenOnceStill(s, s', t);
    QuietStep(s, s', t);
  }

  /** A thread leaves, or gives up, with nothing pending. */
  lemma LeaveStep(s: State, s': State, t: nat, l: nat, next: Pc)
    requires StepsInv(s) && t < |s.pcs| && Frees(s, s', t, l, next) && Locks.Inv(LocksOf(s'))
    requires s.pcs[t].Inside? || s.pcs[t].Done?
    requires next == Idle || (s.pcs[t].Inside? && next == Done(s.pcs[t].own, s.pcs[t].ring))
    ensures StepsInv(s') && AllBooks(s') == AllBooks(s)
  {
    hide Inv, LogOk, Takes, Filled, Locks.Inv, GivenOnce;
    assert PcOk(s, s.pcs[t]);
    GivenOnceStill(s, s', t);
    QuietStep(s, s', t);
  }

  lemma TakesSize(a: ArenaState, need: nat, free: seq<Range>, bump: nat, r: Range)
    requires Takes(a.free, a.bump, a.total, need, free, bump, r)
    ensures r.pages == need
  {
  }

  /** Taking pages is not yet a call. */
  lemma TakeStep(s: State, s': State, t: nat, own: nat, need: nat)
    requires StepsInv(s) && t < |s.pcs| && TakesPages(s, s', t, own, need) && Locks.Inv(LocksOf(s'))
    requires s.pcs[t].Inside? && s.pcs[t].own == own && s.pcs[t].job == Take(need)
    ensures StepsInv(s') && AllBooks(s') == AllBooks(s)
  {
    hide Inv, LogOk, Takes, Locks.Inv, StepsInv;
    InsideIsSettled(s, t);
    var free, bump, r :| Takes(s.arenas[own].free, s.arenas[own].bump, s.arenas[own].total, need, free, bump, r) &&
      Changes(s, s', t, own, s.arenas[own].(free := free, bump := bump), s.log, Took(own, r, s.arenas[own]));
    TakesSize(s.arenas[own], need, free, bump, r);
    SameLog(s, s', own);
    LocalKeepsInv(s, s', t, own);
    LocalBooks(s, s', t, own);
    assert AllBooks(s').arenas == AllBooks(s).arenas;
  }

  /** Inside its arena, a thread with nothing pending finds it in order. */
  lemma InsideIsSettled(s: State, t: nat)
    requires StepsInv(s) && t < |s.pcs| && s.pcs[t].Inside?
    ensures PcOk(s, s.pcs[t]) && s.pcs[t].own < |s.arenas| == |s.words|
    ensures Inv(s.arenas[s.pcs[t].own]) && LogOk(s, s.pcs[t].own)
    ensures GivenOnce(s)
    ensures forall u | 0 <= u < |s.pcs| && u != t :: PcOk(s, s.pcs[u])
  {
    hide Inv, LogOk, Takes, Locks.Inv, GivenOnce;
    assert PcOk(s, s.pcs[t]);
    BooksOfHolder(s, t, s.pcs[t].own);
  }

  lemma FinishTakeStep(s: State, s': State, t: nat, own: nat, r: Range, books: ArenaState)
    requires StepsInv(s) && t < |s.pcs| && s.pcs[t] == Took(own, r, books) && Locks.Inv(LocksOf(s'))
    requires FinishesTake(s, s', t, own, r, books)
    ensures StepsInv(s') && CallOrNothing(AllBooks(s), AllBooks(s'))
  {
    hide Inv, LogOk, Takes, Locks.Inv;
    assert PcOk(s, s.pcs[t]);
    var a := s.arenas[own];
    TakeKeepsInv(books, r.pages, a.free, a.bump, r);
    TakenIsFresh(books, r.pages, a.free, a.bump, r);
    if s'.log != s.log {
      LogHandedOutOk(s, s', own, r);
    } else {
      assert s'.arenas[own].live == a.live;
      SameLog(s, s', own);
    }
    assert Inv(s'.arenas[own]);
    LocalKeepsInv(s, s', t, own);
    LocalBooks(s, s', t, own);
    hide StepsInv;
    var b, b' := AllBooks(s), AllBooks(s');
    if s'.arenas[own] == books {
      assert b'.arenas == b.arenas;
    } else {
      assert Call(b, b', own, own, r);
    }
  }

  lemma LogHandedOutOk(s: State, s': State, c: nat, r: Range)
    requires c < |s.arenas| == |s'.arenas| && LogOk(s, c) && forall h | h in s.arenas[c].live :: r.Apart(h)
    requires s'.log == s.log + [AllocEntry(c, r)] && s'.arenas[c].live == s.arenas[c].live + {r}
    ensures LogOk(s', c)
  {
    LogHandedOut(s.log, c, s.arenas[c].live, r, c);
  }

  // ------------------------------------------------------------------ store

  lemma {:induction false} PlaceOfIsPlace(free: seq<Range>, off: nat)
    requires Gapped(free) && forall i | 0 <= i < |free| :: free[i].off != off
    ensures IsPlace(free, off, PlaceOf(free, off))
  {
    if free == [] {
    } else {
      var rest := free[1..];
      PlaceOfIsPlace(rest, off);
      assert forall i | 0 < i < |free| :: free[i] == rest[i - 1] && free[0].End() < free[i].off;
    }
  }

  /** The three changes of the list are those of a return. */
  lemma FillingReturns(a: ArenaState, r: Range)
    requires Inv(a) && r in a.live
    ensures
      var after := a.(free := Filled(a.free, r, 3), live := a.live - {r});
      Returns(a, after, r) && Inv(after)
  {
    forall i | 0 <= i < |a.free| ensures a.free[i].Apart(r) {
      assert r in a.live + a.stranded;
    }
    BumpInside(a);
    BelowBump(a, r);
    assert forall i | 0 <= i < |a.free| :: a.free[i].pages > 0;
    hide Inv, Gapped, Gives, Coalesced;
    PlaceOfIsPlace(a.free, r.off);
    CoalescedGives(a.free, PlaceOf(a.free, r.off), r);
    GiveKeepsInv(a, r, Filled(a.free, r, 3));
  }

  /** The entry in the ring is what makes a return happen. */
  lemma LogGiveStep(s: State, s': State, t: nat, own: nat, ring: nat, r: Range)
    requires StepsInv(s) && t < |s.pcs| && s.pcs[t] == Inside(own, ring, Give(r)) && Locks.Inv(LocksOf(s'))
    requires own < |s.arenas|
    requires
      var a := s.arenas[own].(live := s.arenas[own].live - {r});
      Changes(s, s', t, own, a, s.log + [FreeEntry(own, ring, r)],
              Giving(own, ring, false, r, 0, a.free, a.(free := Filled(a.free, r, 3))))
    ensures StepsInv(s') && CallOrNothing(AllBooks(s), AllBooks(s'))
  {
    hide LogOk, Locks.Inv, Gives, Inv;
    InsideIsSettled(s, t);
    FillingReturns(s.arenas[own], r);
    LogGivenBackOk(s, s', own, ring, r);
    forall u, q | 0 <= u < |s.pcs| && u != t && WillGive(s.pcs[u], own, q) ensures q in s'.arenas[own].live {
      assert PcOk(s, s.pcs[u]) && WillGive(s.pcs[t], own, r);
    }
    LocalKeepsInv(s, s', t, own);
    LocalBooks(s, s', t, own);
    hide StepsInv;
    assert Call(AllBooks(s), AllBooks(s'), own, ring, r);
  }

  lemma LogGivenBackOk(s: State, s': State, c: nat, ring: nat, r: Range)
    requires c < |s.arenas| == |s'.arenas| && LogOk(s, c) && Inv(s.arenas[c]) && r in s.arenas[c].live
    requires s'.log == s.log + [FreeEntry(c, ring, r)] && s'.arenas[c].live == s.arenas[c].live - {r}
    ensures LogOk(s', c)
  {
    var a := s.arenas[c];
    assert forall h | h in a.live :: h in a.live + a.stranded;
    LogGivenBack(s.log, c, a.live, r, ring);
  }

  lemma GiveContinues(s: State, s': State, t: nat)
    requires StepsInv(s) && t < |s.pcs| && s.pcs[t].Giving? && ContinuesGive(s, s', t)
    ensures
      var own, pc, pc' := s.pcs[t].own, s.pcs[t], s'.pcs[t];
      && Local(s, s', t, own) && PcOk(s', pc') && LogOk(s', own)
      && s'.log == s.log && s'.arenas[own].live == s.arenas[own].live
      && (if Pending(pc', own) then pc'.books else s'.arenas[own]) == pc.books && Pending(pc, own)
      && (!Pending(pc', own) ==> Inv(s'.arenas[own]))
      && (pc'.Giving? || pc'.Done?)
  {
    hide LogOk, Locks.Inv, Inv, Filled, GivenOnce;
    assert PcOk(s, s.pcs[t]);
    SameLog(s, s', s.pcs[t].own);
  }

  /** From then on the arena counts as it will be when the list is done. */
  lemma ContinueStep(s: State, s': State, t: nat)
    requires StepsInv(s) && t < |s.pcs| && s.pcs[t].Giving? && ContinuesGive(s, s', t) && Locks.Inv(LocksOf(s'))
    ensures StepsInv(s') && AllBooks(s') == AllBooks(s)
  {
    var own := s.pcs[t].own;
    GiveContinues(s, s', t);
    forall u, r | 0 <= u < |s.pcs| && u != t && WillGive(s.pcs[u], own, r) ensures r in s'.arenas[own].live {
      assert PcOk(s, s.pcs[u]);
    }
    hide ContinuesGive, PcOk, LogOk, Locks.Inv, Inv, StepsInv;
    LocalKeepsInv(s, s', t, own);
    LocalBooks(s, s', t, own);
    assert AllBooks(s').arenas == AllBooks(s).arenas;
  }

  // ------------------------------------------------------------------ every run

  /** Every step keeps the invariant and is one whole call, or none. */
  lemma StepRefines(s: State, s': State)
    requires StepsInv(s) && Step(s, s')
    ensures StepsInv(s') && CallOrNothing(AllBooks(s), AllBooks(s'))
  {
    hide StepsInv, CallOrNothing, Locks.Inv, Frees, Changes, CanTake;
    NothingIsFine(s);
    if s' != s {
      var t: nat :| ThreadStep(s, s', t);
      LocksMove(s, s', t);
      NothingIsFine(s');
      match s.pcs[t]
      case Idle => StartStep(s, s', t);
      case TakingFirst(own, ring, job) => AcquireStep(s, s', t);
      case TakingSecond(own, ring, job) => AcquireStep(s, s', t);
      case Inside(own, ring, Take(need)) =>
        if own < |s.arenas| && CanTake(s.arenas[own], need) {
          TakeStep(s, s', t, own, need);
        } else {
          LeaveStep(s, s', t, own, Idle);
        }
      case Inside(own, ring, Give(r)) =>
        var leave := if own == ring then Idle else Done(own, ring);
        if Frees(s, s', t, ring, leave) {
          LeaveStep(s, s', t, ring, leave);
        } else {
          LogGiveStep(s, s', t, own, ring, r);
        }
      case Took(own, r, books) => FinishTakeStep(s, s', t, own, r, books);
      case Giving(own, ring, ringFreed, r, stage, list, books) => ContinueStep(s, s', t);
      case Done(own, ring) => LeaveStep(s, s', t, own, Idle);
    }
  }

  lemma NothingIsFine(s: State)
    ensures CallOrNothing(AllBooks(s), AllBooks(s))
  {
  }

  lemma InitInv(s: State)
    requires Init(s)
    ensures StepsInv(s)
  {
    Locks.InitInv(LocksOf(s));
    assert Outstanding({}) == {};
  }

  ghost predicate Run(run: seq<State>) {
    && |run| > 0 && Init(run[0])
    && forall i | 0 <= i < |run| - 1 :: Step(run[i], run[i + 1])
  }

  lemma {:induction false} RunInv(run: seq<State>, i: nat)
    requires Run(run) && i < |run|
    ensures StepsInv(run[i])
  {
    hide StepsInv, Init, Step;
    if i == 0 {
      InitInv(run[0]);
    } else {
      RunInv(run, i - 1);
      StepRefines(run[i - 1], run[i - 1 + 1]);
    }
  }

  /** What the arenas count as goes through a run of whole calls. */
  lemma RunOfCalls(run: seq<State>, i: nat)
    requires Run(run) && i + 1 < |run|
    ensures CallOrNothing(AllBooks(run[i]), AllBooks(run[i + 1]))
  {
    hide StepsInv, Init, Step, CallOrNothing;
    RunInv(run, i);
    StepRefines(run[i], run[i + 1]);
  }

  /** In every state of every run, also in the middle of a call, the logs of all rings
      replayed give each arena's outstanding pages; and an arena that is not locked is in
      order. */
  lemma LogsAgree(run: seq<State>, i: nat, c: nat)
    requires Run(run) && i < |run| && c < |run[i].arenas|
    ensures Consistent(run[i].log, c) && Replay(run[i].log, c) == Outstanding(run[i].arenas[c].live)
    ensures Inv(BooksOf(run[i], c)) && BooksOf(run[i], c).live == run[i].arenas[c].live
    ensures c < |run[i].words| && (run[i].words[c] == 0 ==> BooksOf(run[i], c) == run[i].arenas[c])
  {
    hide Init, Step, Inv, Replay, Consistent, Takes, Filled;
    RunInv(run, i);
    var s := run[i];
    assert LogOk(s, c);
    if !Unpended(s, c) {
      var t :| 0 <= t < |s.pcs| && Pending(s.pcs[t], c);
      PendingHolds(s.pcs[t], c);
      assert Locks.Holds(LocksOf(s).pcs[t], c);
      BooksOfHolder(s, t, c);
      assert PcOk(s, s.pcs[t]);
    }
  }

  // ------------------------------------------------------------------ progress

  lemma {:induction false} BestFitExists(free: seq<Range>, need: nat) returns (k: nat)
    requires HasFit(free, need)
    ensures IsBestFit(free, need, k)
  {
    var n := |free| - 1;
    if HasFit(free[..n], need) {
      k := BestFitExists(free[..n], need);
      if need <= free[n].pages < free[k].pages {
        k := n;
      }
    } else {
      assert forall i | 0 <= i < n :: free[..n][i].pages < need;
      k := n;
    }
  }

  lemma TakeIsPossible(s: State, t: nat, own: nat, need: nat) returns (s': State)
    requires t < |s.pcs| && own < |s.arenas| && CanTake(s.arenas[own], need)
    requires Gapped(s.arenas[own].free)
    ensures TakesPages(s, s', t, own, need)
  {
    var a := s.arenas[own];
    var free, bump, r := a.free, a.bump + need, Range(a.bump, need);
    if HasFit(a.free, need) {
      var k := BestFitExists(a.free, need);
      free, bump, r := CutTail(a.free, k, need), a.bump, Range(a.free[k].End() - need, need);
    }
    assert Takes(a.free, a.bump, a.total, need, free, bump, r);
    s' := s.(arenas := s.arenas[own := a.(free := free, bump := bump)], pcs := s.pcs[t := Took(own, r, a)]);
    assert Changes(s, s', t, own, a.(free := free, bump := bump), s.log, Took(own, r, a));
  }

  /** A thread that does not wait for a lock has a step. */
  lemma InsiderCanStep(s: State, t: nat) returns (s': State)
    requires StepsInv(s) && t < |s.pcs|
    requires !s.pcs[t].Idle? && !s.pcs[t].TakingFirst? && !s.pcs[t].TakingSecond?
    ensures ThreadStep(s, s', t)
  {
    hide Locks.Inv, LogOk, Filled, GivenOnce, CanTake, Takes;
    var pc := s.pcs[t];
    assert PcOk(s, pc);
    match pc
    case Inside(own, ring, Take(need)) =>
      InsideIsSettled(s, t);
      BumpInside(s.arenas[own]);
      if CanTake(s.arenas[own], need) {
        s' := TakeIsPossible(s, t, own, need);
      } else {
        s' := s.(words := s.words[own := 0], pcs := s.pcs[t := Idle]);
      }
    case Inside(own, ring, Give(r)) =>
      s' := s.(words := s.words[ring := 0], pcs := s.pcs[t := if own == ring then Idle else Done(own, ring)]);
    case Took(own, r, books) =>
      s' := s.(arenas := s.arenas[own := books], pcs := s.pcs[t := Done(own, own)]);
      assert Changes(s, s', t, own, books, s.log, Done(own, own));
    case Giving(own, ring, ringFreed, r, stage, list, books) =>
      if ring != own && !ringFreed {
        assert Locks.Holds(Place(pc), ring);
        RingInBounds(s, t);
        s' := s.(words := s.words[ring := 0], pcs := s.pcs[t := pc.(ringFreed := true)]);
      } else {
        s' := s.(arenas := s.arenas[own := s.arenas[own].(free := Filled(list, r, stage + 1))],
                 pcs := s.pcs[t := if stage < 2 then pc.(stage := stage + 1) else Done(own, ring)]);
      }
    case Done(own, ring) =>
      s' := s.(words := s.words[own := 0], pcs := s.pcs[t := Idle]);
    case _ =>
  }

  lemma RingInBounds(s: State, t: nat)
    requires Locks.Inv(LocksOf(s)) && t < |s.pcs| && s.pcs[t].Giving? && !s.pcs[t].ringFreed
    ensures s.pcs[t].ring < |s.words|
  {
    assert Locks.InBounds(LocksOf(s).pcs[t], |s.words|);
  }

  /** While any thread is in a call, one of those that are can take a step. */
  lemma SomeoneMoves(run: seq<State>, i: nat, t: nat) returns (u: nat, s': State)
    requires Run(run) && i < |run| && t < |run[i].pcs| && !run[i].pcs[t].Idle?
    ensures u < |run[i].pcs| && !run[i].pcs[u].Idle? && ThreadStep(run[i], s', u)
  {
    hide Init, Step, LogOk, GivenOnce, Locks.Inv;
    RunInv(run, i);
    var s := run[i];
    var l := LocksOf(s);
    u := Locks.NoDeadlock(l, t);
    var pc := s.pcs[u];
    if pc.TakingFirst? || pc.TakingSecond? {
      var l' :| Locks.ThreadStep(l, l', u);
      var at := if pc.TakingFirst? then Locks.First(Place(pc)) else Locks.Second(Place(pc));
      var next := if pc.TakingSecond? || pc.own == pc.ring then Inside(pc.own, pc.ring, pc.job)
                  else TakingSecond(pc.own, pc.ring, pc.job);
      s' := s.(words := s.words[at := 1], pcs := s.pcs[u := next]);
    } else {
      s' := InsiderCanStep(s, u);
    }
  }

  // ------------------------------------------------------------------ an example

  /** One arena of four pages and one thread. */
  function One(locked: bool, bump: nat, free: seq<Range>, live: set<Range>, log: seq<Logged>, pc: Pc): State {
    State([if locked then 1 else 0], [ArenaState(4, bump, free, live, {})], log, [pc])
  }

  lemma OnlyOne<T>(a: T, b: T)
    ensures [a][0 := b] == [b]
  {
  }

  lemma FinishTwo(r: Range)
    ensures
      var empty := ArenaState(4, 0, [], {}, {});
      FinishesTake(One(true, 2, [], {}, [], Took(0, r, empty)),
                   One(true, 2, [], {r}, [AllocEntry(0, r)], Done(0, 0)), 0, 0, r, empty)
  {
    var empty, log := ArenaState(4, 0, [], {}, {}), [AllocEntry(0, r)];
    var s, s' := One(true, 2, [], {}, [], Took(0, r, empty)), One(true, 2, [], {r}, log, Done(0, 0));
    assert s'.arenas[0] == s.arenas[0].(live := s.arenas[0].live + {r});
    assert [] + [AllocEntry(0, r)] == log;
    OnlyOne(s.arenas[0], s'.arenas[0]);
    OnlyOne(s.pcs[0], s'.pcs[0]);
    assert Changes(s, s', 0, 0, s'.arenas[0], log, Done(0, 0));
  }

  lemma RetrieveTwo(r: Range)
    requires r == Range(0, 2)
    ensures
      var empty, log := ArenaState(4, 0, [], {}, {}), [AllocEntry(0, r)];
      && Step(One(false, 0, [], {}, [], Idle), One(false, 0, [], {}, [], TakingFirst(0, 0, Take(2))))
      && Step(One(false, 0, [], {}, [], TakingFirst(0, 0, Take(2))), One(true, 0, [], {}, [], Inside(0, 0, Take(2))))
      && Step(One(true, 0, [], {}, [], Inside(0, 0, Take(2))), One(true, 2, [], {}, [], Took(0, r, empty)))
      && Step(One(true, 2, [], {}, [], Took(0, r, empty)), One(true, 2, [], {r}, log, Done(0, 0)))
      && Step(One(true, 2, [], {r}, log, Done(0, 0)), One(false, 2, [], {r}, log, Idle))
  {
    var empty, log := ArenaState(4, 0, [], {}, {}), [AllocEntry(0, r)];
    var s0, s1 := One(false, 0, [], {}, [], Idle), One(false, 0, [], {}, [], TakingFirst(0, 0, Take(2)));
    var s2, s3 := One(true, 0, [], {}, [], Inside(0, 0, Take(2))), One(true, 2, [], {}, [], Took(0, r, empty));
    var s4, s5 := One(true, 2, [], {r}, log, Done(0, 0)), One(false, 2, [], {r}, log, Idle);
    OnlyOne(s0.pcs[0], s1.pcs[0]);
    OnlyOne(s1.pcs[0], s2.pcs[0]);
    OnlyOne(s2.pcs[0], s3.pcs[0]);
    OnlyOne(s3.pcs[0], s4.pcs[0]);
    OnlyOne(s4.pcs[0], s5.pcs[0]);
    OnlyOne(0, 1);
    OnlyOne(1, 0);
    OnlyOne(s2.arenas[0], s3.arenas[0]);
    OnlyOne(s3.arenas[0], s4.arenas[0]);
    assert MayStart(s0, 0, 0, Take(2));
    assert ThreadStep(s0, s1, 0) && ThreadStep(s1, s2, 0);
    assert Takes([], 0, 4, 2, [], 2, r);
    assert Changes(s2, s3, 0, 0, s3.arenas[0], [], Took(0, r, empty));
    assert TakesPages(s2, s3, 0, 0, 2);
    assert ThreadStep(s2, s3, 0);
    FinishTwo(r);
    assert ThreadStep(s3, s4, 0) && ThreadStep(s4, s5, 0);
  }

  lemma StoreTwo(r: Range, log: seq<Logged>)
    requires r == Range(0, 2)
    ensures
      var after, more := ArenaState(4, 2, [r], {}, {}), log + [FreeEntry(0, 0, r)];
      && Step(One(false, 2, [], {r}, log, Idle), One(false, 2, [], {r}, log, TakingFirst(0, 0, Give(r))))
      && Step(One(false, 2, [], {r}, log, TakingFirst(0, 0, Give(r))),
              One(true, 2, [], {r}, log, Inside(0, 0, Give(r))))
      && Step(One(true, 2, [], {r}, log, Inside(0, 0, Give(r))),
              One(true, 2, [], {}, more, Giving(0, 0, false, r, 0, [], after)))
      && Step(One(true, 2, [], {}, more, Giving(0, 0, false, r, 0, [], after)),
              One(true, 2, [r], {}, more, Giving(0, 0, false, r, 1, [], after)))
      && Step(One(true, 2, [r], {}, more, Giving(0, 0, false, r, 1, [], after)),
              One(true, 2, [r], {}, more, Giving(0, 0, false, r, 2, [], after)))
      && Step(One(true, 2, [r], {}, more, Giving(0, 0, false, r, 2, [], after)),
              One(true, 2, [r], {}, more, Done(0, 0)))
      && Step(One(true, 2, [r], {}, more, Done(0, 0)), One(false, 2, [r], {}, more, Idle))
  {
    var after, more := ArenaState(4, 2, [r], {}, {}), log + [FreeEntry(0, 0, r)];
    var s0, s1 := One(false, 2, [], {r}, log, Idle), One(false, 2, [], {r}, log, TakingFirst(0, 0, Give(r)));
    var s2 := One(true, 2, [], {r}, log, Inside(0, 0, Give(r)));
    var s3 := One(true, 2, [], {}, more, Giving(0, 0, false, r, 0, [], after));
    var s4 := One(true, 2, [r], {}, more, Giving(0, 0, false, r, 1, [], after));
    var s5 := One(true, 2, [r], {}, more, Giving(0, 0, false, r, 2, [], after));
    var s6, s7 := One(true, 2, [r], {}, more, Done(0, 0)), One(false, 2, [r], {}, more, Idle);
    FilledAlone(r);
    hide Filled;
    OnlyOne(s0.pcs[0], s1.pcs[0]);
    OnlyOne(s1.pcs[0], s2.pcs[0]);
    OnlyOne(s2.pcs[0], s3.pcs[0]);
    OnlyOne(s3.pcs[0], s4.pcs[0]);
    OnlyOne(s4.pcs[0], s5.pcs[0]);
    OnlyOne(s5.pcs[0], s6.pcs[0]);
    OnlyOne(s6.pcs[0], s7.pcs[0]);
    OnlyOne(0, 1);
    OnlyOne(1, 0);
    OnlyOne(s2.arenas[0], s3.arenas[0]);
    OnlyOne(s3.arenas[0], s4.arenas[0]);
    OnlyOne(s4.arenas[0], s4.arenas[0]);
    assert {r} - {r} == {};
    assert MayStart(s0, 0, 0, Give(r));
    assert ThreadStep(s0, s1, 0) && ThreadStep(s1, s2, 0);
    assert Changes(s2, s3, 0, 0, s3.arenas[0], more, s3.pcs[0]);
    assert ThreadStep(s2, s3, 0) && ThreadStep(s3, s4, 0) && ThreadStep(s4, s5, 0) && ThreadStep(s5, s6, 0);
    assert ThreadStep(s6, s7, 0);
  }

  lemma FilledAlone(r: Range)
    ensures Filled([], r, 0) == [] && Filled([], r, 1) == Filled([], r, 2) == Filled([], r, 3) == [r]
  {
  }

  lemma OneStepMore(run: seq<State>, s: State) returns (longer: seq<State>)
    requires Run(run) && Step(run[|run| - 1], s)
    ensures Run(longer) && longer == run + [s] && longer[|longer| - 1] == s
  {
    longer := run + [s];
  }

  lemma RetrieveRun(r: Range) returns (run: seq<State>)
    requires r == Range(0, 2)
    ensures Run(run) && |run| == 6 && run[0] == One(false, 0, [], {}, [], Idle)
    ensures run[5] == One(false, 2, [], {r}, [AllocEntry(0, r)], Idle)
  {
    var empty, log := ArenaState(4, 0, [], {}, {}), [AllocEntry(0, r)];
    RetrieveTwo(r);
    run := [One(false, 0, [], {}, [], Idle)];
    assert Run(run);
    hide Step, One, Run;
    run := OneStepMore(run, One(false, 0, [], {}, [], TakingFirst(0, 0, Take(2))));
    run := OneStepMore(run, One(true, 0, [], {}, [], Inside(0, 0, Take(2))));
    run := OneStepMore(run, One(true, 2, [], {}, [], Took(0, r, empty)));
    run := OneStepMore(run, One(true, 2, [], {r}, log, Done(0, 0)));
    run := OneStepMore(run, One(false, 2, [], {r}, log, Idle));
  }

  lemma StoreRun(run: seq<State>, r: Range, log: seq<Logged>) returns (longer: seq<State>)
    requires r == Range(0, 2) && Run(run) && run[|run| - 1] == One(false, 2, [], {r}, log, Idle)
    ensures Run(longer) && |longer| == |run| + 7 && longer[..|run|] == run
    ensures longer[|run| + 6] == One(false, 2, [r], {}, log + [FreeEntry(0, 0, r)], Idle)
  {
    var after, more := ArenaState(4, 2, [r], {}, {}), log + [FreeEntry(0, 0, r)];
    StoreTwo(r, log);
    hide Step, One, Run;
    longer := OneStepMore(run, One(false, 2, [], {r}, log, TakingFirst(0, 0, Give(r))));
    longer := OneStepMore(longer, One(true, 2, [], {r}, log, Inside(0, 0, Give(r))));
    longer := OneStepMore(longer, One(true, 2, [], {}, more, Giving(0, 0, false, r, 0, [], after)));
    longer := OneStepMore(longer, One(true, 2, [r], {}, more, Giving(0, 0, false, r, 1, [], after)));
    longer := OneStepMore(longer, One(true, 2, [r], {}, more, Giving(0, 0, false, r, 2, [], after)));
    longer := OneStepMore(longer, One(true, 2, [r], {}, more, Done(0, 0)));
    longer := OneStepMore(longer, One(false, 2, [r], {}, more, Idle));
  }

  /** Two pages are retrieved and stored: the log has both entries and the pages are free. */
  lemma RetrieveAndStore() returns (run: seq<State>)
    ensures
      var r := Range(0, 2);
      && Run(run) && |run| == 13 && run[0] == One(false, 0, [], {}, [], Idle)
      && run[5] == One(false, 2, [], {r}, [AllocEntry(0, r)], Idle)
      && run[12] == One(false, 2, [r], {}, [AllocEntry(0, r), FreeEntry(0, 0, r)], Idle)
  {
    var r := Range(0, 2);
    var retrieved := RetrieveRun(r);
    hide Run, One;
    run := StoreRun(retrieved, r, [AllocEntry(0, r)]);
    assert run[0] == run[..6][0] && run[5] == run[..6][5];
    assert [AllocEntry(0, r)] + [FreeEntry(0, 0, r)] == [AllocEntry(0, r), FreeEntry(0, 0, r)];
  }
}
