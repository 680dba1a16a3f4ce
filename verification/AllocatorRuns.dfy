/** Any run of calls of any threads on the primary allocator, while one of them holds the
    mapping lock of a class for a page release (primary64.h popBlocks, pushBlocks,
    local_cache.h allocate, deallocate, drain). */
module AllocatorRuns {

  import opened BatchCache
  import opened ConservedBlocks
  import opened PrimaryAllocator
  import opened RegionFreeList
  import opened RegionMapping
  import opened Sequences

  /** A call of thread `t` on class `c`; what is given back is the `i`-th block users hold. */
  datatype Call =
    | Allocate(c: nat, t: nat, n0: nat, remaps: bool, draws: seq<nat>)
    | Deallocate(c: nat, t: nat, i: nat, n0: nat)
    | Drain(c: nat, t: nat, n0: nat)
    | DrainCache(t: nat)

  /** `users` lists the live blocks, by class. */
  ghost predicate UsersHold(a: Allocator, users: seq<seq<nat>>)
    reads a
  {
    && |users| == |a.classes| == |a.books| == |a.chunks|
    && forall d | 0 <= d < |users| :: a.books[d].live == multiset(users[d])
  }

  // ------------------------------------------------------------------ what a call does

  datatype Region = Region(mapping: Mapping, carved: nat, mapped: nat)

  /** What can be seen of an allocator between calls: the blocks users hold, by class; each
      thread's chunks, oldest first, and how many it may have, by class and thread; how many
      list nodes it has cached, by thread; and each class's region and whether its list is
      empty. */
  datatype Snapshot = Snapshot(users: seq<seq<nat>>, held: seq<seq<seq<nat>>>, most: seq<seq<nat>>, nodes: seq<nat>,
                               noGroups: seq<bool>, regions: seq<Region>)
  {
    predicate Sized() {
      && |users| == |held| == |most| == |noGroups| == |regions|
      && (forall d | 0 <= d < |held| :: |held[d]| == |most[d]| == |nodes|)
      && (forall d | 0 <= d < |regions| :: regions[d].mapping.Ok())
    }
  }

  /** Everything but class `d` and thread `t` stays as it is. */
  predicate OthersStay(s: Snapshot, s': Snapshot, d: nat, t: nat)
    requires s.Sized() && s'.Sized() && |s'.users| == |s.users| && |s'.nodes| == |s.nodes|
  {
    && s'.most == s.most
    && (forall e | 0 <= e < |s.users| && e != d ::
         s'.users[e] == s.users[e] && s'.held[e] == s.held[e] && s'.noGroups[e] == s.noGroups[e]
         && s'.regions[e] == s.regions[e])
    && (forall u | 0 <= u < |s.nodes| && u != t ::
         s'.nodes[u] == s.nodes[u] && (d < |s.held| ==> s'.held[d][u] == s.held[d][u]))
  }

  /** What one call does while the region of class `locked` is locked.  An allocation takes
      the thread's newest chunk or, if it has none, some block no user has; it has to wait for
      a locked region, and fails if there is no memory.  A deallocation puts the block on top
      of the thread's chunks. */
  ghost predicate Happens(call: Call, s: Snapshot, s': Snapshot, locked: nat)
    requires s.Sized() && s'.Sized()
  {
    && |s'.users| == |s.users| && |s'.nodes| == |s.nodes|
    && match call
       case Allocate(d, t, n0, remaps, draws) =>
         if !(d < |s.users| && t < |s.nodes| && n0 > 0 && |draws| >= s.regions[d].mapping.MostNewBlocks()) then
           s' == s
         else
           var nothing, r := s.held[d][t] == [] && s.noGroups[d], s.regions[d];
           if nothing && d == locked then
             s' == s
           else if nothing && r.mapping.Stuck(r.carved, r.mapped, remaps) then
             s'.users == s.users && s'.held == s.held && s'.regions == s.regions && OthersStay(s, s', d, t)
           else
             OthersStay(s, s', d, t)
             && (nothing || s'.regions[d] == s.regions[d])
             && exists x :: x !in s.users[d] && s'.users[d] == s.users[d] + [x]
                  && (s.held[d][t] != [] ==> s.held[d][t] == s'.held[d][t] + [x])
       case Deallocate(d, t, i, n0) =>
         if !(d < |s.users| && t < |s.nodes| && n0 > 0 && i < |s.users[d]|) then
           s' == s
         else
           OthersStay(s, s', d, t) && s'.regions == s.regions
           && s'.users[d] == s.users[d][..i] + s.users[d][i + 1..]
           && s'.held[d][t] == Deallocated(s.held[d][t], s.most[d][t], s.users[d][i])
       case Drain(d, t, n0) =>
         if !(d < |s.users| && t < |s.nodes| && n0 > 0 && s.held[d][t] != []) then
           s' == s
         else
           OthersStay(s, s', d, t) && s'.regions == s.regions && s'.users == s.users
           && s'.held[d][t] == Drained(s.held[d][t], s.most[d][t]) && |s'.held[d][t]| < |s.held[d][t]|
       case DrainCache(t) =>
         if !(t < |s.nodes| && s.nodes[t] > 0) then
           s' == s
         else
           s' == s.(nodes := s.nodes[t := s'.nodes[t]]) && s'.nodes[t] < s.nodes[t]
  }

  ghost function HeldIn(row: seq<PerClass>): (held: seq<seq<nat>>)
    reads row, (set p | p in row :: p.chunks)
    ensures |held| == |row| && forall u | 0 <= u < |row| :: held[u] == row[u].Held()
  {
    if row == [] then [] else HeldIn(row[..|row| - 1]) + [row[|row| - 1].Held()]
  }

  ghost function AllHeld(a: Allocator, n: nat): (held: seq<seq<seq<nat>>>)
    requires n <= |a.chunks|
    reads a.AllChunks(), (set p | p in a.AllChunks() :: p.chunks)
    ensures |held| == n && forall d | 0 <= d < n :: held[d] == HeldIn(a.chunks[d])
  {
    if n == 0 then [] else AllHeld(a, n - 1) + [HeldIn(a.chunks[n - 1])]
  }

  function MostIn(row: seq<PerClass>): seq<nat> {
    seq(|row|, u requires 0 <= u < |row| => row[u].maxCount)
  }

  function AllMost(a: Allocator): seq<seq<nat>> {
    seq(|a.chunks|, d requires 0 <= d < |a.chunks| => MostIn(a.chunks[d]))
  }

  ghost function NodesIn(caches: seq<Cache>): (nodes: seq<nat>)
    reads caches`count
    ensures |nodes| == |caches| && forall u | 0 <= u < |caches| :: nodes[u] == caches[u].count
  {
    if caches == [] then [] else NodesIn(caches[..|caches| - 1]) + [caches[|caches| - 1].count]
  }

  ghost function EmptyLists(classes: seq<SizeClass>): (empty: seq<bool>)
    reads (set k | k in classes :: k.list)
    ensures |empty| == |classes| && forall d | 0 <= d < |classes| :: empty[d] <==> classes[d].list.groups == []
  {
    if classes == [] then []
    else EmptyLists(classes[..|classes| - 1]) + [classes[|classes| - 1].list.groups == []]
  }

  ghost function RegionsOf(classes: seq<SizeClass>): (regions: seq<Region>)
    reads classes
    ensures |regions| == |classes|
    ensures forall d | 0 <= d < |classes| ::
      regions[d] == Region(classes[d].mapping, classes[d].carved, classes[d].mappedUser)
  {
    if classes == [] then [] else
    var k := classes[|classes| - 1];
    RegionsOf(classes[..|classes| - 1]) + [Region(k.mapping, k.carved, k.mappedUser)]
  }

  ghost function Seen(a: Allocator, users: seq<seq<nat>>): Snapshot
    reads a, a.caches, a.classes, (set k | k in a.classes :: k.list)
    reads a.AllChunks(), (set p | p in a.AllChunks() :: p.chunks)
  {
    Snapshot(users, AllHeld(a, |a.chunks|), AllMost(a), NodesIn(a.caches), EmptyLists(a.classes), RegionsOf(a.classes))
  }

  lemma UsersSeen(a: Allocator, users: seq<seq<nat>>)
    ensures Seen(a, users).users == users
  {
  }

  lemma SeenIsSized(a: Allocator, users: seq<seq<nat>>)
    requires a.Valid() && UsersHold(a, users)
    ensures Seen(a, users).Sized()
    ensures forall d | 0 <= d < |a.chunks| :: |a.chunks[d]| == |a.caches|
  {
    hide Allocator.Valid, UsersHold, Mapping.Ok, HeldIn, AllHeld, NodesIn, EmptyLists, RegionsOf, Allocator.AllChunks;
    InRows(a);
    Sizes(a, users);
    forall d | 0 <= d < |a.classes| ensures a.classes[d].mapping.Ok() {
      a.HasMapping(d);
    }
    assert forall d | 0 <= d < |a.chunks| :: |AllHeld(a, |a.chunks|)[d]| == |AllMost(a)[d]| == |a.caches|;
  }

  lemma HeldLength(a: Allocator, d: nat, t: nat)
    requires a.Valid() && d < |a.classes| && t < |a.caches|
    ensures d < |a.chunks| && t < |a.chunks[d]| && |a.chunks[d][t].Held()| == a.chunks[d][t].count
  {
    InRows(a);
    a.ListIsOk(d);
    assert HoldsChunks(a.chunks[d][t], a.books[d].cached[t]);
  }

  /** What was seen of other classes and threads is still so. */
  lemma OthersSeen(a: Allocator, s: Snapshot, users: seq<seq<nat>>, d: nat, t: nat)
    requires s.Sized() && Seen(a, users).Sized() && s.most == AllMost(a)
    requires |users| == |s.users| == |a.chunks| == |a.classes| && |a.caches| == |s.nodes|
    requires forall e | 0 <= e < |a.chunks| :: |a.chunks[e]| == |s.nodes|
    requires forall e | 0 <= e < |users| && e != d ::
      && users[e] == s.users[e] && (s.noGroups[e] <==> a.classes[e].list.groups == [])
      && s.regions[e] == Region(a.classes[e].mapping, a.classes[e].carved, a.classes[e].mappedUser)
    requires forall e, u | 0 <= e < |users| && 0 <= u < |s.nodes| && (e != d || u != t) ::
      s.held[e][u] == a.chunks[e][u].Held()
    requires forall u | 0 <= u < |s.nodes| && u != t :: s.nodes[u] == a.caches[u].count
    ensures OthersStay(s, Seen(a, users), d, t)
  {
    hide HeldIn, AllHeld, NodesIn, EmptyLists, RegionsOf, Allocator.AllChunks, PerClass.Held, AllMost, MostIn;
    var s' := Seen(a, users);
    forall e | 0 <= e < |users| && e != d ensures s'.held[e] == s.held[e] {
      SameRows(s.held[e], s'.held[e]);
    }
  }

  lemma SameRows<T>(x: seq<T>, y: seq<T>)
    requires |x| == |y| && forall u | 0 <= u < |x| :: x[u] == y[u]
    ensures x == y
  {
  }

  // ------------------------------------------------------------------ one call

  /** Can the call proceed?  One that would have to carve blocks of class `c` waits for the
      lock. */
  predicate MayProceed(a: Allocator, call: Call, users: seq<seq<nat>>, c: nat)
    requires |users| == |a.classes| == |a.chunks| && forall d | 0 <= d < |a.chunks| :: |a.chunks[d]| == |a.caches|
    reads a, a.caches, a.classes, (set k | k in a.classes :: k.list), a.AllChunks()
  {
    match call
    case Allocate(d, t, n0, remaps, draws) =>
      && d < |a.classes| && t < |a.caches| && n0 > 0 && |draws| >= a.classes[d].mapping.MostNewBlocks()
      && !(d == c && a.NothingToPop(d, t))
    case Deallocate(d, t, i, n0) => d < |a.classes| && t < |a.caches| && i < |users[d]| && n0 > 0
    case Drain(d, t, n0) => d < |a.classes| && t < |a.caches| && n0 > 0 && a.chunks[d][t].count > 0
    case DrainCache(t) => t < |a.caches| && a.caches[t].count > 0
  }

  /** One call.  The groups of class `c` that are out stay out, and its region stays as it is. */
  method Run1(a: Allocator, call: Call, users: seq<seq<nat>>, c: nat) returns (users': seq<seq<nat>>)
    requires a.Valid() && UsersHold(a, users) && c < |a.classes|
    modifies a`held, a`nodes, a`books, a.caches, (set k | k in a.caches :: k.chunks), a.batch
    modifies a.classes, (set k | k in a.classes :: k.list), a.AllChunks(), (set p | p in a.AllChunks() :: p.chunks)
    ensures a.Valid() && UsersHold(a, users')
    ensures a.classes[c].list.released == old(a.classes[c].list.released)
    ensures a.classes[c].carved == old(a.classes[c].carved) && a.classes[c].mappedUser == old(a.classes[c].mappedUser)
    ensures old(Seen(a, users)).Sized() && Seen(a, users').Sized()
    ensures Happens(call, old(Seen(a, users)), Seen(a, users'), c)
  {
    hide Allocator.Valid, Mapping.Inv, Allocator.AllChunks, Happens, Seen, PerClass.Held, Allocator.NothingToPop;
    users' := users;
    InRows(a);
    Sizes(a, users);
    SeenIsSized(a, users);
    if !MayProceed(a, call, users, c) {
      NothingHappens(a, call, users, c);
      return;
    }
    match call
    case Allocate(d, t, n0, remaps, draws) =>
      Parts(a, d, t);
      users' := RunAllocate(a, d, t, n0, remaps, draws, users, c);
    case Deallocate(d, t, i, n0) =>
      Parts(a, d, t);
      users' := RunDeallocate(a, d, t, i, n0, users, c);
    case Drain(d, t, n0) =>
      Parts(a, d, t);
      RunDrain(a, d, t, n0, users, c);
    case DrainCache(t) =>
      assert a.caches[t] in a.caches;
      RunDrainCache(a, t, users, c);
  }

  lemma NothingHappens(a: Allocator, call: Call, users: seq<seq<nat>>, c: nat)
    requires a.Valid() && UsersHold(a, users) && |users| == |a.classes| == |a.chunks|
    requires forall d | 0 <= d < |a.chunks| :: |a.chunks[d]| == |a.caches|
    requires Seen(a, users).Sized() && !MayProceed(a, call, users, c)
    ensures Happens(call, Seen(a, users), Seen(a, users), c)
  {
    hide Allocator.Valid, UsersHold, HeldIn, AllHeld, NodesIn, EmptyLists, RegionsOf, Allocator.AllChunks,
         PerClass.Held;
    if !call.DrainCache? && call.c < |a.classes| && call.t < |a.caches| {
      HeldLength(a, call.c, call.t);
    }
  }

  /** What thread `t` and class `d` work on is part of the allocator. */
  lemma Parts(a: Allocator, d: nat, t: nat)
    requires d < |a.classes| == |a.chunks| && t < |a.caches| && t < |a.chunks[d]|
    ensures a.classes[d] in a.classes && a.classes[d].list in (set k | k in a.classes :: k.list)
    ensures a.caches[t] in a.caches && a.caches[t].chunks in (set k | k in a.caches :: k.chunks)
    ensures a.chunks[d][t] in a.AllChunks() && a.chunks[d][t].chunks in (set p | p in a.AllChunks() :: p.chunks)
  {
    assert a.chunks[d][t] in a.chunks[d];
  }

  method RunDeallocate(a: Allocator, d: nat, t: nat, i: nat, n0: nat, users: seq<seq<nat>>, ghost c: nat)
    returns (users': seq<seq<nat>>)
    requires a.Valid() && UsersHold(a, users) && d < |a.classes| && t < |a.caches| && n0 > 0 && i < |users[d]|
    requires t < |a.chunks[d]|
    modifies a`held, a`nodes, a`books, a.caches`elsewhere, a.caches[t], a.caches[t].chunks, a.batch
    modifies a.classes[d].list`groups, a.classes[d].list`pushedBlocks, a.chunks[d][t], a.chunks[d][t].chunks
    ensures a.Valid() && UsersHold(a, users')
    ensures old(Seen(a, users)).Sized() && Seen(a, users').Sized()
    ensures Happens(Deallocate(d, t, i, n0), old(Seen(a, users)), Seen(a, users'), c)
  {
    hide Allocator.Valid, HeldIn, AllHeld, NodesIn, EmptyLists, RegionsOf, Allocator.AllChunks, PerClass.Held,
         OthersStay;
    hide Drained, Deallocated;
    SeenIsSized(a, users);
    ghost var s := Seen(a, users);
    TakenAway(users[d], i);
    a.Deallocate(d, t, users[d][i], n0);
    users' := users[d := users[d][..i] + users[d][i + 1..]];
    SeenIsSized(a, users');
    ghost var s' := Seen(a, users');
    SameRows(s.regions, s'.regions);
    OthersSeen(a, s, users', d, t);
  }

  method RunAllocate(a: Allocator, d: nat, t: nat, n0: nat, remaps: bool, draws: seq<nat>, users: seq<seq<nat>>, c: nat)
    returns (users': seq<seq<nat>>)
    requires a.Valid() && UsersHold(a, users) && c < |a.classes| && d < |a.classes| && t < |a.caches| && n0 > 0
    requires |draws| >= a.classes[d].mapping.MostNewBlocks()
    requires t < |a.chunks[d]| && !(d == c && a.NothingToPop(d, t))
    modifies a`held, a`nodes, a`books, a.caches`elsewhere, a.caches[t], a.caches[t].chunks, a.batch
    modifies a.classes[d], a.classes[d].list`groups, a.classes[d].list`pushedBlocks, a.classes[d].list`poppedBlocks
    modifies a.chunks[d][t], a.chunks[d][t].chunks
    ensures a.Valid() && UsersHold(a, users')
    ensures a.classes[c].carved == old(a.classes[c].carved) && a.classes[c].mappedUser == old(a.classes[c].mappedUser)
    ensures old(Seen(a, users)).Sized() && Seen(a, users').Sized()
    ensures Happens(Allocate(d, t, n0, remaps, draws), old(Seen(a, users)), Seen(a, users'), c)
  {
    hide Allocator.Valid, Mapping.Inv, HeldIn, AllHeld, NodesIn, EmptyLists, RegionsOf, Allocator.AllChunks, OthersStay;
    hide PerClass.Held, Mapping.Stuck, Mapping.MostNewBlocks, Happens, AllMost, MostIn;
    SeenIsSized(a, users);
    HeldLength(a, d, t);
    ghost var s := Seen(a, users);
    users' := users;
    Apart(a, c, d);
    var ok, x := a.Allocate(d, t, n0, remaps, draws);
    if ok {
      users' := users[d := users[d] + [x]];
    }
    SeenIsSized(a, users');
    HeldLength(a, d, t);
    ghost var s' := Seen(a, users');
    OthersSeen(a, s, users', d, t);
    AllocateHappens(s, s', d, t, n0, remaps, draws, c, ok, x);
  }

  lemma AllocateHappens(s: Snapshot, s': Snapshot, d: nat, t: nat, n0: nat, remaps: bool, draws: seq<nat>, c: nat,
                        ok: bool, x: nat)
    requires s.Sized() && s'.Sized() && |s'.users| == |s.users| && |s'.nodes| == |s.nodes|
    requires d < |s.users| && t < |s.nodes| && n0 > 0 && |draws| >= s.regions[d].mapping.MostNewBlocks()
    requires OthersStay(s, s', d, t) && !(d == c && s.held[d][t] == [] && s.noGroups[d])
    requires
      var r := s.regions[d];
      !ok <==> s.held[d][t] == [] && s.noGroups[d] && r.mapping.Stuck(r.carved, r.mapped, remaps)
    requires !ok ==> s'.users == s.users && s'.held[d][t] == s.held[d][t] && s'.regions[d] == s.regions[d]
    requires ok ==>
      && x !in s.users[d] && s'.users[d] == s.users[d] + [x]
      && ((s.held[d][t] == [] && s.noGroups[d]) || s'.regions[d] == s.regions[d])
      && (s.held[d][t] != [] ==> s.held[d][t] == s'.held[d][t] + [x])
    ensures Happens(Allocate(d, t, n0, remaps, draws), s, s', c)
  {
    if !ok {
      SameRows(s.held[d], s'.held[d]);
      SameRows(s.held, s'.held);
      SameRows(s.regions, s'.regions);
    }
  }

  method RunDrain(a: Allocator, d: nat, t: nat, n0: nat, users: seq<seq<nat>>, ghost c: nat)
    requires a.Valid() && UsersHold(a, users) && d < |a.classes| && t < |a.caches| && n0 > 0
    requires t < |a.chunks[d]| && a.chunks[d][t].count > 0
    modifies a`held, a`nodes, a`books, a.caches`elsewhere, a.caches[t], a.caches[t].chunks, a.batch
    modifies a.classes[d].list`groups, a.classes[d].list`pushedBlocks, a.chunks[d][t], a.chunks[d][t].chunks
    ensures a.Valid() && UsersHold(a, users)
    ensures old(Seen(a, users)).Sized() && Seen(a, users).Sized()
    ensures Happens(Drain(d, t, n0), old(Seen(a, users)), Seen(a, users), c)
  {
    hide Allocator.Valid, HeldIn, AllHeld, NodesIn, EmptyLists, RegionsOf, Allocator.AllChunks, PerClass.Held,
         OthersStay;
    hide Drained;
    SeenIsSized(a, users);
    HeldLength(a, d, t);
    ghost var s := Seen(a, users);
    a.Drain(d, t, n0);
    SeenIsSized(a, users);
    ghost var s' := Seen(a, users);
    SameRows(s.regions, s'.regions);
    OthersSeen(a, s, users, d, t);
  }

  method RunDrainCache(a: Allocator, t: nat, users: seq<seq<nat>>, ghost c: nat)
    requires a.Valid() && UsersHold(a, users) && t < |a.caches| && a.caches[t].count > 0
    modifies a`held, a.caches`elsewhere, a.caches[t], a.caches[t].chunks, a.batch
    ensures a.Valid() && UsersHold(a, users)
    ensures old(Seen(a, users)).Sized() && Seen(a, users).Sized()
    ensures Happens(DrainCache(t), old(Seen(a, users)), Seen(a, users), c)
  {
    hide Allocator.Valid, HeldIn, AllHeld, NodesIn, EmptyLists, RegionsOf, Allocator.AllChunks, PerClass.Held,
         OthersStay;
    SeenIsSized(a, users);
    ghost var s := Seen(a, users);
    a.DrainCache(t);
    SeenIsSized(a, users);
    ghost var s' := Seen(a, users);
    SameRows(s.regions, s'.regions);
    SameRows(s.noGroups, s'.noGroups);
    forall e | 0 <= e < |s.users| ensures s'.held[e] == s.held[e] {
      SameRows(s.held[e], s'.held[e]);
    }
    SameRows(s.held, s'.held);
    SameRows(s.nodes[t := s'.nodes[t]], s'.nodes);
  }

  lemma Sizes(a: Allocator, users: seq<seq<nat>>)
    requires UsersHold(a, users)
    ensures |users| == |a.classes| == |a.chunks|
  {
  }

  lemma InRows(a: Allocator)
    requires a.Valid()
    ensures |a.classes| == |a.chunks| && forall d | 0 <= d < |a.chunks| :: |a.chunks[d]| == |a.caches|
  {
  }

  lemma Apart(a: Allocator, c: nat, d: nat)
    requires a.Valid() && c < |a.classes| && d < |a.classes|
    ensures c != d ==> a.classes[c] != a.classes[d]
  {
    assert a.Wired(a.batch, a.classes, a.caches, a.chunks);
    hide Allocator.Valid;
  }

  lemma TakenAway(s: seq<nat>, i: nat)
    requires i < |s|
    ensures s[i] in multiset(s) && multiset(s[..i] + s[i + 1..]) == multiset(s) - multiset{s[i]}
  {
    assert s == s[..i] + [s[i]] + s[i + 1..];
  }

  /** No block is ever in two users' hands. */
  lemma HeldOnce(a: Allocator, users: seq<seq<nat>>, d: nat)
    requires a.Valid() && UsersHold(a, users) && d < |users|
    ensures Distinct(users[d])
  {
    hide Carved, FreeList.Free, Sum;
    a.ListIsOk(d);
    var k := a.classes[d];
    CarvedDistinct(k.unit, k.carved);
    var all: multiset<nat> := multiset(Carved(k.unit, k.carved));
    forall x: nat ensures multiset(users[d])[x] <= 1 {
      OnceEach(Carved(k.unit, k.carved), x);
      assert all[x] == k.list.Free()[x] + Sum(a.books[d].cached)[x] + a.books[d].live[x];
    }
    DistinctFromCounts(users[d]);
  }

  /** Any number of calls: `seen` is what can be seen before, between and after them. */
  method RunAll(a: Allocator, calls: seq<Call>, users: seq<seq<nat>>, c: nat)
    returns (users': seq<seq<nat>>, ghost seen: seq<Snapshot>)
    requires a.Valid() && UsersHold(a, users) && c < |a.classes|
    modifies a`held, a`nodes, a`books, a.caches, (set k | k in a.caches :: k.chunks), a.batch
    modifies a.classes, (set k | k in a.classes :: k.list), a.AllChunks(), (set p | p in a.AllChunks() :: p.chunks)
    ensures a.Valid() && UsersHold(a, users') && (calls == [] ==> users' == users)
    ensures a.classes[c].list.released == old(a.classes[c].list.released)
    ensures a.classes[c].carved == old(a.classes[c].carved) && a.classes[c].mappedUser == old(a.classes[c].mappedUser)
    ensures IsRun(calls, seen, c) && seen[0] == old(Seen(a, users)) && seen[|calls|] == Seen(a, users')
  {
    hide Allocator.Valid, Mapping.Inv, Happens, Seen, Allocator.AllChunks;
    SeenIsSized(a, users);
    users', seen := users, [Seen(a, users)];
    for i := 0 to |calls|
      invariant a.Valid() && UsersHold(a, users') && (i == 0 ==> users' == users)
      invariant a.classes[c].list.released == old(a.classes[c].list.released)
      invariant a.classes[c].carved == old(a.classes[c].carved)
      invariant a.classes[c].mappedUser == old(a.classes[c].mappedUser)
      invariant IsRun(calls[..i], seen, c) && seen[0] == old(Seen(a, users)) && seen[i] == Seen(a, users')
    {
      users' := Run1(a, calls[i], users', c);
      OneMoreCall(calls, i, seen, Seen(a, users'), c);
      seen := seen + [Seen(a, users')];
    }
    assert calls[..|calls|] == calls;
  }

  /** Each call makes of what was seen before it what is seen after it. */
  ghost predicate IsRun(calls: seq<Call>, seen: seq<Snapshot>, locked: nat) {
    && |seen| == |calls| + 1 && (forall i | 0 <= i < |seen| :: seen[i].Sized())
    && forall i | 0 <= i < |calls| :: Happens(calls[i], seen[i], seen[i + 1], locked)
  }

  lemma OneMoreCall(calls: seq<Call>, i: nat, seen: seq<Snapshot>, now: Snapshot, locked: nat)
    requires i < |calls| && IsRun(calls[..i], seen, locked) && now.Sized() && Happens(calls[i], seen[i], now, locked)
    ensures IsRun(calls[..i + 1], seen + [now], locked)
  {
    hide Happens;
    var more := seen + [now];
    assert forall j | 0 <= j < |more| :: more[j].Sized();
    forall j | 0 <= j < |calls[..i + 1]| ensures Happens(calls[..i + 1][j], more[j], more[j + 1], locked) {
      if j < i {
        assert Happens(calls[..i][j], seen[j], seen[j + 1], locked);
      }
    }
  }

  /** A run without a call on a class leaves its users and its threads' chunks alone. */
  lemma {:induction false} UsersOfRun(calls: seq<Call>, seen: seq<Snapshot>, locked: nat, d: nat)
    requires IsRun(calls, seen, locked) && d < |seen[0].users|
    ensures d < |seen[|calls|].users|
    ensures (forall call | call in calls :: call.DrainCache? || call.c != d) ==>
      seen[|calls|].users[d] == seen[0].users[d] && seen[|calls|].held[d] == seen[0].held[d]
  {
    if calls == [] {
    } else {
      var n := |calls| - 1;
      forall i | 0 <= i < n ensures Happens(calls[..n][i], seen[..n + 1][i], seen[..n + 1][i + 1], locked) {
        assert Happens(calls[i], seen[i], seen[i + 1], locked);
      }
      UsersOfRun(calls[..n], seen[..n + 1], locked, d);
      assert Happens(calls[n], seen[n], seen[n + 1], locked);
    }
  }
}
