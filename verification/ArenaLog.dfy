/** Replaying the operation logs: the kernel rebuilds who holds which pages from the
    entries alone (shared_arena_linux.cpp appendLogPagesLocked). */
module ArenaLog {

  import opened ArenaModel
  import opened LogRing

  /** An entry and the ring it went to, in global append order. */
  datatype Logged = Logged(ring: nat, entry: LogEntry)

  function Span(r: Range): set<nat> {
    set p: nat | p < r.End() && r.Has(p)
  }

  function Pages(e: LogEntry): set<nat> {
    Span(Range(e.startPage, e.numPages))
  }

  /** Core `c`'s outstanding pages as the log tells them. */
  function Replay(log: seq<Logged>, c: nat): set<nat> {
    if log == [] then {} else
    var before, e := Replay(log[..|log| - 1], c), log[|log| - 1].entry;
    if e.srcCpu != c then before
    else if e.op.Alloc? then before + Pages(e)
    else before - Pages(e)
  }

  /** The log never hands out a page that is out, nor takes back one that is not. */
  predicate Consistent(log: seq<Logged>, c: nat) {
    log == [] ||
    var before, e := log[..|log| - 1], log[|log| - 1].entry;
    && Consistent(before, c)
    && (e.srcCpu == c && e.op.Alloc? ==> Pages(e) !! Replay(before, c))
    && (e.srcCpu == c && e.op.Free? ==> Pages(e) <= Replay(before, c))
  }

  /** What one ring received. */
  function Project(log: seq<Logged>, ring: nat): seq<LogEntry> {
    if log == [] then [] else
    var before, last := Project(log[..|log| - 1], ring), log[|log| - 1];
    if last.ring == ring then before + [last.entry] else before
  }

  function Outstanding(live: set<Range>): (pages: set<nat>)
    ensures forall p: nat :: p in pages <==> InHeld(live, p)
  {
    var pages := set r, p: nat | r in live && p in Span(r) :: p;
    assert forall r: Range, p: nat :: r.Has(p) ==> p in Span(r);
    pages
  }

  lemma OutstandingPlus(live: set<Range>, r: Range)
    ensures Outstanding(live + {r}) == Outstanding(live) + Span(r)
  {
    forall p: nat ensures p in Outstanding(live + {r}) <==> p in Outstanding(live) + Span(r) {
      HeldPlus(live, r, p);
    }
  }

  lemma OutstandingMinus(live: set<Range>, r: Range)
    requires r in live && HeldApart(live)
    ensures Outstanding(live - {r}) == Outstanding(live) - Span(r)
    ensures Span(r) <= Outstanding(live)
  {
    forall p: nat ensures p in Outstanding(live - {r}) <==> p in Outstanding(live) - Span(r) {
      HeldMinus(live, r, p);
    }
  }

  /** Handing out a range and logging it keep the replay in step. */
  lemma LogHandedOut(log: seq<Logged>, c: nat, live: set<Range>, r: Range, ring: nat)
    requires Consistent(log, c) && Replay(log, c) == Outstanding(live)
    requires forall h | h in live :: r.Apart(h)
    ensures
      var log' := log + [Logged(ring, LogEntry(Alloc, c, r.off, r.pages))];
      Consistent(log', c) && Replay(log', c) == Outstanding(live + {r})
  {
    var e := LogEntry(Alloc, c, r.off, r.pages);
    var log' := log + [Logged(ring, e)];
    assert log'[..|log|] == log;
    assert Range(e.startPage, e.numPages) == r;
    OutstandingPlus(live, r);
    forall p | p in Span(r) ensures p !in Outstanding(live) {
      forall h | h in live ensures !h.Has(p) {
        var apart := r.Apart(h);
      }
    }
  }

  /** So do giving one back and logging that, whichever ring takes the entry. */
  lemma LogGivenBack(log: seq<Logged>, c: nat, live: set<Range>, r: Range, ring: nat)
    requires Consistent(log, c) && Replay(log, c) == Outstanding(live) && r in live && HeldApart(live)
    ensures
      var log' := log + [Logged(ring, LogEntry(Free, c, r.off, r.pages))];
      Consistent(log', c) && Replay(log', c) == Outstanding(live - {r})
  {
    var e := LogEntry(Free, c, r.off, r.pages);
    var log' := log + [Logged(ring, e)];
    assert log'[..|log|] == log;
    assert Range(e.startPage, e.numPages) == r;
    OutstandingMinus(live, r);
  }

  /** An entry about another core's pages changes nothing for core `c`. */
  lemma LogOther(log: seq<Logged>, c: nat, entry: LogEntry, ring: nat)
    requires Consistent(log, c) && entry.srcCpu != c
    ensures
      var log' := log + [Logged(ring, entry)];
      Consistent(log', c) && Replay(log', c) == Replay(log, c)
  {
    var log' := log + [Logged(ring, entry)];
    assert log'[..|log|] == log;
  }

  lemma ProjectStep(log: seq<Logged>, entry: LogEntry, ring: nat, i: nat)
    ensures Project(log + [Logged(ring, entry)], i) == if i == ring then Project(log, i) + [entry] else Project(log, i)
  {
    var log' := log + [Logged(ring, entry)];
    assert log'[..|log|] == log;
  }
}
