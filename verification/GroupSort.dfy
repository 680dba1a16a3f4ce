/** The sort of pushBlocks (primary64.h pushBlocks): blocks in place by group, while
    finding out whether there is more than one. */
module GroupSort {

  /** compactPtrGroup: the base of the group a compact pointer lies in; `span` is the
      number of compact pointers to a group. */
  function Group(p: nat, span: nat): (g: nat)
    requires span > 0
  {
    p / span * span
  }

  ghost predicate SortedByGroup(s: seq<nat>, span: nat)
    requires span > 0
  {
    forall i, j | 0 <= i < j < |s| :: Group(s[i], span) <= Group(s[j], span)
  }

  ghost predicate OneGroup(s: seq<nat>, span: nat)
    requires span > 0
  {
    forall i, j | 0 <= i < j < |s| :: Group(s[i], span) == Group(s[j], span)
  }

  /** What one insertion does to the part it shifts through. */
  function Inserted(s: seq<nat>, j: nat, x: nat): seq<nat>
    requires j <= |s|
  {
    s[..j] + [x] + s[j..]
  }

  lemma InsertedKeeps(s: seq<nat>, j: nat, x: nat, span: nat)
    requires span > 0 && j <= |s| && SortedByGroup(s, span)
    requires forall k | 0 <= k < j :: Group(s[k], span) <= Group(x, span)
    requires forall k | j <= k < |s| :: Group(x, span) < Group(s[k], span)
    ensures SortedByGroup(Inserted(s, j, x), span)
    ensures multiset(Inserted(s, j, x)) == multiset(s) + multiset{x}
  {
    hide Group;
    assert s == s[..j] + s[j..];
  }

  /** The inner loop: moves the blocks of greater groups up by one and drops `x` in. */
  method InsertDown(a: array<nat>, i: nat, x: nat, span: nat) returns (ghost at: nat)
    requires i < a.Length && span > 0 && a[i] == x && SortedByGroup(a[..i], span)
    modifies a
    ensures at <= i && a[..i + 1] == Inserted(old(a[..i]), at, x)
    ensures a[i + 1..] == old(a[i + 1..])
    ensures forall k | 0 <= k < at :: Group(old(a[k]), span) <= Group(x, span)
    ensures forall k | at <= k < i :: Group(x, span) < Group(old(a[k]), span)
  {
    hide Group;
    var j := i;
    while j > 0 && Group(x, span) < Group(a[j - 1], span)
      invariant 0 <= j <= i
      invariant forall k | 0 <= k < j :: a[k] == old(a[k])
      invariant forall k | j < k <= i :: a[k] == old(a[k - 1])
      invariant forall k | i < k < a.Length :: a[k] == old(a[k])
      invariant forall k | j <= k < i :: Group(x, span) < Group(old(a[k]), span)
    {
      a[j] := a[j - 1];
      j := j - 1;
    }
    a[j] := x;
    at := j;
    forall k | 0 <= k < at ensures Group(old(a[k]), span) <= Group(x, span) {
      assert old(a[..i])[k] == old(a[k]) && old(a[..i])[at - 1] == old(a[at - 1]);
    }
  }

  /** Sorts `a[..size]` by group and says whether its blocks share one. */
  method SortByGroup(a: array<nat>, size: nat, span: nat) returns (sameGroup: bool)
    requires 0 < size <= a.Length && span > 0
    modifies a
    ensures multiset(a[..size]) == multiset(old(a[..size]))
    ensures SortedByGroup(a[..size], span)
    ensures sameGroup <==> OneGroup(old(a[..size]), span)
    ensures a[size..] == old(a[size..])
  {
    hide Group;
    sameGroup := true;
    var i := 1;
    while i < size
      invariant 1 <= i <= size
      invariant SortedByGroup(a[..i], span)
      invariant multiset(a[..i]) == multiset(old(a[..i]))
      invariant a[i..] == old(a[i..])
      invariant sameGroup <==> OneGroup(old(a[..i]), span)
    {
      ghost var before := a[..i];
      assert a[i] == a[i..][0] == old(a[i..])[0] == old(a[i]);
      ghost var rest := a[i + 1..];
      assert rest == a[i..][1..];
      OneMore(old(a[..i]), before, a[i], span);
      assert old(a[..i + 1]) == old(a[..i]) + [a[i]];
      if Group(a[i - 1], span) != Group(a[i], span) {
        sameGroup := false;
      }
      ghost var x := a[i];
      ghost var at := InsertDown(a, i, a[i], span);
      InsertedKeeps(before, at, x, span);
      assert old(a[i + 1..]) == old(a[i..])[1..];
      i := i + 1;
    }
  }

  /** One more block keeps the group common exactly when the last of the sorted part,
      like all of them, is of its group. */
  lemma OneMore(was: seq<nat>, sorted: seq<nat>, x: nat, span: nat)
    requires span > 0 && sorted != [] && multiset(sorted) == multiset(was)
    ensures OneGroup(was + [x], span) <==>
      (OneGroup(was, span) && Group(sorted[|sorted| - 1], span) == Group(x, span))
  {
    hide Group;
    var all, last := was + [x], sorted[|sorted| - 1];
    assert last in multiset(sorted);
    assert last in was;
    var k :| 0 <= k < |was| && was[k] == last;
    assert all[k] == last && all[|was|] == x;
    if OneGroup(all, span) {
      forall i, j | 0 <= i < j < |was| ensures Group(was[i], span) == Group(was[j], span) {
        assert all[i] == was[i] && all[j] == was[j];
      }
    }
  }
}
