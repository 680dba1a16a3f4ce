/** The shuffle of common.h, as used for new blocks and for the chunks of a quarantine batch. */
module Shuffling {

  /** `s` without its place `j`, into which the last one moves. */
  function Without<T>(s: seq<T>, j: nat): (r: seq<T>)
    requires j < |s|
    ensures |r| == |s| - 1
  {
    s[j := s[|s| - 1]][..|s| - 1]
  }

  /** What the shuffle makes of `s`: the place i, from the last on, is swapped with the
      place `draws[i] % (i + 1)`. */
  function Shuffled<T>(s: seq<T>, draws: seq<nat>): (r: seq<T>)
    requires |s| <= |draws|
    ensures |r| == |s|
    decreases |s|
  {
    if |s| <= 1 then s else
    var j := draws[|s| - 1] % |s|;
    Shuffled(Without(s, j), draws) + [s[j]]
  }

  lemma WithoutLoses<T>(s: seq<T>, j: nat)
    requires j < |s|
    ensures multiset(Without(s, j)) + multiset{s[j]} == multiset(s)
  {
    var last := |s| - 1;
    var front := s[..last];
    assert s == front + [s[last]];
    assert multiset(s) == multiset(front) + multiset{s[last]};
    if j < last {
      assert Without(s, j) == front[j := s[last]];
      assert front == front[..j] + [s[j]] + front[j + 1..];
      assert front[j := s[last]] == front[..j] + [s[last]] + front[j + 1..];
    } else {
      assert Without(s, j) == front;
    }
  }

  /** One round of the loop of the shuffle. */
  lemma ShuffleRound<T>(s: seq<T>, s': seq<T>, i: nat, draws: seq<nat>)
    requires 0 < i < |s| <= |draws|
    requires var j := draws[i] % (i + 1); s' == s[i := s[j]][j := s[i]]
    ensures Shuffled(s'[..i], draws) + s'[i..] == Shuffled(s[..i + 1], draws) + s[i + 1..]
  {
    var j := draws[i] % (i + 1);
    var x, front, back := s[j], s[..i + 1], s[i + 1..];
    assert Without(front, j) == s'[..i];
    assert s'[i..] == [x] + back;
    assert Shuffled(front, draws) == Shuffled(Without(front, j), draws) + [x];
    hide Without, Shuffled;
    Regroup(Shuffled(Without(front, j), draws), x, back);
  }

  lemma Short<T>(s: seq<T>, draws: seq<nat>)
    requires |s| <= 1 && |s| <= |draws|
    ensures Shuffled(s, draws) == s
  {
  }

  lemma OneLeft<T>(s: seq<T>, draws: seq<nat>)
    requires 0 < |s| <= |draws|
    ensures Shuffled(s[..1], draws) + s[1..] == s
  {
    Short(s[..1], draws);
  }

  lemma Regroup<T>(a: seq<T>, x: T, b: seq<T>)
    ensures (a + [x]) + b == a + ([x] + b)
  {
  }

  lemma {:induction false} ShuffledIsPermutation<T>(s: seq<T>, draws: seq<nat>)
    requires |s| <= |draws|
    ensures multiset(Shuffled(s, draws)) == multiset(s)
    decreases |s|
  {
    if |s| > 1 {
      var j := draws[|s| - 1] % |s|;
      ShuffledIsPermutation(Without(s, j), draws);
      WithoutLoses(s, j);
    }
  }

  /** Every order can come out, ... */
  lemma {:induction false} EveryOrder<T>(s: seq<T>, t: seq<T>) returns (draws: seq<nat>)
    requires multiset(s) == multiset(t)
    ensures |draws| == |s| && Shuffled(s, draws) == t
    ensures forall i | 0 <= i < |s| :: draws[i] <= i
    decreases |s|
  {
    SameLength(s, t);
    if |s| == 0 {
      return [];
    }
    var j := LastComesFrom(s, t);
    hide Shuffled, Without;
    var first := EveryOrder(Without(s, j), t[..|s| - 1]);
    draws := first + [j];
    AddDraw(s, j, first, draws);
    assert t == t[..|s| - 1] + [t[|s| - 1]];
  }

  lemma SameLength<T>(s: seq<T>, t: seq<T>)
    requires multiset(s) == multiset(t)
    ensures |s| == |t|
  {
    assert |s| == |multiset(s)| && |t| == |multiset(t)|;
  }

  lemma AddDraw<T>(s: seq<T>, j: nat, first: seq<nat>, draws: seq<nat>)
    requires j < |s| == |first| + 1 && draws == first + [j]
    ensures Shuffled(s, draws) == Shuffled(Without(s, j), first) + [s[j]]
  {
    SameDraws(Without(s, j), first, draws);
    LastDraw(s, draws);
  }

  lemma LastComesFrom<T>(s: seq<T>, t: seq<T>) returns (j: nat)
    requires multiset(s) == multiset(t) && |s| == |t| > 0
    ensures j < |s| && s[j] == t[|s| - 1] && multiset(Without(s, j)) == multiset(t[..|s| - 1])
  {
    var x := t[|s| - 1];
    assert t == t[..|s| - 1] + [x];
    assert multiset(t) == multiset(t[..|s| - 1]) + multiset{x};
    assert x in multiset(s);
    j :| 0 <= j < |s| && s[j] == x;
    WithoutLoses(s, j);
    assert multiset(Without(s, j)) == multiset(s) - multiset{x} == multiset(t[..|s| - 1]);
  }

  ghost predicate AllDiffer<T>(s: seq<T>) {
    forall i, j | 0 <= i < j < |s| :: s[i] != s[j]
  }

  ghost predicate InPlaces(draws: seq<nat>) {
    forall i | 0 <= i < |draws| :: draws[i] <= i
  }

  /** ... and, of blocks that differ, from one sequence of draws only: if all draws are
      equally likely then so are all orders. */
  lemma {:induction false} OneDrawEach<T>(s: seq<T>, draws: seq<nat>, other: seq<nat>)
    requires |draws| == |other| == |s| && InPlaces(draws) && InPlaces(other)
    requires AllDiffer(s) && Shuffled(s, draws) == Shuffled(s, other)
    ensures draws == other
    decreases |s|
  {
    hide *;
    if |s| > 0 {
      var last := |s| - 1;
      FirstDraws(s, draws);
      FirstDraws(s, other);
      DifferentPlaces(s, draws[last], other[last]);
      OneDrawEach(Without(s, draws[last]), draws[..last], other[..last]);
    }
  }

  lemma FirstDraws<T>(s: seq<T>, draws: seq<nat>)
    requires |s| == |draws| > 0 && InPlaces(draws)
    ensures
      var last := |s| - 1;
      && draws[last] <= last && InPlaces(draws[..last]) && draws == draws[..last] + [draws[last]]
      && Shuffled(s, draws)[last] == s[draws[last]]
      && Shuffled(s, draws)[..last] == Shuffled(Without(s, draws[last]), draws[..last])
  {
    FrontDraws(draws);
    hide InPlaces, Shuffled, Without;
    LastDraw(s, draws);
    SameDraws(Without(s, draws[|s| - 1]), draws[..|s| - 1], draws);
  }

  lemma FrontDraws(draws: seq<nat>)
    requires InPlaces(draws) && |draws| > 0
    ensures
      var last := |draws| - 1;
      draws[last] <= last && InPlaces(draws[..last]) && draws == draws[..last] + [draws[last]]
  {
  }

  lemma DifferentPlaces<T>(s: seq<T>, j: nat, k: nat)
    requires AllDiffer(s) && j < |s| && k < |s| && s[j] == s[k]
    ensures j == k && AllDiffer(Without(s, j))
  {
  }

  lemma LastDraw<T>(s: seq<T>, draws: seq<nat>)
    requires 0 < |s| == |draws| && draws[|s| - 1] < |s|
    ensures
      var j := draws[|s| - 1];
      && Shuffled(s, draws) == Shuffled(Without(s, j), draws) + [s[j]]
      && Shuffled(s, draws)[|s| - 1] == s[j] && Shuffled(s, draws)[..|s| - 1] == Shuffled(Without(s, j), draws)
  {
    assert draws[|s| - 1] % |s| == draws[|s| - 1];
    if |s| == 1 {
      assert Without(s, 0) == [];
    }
  }

  lemma {:induction false} SameDraws<T>(s: seq<T>, draws: seq<nat>, more: seq<nat>)
    requires |s| <= |draws| <= |more| && draws == more[..|draws|]
    ensures Shuffled(s, draws) == Shuffled(s, more)
    decreases |s|
  {
    if |s| > 1 {
      SameDraws(Without(s, draws[|s| - 1] % |s|), draws, more);
    }
  }
}
