/** The shell sort that orders character classes, NUL last (`ext/flex/misc.c`). */
module ShellSort {
  import Ecs

  /** NUL is heavier than every character if it is a special case. */
  function Rank(x: int, special: bool): int {
    if special && x == 0 then 256 else x
  }

  predicate Chars(s: seq<int>) {
    forall i :: 0 <= i < |s| ==> 0 <= s[i] < 256
  }

  predicate Ordered(s: seq<int>, special: bool) {
    forall i, j :: 0 <= i < j < |s| ==> Rank(s[i], special) <= Rank(s[j], special)
  }

  /** Elements gap apart are in order below position i, but for the one at position p. */
  ghost predicate GapOrdered(s: seq<int>, special: bool, gap: nat, i: int, p: int)
    requires i <= |s|
  {
    forall a :: gap <= a < i && a != p ==> Rank(s[a - gap], special) <= Rank(s[a], special)
  }

  lemma {:induction false} AdjacentOrders(s: seq<int>, special: bool, i: nat, j: nat)
    requires GapOrdered(s, special, 1, |s|, 0) && i <= j < |s|
    ensures Rank(s[i], special) <= Rank(s[j], special)
    decreases j - i
  {
    if i < j {
      AdjacentOrders(s, special, i, j - 1);
      assert Rank(s[j - 1], special) <= Rank(s[j], special);
    }
  }

  /** While the element at p sinks, its neighbours below and above are in order. */
  ghost predicate Sinking(s: seq<int>, special: bool, gap: nat, i: nat, p: nat) {
    && 0 < gap && p <= i < |s| && GapOrdered(s, special, gap, i + 1, p)
    && (gap <= p && p + gap <= i ==> Rank(s[p - gap], special) <= Rank(s[p + gap], special))
  }

  lemma SinksOn(s: seq<int>, s1: seq<int>, special: bool, gap: nat, i: nat, p: nat)
    requires Sinking(s, special, gap, i, p) && gap <= p && Rank(s[p], special) < Rank(s[p - gap], special)
    requires s1 == s[p - gap := s[p]][p := s[p - gap]]
    ensures Sinking(s1, special, gap, i, p - gap) && multiset(s1) == multiset(s) && (Chars(s) ==> Chars(s1))
  {
    forall a | gap <= a < i + 1 && a != p - gap
      ensures Rank(s1[a - gap], special) <= Rank(s1[a], special)
    {
      if a != p && a != p + gap {
        assert Rank(s[a - gap], special) <= Rank(s[a], special);
      }
    }
    if gap <= p - gap {
      assert Rank(s[p - gap - gap], special) <= Rank(s[p - gap], special);
    }
  }

  lemma SunkIsOrdered(s: seq<int>, special: bool, gap: nat, i: nat, p: nat)
    requires Sinking(s, special, gap, i, p) && (gap <= p ==> Rank(s[p - gap], special) <= Rank(s[p], special))
    ensures GapOrdered(s, special, gap, i + 1, 0)
  {
  }

  /** cshell's innermost loop: v[i] goes down in steps of gap to its place. */
  method Sink(v: array<int>, special: bool, gap: nat, i: nat)
    requires Chars(v[..]) && 0 < gap <= i < v.Length && GapOrdered(v[..], special, gap, i, 0)
    modifies v
    ensures GapOrdered(v[..], special, gap, i + 1, 0) && multiset(v[..]) == multiset(old(v[..])) && Chars(v[..])
    ensures forall k :: i < k < v.Length ==> v[k] == old(v[k])
  {
    hide Sinking, GapOrdered, Chars;
    SinkStarts(v[..], special, gap, i);
    var j: int := i - gap;
    while j >= 0
      invariant 0 <= j + gap <= i && Sinking(v[..], special, gap, i, j + gap)
      invariant multiset(v[..]) == multiset(old(v[..])) && Chars(v[..])
      invariant forall k :: i < k < v.Length ==> v[k] == old(v[k])
    {
      var jg := j + gap;
      ghost var s := v[..];
      if special {
        if v[jg] == 0 {
          break;
        } else if v[j] != 0 && v[j] <= v[jg] {
          break;
        }
      } else if v[j] <= v[jg] {
        break;
      }
      var k := v[j];
      v[j] := v[jg];
      v[jg] := k;
      assert v[..] == s[jg - gap := s[jg]][jg := s[jg - gap]];
      RankIs(s, special, jg, j);
      SinksOn(s, v[..], special, gap, i, jg);
      j := j - gap;
    }
    if j >= 0 {
      RankIs(v[..], special, j + gap, j);
    }
    SunkIsOrdered(v[..], special, gap, i, j + gap);
  }

  lemma SinkStarts(s: seq<int>, special: bool, gap: nat, i: nat)
    requires 0 < gap <= i < |s| && GapOrdered(s, special, gap, i, 0)
    ensures Sinking(s, special, gap, i, i)
  {
  }

  /** The test of the innermost loop compares the weights. */
  lemma RankIs(s: seq<int>, special: bool, jg: nat, j: nat)
    requires Chars(s) && j < |s| && jg < |s|
    ensures Rank(s[jg], special) < Rank(s[j], special) <==>
      !(if special then s[jg] == 0 || (s[j] != 0 && s[j] <= s[jg]) else s[j] <= s[jg])
  {
  }

  /** Sorts the elements of v. */
  method CShell(v: array<int>, special: bool)
    requires Chars(v[..])
    modifies v
    ensures Ordered(v[..], special) && multiset(v[..]) == multiset(old(v[..]))
  {
    var n := v.Length;
    var gap := n / 2;
    while gap > 0
      invariant 0 <= gap <= n / 2 && multiset(v[..]) == multiset(old(v[..])) && Chars(v[..])
      invariant gap == 0 && 1 < n ==> GapOrdered(v[..], special, 1, n, 0)
    {
      var i := gap;
      while i < n
        invariant gap <= i <= n && GapOrdered(v[..], special, gap, i, 0)
        invariant multiset(v[..]) == multiset(old(v[..])) && Chars(v[..])
      {
        Sink(v, special, gap, i);
        i := i + 1;
      }
      gap := gap / 2;
    }
    forall i: nat, j: nat | i < j < n
      ensures Rank(v[..][i], special) <= Rank(v[..][j], special)
    {
      AdjacentOrders(v[..], special, i, j);
    }
  }

  /** A sorted class that names no character twice is in the order that mkeccl wants, NUL being read as csize. */
  lemma SortedClassIsAscending(s: seq<int>, csize: nat)
    requires Ordered(s, true) && csize <= 256 && forall i :: 0 <= i < |s| ==> 0 <= s[i] < csize
    requires forall i, j :: 0 <= i < j < |s| ==> s[i] != s[j]
    ensures Ecs.ClassEntries(Ecs.Symbols(s, csize), csize)
  {
    forall i, j | 0 <= i < j < |s|
      ensures Ecs.Symbols(s, csize)[i] < Ecs.Symbols(s, csize)[j]
    {
      assert Rank(s[i], true) <= Rank(s[j], true);
    }
  }
}
