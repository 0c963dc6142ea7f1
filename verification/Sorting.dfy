/** The bubble sort that orders state lists and accepting numbers (`ext/flex/misc.c`). */
module Sorting {

  ghost predicate Sorted(s: seq<int>) {
    forall i, j :: 0 <= i < j < |s| ==> s[i] <= s[j]
  }

  /** r is s in increasing order. */
  ghost predicate SortOf(s: seq<int>, r: seq<int>) {
    Sorted(r) && multiset(r) == multiset(s)
  }

  lemma HasAll(r: seq<int>, r1: seq<int>, x: int)
    requires multiset(r) == multiset(r1) && x in r
    ensures x in r1
  {
    assert x in multiset(r1);
  }

  lemma RestSame(r: seq<int>, r1: seq<int>)
    requires r != [] && r1 != [] && r[0] == r1[0] && multiset(r) == multiset(r1)
    ensures multiset(r[1..]) == multiset(r1[1..])
  {
    assert r == [r[0]] + r[1..] && r1 == [r1[0]] + r1[1..];
    assert multiset(r[1..]) == multiset(r) - multiset{r[0]};
  }

  /** Two orderings of the same values start with the same value. */
  lemma SortedHead(r: seq<int>, r1: seq<int>)
    requires Sorted(r) && Sorted(r1) && multiset(r) == multiset(r1) && r != []
    ensures r1 != [] && r[0] == r1[0] && multiset(r[1..]) == multiset(r1[1..])
  {
    HasAll(r, r1, r[0]);
    HasAll(r1, r, r1[0]);
    RestSame(r, r1);
  }

  lemma {:induction false} SortIsUnique(s: seq<int>, r: seq<int>, r1: seq<int>)
    requires SortOf(s, r) && SortOf(s, r1)
    ensures r == r1
    decreases |r|
  {
    if r == [] {
      assert |multiset(r1)| == |r1| && |multiset(r)| == 0;
    } else {
      SortedHead(r, r1);
      SortIsUnique(r[1..], r[1..], r1[1..]);
      assert r == [r[0]] + r[1..] && r1 == [r1[0]] + r1[1..];
    }
  }

  lemma SortKeepsMembers(s: seq<int>, r: seq<int>)
    requires SortOf(s, r)
    ensures forall x :: x in r <==> x in s
    ensures |r| == |s|
  {
    assert |multiset(r)| == |r| && |multiset(s)| == |s|;
    forall x
      ensures x in r <==> x in s
    {
      assert x in r <==> x in multiset(r);
      assert x in s <==> x in multiset(s);
    }
  }

  /** Positions above i (of 1..n) are in order and hold the greatest values. */
  ghost predicate TopSorted(s: seq<int>, i: int, n: int)
    requires n < |s|
  {
    forall a, b :: 1 <= a < b <= n && i < b ==> s[a] <= s[b]
  }

  /** Position j holds the greatest of positions 1..j. */
  ghost predicate MaxAt(s: seq<int>, j: int)
    requires 0 <= j < |s|
  {
    forall k :: 1 <= k <= j ==> s[k] <= s[j]
  }

  lemma SwapKeeps(s: seq<int>, s1: seq<int>, j: int, i: int, n: int)
    requires 1 <= j < i <= n < |s| && s1 == s[j := s[j + 1]][j + 1 := s[j]] && TopSorted(s, i, n)
    ensures TopSorted(s1, i, n) && multiset(s1[1..n + 1]) == multiset(s[1..n + 1])
    ensures s1[..1] == s[..1] && s1[n + 1..] == s[n + 1..]
  {
    var t, t1 := s[1..n + 1], s1[1..n + 1];
    assert t1 == t[j - 1 := t[j]][j := t[j - 1]];
  }

  /** bubble's inner loop: moves the greatest of v[1..i] to position i. */
  method BubblePass(v: array<int>, i: int, n: int)
    requires 1 < i <= n < v.Length && TopSorted(v[..], i, n)
    modifies v
    ensures TopSorted(v[..], i - 1, n) && multiset(v[..][1..n + 1]) == multiset(old(v[..])[1..n + 1])
    ensures v[..][..1] == old(v[..])[..1] && v[..][n + 1..] == old(v[..])[n + 1..]
  {
    var j := 1;
    while j < i
      invariant 1 <= j <= i && MaxAt(v[..], j)
      invariant TopSorted(v[..], i, n) && multiset(v[..][1..n + 1]) == multiset(old(v[..])[1..n + 1])
      invariant v[..][..1] == old(v[..])[..1] && v[..][n + 1..] == old(v[..])[n + 1..]
    {
      ghost var s := v[..];
      if v[j] > v[j + 1] {
        var k := v[j];
        v[j] := v[j + 1];
        v[j + 1] := k;
        SwapKeeps(s, v[..], j, i, n);
      }
      j := j + 1;
    }
  }

  /** Sorts v[1..n]. */
  method Bubble(v: array<int>, n: int)
    requires 0 <= n < v.Length
    modifies v
    ensures SortOf(old(v[..])[1..n + 1], v[..][1..n + 1])
    ensures v[..][..1] == old(v[..])[..1] && v[..][n + 1..] == old(v[..])[n + 1..]
  {
    var i := n;
    while i > 1
      invariant i <= n && (n <= 1 || 1 <= i) && TopSorted(v[..], i, n)
      invariant multiset(v[..][1..n + 1]) == multiset(old(v[..])[1..n + 1])
      invariant v[..][..1] == old(v[..])[..1] && v[..][n + 1..] == old(v[..])[n + 1..]
    {
      BubblePass(v, i, n);
      i := i - 1;
    }
    TopIsSorted(v[..], i, n);
  }

  lemma TopIsSorted(s: seq<int>, i: int, n: int)
    requires 0 <= n < |s| && i <= 1 && TopSorted(s, i, n)
    ensures Sorted(s[1..n + 1])
  {
    var t := s[1..n + 1];
    forall a, b | 0 <= a < b < |t|
      ensures t[a] <= t[b]
    {
      assert s[a + 1] <= s[b + 1];
    }
  }

  /** Sorts a list that is stored from position 1 on. */
  method SortList(s: seq<int>) returns (r: seq<int>)
    ensures SortOf(s, r)
  {
    var v := new int[|s| + 1](i requires 0 <= i <= |s| => if i == 0 then 0 else s[i - 1]);
    assert v[..][1..|s| + 1] == s;
    Bubble(v, |s|);
    r := v[..][1..|s| + 1];
  }
}
