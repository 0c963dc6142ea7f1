/**
 Why the subset construction ends although its lists may repeat states: repetitions along symbol
 transitions are bounded, because a transition between symbol states leads to a later state.
 */
module Finite {
  import opened NfaLang
  import opened NfaSteps
  import opened Closure

  function Pow2(n: nat): nat {
    if n == 0 then 1 else 2 * Pow2(n - 1)
  }

  lemma {:induction false} Pow2Grows(m: nat, n: nat)
    requires m <= n
    ensures 1 <= Pow2(m) <= Pow2(n)
  {
    if m < n {
      Pow2Grows(m, n - 1);
    } else if 0 < n {
      Pow2Grows(m - 1, n - 1);
    }
  }

  /** How often s occurs in d. */
  ghost function Count(d: seq<int>, s: int): nat {
    multiset(d)[s]
  }

  /** How many entries of d are symbol states below b. */
  ghost function SymbolsBelow(net: Net, d: seq<int>, b: int): nat
    requires States(net, d)
  {
    if d == [] then 0
    else
      (assert d[0] in d; assert forall s :: s in d[1..] ==> s in d;
       (if net.sym[d[0]] != SYM_EPSILON && d[0] < b then 1 else 0) + SymbolsBelow(net, d[1..], b))
  }

  /** A state may be listed 2^s times if it has a symbol, and a bounded number of times if it has none. */
  ghost predicate Bounded(net: Net, d: seq<int>) {
    && States(net, d) && 0 < |net.sym|
    && forall s :: 0 < s < |net.sym| ==> Count(d, s) <= Pow2(if net.sym[s] != SYM_EPSILON then s else |net.sym|)
  }

  lemma CountFirst(d: seq<int>, s: int)
    requires d != []
    ensures Count(d, s) == (if d[0] == s then 1 else 0) + Count(d[1..], s)
  {
    assert d == [d[0]] + d[1..];
  }

  lemma {:induction false} SymbolsBelowStep(net: Net, d: seq<int>, b: int)
    requires States(net, d) && 0 < b < |net.sym|
    ensures SymbolsBelow(net, d, b + 1) == SymbolsBelow(net, d, b) + if net.sym[b] != SYM_EPSILON then Count(d, b) else 0
  {
    if d != [] {
      assert d[0] in d && forall s :: s in d[1..] ==> s in d;
      CountFirst(d, b);
      SymbolsBelowStep(net, d[1..], b);
    }
  }

  lemma {:induction false} SymbolsBelowFirst(net: Net, d: seq<int>)
    requires States(net, d)
    ensures SymbolsBelow(net, d, 1) == 0
  {
    if d != [] {
      assert d[0] in d && forall s :: s in d[1..] ==> s in d;
      SymbolsBelowFirst(net, d[1..]);
    }
  }

  lemma {:induction false} SymbolsBelowBound(net: Net, d: seq<int>, b: nat)
    requires Bounded(net, d) && 1 <= b <= |net.sym|
    ensures SymbolsBelow(net, d, b) < Pow2(b)
    decreases b
  {
    if b == 1 {
      SymbolsBelowFirst(net, d);
    } else {
      SymbolsBelowBound(net, d, b - 1);
      SymbolsBelowStep(net, d, b - 1);
    }
  }

  /** The states that the chosen states of d lead to. */
  ghost function Targets(net: Net, d: seq<int>, chosen: int -> bool): seq<int>
    requires States(net, d) && Sized(net)
  {
    if d == [] then []
    else
      var e, s := d[..|d| - 1], d[|d| - 1];
      assert d == e + [s] && s in d && forall q :: q in e ==> q in d;
      Targets(net, e, chosen) + if chosen(s) then [net.t1[s]] else []
  }

  lemma {:induction false} SymbolsBelowLast(net: Net, d: seq<int>, s: int, b: int)
    requires States(net, d) && 0 < s < |net.sym|
    ensures States(net, d + [s])
    ensures SymbolsBelow(net, d + [s], b) == SymbolsBelow(net, d, b) + if net.sym[s] != SYM_EPSILON && s < b then 1 else 0
  {
    assert States(net, d + [s]);
    if d != [] {
      assert d[0] in d && forall q :: q in d[1..] ==> q in d;
      SymbolsBelowLast(net, d[1..], s, b);
      assert (d + [s])[1..] == d[1..] + [s];
    }
  }

  /** Every occurrence of t among the targets comes from a symbol state below b in d. */
  lemma {:induction false} TargetsCount(net: Net, d: seq<int>, chosen: int -> bool, t: int, b: int)
    requires States(net, d) && Sized(net)
    requires forall s :: 0 < s < |net.sym| && chosen(s) ==> net.sym[s] != SYM_EPSILON && (net.t1[s] == t ==> s < b)
    ensures Count(Targets(net, d, chosen), t) <= SymbolsBelow(net, d, b)
  {
    if d != [] {
      var e, s := d[..|d| - 1], d[|d| - 1];
      assert s in d && forall q :: q in e ==> q in d;
      assert d == e + [s];
      TargetsCount(net, e, chosen, t, b);
      SymbolsBelowLast(net, e, s, b);
    }
  }

  lemma TargetHas(net: Net, d: seq<int>, chosen: int -> bool, s: int)
    requires States(net, d) && Sized(net) && s in d && chosen(s)
    ensures net.t1[s] in Targets(net, d, chosen)
  {
    TargetsAre(net, d, chosen);
    var t := net.t1[s];
    assert s in d && chosen(s) && net.t1[s] == t;
  }

  lemma {:induction false} TargetsAre(net: Net, d: seq<int>, chosen: int -> bool)
    requires States(net, d) && Sized(net)
    ensures forall t :: t in Targets(net, d, chosen) <==> exists s :: s in d && chosen(s) && net.t1[s] == t
  {
    if d != [] {
      var e, s := d[..|d| - 1], d[|d| - 1];
      assert s in d && forall q :: q in e ==> q in d;
      assert d == e + [s];
      TargetsAre(net, e, chosen);
    }
  }

  /** One step of the construction keeps the bound. */
  lemma TargetsBounded(net: Net, d: seq<int>, chosen: int -> bool)
    requires Bounded(net, d) && Forward(net)
    requires forall s :: 0 < s < |net.sym| && chosen(s) ==> net.sym[s] != SYM_EPSILON && 0 < net.t1[s] < |net.sym|
    ensures Bounded(net, Targets(net, d, chosen))
    ensures forall s :: 0 < s < |net.sym| ==> Count(Targets(net, d, chosen), s) < Pow2(if net.sym[s] != SYM_EPSILON then s else |net.sym|)
  {
    var e := Targets(net, d, chosen);
    TargetsAre(net, d, chosen);
    forall t | 0 < t < |net.sym|
      ensures Count(e, t) < Pow2(if net.sym[t] != SYM_EPSILON then t else |net.sym|)
    {
      var b := if net.sym[t] != SYM_EPSILON then t else |net.sym|;
      forall s | 0 < s < |net.sym| && chosen(s) && net.t1[s] == t
        ensures s < b
      {
        assert ForwardAt(net, s);
      }
      TargetsCount(net, d, chosen, t, b);
      SymbolsBelowBound(net, d, b);
    }
  }

  /** The closure lists further states at most once. */
  lemma ClosureBounded(net: Net, acc: seq<int>, t: seq<int>, list: seq<int>)
    requires States(net, t) && States(net, list) && 0 < |net.sym| && ClosureOf(net, acc, t, list)
    requires forall s :: 0 < s < |net.sym| ==> Count(t, s) < Pow2(if net.sym[s] != SYM_EPSILON then s else |net.sym|)
    ensures Bounded(net, list)
  {
    var more := list[|t|..];
    assert list == t + more;
    forall s | 0 < s < |net.sym|
      ensures Count(list, s) <= Pow2(if net.sym[s] != SYM_EPSILON then s else |net.sym|)
    {
      OnceEach(more, s);
      assert s in more ==> s !in t;
      assert Count(list, s) == Count(t, s) + Count(more, s);
      Pow2Grows(0, if net.sym[s] != SYM_EPSILON then s else |net.sym|);
    }
  }

  lemma {:induction false} OnceEach(t: seq<int>, s: int)
    requires NoRepeats(t)
    ensures Count(t, s) == if s in t then 1 else 0
  {
    if t != [] {
      CountFirst(t, s);
      assert forall x :: x in t[1..] ==> exists i :: 1 <= i < |t| && t[i] == x;
      OnceEach(t[1..], s);
    }
  }

  lemma BoundedSorted(net: Net, d: seq<int>, d1: seq<int>)
    requires Bounded(net, d) && multiset(d1) == multiset(d)
    ensures Bounded(net, d1)
  {
    forall s | s in d1
      ensures 0 < s < |net.sym|
    {
      assert s in multiset(d1);
      assert s in d;
    }
  }

  /** A multiset over 1..n with at most m of each has at most n m members. */
  lemma {:induction false} FewMembers(ms: multiset<int>, n: nat, m: nat)
    requires forall s :: s in ms ==> 0 < s <= n && ms[s] <= m
    ensures |ms| <= n * m
  {
    if n == 0 {
      assert ms == multiset{};
    } else {
      var rest := ms[n := 0];
      FewMembers(rest, n - 1, m);
      assert |rest| == |ms| - ms[n];
      assert n * m == (n - 1) * m + m;
    }
  }

  /** The greatest length of a list. */
  function MaxLength(n: nat): nat {
    n * Pow2(n + 1)
  }

  lemma BoundedIsShort(net: Net, d: seq<int>)
    requires Bounded(net, d)
    ensures |d| <= MaxLength(|net.sym| - 1)
  {
    var n := |net.sym| - 1;
    forall s | s in multiset(d)
      ensures 0 < s <= n && multiset(d)[s] <= Pow2(n + 1)
    {
      assert s in d && Count(d, s) == multiset(d)[s];
      Pow2Grows(s, n + 1);
    }
    FewMembers(multiset(d), n, Pow2(n + 1));
    assert |multiset(d)| == |d|;
  }

  /** All lists of states 1..n of length at most len. */
  ghost function AllLists(n: nat, len: nat): (r: set<seq<int>>)
  {
    if len == 0 then {[]}
    else {[]} + set d, s | d in AllLists(n, len - 1) && 1 <= s <= n :: d + [s]
  }

  lemma {:induction false} InAllLists(d: seq<int>, n: nat, len: nat)
    requires |d| <= len && forall s :: s in d ==> 0 < s <= n
    ensures d in AllLists(n, len)
  {
    if d != [] {
      var e, s := d[..|d| - 1], d[|d| - 1];
      assert d == e + [s] && s in d && forall q :: q in e ==> q in d;
      InAllLists(e, n, len - 1);
    }
  }

  /** The number of lists the construction can meet. */
  ghost function MaxLists(net: Net): nat
    requires 0 < |net.sym|
  {
    |AllLists(|net.sym| - 1, MaxLength(|net.sym| - 1))|
  }

  ghost predicate DistinctLists(lists: seq<seq<int>>) {
    forall i, j :: 0 <= i < j < |lists| ==> lists[i] != lists[j]
  }

  lemma {:induction false} DistinctFit(lists: seq<seq<int>>, all: set<seq<int>>)
    requires DistinctLists(lists) && forall d :: d in lists ==> d in all
    ensures |lists| <= |all|
  {
    if lists != [] {
      var rest, d := lists[..|lists| - 1], lists[|lists| - 1];
      assert lists == rest + [d] && d in lists;
      forall e | e in rest
        ensures e in all - {d}
      {
        assert e in lists;
        var i :| 0 <= i < |rest| && rest[i] == e;
        assert lists[i] == e;
      }
      DistinctFit(rest, all - {d});
    }
  }

  /** Distinct bounded lists are not more than MaxLists. */
  lemma FewLists(net: Net, lists: seq<seq<int>>)
    requires 0 < |net.sym| && DistinctLists(lists) && forall d :: d in lists ==> Bounded(net, d)
    ensures |lists| <= MaxLists(net)
  {
    forall d | d in lists
      ensures d in AllLists(|net.sym| - 1, MaxLength(|net.sym| - 1))
    {
      BoundedIsShort(net, d);
      InAllLists(d, |net.sym| - 1, MaxLength(|net.sym| - 1));
    }
    DistinctFit(lists, AllLists(|net.sym| - 1, MaxLength(|net.sym| - 1)));
  }
}