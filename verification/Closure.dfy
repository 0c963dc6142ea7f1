/** The epsilon closure of a list of NFA states, with visit marks borrowed from trans1 (`ext/flex/dfa.c`). */
module Closure {
  import opened Words
  import opened NfaLang
  import opened NfaSteps
  import opened Reach

  /** All transitions lead to states, slots fill in order, and marks are recognizable. */
  ghost predicate Regular(net: Net, acc: seq<int>, md: int) {
    && Sized(net) && |acc| == |net.sym| && 0 < |net.sym| <= md && Proper(net)
    && forall s :: 0 < s < |net.sym| ==> 0 <= net.t1[s] < |net.sym| && 0 <= net.t2[s] < |net.sym|
  }

  ghost predicate States(net: Net, t: seq<int>) {
    forall s :: s in t ==> 0 < s < |net.sym|
  }

  /** trans1 while the states of stk are marked. */
  ghost predicate Marked(tr1: seq<int>, net: Net, stk: seq<int>, md: int) {
    |tr1| == |net.t1| && forall s :: 0 <= s < |tr1| ==> tr1[s] == net.t1[s] - (if s in stk then md else 0)
  }

  ghost predicate NoRepeats(t: seq<int>) {
    forall i, j :: 0 <= i < j < |t| ==> t[i] != t[j]
  }

  /** The sum of the distinct states of the list. */
  ghost function HashOf(t: seq<int>, n: nat): int {
    if n == 0 then 0 else HashOf(t, n - 1) + if n in t then n else 0
  }

  lemma {:induction false} HashSame(t: seq<int>, t1: seq<int>, n: nat)
    requires forall s :: s in t <==> s in t1
    ensures HashOf(t, n) == HashOf(t1, n)
  {
    if n > 0 {
      HashSame(t, t1, n - 1);
    }
  }

  lemma {:induction false} HashAdd(t: seq<int>, t1: seq<int>, s: int, n: nat)
    requires s !in t && 0 < s && forall q :: q in t1 <==> q in t || q == s
    ensures HashOf(t1, n) == HashOf(t, n) + if s <= n then s else 0
  {
    if n > 0 {
      HashAdd(t, t1, s, n - 1);
    }
  }

  lemma {:induction false} NoRepeatsFit(t: seq<int>, n: nat)
    requires NoRepeats(t) && forall s :: s in t ==> 0 < s <= n
    ensures |t| <= n
  {
    if t != [] {
      assert t[0] in t;
      if i :| 0 <= i < |t| && t[i] == n {
        var r := t[..i] + t[i + 1..];
        assert forall s :: s in r ==> s in t && s != n;
        NoRepeatsFit(r, n - 1);
      } else {
        assert forall s :: s in t ==> s != n;
        NoRepeatsFit(t, n - 1);
      }
    }
  }

  /** States that a DFA state must list: those with a symbol or an accepting number. */
  predicate Keep(net: Net, acc: seq<int>, s: int) {
    0 <= s < |acc| && s < |net.sym| && (acc[s] != NIL || net.sym[s] != SYM_EPSILON)
  }

  /** r is the accepting number of a listed state. */
  ghost predicate NumberIn(acc: seq<int>, t: seq<int>, r: int) {
    r != NIL && exists s :: s in t && 0 <= s < |acc| && acc[s] == r
  }

  ghost predicate NumbersOf(acc: seq<int>, t: seq<int>, accset: seq<int>) {
    forall r :: r in accset <==> NumberIn(acc, t, r)
  }

  ghost predicate EpsFrom(net: Net, t: seq<int>, q: int) {
    exists p :: p in t && Eps(net, p, q)
  }

  /** list is t followed by what else must be listed of t's epsilon closure, once each. */
  ghost predicate ClosureOf(net: Net, acc: seq<int>, t: seq<int>, list: seq<int>) {
    && t <= list && NoRepeats(list[|t|..]) && (forall s :: s in list[|t|..] ==> s !in t)
    && (forall q :: q in list ==> EpsFrom(net, t, q) && (q in t || Keep(net, acc, q)))
    && (forall q :: EpsFrom(net, t, q) && Keep(net, acc, q) ==> q in list)
  }

  /** The local variables of epsclosure: stack, state list, accepting numbers, hash. */
  datatype Walk = Walk(stk: seq<int>, t: seq<int>, accset: seq<int>, hashval: int)

  /** The first i entries of t have been put on the stack. */
  ghost predicate Collected(w: Walk, net: Net, acc: seq<int>, t: seq<int>, i: nat) {
    && i <= |t| && 0 < |net.sym| && w.t == t && NoRepeats(w.stk) && (forall s :: s in w.stk <==> s in t[..i])
    && NumbersOf(acc, w.stk, w.accset) && w.hashval == HashOf(t[..i], |net.sym| - 1)
  }

  ghost predicate FollowedAt(net: Net, stk: seq<int>, s: int)
    requires HasState(net, s)
  {
    net.sym[s] == SYM_EPSILON ==> (net.t1[s] != NO_TRANSITION ==> net.t1[s] in stk) && (net.t2[s] != NO_TRANSITION ==> net.t2[s] in stk)
  }

  /** The stack holds t and other states of its closure, once each. */
  ghost predicate Pushed(stk: seq<int>, net: Net, t: seq<int>) {
    && NoRepeats(stk) && (forall s :: s in stk ==> HasState(net, s) && EpsFrom(net, t, s)) && (forall s :: s in t ==> s in stk)
  }

  ghost predicate FollowedTo(stk: seq<int>, net: Net, pos: nat) {
    pos <= |stk| && forall i :: 0 <= i < pos ==> HasState(net, stk[i]) && FollowedAt(net, stk, stk[i])
  }

  /** The first pos entries of the stack have been followed. */
  ghost predicate Followed(w: Walk, net: Net, acc: seq<int>, t: seq<int>, pos: nat) {
    && Pushed(w.stk, net, t) && FollowedTo(w.stk, net, pos) && Listed(w, net, acc, t)
    && NumbersOf(acc, w.stk, w.accset) && 0 < |net.sym| && w.hashval == HashOf(w.t, |net.sym| - 1)
  }

  /** The list is t and the further states of the stack that must be listed. */
  ghost predicate Listed(w: Walk, net: Net, acc: seq<int>, t: seq<int>) {
    && t <= w.t && NoRepeats(w.t[|t|..]) && (forall s :: s in w.t[|t|..] ==> s !in t)
    && (forall s :: s in w.t <==> s in t || (s in w.stk && Keep(net, acc, s)))
  }

  lemma NumbersPush(acc: seq<int>, stk: seq<int>, accset: seq<int>, s: int)
    requires NumbersOf(acc, stk, accset) && 0 <= s < |acc|
    ensures NumbersOf(acc, stk + [s], if acc[s] != NIL then accset + [acc[s]] else accset)
  {
    var accset1 := if acc[s] != NIL then accset + [acc[s]] else accset;
    forall r
      ensures r in accset1 <==> NumberIn(acc, stk + [s], r)
    {
      if NumberIn(acc, stk, r) {
        var q :| q in stk && 0 <= q < |acc| && acc[q] == r;
        assert q in stk + [s];
      }
      if r != NIL && r == acc[s] {
        assert s in stk + [s];
      }
    }
  }

  /** A further state is put on the stack and, if need be, in the list. */
  ghost predicate Stacked(w: Walk, w1: Walk, net: Net, acc: seq<int>, s: int)
    requires 0 <= s < |acc|
  {
    && w1.stk == w.stk + [s] && w1.accset == (if acc[s] != NIL then w.accset + [acc[s]] else w.accset)
    && w1.t == (if Keep(net, acc, s) then w.t + [s] else w.t)
    && w1.hashval == w.hashval + if Keep(net, acc, s) then s else 0
  }

  lemma ListedStep(w: Walk, w1: Walk, net: Net, acc: seq<int>, t: seq<int>, s: int)
    requires Listed(w, net, acc, t) && 0 <= s < |acc| && Stacked(w, w1, net, acc, s) && s !in w.stk && s !in t
    ensures Listed(w1, net, acc, t)
  {
    if Keep(net, acc, s) {
      assert w1.t[|t|..] == w.t[|t|..] + [s];
      assert s !in w.t;
    }
  }

  lemma PushedStep(stk: seq<int>, net: Net, t: seq<int>, s: int)
    requires Pushed(stk, net, t) && HasState(net, s) && s !in stk && EpsFrom(net, t, s)
    ensures Pushed(stk + [s], net, t)
  {
    hide EpsFrom;
  }

  lemma FollowedToStep(stk: seq<int>, net: Net, pos: nat, s: int)
    requires FollowedTo(stk, net, pos)
    ensures FollowedTo(stk + [s], net, pos)
  {
    forall i | 0 <= i < pos
      ensures FollowedAt(net, stk + [s], (stk + [s])[i])
    {
      assert FollowedAt(net, stk, stk[i]);
    }
  }

  lemma HashStep(w: Walk, w1: Walk, net: Net, acc: seq<int>, s: int)
    requires 0 < s < |net.sym| && |acc| == |net.sym| && Stacked(w, w1, net, acc, s) && s !in w.t
    requires w.hashval == HashOf(w.t, |net.sym| - 1)
    ensures w1.hashval == HashOf(w1.t, |net.sym| - 1)
  {
    if Keep(net, acc, s) {
      HashAdd(w.t, w1.t, s, |net.sym| - 1);
    }
  }

  lemma FollowedStep(w: Walk, w1: Walk, net: Net, acc: seq<int>, t: seq<int>, pos: nat, s: int)
    requires Followed(w, net, acc, t, pos) && HasState(net, s) && |acc| == |net.sym| && Stacked(w, w1, net, acc, s)
    requires s !in w.stk && EpsFrom(net, t, s)
    ensures Followed(w1, net, acc, t, pos)
  {
    hide FollowedTo, EpsFrom, NumbersOf, HashOf, NoRepeats, Keep;
    assert s !in t && s !in w.t;
    hide Pushed, Listed;
    NumbersPush(acc, w.stk, w.accset, s);
    ListedStep(w, w1, net, acc, t, s);
    PushedStep(w.stk, net, t, s);
    FollowedToStep(w.stk, net, pos, s);
    assert w1.stk == w.stk + [s] && w1.accset == (if acc[s] != NIL then w.accset + [acc[s]] else w.accset);
    HashStep(w, w1, net, acc, s);
  }

  lemma {:induction false} ClosedUnderEps(net: Net, stk: seq<int>, k: nat, p: int, q: int)
    requires p in stk && EpsWithin(net, k, p, q) && forall s :: s in stk ==> HasState(net, s) && FollowedAt(net, stk, s)
    ensures q in stk
    decreases k
  {
    if p != q {
      assert FollowedAt(net, stk, p);
      if net.t1[p] != NO_TRANSITION && EpsWithin(net, k - 1, net.t1[p], q) {
        ClosedUnderEps(net, stk, k - 1, net.t1[p], q);
      } else {
        ClosedUnderEps(net, stk, k - 1, net.t2[p], q);
      }
    }
  }

  /** The numbers of the stack are those of the list. */
  lemma SameNumbers(w: Walk, net: Net, acc: seq<int>, t: seq<int>)
    requires Listed(w, net, acc, t) && |acc| == |net.sym| && (forall s :: s in t ==> s in w.stk) && NumbersOf(acc, w.stk, w.accset)
    ensures NumbersOf(acc, w.t, w.accset)
  {
    forall r
      ensures NumberIn(acc, w.stk, r) <==> NumberIn(acc, w.t, r)
    {
      if NumberIn(acc, w.stk, r) {
        var s :| s in w.stk && 0 <= s < |acc| && acc[s] == r;
        assert s in w.t;
      }
      if NumberIn(acc, w.t, r) {
        var s :| s in w.t && 0 <= s < |acc| && acc[s] == r;
        assert s in w.stk;
      }
    }
  }

  /** When the whole stack has been followed, the list is the closure. */
  lemma FollowedAll(w: Walk, net: Net, acc: seq<int>, t: seq<int>)
    requires Followed(w, net, acc, t, |w.stk|) && |acc| == |net.sym|
    ensures ClosureOf(net, acc, t, w.t) && NumbersOf(acc, w.t, w.accset)
  {
    SameNumbers(w, net, acc, t);
    forall q | EpsFrom(net, t, q) && Keep(net, acc, q)
      ensures q in w.t
    {
      StackIsClosed(w.stk, net, t, q);
    }
    forall q | q in w.t
      ensures EpsFrom(net, t, q) && (q in t || Keep(net, acc, q))
    {
      assert q in w.stk;
    }
  }

  lemma StackIsClosed(stk: seq<int>, net: Net, t: seq<int>, q: int)
    requires Pushed(stk, net, t) && FollowedTo(stk, net, |stk|) && EpsFrom(net, t, q)
    ensures q in stk
  {
    var p :| p in t && Eps(net, p, q);
    var k: nat :| EpsWithin(net, k, p, q);
    hide EpsFrom;
    forall s | s in stk
      ensures HasState(net, s) && FollowedAt(net, stk, s)
    {
      var i :| 0 <= i < |stk| && stk[i] == s;
    }
    ClosedUnderEps(net, stk, k, p, q);
  }

  // ---- the marks ----

  lemma MarkedTests(tr1: seq<int>, net: Net, acc: seq<int>, stk: seq<int>, md: int, s: int)
    requires Regular(net, acc, md) && Marked(tr1, net, stk, md) && 0 < s < |tr1|
    ensures tr1[s] < 0 <==> s in stk
    ensures s in stk ==> tr1[s] + md == net.t1[s]
  {
  }

  lemma MarkedPush(tr1: seq<int>, tr1': seq<int>, net: Net, stk: seq<int>, md: int, s: int)
    requires Marked(tr1, net, stk, md) && s !in stk && 0 <= s < |tr1| && tr1' == tr1[s := tr1[s] - md]
    ensures Marked(tr1', net, stk + [s], md)
  {
  }

  /** The marks of stk[i..] are left. */
  lemma MarkedPop(tr1: seq<int>, tr1': seq<int>, net: Net, stk: seq<int>, i: nat, md: int)
    requires NoRepeats(stk) && i < |stk| && 0 <= stk[i] < |tr1|
    requires Marked(tr1, net, stk[i..], md) && tr1' == tr1[stk[i] := tr1[stk[i]] + md]
    ensures Marked(tr1', net, stk[i + 1..], md)
  {
    assert forall s :: s in stk[i..] <==> s == stk[i] || s in stk[i + 1..];
    assert stk[i] !in stk[i + 1..];
  }

  lemma CollectedStart(net: Net, acc: seq<int>, t: seq<int>)
    requires 0 < |net.sym|
    ensures Collected(Walk([], t, [], 0), net, acc, t, 0)
  {
    HashNone(|net.sym| - 1);
  }

  lemma {:induction false} HashNone(n: nat)
    ensures HashOf([], n) == 0
  {
    if n > 0 {
      HashNone(n - 1);
    }
  }

  /** Entry i is new. */
  lemma CollectedNew(w: Walk, net: Net, acc: seq<int>, t: seq<int>, i: nat)
    requires Collected(w, net, acc, t, i) && i < |t| && 0 < t[i] < |net.sym| == |acc| && t[i] !in w.stk
    ensures Collected(Walk(w.stk + [t[i]], t, if acc[t[i]] != NIL then w.accset + [acc[t[i]]] else w.accset, w.hashval + t[i]),
                      net, acc, t, i + 1)
  {
    assert t[..i + 1] == t[..i] + [t[i]];
    NumbersPush(acc, w.stk, w.accset, t[i]);
    HashAdd(t[..i], t[..i + 1], t[i], |net.sym| - 1);
  }

  /** Entry i repeats an earlier one. */
  lemma CollectedOld(w: Walk, net: Net, acc: seq<int>, t: seq<int>, i: nat)
    requires Collected(w, net, acc, t, i) && i < |t| && t[i] in w.stk
    ensures Collected(w, net, acc, t, i + 1)
  {
    assert t[..i + 1] == t[..i] + [t[i]];
    HashSame(t[..i], t[..i + 1], |net.sym| - 1);
  }

  lemma CollectedAll(w: Walk, net: Net, acc: seq<int>, t: seq<int>)
    requires Collected(w, net, acc, t, |t|) && Sized(net) && States(net, t)
    ensures Followed(w, net, acc, t, 0)
  {
    assert t[..|t|] == t;
    forall s | s in w.stk
      ensures EpsFrom(net, t, s)
    {
      assert EpsWithin(net, 0, s, s);
      assert s in t && Eps(net, s, s);
    }
  }

  lemma FollowedNext(w: Walk, net: Net, acc: seq<int>, t: seq<int>, pos: nat)
    requires Followed(w, net, acc, t, pos) && pos < |w.stk| && HasState(net, w.stk[pos]) && FollowedAt(net, w.stk, w.stk[pos])
    ensures Followed(w, net, acc, t, pos + 1)
  {
  }

  /** An epsilon transition stays in the closure. */
  lemma EpsFromStep(net: Net, t: seq<int>, ns: int, tsp: int)
    requires EpsFrom(net, t, ns) && HasState(net, ns) && net.sym[ns] == SYM_EPSILON && HasState(net, tsp)
    requires tsp == net.t1[ns] || tsp == net.t2[ns]
    ensures EpsFrom(net, t, tsp)
  {
    var p :| p in t && Eps(net, p, ns);
    var k: nat :| EpsWithin(net, k, p, ns);
    assert EpsWithin(net, 0, tsp, tsp);
    assert EpsWithin(net, 1, ns, tsp);
    EpsTrans(net, k, p, ns, tsp);
  }

  lemma RegularAt(net: Net, acc: seq<int>, md: int, s: int)
    requires Regular(net, acc, md) && HasState(net, s)
    ensures 0 <= net.t1[s] < |net.sym| && 0 <= net.t2[s] < |net.sym| && |net.sym| == |net.t1| == |net.t2| == |acc|
    ensures net.t1[s] == NO_TRANSITION ==> net.t2[s] == NO_TRANSITION
    ensures net.sym[s] != SYM_EPSILON ==> net.t2[s] == NO_TRANSITION
  {
  }

  lemma StackFits(w: Walk, net: Net, acc: seq<int>, t: seq<int>, pos: nat)
    requires Followed(w, net, acc, t, pos)
    ensures pos <= |w.stk| < |net.sym|
    ensures forall i :: 0 <= i < |w.stk| ==> HasState(net, w.stk[i]) && EpsFrom(net, t, w.stk[i])
    ensures NoRepeats(w.stk)
  {
    NoRepeatsFit(w.stk, |net.sym| - 1);
  }

  lemma MarkedAll(tr1: seq<int>, net: Net, stk: seq<int>, md: int)
    requires Marked(tr1, net, stk, md)
    ensures Marked(tr1, net, stk[0..], md)
    ensures stk == [] ==> tr1 == net.t1
  {
    assert stk[0..] == stk;
  }

  /** The NFA's arrays as epsclosure uses them. */
  class NfaArrays {
    const transchar: seq<int>
    const trans1: array<int>
    const trans2: seq<int>
    const accptnum: seq<int>
    const markerDifference: int
    ghost const net: Net
    /** A consistency check failed. */
    var fatal: bool

    constructor (transchar: seq<int>, t1: seq<int>, trans2: seq<int>, accptnum: seq<int>, markerDifference: int)
      requires Regular(Net(transchar, t1, trans2), accptnum, markerDifference)
      ensures Valid() && net == Net(transchar, t1, trans2) && this.accptnum == accptnum && fresh(trans1)
    {
      this.transchar, this.trans2, this.accptnum, this.markerDifference := transchar, trans2, accptnum, markerDifference;
      net := Net(transchar, t1, trans2);
      fatal := false;
      trans1 := new int[|t1|](i requires 0 <= i < |t1| => t1[i]);
    }

    ghost predicate Shaped()
    {
      transchar == net.sym && trans2 == net.t2 && trans1.Length == |net.t1| && Regular(net, accptnum, markerDifference)
    }

    /** No state is marked. */
    ghost predicate Valid()
      reads this, trans1
    {
      !fatal && Shaped() && trans1[..] == net.t1
    }

    ghost predicate Marks(stk: seq<int>)
      reads trans1
    {
      Marked(trans1[..], net, stk, markerDifference)
    }

    /** STACK_STATE. */
    method StackState(w: Walk, state: int, ghost t: seq<int>, ghost pos: nat) returns (w1: Walk)
      requires Shaped() && Marks(w.stk) && Followed(w, net, accptnum, t, pos)
      requires HasState(net, state) && state !in w.stk && EpsFrom(net, t, state)
      modifies trans1
      ensures Marks(w1.stk) && Followed(w1, net, accptnum, t, pos) && w1.stk == w.stk + [state]
    {
      ghost var tr1 := trans1[..];
      hide Followed, EpsFrom, Regular;
      trans1[state] := trans1[state] - markerDifference;
      MarkedPush(tr1, trans1[..], net, w.stk, markerDifference, state);
      var nfaccnum := accptnum[state];
      var accset := if nfaccnum != NIL then w.accset + [nfaccnum] else w.accset;
      if nfaccnum != NIL || transchar[state] != SYM_EPSILON {
        w1 := Walk(w.stk + [state], w.t + [state], accset, w.hashval + state);
      } else {
        w1 := Walk(w.stk + [state], w.t, accset, w.hashval);
      }
      FollowedStep(w, w1, net, accptnum, t, pos, state);
    }

    /** Puts the given states on the stack, each once. */
    method Collect(t: seq<int>) returns (w: Walk)
      requires Valid() && States(net, t)
      modifies trans1
      ensures Marks(w.stk) && Followed(w, net, accptnum, t, 0)
    {
      w := Walk([], t, [], 0);
      CollectedStart(net, accptnum, t);
      assert |net.sym| == |net.t1| == |accptnum|;
      var i := 0;
      hide Collected, Regular, Followed;
      while i < |t|
        invariant 0 <= i <= |t| && Marks(w.stk) && Collected(w, net, accptnum, t, i)
      {
        var ns := t[i];
        assert ns in t;
        ghost var tr1 := trans1[..];
        MarkedTests(tr1, net, accptnum, w.stk, markerDifference, ns);
        if !(trans1[ns] < 0) {
          CollectedNew(w, net, accptnum, t, i);
          trans1[ns] := trans1[ns] - markerDifference;
          MarkedPush(tr1, trans1[..], net, w.stk, markerDifference, ns);
          var nfaccnum := accptnum[ns];
          w := Walk(w.stk + [ns], t, if nfaccnum != NIL then w.accset + [nfaccnum] else w.accset, w.hashval + ns);
        } else {
          CollectedOld(w, net, accptnum, t, i);
        }
        i := i + 1;
      }
      CollectedAll(w, net, accptnum, t);
    }

    /** Puts an epsilon successor, if there is one, on the stack unless it is there. */
    method StackSuccessor(w: Walk, tsp: int, ghost t: seq<int>, ghost pos: nat, ghost ns: int) returns (w1: Walk)
      requires Shaped() && Marks(w.stk) && Followed(w, net, accptnum, t, pos) && HasState(net, ns) && 0 <= tsp < |net.sym|
      requires EpsFrom(net, t, ns) && net.sym[ns] == SYM_EPSILON && (tsp == net.t1[ns] || tsp == net.t2[ns])
      modifies trans1
      ensures Marks(w1.stk) && Followed(w1, net, accptnum, t, pos) && w.stk <= w1.stk && (tsp != NO_TRANSITION ==> tsp in w1.stk)
    {
      w1 := w;
      hide Followed, EpsFrom, Regular;
      RegularAt(net, accptnum, markerDifference, ns);
      if tsp != NO_TRANSITION {
        MarkedTests(trans1[..], net, accptnum, w.stk, markerDifference, tsp);
        if !(trans1[tsp] < 0) {
          EpsFromStep(net, t, ns, tsp);
          w1 := StackState(w, tsp, t, pos);
        }
      }
    }

    /** Follows the transitions of the epsilon state ns. */
    method FollowEps(w: Walk, ns: int, ghost t: seq<int>, ghost pos: nat) returns (w1: Walk)
      requires Shaped() && Marks(w.stk) && Followed(w, net, accptnum, t, pos)
      requires HasState(net, ns) && ns in w.stk && EpsFrom(net, t, ns) && net.sym[ns] == SYM_EPSILON
      modifies trans1
      ensures Marks(w1.stk) && Followed(w1, net, accptnum, t, pos) && w.stk <= w1.stk && FollowedAt(net, w1.stk, ns)
    {
      hide Followed, EpsFrom, Marked, Regular;
      RegularAt(net, accptnum, markerDifference, ns);
      w1 := w;
      MarkedTests(trans1[..], net, accptnum, w.stk, markerDifference, ns);
      var tsp := trans1[ns] + markerDifference;
      if tsp != NO_TRANSITION {
        w1 := StackSuccessor(w1, tsp, t, pos, ns);
        ghost var stk1 := w1.stk;
        w1 := StackSuccessor(w1, trans2[ns], t, pos, ns);
        PrefixHas(stk1, w1.stk, net.t1[ns]);
      }
    }

    /** Follows the state at stkpos. */
    method FollowState(w: Walk, stkpos: nat, ghost t: seq<int>) returns (w1: Walk)
      requires Shaped() && Marks(w.stk) && Followed(w, net, accptnum, t, stkpos) && stkpos < |w.stk|
      modifies trans1
      ensures Marks(w1.stk) && Followed(w1, net, accptnum, t, stkpos + 1)
    {
      w1 := w;
      var ns := w.stk[stkpos];
      hide Regular, EpsFrom;
      StackFits(w, net, accptnum, t, stkpos);
      hide Followed;
      if transchar[ns] == SYM_EPSILON {
        w1 := FollowEps(w, ns, t, stkpos);
      }
      FollowedNext(w1, net, accptnum, t, stkpos);
    }

    /** Removes all marks. */
    method UnmarkAll(stk: seq<int>)
      requires !fatal && Shaped() && Marks(stk) && NoRepeats(stk) && States(net, stk)
      modifies this`fatal, trans1
      ensures Valid()
    {
      MarkedAll(trans1[..], net, stk, markerDifference);
      var stkpos := 0;
      while stkpos < |stk|
        invariant 0 <= stkpos <= |stk| && Marks(stk[stkpos..]) && !fatal
      {
        ghost var tr1 := trans1[..];
        assert stk[stkpos] in stk && stk[stkpos] in stk[stkpos..];
        MarkedTests(tr1, net, accptnum, stk[stkpos..], markerDifference, stk[stkpos]);
        MarkedPop(tr1, tr1[stk[stkpos] := tr1[stk[stkpos]] + markerDifference], net, stk, stkpos, markerDifference);
        fatal := fatal || !(trans1[stk[stkpos]] < 0);
        if trans1[stk[stkpos]] < 0 {
          trans1[stk[stkpos]] := trans1[stk[stkpos]] + markerDifference;
        }
        stkpos := stkpos + 1;
      }
      MarkedAll(trans1[..], net, stk[stkpos..], markerDifference);
    }

    /**
     The epsilon closure of t0, the accepting numbers in it, and a hash that depends on its distinct
     states only.  All marks are gone again.
     */
    method EpsClosure(t0: seq<int>) returns (t: seq<int>, accset: seq<int>, hashval: int)
      requires Valid() && States(net, t0)
      modifies this`fatal, trans1
      ensures Valid() && ClosureOf(net, accptnum, t0, t) && States(net, t)
      ensures NumbersOf(accptnum, t, accset) && 0 < |net.sym| && hashval == HashOf(t, |net.sym| - 1)
    {
      var w := Collect(t0);
      var stkpos := 0;
      hide Marked;
      StackFits(w, net, accptnum, t0, stkpos);
      hide Followed;
      while stkpos < |w.stk|
        invariant !fatal && 0 <= stkpos <= |w.stk| < |net.sym| && Marks(w.stk) && Followed(w, net, accptnum, t0, stkpos)
        decreases |net.sym| - stkpos
      {
        w := FollowState(w, stkpos, t0);
        stkpos := stkpos + 1;
        StackFits(w, net, accptnum, t0, stkpos);
      }
      StackFits(w, net, accptnum, t0, stkpos);
      UnmarkAll(w.stk);
      FollowedAll(w, net, accptnum, t0);
      t, accset, hashval := w.t, w.accset, w.hashval;
      ClosureStates(w, net, accptnum, t0, stkpos);
    }
  }

  lemma PrefixHas(stk: seq<int>, stk1: seq<int>, s: int)
    requires stk <= stk1 && s in stk
    ensures s in stk1
  {
  }

  lemma ClosureStates(w: Walk, net: Net, acc: seq<int>, t: seq<int>, pos: nat)
    requires Followed(w, net, acc, t, pos)
    ensures States(net, w.t) && 0 < |net.sym| && w.hashval == HashOf(w.t, |net.sym| - 1)
  {
  }
}
