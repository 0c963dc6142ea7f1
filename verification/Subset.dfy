/** What the lists of NFA states in DFA states stand for. */
module Subset {
  import opened Words
  import opened NfaLang
  import opened NfaOps
  import opened NfaSteps
  import opened Reach
  import opened Closure
  import opened Finite
  import opened Follow
  import opened Sorting

  /** list holds states that w leads to from s: some if there are any, and all that matter further. */
  ghost predicate Tracks(sat: Match, net: Net, acc: seq<int>, s: int, w: Word, list: seq<int>) {
    && (forall q :: q in list ==> Reached(sat, net, s, w, q))
    && (forall q :: Reached(sat, net, s, w, q) && Keep(net, acc, q) ==> q in list)
    && (list == [] ==> forall q :: !Reached(sat, net, s, w, q))
  }

  lemma TracksStart(sat: Match, net: Net, acc: seq<int>, s: int, list: seq<int>)
    requires ClosureOf(net, acc, [s], list)
    ensures Tracks(sat, net, acc, s, [], list)
  {
    forall q
      ensures Reached(sat, net, s, [], q) <==> EpsFrom(net, [s], q)
    {
      if Reached(sat, net, s, [], q) {
        assert s in [s] && Eps(net, s, q);
      }
    }
  }

  lemma TracksSorted(sat: Match, net: Net, acc: seq<int>, s: int, w: Word, list: seq<int>, d: seq<int>)
    requires Tracks(sat, net, acc, s, w, list) && SortOf(list, d)
    ensures Tracks(sat, net, acc, s, w, d)
  {
    SortKeepsMembers(list, d);
  }

  lemma ConsumerMoves(al: Alphabet, net: Net, p: int, c: int, q: int)
    requires Sized(net) && 0 < p < |net.sym| && (net.sym[p] != SYM_EPSILON ==> net.t1[p] != NO_TRANSITION)
    ensures Moves(Sat(al), net, p, c, q) <==> Consumers(al, net, c)(p) && Eps(net, net.t1[p], q)
  {
  }

  /** A state reached by w and c is reached from a target of c. */
  lemma ReachedFromTarget(al: Alphabet, net: Net, acc: seq<int>, s: int, w: Word, d: seq<int>, c: int, q: int)
    requires Tracks(Sat(al), net, acc, s, w, d) && States(net, d) && Sized(net) && |acc| == |net.sym|
    requires forall p :: 0 < p < |net.sym| && net.sym[p] != SYM_EPSILON ==> net.t1[p] != NO_TRANSITION
    requires Reached(Sat(al), net, s, w + [c], q)
    ensures EpsFrom(net, Targets(net, d, Consumers(al, net, c)), q)
  {
    var p := ReachedLast(Sat(al), net, s, w, c, q);
    assert Keep(net, acc, p);
    ConsumerMoves(al, net, p, c, q);
    TargetHas(net, d, Consumers(al, net, c), p);
  }

  lemma TargetIsReached(al: Alphabet, net: Net, acc: seq<int>, s: int, w: Word, d: seq<int>, c: int, q: int)
    requires Tracks(Sat(al), net, acc, s, w, d) && States(net, d) && Sized(net)
    requires forall p :: 0 < p < |net.sym| && net.sym[p] != SYM_EPSILON ==> net.t1[p] != NO_TRANSITION
    requires EpsFrom(net, Targets(net, d, Consumers(al, net, c)), q)
    ensures Reached(Sat(al), net, s, w + [c], q)
  {
    TargetsAre(net, d, Consumers(al, net, c));
    var t :| t in Targets(net, d, Consumers(al, net, c)) && Eps(net, t, q);
    var p :| p in d && Consumers(al, net, c)(p) && net.t1[p] == t;
    ConsumerMoves(al, net, p, c, q);
    hide Reached, Moves, Targets;
    ReachedVia(Sat(al), net, s, w, p, c, q);
  }

  lemma TracksStep(al: Alphabet, net: Net, acc: seq<int>, s: int, w: Word, d: seq<int>, c: int, list: seq<int>)
    requires Tracks(Sat(al), net, acc, s, w, d) && States(net, d) && Sized(net) && |acc| == |net.sym|
    requires forall p :: 0 < p < |net.sym| && net.sym[p] != SYM_EPSILON ==> net.t1[p] != NO_TRANSITION
    requires ClosureOf(net, acc, Targets(net, d, Consumers(al, net, c)), list)
    ensures Tracks(Sat(al), net, acc, s, w + [c], list)
  {
    forall q
      ensures Reached(Sat(al), net, s, w + [c], q) <==> EpsFrom(net, Targets(net, d, Consumers(al, net, c)), q)
    {
      if Reached(Sat(al), net, s, w + [c], q) {
        ReachedFromTarget(al, net, acc, s, w, d, c, q);
      }
      if EpsFrom(net, Targets(net, d, Consumers(al, net, c)), q) {
        TargetIsReached(al, net, acc, s, w, d, c, q);
      }
    }
    hide Reached, Targets;
  }

  /** Equal consumers give equal targets. */
  lemma {:induction false} TargetsSame(al: Alphabet, net: Net, d: seq<int>, c1: int, c2: int)
    requires States(net, d) && Sized(net) && SameConsumers(al, net, d, c1, c2)
    ensures Targets(net, d, Consumers(al, net, c1)) == Targets(net, d, Consumers(al, net, c2))
  {
    if d != [] {
      var e, s := d[..|d| - 1], d[|d| - 1];
      assert d == e + [s] && s in d && forall q :: q in e ==> q in d;
      TargetsSame(al, net, e, c1, c2);
    }
  }

  lemma TargetsSome(al: Alphabet, net: Net, d: seq<int>, c: int)
    requires States(net, d) && Sized(net)
    ensures Targets(net, d, Consumers(al, net, c)) != [] <==> Consumed(al, net, d, c)
  {
    TargetsAre(net, d, Consumers(al, net, c));
    var e := Targets(net, d, Consumers(al, net, c));
    if e != [] {
      assert e[0] in e;
      var s :| s in d && Consumers(al, net, c)(s) && net.t1[s] == e[0];
      assert Consumed(al, net, d, c);
    }
    if Consumed(al, net, d, c) {
      var s :| s in d && Consumers(al, net, c)(s);
      TargetHas(net, d, Consumers(al, net, c), s);
    }
  }

  /** What a DFA state accepts: the lowest number, or with REJECT all of them in order. */
  datatype Acceptance = Lowest(rule: int) | Every(rules: seq<int>)

  ghost predicate AcceptanceOf(acc: seq<int>, list: seq<int>, a: Acceptance) {
    match a
    case Lowest(rule) =>
      if rule == NIL then forall r :: !NumberIn(acc, list, r)
      else NumberIn(acc, list, rule) && forall r :: NumberIn(acc, list, r) ==> rule <= r
    case Every(rules) =>
      Sorted(rules) && forall r :: r in rules <==> NumberIn(acc, list, r)
  }

  /** The numbers in a DFA state's list are those of the states that the word leads to. */
  lemma NumbersTracked(sat: Match, net: Net, acc: seq<int>, s: int, w: Word, list: seq<int>, r: int)
    requires Tracks(sat, net, acc, s, w, list) && |acc| == |net.sym| && States(net, list)
    ensures NumberIn(acc, list, r) <==> r != NIL && exists q :: 0 < q < |acc| && acc[q] == r && Reached(sat, net, s, w, q)
  {
    if q :| r != NIL && 0 < q < |acc| && acc[q] == r && Reached(sat, net, s, w, q) {
      assert Keep(net, acc, q);
    }
  }

  // ---- the DFA as a whole ----

  /** The states 1.. of the DFA under construction. */
  ghost predicate Interned(net: Net, acc: seq<int>, dss: seq<seq<int>>, dhash: seq<int>, dfaacc: seq<Acceptance>) {
    && 1 <= |dss| == |dhash| == |dfaacc| && 0 < |net.sym| && DistinctLists(dss[1..])
    && forall i :: 1 <= i < |dss| ==> InternedAt(net, acc, dss[i], dhash[i], dfaacc[i])
  }

  ghost predicate InternedAt(net: Net, acc: seq<int>, d: seq<int>, hash: int, a: Acceptance)
    requires 0 < |net.sym|
  {
    Sorted(d) && Bounded(net, d) && hash == HashOf(d, |net.sym| - 1) && AcceptanceOf(acc, d, a)
  }

  /** DFA state e holds the closure of the targets of list d on class c. */
  ghost predicate LeadsTo(al: Alphabet, net: Net, acc: seq<int>, dss: seq<seq<int>>, d: seq<int>, c: int, e: int)
    requires Sized(net)
  {
    && States(net, d) && 1 <= e < |dss|
    && exists list :: ClosureOf(net, acc, Targets(net, d, Consumers(al, net, c)), list) && SortOf(list, dss[e])
  }

  /** The transition array of a DFA state. */
  ghost predicate RowOf(al: Alphabet, net: Net, acc: seq<int>, dss: seq<seq<int>>, d: seq<int>, row: seq<int>)
    requires Sized(net)
  {
    |row| == al.numecs + 1 && forall c :: 1 <= c <= al.numecs ==> EntryOf(al, net, acc, dss, d, c, row[c])
  }

  ghost predicate EntryOf(al: Alphabet, net: Net, acc: seq<int>, dss: seq<seq<int>>, d: seq<int>, c: int, e: int)
    requires Sized(net)
  {
    if e == 0 then !Consumed(al, net, d, c) else Consumed(al, net, d, c) && LeadsTo(al, net, acc, dss, d, c, e)
  }

  /** The DFA state after word w; 0 when it has jammed. */
  function Run(trans: seq<seq<int>>, d: int, w: Word): int {
    if w == [] then d
    else
      var e, c := Run(trans, d, w[..|w| - 1]), w[|w| - 1];
      if 1 <= e < |trans| && 0 <= c < |trans[e]| then trans[e][c] else 0
  }

  /** All states have been processed. */
  ghost predicate Processed(al: Alphabet, net: Net, acc: seq<int>, dss: seq<seq<int>>, trans: seq<seq<int>>, k: int)
    requires Sized(net)
  {
    && |trans| == k + 1 <= |dss| && (forall i :: 1 <= i < |dss| ==> States(net, dss[i]))
    && forall i :: 1 <= i <= k ==> RowOf(al, net, acc, dss, dss[i], trans[i])
  }

  predicate ClassWord(al: Alphabet, w: Word) {
    forall i :: 0 <= i < |w| ==> 1 <= w[i] <= al.numecs
  }

  /** The NFA is complete: every symbol state has its transition. */
  ghost predicate CompleteNet(net: Net, acc: seq<int>) {
    Sized(net) && |acc| == |net.sym| && forall p :: 0 < p < |net.sym| && net.sym[p] != SYM_EPSILON ==> net.t1[p] != NO_TRANSITION
  }

  /** DFA state e (0: none) stands for what w leads to from s. */
  ghost predicate StandsFor(al: Alphabet, net: Net, acc: seq<int>, dss: seq<seq<int>>, s: int, w: Word, e: int) {
    if e == 0 then forall q :: !Reached(Sat(al), net, s, w, q)
    else 1 <= e < |dss| && dss[e] != [] && Tracks(Sat(al), net, acc, s, w, dss[e])
  }

  lemma StandsForStep(al: Alphabet, net: Net, acc: seq<int>, dss: seq<seq<int>>, s: int, w: Word, d: int, c: int, e: int)
    requires CompleteNet(net, acc) && 1 <= d < |dss| && States(net, dss[d]) && StandsFor(al, net, acc, dss, s, w, d)
    requires EntryOf(al, net, acc, dss, dss[d], c, e)
    ensures StandsFor(al, net, acc, dss, s, w + [c], e)
  {
    hide Reached, Tracks, Consumed;
    TargetsSome(al, net, dss[d], c);
    if e == 0 {
      forall q
        ensures !Reached(Sat(al), net, s, w + [c], q)
      {
        if Reached(Sat(al), net, s, w + [c], q) {
          ReachedFromTarget(al, net, acc, s, w, dss[d], c, q);
        }
      }
    } else {
      var list :| ClosureOf(net, acc, Targets(net, dss[d], Consumers(al, net, c)), list) && SortOf(list, dss[e]);
      TracksStep(al, net, acc, s, w, dss[d], c, list);
      TracksSorted(Sat(al), net, acc, s, w + [c], list, dss[e]);
      SortKeepsMembers(list, dss[e]);
    }
  }

  lemma JammedStays(al: Alphabet, net: Net, acc: seq<int>, dss: seq<seq<int>>, s: int, w: Word, c: int)
    requires StandsFor(al, net, acc, dss, s, w, 0)
    ensures StandsFor(al, net, acc, dss, s, w + [c], 0)
  {
    forall q
      ensures !Reached(Sat(al), net, s, w + [c], q)
    {
      if Reached(Sat(al), net, s, w + [c], q) {
        var p := ReachedLast(Sat(al), net, s, w, c, q);
      }
    }
  }

  /**
   The subset construction is exact: after any word of classes, the DFA has jammed exactly if the
   word leads to no NFA state; otherwise its state lists NFA states that the word leads to,
   among them all that matter further.
   */
  lemma {:induction false} RunIsExact(al: Alphabet, net: Net, acc: seq<int>, dss: seq<seq<int>>, trans: seq<seq<int>>, s: int, d: int, w: Word)
    requires CompleteNet(net, acc) && Processed(al, net, acc, dss, trans, |dss| - 1) && 1 <= |dss|
    requires d != 0 && StandsFor(al, net, acc, dss, s, [], d) && ClassWord(al, w)
    ensures StandsFor(al, net, acc, dss, s, w, Run(trans, d, w))
    decreases |w|
  {
    if w != [] {
      var u, c := w[..|w| - 1], w[|w| - 1];
      assert w == u + [c];
      RunIsExact(al, net, acc, dss, trans, s, d, u);
      var e := Run(trans, d, u);
      hide EntryOf;
      if e == 0 {
        JammedStays(al, net, acc, dss, s, u, c);
      } else {
        assert 1 <= e < |dss|;
        assert RowOf(al, net, acc, dss, dss[e], trans[e]) && EntryOf(al, net, acc, dss, dss[e], c, trans[e][c]);
        StandsForStep(al, net, acc, dss, s, u, e, c, trans[e][c]);
      }
    }
  }

  // ---- interning ----

  lemma InternedLists(net: Net, acc: seq<int>, dss: seq<seq<int>>, dhash: seq<int>, dfaacc: seq<Acceptance>)
    requires Interned(net, acc, dss, dhash, dfaacc)
    ensures |dss| - 1 <= MaxLists(net) && forall i :: 1 <= i < |dss| ==> States(net, dss[i]) && Bounded(net, dss[i]) && Sorted(dss[i])
  {
    forall d | d in dss[1..]
      ensures Bounded(net, d)
    {
      var i :| 0 <= i < |dss| - 1 && dss[1..][i] == d;
      assert InternedAt(net, acc, dss[i + 1], dhash[i + 1], dfaacc[i + 1]);
    }
    FewLists(net, dss[1..]);
    forall i | 1 <= i < |dss|
      ensures States(net, dss[i]) && Bounded(net, dss[i]) && Sorted(dss[i])
    {
      assert InternedAt(net, acc, dss[i], dhash[i], dfaacc[i]);
    }
  }

  /** A stored list that orders sns has sns's hash and length. */
  lemma HashMeets(net: Net, acc: seq<int>, d: seq<int>, hash: int, a: Acceptance, sns: seq<int>)
    requires 0 < |net.sym| && InternedAt(net, acc, d, hash, a) && SortOf(sns, d)
    ensures hash == HashOf(sns, |net.sym| - 1) && |d| == |sns|
  {
    SortKeepsMembers(sns, d);
    HashSame(sns, d, |net.sym| - 1);
  }

  /** A new state is stored. */
  lemma InternNew(net: Net, acc: seq<int>, dss: seq<seq<int>>, dhash: seq<int>, dfaacc: seq<Acceptance>,
                  sns: seq<int>, d: seq<int>, hash: int, a: Acceptance)
    requires Interned(net, acc, dss, dhash, dfaacc) && SortOf(sns, d) && Bounded(net, sns) && hash == HashOf(sns, |net.sym| - 1)
    requires AcceptanceOf(acc, sns, a) && forall i :: 1 <= i < |dss| ==> dss[i] != d
    ensures Interned(net, acc, dss + [d], dhash + [hash], dfaacc + [a])
  {
    SortKeepsMembers(sns, d);
    HashSame(sns, d, |net.sym| - 1);
    BoundedSorted(net, sns, d);
    AcceptanceSame(acc, sns, d, a);
    var dss1, dhash1, dfaacc1 := dss + [d], dhash + [hash], dfaacc + [a];
    assert dss1[1..] == dss[1..] + [d];
    forall i | 1 <= i < |dss1|
      ensures InternedAt(net, acc, dss1[i], dhash1[i], dfaacc1[i])
    {
      if i < |dss| {
        assert InternedAt(net, acc, dss[i], dhash[i], dfaacc[i]);
      }
    }
  }

  lemma AcceptanceSame(acc: seq<int>, list: seq<int>, list1: seq<int>, a: Acceptance)
    requires AcceptanceOf(acc, list, a) && forall x :: x in list <==> x in list1
    ensures AcceptanceOf(acc, list1, a)
  {
    forall r
      ensures NumberIn(acc, list, r) <==> NumberIn(acc, list1, r)
    {
    }
  }

  // ---- growth of the DFA ----

  lemma EntryGrows(al: Alphabet, net: Net, acc: seq<int>, dss: seq<seq<int>>, dss1: seq<seq<int>>, d: seq<int>, c: int, e: int)
    requires Sized(net) && EntryOf(al, net, acc, dss, d, c, e) && dss <= dss1
    ensures EntryOf(al, net, acc, dss1, d, c, e)
  {
  }

  lemma RowGrows(al: Alphabet, net: Net, acc: seq<int>, dss: seq<seq<int>>, dss1: seq<seq<int>>, d: seq<int>, row: seq<int>)
    requires Sized(net) && RowOf(al, net, acc, dss, d, row) && dss <= dss1
    ensures RowOf(al, net, acc, dss1, d, row)
  {
    forall c | 1 <= c <= al.numecs
      ensures EntryOf(al, net, acc, dss1, d, c, row[c])
    {
      EntryGrows(al, net, acc, dss, dss1, d, c, row[c]);
    }
  }

  /** A class with the consumers of an earlier one leads where that leads. */
  lemma EntryCopied(al: Alphabet, net: Net, acc: seq<int>, dss: seq<seq<int>>, d: seq<int>, c: int, p: int, e: int)
    requires Sized(net) && States(net, d) && EntryOf(al, net, acc, dss, d, p, e) && SameConsumers(al, net, d, c, p)
    ensures EntryOf(al, net, acc, dss, d, c, e) && (Consumed(al, net, d, c) <==> Consumed(al, net, d, p))
  {
    TargetsSame(al, net, d, c, p);
    if Consumed(al, net, d, c) {
      var s :| s in d && Consumers(al, net, c)(s);
      assert Consumers(al, net, p)(s);
    }
    if Consumed(al, net, d, p) {
      var s :| s in d && Consumers(al, net, p)(s);
      assert Consumers(al, net, c)(s);
    }
  }

  /** A class whose closure has been interned as e. */
  lemma EntryMade(al: Alphabet, net: Net, acc: seq<int>, dss: seq<seq<int>>, d: seq<int>, c: int, list: seq<int>, e: int)
    requires Sized(net) && States(net, d) && Consumed(al, net, d, c) && 1 <= e < |dss|
    requires ClosureOf(net, acc, Targets(net, d, Consumers(al, net, c)), list) && SortOf(list, dss[e])
    ensures EntryOf(al, net, acc, dss, d, c, e)
  {
  }

  /** The targets of a class and their closure are states, and bounded. */
  lemma TargetStates(al: Alphabet, net: Net, acc: seq<int>, d: seq<int>, c: int)
    requires Bounded(net, d) && CompleteNet(net, acc) && Forward(net) && TargetsInNet(net)
    ensures States(net, Targets(net, d, Consumers(al, net, c)))
    ensures forall list :: States(net, list) && ClosureOf(net, acc, Targets(net, d, Consumers(al, net, c)), list) ==> Bounded(net, list)
  {
    var chosen := Consumers(al, net, c);
    TargetsBounded(net, d, chosen);
    forall list | States(net, list) && ClosureOf(net, acc, Targets(net, d, chosen), list)
      ensures Bounded(net, list)
    {
      ClosureBounded(net, acc, Targets(net, d, chosen), list);
    }
  }

  ghost predicate TargetsInNet(net: Net) {
    Sized(net) && forall s :: 0 < s < |net.sym| ==> 0 <= net.t1[s] < |net.sym|
  }

  /** The closure of one state is bounded and lists that state. */
  lemma StartClosure(net: Net, acc: seq<int>, s: int, list: seq<int>)
    requires 0 < s < |net.sym| && States(net, list) && ClosureOf(net, acc, [s], list)
    ensures Bounded(net, list) && s in list
  {
    forall q | 0 < q < |net.sym|
      ensures Count([s], q) < Pow2(if net.sym[q] != SYM_EPSILON then q else |net.sym|)
    {
      CountFirst([s], q);
      Pow2Grows(1, if net.sym[q] != SYM_EPSILON then q else |net.sym|);
    }
    ClosureBounded(net, acc, [s], list);
    assert list[0] == [s][0];
  }

}
