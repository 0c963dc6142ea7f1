/** The builder's arrays as one value, and what its composite steps do to machines. */
module NfaSteps {
  import opened Words
  import opened NfaLang
  import opened NfaOps

  const NIL := 0

  /** transchar/trans1/trans2, firstst, lastst, finalst and accptnum. */
  datatype Nfa = Nfa(net: Net, lo: seq<int>, hi: seq<int>, fin: seq<int>, acc: seq<int>)

  ghost predicate Sizes(n: Nfa) {
    Sized(n.net) && 1 <= |n.net.sym| == |n.lo| == |n.hi| == |n.fin| == |n.acc|
  }

  /** Slots fill in order, and only epsilon states have two transitions. */
  ghost predicate Proper(net: Net) {
    Sized(net) && forall s :: 0 < s < |net.sym| ==>
      (net.t1[s] == NO_TRANSITION ==> net.t2[s] == NO_TRANSITION) && (net.sym[s] != SYM_EPSILON ==> net.t2[s] == NO_TRANSITION)
  }

  /** A transition between two symbol states leads to a later state, so cycles pass through epsilon states. */
  ghost predicate Forward(net: Net) {
    Sized(net) && forall s :: 0 < s < |net.sym| ==> ForwardAt(net, s)
  }

  ghost predicate ForwardAt(net: Net, s: int)
    requires Sized(net) && 0 < s < |net.sym|
  {
    net.sym[s] != SYM_EPSILON && 0 < net.t1[s] < |net.sym| && net.sym[net.t1[s]] != SYM_EPSILON ==> s < net.t1[s]
  }

  ghost predicate Unnumbered(n: Nfa, a: int, b: int) {
    Sizes(n) && 1 <= a && b < |n.acc| && forall s :: a <= s <= b ==> n.acc[s] == NIL
  }

  /** Every symbol state of the range, other than f, has its transition. */
  ghost predicate Continued(net: Net, a: int, b: int, f: int) {
    Sized(net) && 1 <= a && b < |net.sym| && forall s :: a <= s <= b && s != f && net.sym[s] != SYM_EPSILON ==> net.t1[s] != NO_TRANSITION
  }

  /** State m starts a machine: a closed range of states that all lead out of a final state with a free slot, no accepting numbers. */
  ghost predicate Machine(n: Nfa, m: int) {
    && Sizes(n) && 0 < m < |n.lo|
    && Part(n.net, n.lo[m], n.hi[m], m, n.fin[m])
    && Alive(n.net, n.lo[m], n.hi[m], n.fin[m])
    && Unnumbered(n, n.lo[m], n.hi[m])
  }

  ghost function Meaning(sat: Match, n: Nfa, m: int): Language
    requires Machine(n, m)
  {
    LangOf(sat, n.net, m, n.fin[m])
  }

  /** Everything about states below c is the same. */
  ghost predicate Below(n: Nfa, n1: Nfa, c: int) {
    && Sizes(n) && Sizes(n1) && c <= |n.lo| && c <= |n1.lo|
    && (1 <= c ==> Agree(n.net, n1.net, 1, c - 1))
    && forall s :: 1 <= s < c ==> n.lo[s] == n1.lo[s] && n.hi[s] == n1.hi[s] && n.fin[s] == n1.fin[s] && n.acc[s] == n1.acc[s]
  }

  lemma BelowTrans(n: Nfa, n1: Nfa, n2: Nfa, a: int, b: int, c: int)
    requires Below(n, n1, a) && Below(n1, n2, b) && c <= a && c <= b
    ensures Below(n, n2, c)
  {
  }

  /** Machines below c survive. */
  lemma BelowKeeps(sat: Match, n: Nfa, n1: Nfa, c: int, m: int)
    requires Below(n, n1, c) && Machine(n, m) && n.hi[m] < c
    ensures Machine(n1, m) && Meaning(sat, n1, m) == Meaning(sat, n, m)
    ensures n1.lo[m] == n.lo[m] && n1.hi[m] == n.hi[m] && n1.fin[m] == n.fin[m] && n1.net.sym[m] == n.net.sym[m]
  {
    AgreeKeeps(sat, n.net, n1.net, n.lo[m], n.hi[m], m, n.fin[m]);
    AliveAgrees(n.net, n1.net, n.lo[m], n.hi[m], n.fin[m]);
  }

  // ---- the three primitive steps ----

  /** mkstate(sym). */
  ghost predicate AddState(n: Nfa, n1: Nfa, sym: int) {
    var e := |n.net.sym|;
    && Sizes(n) && Grown(n.net, n1.net, sym) && n1.lo == n.lo + [e] && n1.hi == n.hi + [e]
    && n1.fin == n.fin + [e] && n1.acc == n.acc + [NIL]
  }

  /** mkxtion(f, t). */
  ghost predicate AddLink(n: Nfa, n1: Nfa, f: int, t: int) {
    Sizes(n) && Linked(n.net, n1.net, f, t) && n1.lo == n.lo && n1.hi == n.hi && n1.fin == n.fin && n1.acc == n.acc
  }

  /** link_machines(first, last). */
  ghost predicate LinkPair(n: Nfa, n1: Nfa, first: int, last: int) {
    && Sizes(n) && 0 < first < |n.lo| && 0 < last < |n.lo| && Linked(n.net, n1.net, n.fin[first], last)
    && n1.fin == n.fin[first := n.fin[last]]
    && n1.lo == n.lo[first := if n.lo[first] < n.lo[last] then n.lo[first] else n.lo[last]]
    && n1.hi == n.hi[first := if n.hi[first] < n.hi[last] then n.hi[last] else n.hi[first]]
    && n1.acc == n.acc
  }

  ghost predicate Good(n: Nfa) {
    Sizes(n) && Proper(n.net) && Forward(n.net)
  }

  lemma GoodSizes(n: Nfa)
    requires Good(n)
    ensures Sizes(n) && |n.lo| == |n.net.sym|
  {
  }

  lemma AddStateGood(n: Nfa, n1: Nfa, sym: int)
    requires Good(n) && AddState(n, n1, sym)
    ensures Good(n1) && Below(n, n1, |n.net.sym|)
  {
    forall s | 0 < s < |n1.net.sym|
      ensures ForwardAt(n1.net, s)
    {
      if s < |n.net.sym| {
        assert ForwardAt(n.net, s);
      }
    }
  }

  lemma LinkedGood(net: Net, net1: Net, f: int, t: int)
    requires Proper(net) && Forward(net) && Linked(net, net1, f, t)
    requires 0 < t < |net.sym| && net.sym[f] != SYM_EPSILON && net.sym[t] != SYM_EPSILON ==> f < t
    ensures Proper(net1) && Forward(net1)
  {
    forall s | 0 < s < |net1.sym|
      ensures ForwardAt(net1, s)
    {
      assert ForwardAt(net, s);
    }
  }

  // ---- machines ----

  /** A new state is a machine. */
  lemma NewMachine(sat: Match, n: Nfa, n1: Nfa, sym: int)
    requires AddState(n, n1, sym)
    ensures Machine(n1, |n.net.sym|) && Meaning(sat, n1, |n.net.sym|) == Single(sat, sym)
  {
    Alone(sat, n1.net, |n.net.sym|);
    EscapesSelf(n1.net, |n.net.sym|);
  }

  ghost predicate Adjacent(n: Nfa, first: int, last: int)
    requires Machine(n, first) && Machine(n, last)
  {
    n.hi[first] + 1 == n.lo[last] || n.hi[last] + 1 == n.lo[first]
  }

  /** Joining adjacent closed ranges. */
  lemma LinkedRange(net: Net, net1: Net, a: int, b: int, d: int, f: int, t: int)
    requires Closed(net, a, b) && Closed(net, b + 1, d) && a <= b + 1 <= d + 1 && Linked(net, net1, f, t) && a <= t <= d
    ensures Closed(net1, a, d)
  {
    forall s | a <= s <= d
      ensures Inside(a, d, net1.t1[s]) && Inside(a, d, net1.t2[s])
    {
      if s <= b {
        assert Inside(a, b, net.t1[s]) && Inside(a, b, net.t2[s]);
      } else {
        assert Inside(b + 1, d, net.t1[s]) && Inside(b + 1, d, net.t2[s]);
      }
    }
  }

  lemma PairMeaning(sat: Match, n: Nfa, n1: Nfa, first: int, last: int)
    requires Machine(n, first) && Machine(n, last) && Adjacent(n, first, last) && LinkPair(n, n1, first, last)
    ensures LangOf(sat, n1.net, first, n.fin[last]) == Cat(Meaning(sat, n, first), Meaning(sat, n, last))
  {
    hide LangOf, Linked, Unnumbered, Closed, FreeSlot, Cat;
    Sequence(sat, n.net, n1.net, n.lo[first], n.hi[first], first, n.fin[first],
             n.lo[last], n.hi[last], last, n.fin[last]);
  }

  /** The states of both ranges lead out of last's final state. */
  lemma PairAlive(n: Nfa, n1: Nfa, first: int, last: int)
    requires Machine(n, first) && Machine(n, last) && LinkPair(n, n1, first, last)
    ensures Alive(n1.net, n.lo[first], n.hi[first], n.fin[last]) && Alive(n1.net, n.lo[last], n.hi[last], n.fin[last])
  {
    hide Linked, Part, Unnumbered, Escapes;
    AliveKept(n.net, n1.net, n.fin[first], last, n.lo[last], n.hi[last], n.fin[last]);
    assert n.lo[last] <= last <= n.hi[last] by {
      MachineHas(n, last);
    }
    AliveOn(n.net, n1.net, n.fin[first], last, n.lo[first], n.hi[first], n.fin[last]);
  }

  lemma PairRange(n: Nfa, n1: Nfa, first: int, last: int)
    requires Machine(n, first) && Machine(n, last) && Adjacent(n, first, last) && LinkPair(n, n1, first, last)
    ensures Machine(n1, first) && n1.fin[first] == n.fin[last] && Below(n, n1, n1.lo[first])
    ensures n1.lo[first] == (if n.lo[first] < n.lo[last] then n.lo[first] else n.lo[last])
    ensures n1.hi[first] == (if n.hi[first] < n.hi[last] then n.hi[last] else n.hi[first])
  {
    hide Closed, Escapes;
    PairAlive(n, n1, first, last);
    if n.hi[first] + 1 == n.lo[last] {
      LinkedRange(n.net, n1.net, n.lo[first], n.hi[first], n.hi[last], n.fin[first], last);
    } else {
      LinkedRange(n.net, n1.net, n.lo[last], n.hi[last], n.hi[first], n.fin[first], last);
    }
  }

  /** link_machines of adjacent machines matches first's words followed by last's. */
  lemma PairJoins(sat: Match, n: Nfa, n1: Nfa, first: int, last: int)
    requires Machine(n, first) && Machine(n, last) && Adjacent(n, first, last) && LinkPair(n, n1, first, last)
    ensures Machine(n1, first) && n1.fin[first] == n.fin[last] && Below(n, n1, n1.lo[first])
    ensures n1.lo[first] == (if n.lo[first] < n.lo[last] then n.lo[first] else n.lo[last])
    ensures n1.hi[first] == (if n.hi[first] < n.hi[last] then n.hi[last] else n.hi[first])
    ensures Meaning(sat, n1, first) == Cat(Meaning(sat, n, first), Meaning(sat, n, last))
  {
    hide LinkPair, Closed, Adjacent, Unnumbered, LangOf, Cat, Below;
    PairRange(n, n1, first, last);
    PairMeaning(sat, n, n1, first, last);
  }

  // ---- mkposcl ----

  /** The final state is linked to the start. */
  lemma PlusShort(sat: Match, n: Nfa, n1: Nfa, m: int)
    requires Machine(n, m) && SuperFree(n.net, n.fin[m]) && AddLink(n, n1, n.fin[m], m)
    ensures Machine(n1, m) && Below(n, n1, n.lo[m]) && Meaning(sat, n1, m) == AtLeast(Meaning(sat, n, m), 1)
  {
    Loop(sat, n.net, n1.net, m, n.fin[m]);
    LinkedRange(n.net, n1.net, n.lo[m], n.hi[m], n.hi[m], n.fin[m], m);
    AliveKept(n.net, n1.net, n.fin[m], m, n.lo[m], n.hi[m], n.fin[m]);
  }

  lemma Commute(net: Net, netA: Net, netB: Net, netM: Net, f: int, t: int, g: int, u: int)
    requires Linked(net, netA, g, u) && Linked(netA, netB, f, t) && f != g && Linked(net, netM, f, t)
    ensures Linked(netM, netB, g, u)
  {
  }

  /** A new epsilon state e is linked to the start, the final state to e. */
  lemma PlusLong(sat: Match, n: Nfa, nA: Nfa, nB: Nfa, nC: Nfa, m: int)
    requires Machine(n, m) && n.hi[m] + 1 == |n.net.sym|
    requires AddState(n, nA, SYM_EPSILON) && AddLink(nA, nB, |n.net.sym|, m) && LinkPair(nB, nC, m, |n.net.sym|)
    ensures LangOf(sat, nC.net, m, |n.net.sym|) == AtLeast(Meaning(sat, n, m), 1)
  {
    var e := |n.net.sym|;
    var f := n.fin[m];
    assert Below(n, nA, e);
    BelowKeeps(sat, n, nA, e, m);
    NewMachine(sat, n, nA, SYM_EPSILON);
    var netM := LinkTo(nA.net, f, e);
    Sequence(sat, nA.net, netM, n.lo[m], n.hi[m], m, f, e, e, e, e);
    CatEmptyRight(Meaning(sat, n, m));
    Commute(nA.net, nB.net, nC.net, netM, f, e, e, m);
    Loop(sat, netM, nC.net, m, e);
  }

  lemma PlusLongAlive(n: Nfa, nA: Nfa, nB: Nfa, nC: Nfa, m: int)
    requires Machine(n, m) && n.hi[m] + 1 == |n.net.sym|
    requires AddState(n, nA, SYM_EPSILON) && AddLink(nA, nB, |n.net.sym|, m) && LinkPair(nB, nC, m, |n.net.sym|)
    ensures Alive(nC.net, n.lo[m], n.hi[m] + 1, |n.net.sym|)
  {
    var e, f := |n.net.sym|, n.fin[m];
    assert nB.fin[m] == f && HasState(nC.net, e);
    GrownAgrees(n.net, nA.net, SYM_EPSILON, n.lo[m], n.hi[m]);
    hide Grown, Linked, Closed, Agree, FreeSlot, Unnumbered, Escapes;
    AliveAgrees(n.net, nA.net, n.lo[m], n.hi[m], f);
    AliveKept(nA.net, nB.net, e, m, n.lo[m], n.hi[m], f);
    EscapesSelf(nC.net, e);
    AliveOn(nB.net, nC.net, f, e, n.lo[m], n.hi[m], e);
  }

  lemma PlusLongMachine(n: Nfa, nA: Nfa, nB: Nfa, nC: Nfa, m: int)
    requires Machine(n, m) && n.hi[m] + 1 == |n.net.sym|
    requires AddState(n, nA, SYM_EPSILON) && AddLink(nA, nB, |n.net.sym|, m) && LinkPair(nB, nC, m, |n.net.sym|)
    ensures Machine(nC, m) && Below(n, nC, n.lo[m])
    ensures nC.lo[m] == n.lo[m] && nC.hi[m] == |n.net.sym| && nC.fin[m] == |n.net.sym|
  {
    PlusLongAlive(n, nA, nB, nC, m);
    var e := |n.net.sym|;
    var a := n.lo[m];
    forall s | a <= s <= e
      ensures Inside(a, e, nC.net.t1[s]) && Inside(a, e, nC.net.t2[s])
    {
      if s < e {
        assert Inside(a, n.hi[m], n.net.t1[s]) && Inside(a, n.hi[m], n.net.t2[s]);
      }
    }
  }

  // ---- mkopt ----

  /** Entering a final state that has no transitions matches nothing more. */
  lemma JoinInto(sat: Match, net: Net, net1: Net, c: int, d: int, t: int, g: int, j: int)
    requires Part(net, c, d, t, g) && Linked(net, net1, g, j) && !(c <= j <= d)
    requires SuperFree(net, j) && net.t2[j] == NO_TRANSITION
    ensures LangOf(sat, net1, t, j) == LangOf(sat, net, t, g)
  {
    Alone(sat, net, j);
    Sequence(sat, net, net1, c, d, t, g, j, j, j, j);
    CatEmptyRight(LangOf(sat, net, t, g));
  }

  /** A new state e leads to m and, past it, straight to m's final state. */
  ghost predicate OptSteps(n: Nfa, nA: Nfa, nB: Nfa, nC: Nfa, m: int) {
    && Machine(n, m) && n.hi[m] + 1 == |n.net.sym| && SuperFree(n.net, n.fin[m])
    && AddState(n, nA, SYM_EPSILON) && LinkPair(nA, nB, |n.net.sym|, m) && AddLink(nB, nC, |n.net.sym|, n.fin[m])
  }

  lemma OptAlive(n: Nfa, nA: Nfa, nB: Nfa, nC: Nfa, m: int)
    requires OptSteps(n, nA, nB, nC, m)
    ensures Alive(nC.net, n.lo[m], n.hi[m] + 1, n.fin[m])
  {
    var e := |n.net.sym|;
    assert Agree(n.net, nC.net, n.lo[m], n.hi[m]) && nC.net.t1[e] == m && nC.net.sym[e] == SYM_EPSILON && HasState(nC.net, e);
    hide OptSteps, Closed, Agree, Escapes;
    AliveAgrees(n.net, nC.net, n.lo[m], n.hi[m], n.fin[m]) by { MachineIs(n, nA, nB, nC, m); }
    assert n.lo[m] <= m <= n.hi[m] && n.hi[m] + 1 == e by { MachineIs(n, nA, nB, nC, m); }
    EscapesBy(nC.net, e, m, n.fin[m]);
  }

  lemma MachineIs(n: Nfa, nA: Nfa, nB: Nfa, nC: Nfa, m: int)
    requires OptSteps(n, nA, nB, nC, m)
    ensures 1 <= n.lo[m] <= m <= n.hi[m] && n.hi[m] + 1 == |n.net.sym|
    ensures Closed(n.net, n.lo[m], n.hi[m]) && Alive(n.net, n.lo[m], n.hi[m], n.fin[m])
  {
  }

  lemma OptMachine(n: Nfa, nA: Nfa, nB: Nfa, nC: Nfa, m: int)
    requires OptSteps(n, nA, nB, nC, m)
    ensures var e := |n.net.sym|;
      && Machine(nC, e) && Below(n, nC, e) && nC.lo[e] == n.lo[m] && nC.hi[e] == e && nC.fin[e] == n.fin[m]
      && nC.net.sym[e] == SYM_EPSILON && nC.net.t1[e] == m && nC.net.t2[e] == n.fin[m]
      && SuperFree(nC.net, n.fin[m])
  {
    var e := |n.net.sym|;
    OptAlive(n, nA, nB, nC, m);
    hide Escapes;
    var a := n.lo[m];
    forall s | a <= s <= e
      ensures Inside(a, e, nC.net.t1[s]) && Inside(a, e, nC.net.t2[s])
    {
      if s < e {
        assert Inside(a, n.hi[m], n.net.t1[s]) && Inside(a, n.hi[m], n.net.t2[s]);
      }
    }
  }

  lemma OptMeaning(sat: Match, n: Nfa, nA: Nfa, nB: Nfa, nC: Nfa, m: int)
    requires OptSteps(n, nA, nB, nC, m)
    ensures Machine(nC, |n.net.sym|) && Meaning(sat, nC, |n.net.sym|) == Meaning(sat, n, m) + Empty()
  {
    var e := |n.net.sym|;
    OptMachine(n, nA, nB, nC, m);
    BelowKeeps(sat, n, nC, e, m);
    Branch(sat, nC.net, e, n.fin[m]);
    Alone(sat, nC.net, n.fin[m]);
  }

  // ---- mkor ----

  /** A new state e leads to both machines. */
  ghost predicate ForkSteps(n: Nfa, nA: Nfa, nB: Nfa, nC: Nfa, first: int, second: int) {
    && Machine(n, first) && Machine(n, second) && n.hi[first] + 1 == n.lo[second] && n.hi[second] + 1 == |n.net.sym|
    && AddState(n, nA, SYM_EPSILON) && LinkPair(nA, nB, |n.net.sym|, first) && AddLink(nB, nC, |n.net.sym|, second)
  }

  lemma ForkShape(n: Nfa, nA: Nfa, nB: Nfa, nC: Nfa, first: int, second: int)
    requires ForkSteps(n, nA, nB, nC, first, second)
    ensures var e := |n.net.sym|;
      && Below(n, nC, e) && |nC.net.sym| == e + 1
      && nC.net.sym[e] == SYM_EPSILON && nC.net.t1[e] == first && nC.net.t2[e] == second
      && nC.lo[e] == n.lo[first] && nC.hi[e] == e && nC.fin[e] == n.fin[first] && Unnumbered(nC, n.lo[first], e)
  {
  }

  /** Final state f is linked to j, which lies in the range. */
  lemma ForkRange(n: Nfa, net1: Net, first: int, second: int, e: int)
    requires Machine(n, first) && Machine(n, second) && n.hi[first] + 1 == n.lo[second] && n.hi[second] + 1 == e == |n.net.sym|
    requires Agree(n.net, net1, 1, e - 1) && e < |net1.sym| && net1.t1[e] == first && net1.t2[e] == second
    ensures Closed(net1, n.lo[first], e)
  {
    var a := n.lo[first];
    forall s | a <= s <= e
      ensures Inside(a, e, net1.t1[s]) && Inside(a, e, net1.t2[s])
    {
      if s <= n.hi[first] {
        assert Inside(a, n.hi[first], n.net.t1[s]) && Inside(a, n.hi[first], n.net.t2[s]);
      } else if s < e {
        assert Inside(n.lo[second], n.hi[second], n.net.t1[s]) && Inside(n.lo[second], n.hi[second], n.net.t2[s]);
      }
    }
  }

  /** The final state of either machine is linked to the other's, which has no transitions. */
  lemma OrInto(sat: Match, net: Net, net1: Net, e: int, c: int, d: int, t: int, g: int, a: int, b: int, s: int, j: int)
    requires Part(net, c, d, t, g) && Part(net, a, b, s, j) && (b < c || d < a) && !(a <= e <= b) && !(c <= e <= d)
    requires HasState(net, e) && net.sym[e] == SYM_EPSILON && SuperFree(net, j)
    requires (net.t1[e] == s && net.t2[e] == t) || (net.t1[e] == t && net.t2[e] == s)
    requires Linked(net, net1, g, j)
    ensures LangOf(sat, net1, e, j) == LangOf(sat, net, s, j) + LangOf(sat, net, t, g)
    ensures FreeSlot(net1, j)
  {
    JoinInto(sat, net, net1, c, d, t, g, j);
    LinkedAgrees(net, net1, g, j, a, b);
    AgreeKeeps(sat, net, net1, a, b, s, j);
    Branch(sat, net1, e, j);
  }

  /** Both final states are linked to a state j that has no transitions. */
  lemma OrBoth(sat: Match, net: Net, net1: Net, net2: Net, e: int, c: int, d: int, t: int, g: int,
               a: int, b: int, s: int, f: int, j: int)
    requires Part(net, c, d, t, g) && Part(net, a, b, s, f) && (b < c || d < a) && !(a <= e <= b) && !(c <= e <= d)
    requires HasState(net, e) && net.sym[e] == SYM_EPSILON && net.t1[e] == s && net.t2[e] == t
    requires SuperFree(net, j) && net.t2[j] == NO_TRANSITION && !(a <= j <= b) && !(c <= j <= d) && j != e
    requires Linked(net, net1, f, j) && Linked(net1, net2, g, j)
    ensures LangOf(sat, net2, e, j) == LangOf(sat, net, s, f) + LangOf(sat, net, t, g)
    ensures FreeSlot(net2, j)
  {
    var netM := LinkTo(net, g, j);
    Commute(net, net1, net2, netM, g, j, f, j);
    OrHalf(sat, net, netM, net2, a, b, s, f, g, j);
    OrHalf(sat, net, net1, net2, c, d, t, g, f, j);
    Branch(sat, net2, e, j);
  }

  lemma OrHalf(sat: Match, net: Net, net1: Net, net2: Net, a: int, b: int, s: int, f: int, g: int, j: int)
    requires Part(net, a, b, s, f) && !(a <= j <= b) && !(a <= g <= b) && g != j
    requires SuperFree(net, j) && net.t2[j] == NO_TRANSITION
    requires Linked(net, net1, g, j) && Linked(net1, net2, f, j)
    ensures LangOf(sat, net2, s, j) == LangOf(sat, net, s, f)
  {
    LinkedAgrees(net, net1, g, j, a, b);
    AgreeKeeps(sat, net, net1, a, b, s, f);
    JoinInto(sat, net1, net2, a, b, s, f, j);
  }

  /** After the fork both machines are as they were. */
  lemma ForkParts(sat: Match, n: Nfa, nA: Nfa, nB: Nfa, nC: Nfa, first: int, second: int)
    requires ForkSteps(n, nA, nB, nC, first, second)
    ensures Part(nC.net, n.lo[first], n.hi[first], first, n.fin[first])
    ensures Part(nC.net, n.lo[second], n.hi[second], second, n.fin[second])
    ensures LangOf(sat, nC.net, first, n.fin[first]) == Meaning(sat, n, first)
    ensures LangOf(sat, nC.net, second, n.fin[second]) == Meaning(sat, n, second)
    ensures Closed(nC.net, n.lo[first], |n.net.sym|)
    ensures Alive(nC.net, n.lo[first], n.hi[first], n.fin[first]) && Alive(nC.net, n.lo[second], n.hi[second], n.fin[second])
  {
    var e := |n.net.sym|;
    ForkShape(n, nA, nB, nC, first, second);
    hide LangOf, Escapes;
    BelowKeeps(sat, n, nC, e, first);
    BelowKeeps(sat, n, nC, e, second);
    ForkRange(n, nC.net, first, second, e);
  }

  lemma OrIntoMeaning(sat: Match, n: Nfa, nA: Nfa, nB: Nfa, nC: Nfa, nD: Nfa, first: int, second: int, g: int, j: int)
    requires ForkSteps(n, nA, nB, nC, first, second) && AddLink(nC, nD, g, j) && SuperFree(nC.net, j)
    requires (g == n.fin[second] && j == n.fin[first]) || (g == n.fin[first] && j == n.fin[second])
    ensures LangOf(sat, nD.net, |n.net.sym|, j) == Meaning(sat, n, first) + Meaning(sat, n, second)
    ensures FreeSlot(nD.net, j)
  {
    var e := |n.net.sym|;
    ForkShape(n, nA, nB, nC, first, second);
    ForkParts(sat, n, nA, nB, nC, first, second);
    hide Part, Linked, FreeSlot, LangOf, Meaning, Below, Unnumbered, Closed, LinkPair, Grown;
    if j == n.fin[first] {
      OrInto(sat, nC.net, nD.net, e, n.lo[second], n.hi[second], second, g, n.lo[first], n.hi[first], first, j);
    } else {
      OrInto(sat, nC.net, nD.net, e, n.lo[first], n.hi[first], first, g, n.lo[second], n.hi[second], second, j);
    }
  }

  /** One final state is linked to the other. */
  lemma OrIntoAlive(sat: Match, n: Nfa, nA: Nfa, nB: Nfa, nC: Nfa, nD: Nfa, first: int, second: int, g: int, j: int)
    requires ForkSteps(n, nA, nB, nC, first, second) && AddLink(nC, nD, g, j)
    requires (g == n.fin[second] && j == n.fin[first]) || (g == n.fin[first] && j == n.fin[second])
    ensures Alive(nD.net, n.lo[first], |n.net.sym|, j)
  {
    var e := |n.net.sym|;
    ForkShape(n, nA, nB, nC, first, second);
    ForkParts(sat, n, nA, nB, nC, first, second);
    EndsAreInside(n, nA, nB, nC, first, second);
    assert HasState(nD.net, e) && nD.net.sym[e] == SYM_EPSILON && nD.net.t1[e] == first;
    assert n.lo[first] <= first <= n.hi[first] && n.hi[first] + 1 == n.lo[second] && n.hi[second] + 1 == e && first != NO_TRANSITION;
    assert HasState(nD.net, j);
    hide ForkSteps, LangOf, Meaning, Linked, Part, Closed, Unnumbered, Below, Escapes;
    EscapesSelf(nD.net, j);
    if j == n.fin[first] {
      AliveKept(nC.net, nD.net, g, j, n.lo[first], n.hi[first], j);
      AliveOn(nC.net, nD.net, g, j, n.lo[second], n.hi[second], j);
    } else {
      AliveKept(nC.net, nD.net, g, j, n.lo[second], n.hi[second], j);
      AliveOn(nC.net, nD.net, g, j, n.lo[first], n.hi[first], j);
    }
    EscapesBy(nD.net, e, first, j);
  }

  lemma OrIntoMachine(sat: Match, n: Nfa, nA: Nfa, nB: Nfa, nC: Nfa, nD: Nfa, n1: Nfa, first: int, second: int, g: int, j: int)
    requires ForkSteps(n, nA, nB, nC, first, second) && AddLink(nC, nD, g, j) && FreeSlot(nD.net, j)
    requires (g == n.fin[second] && j == n.fin[first]) || (g == n.fin[first] && j == n.fin[second])
    requires n1 == nD.(fin := nD.fin[|n.net.sym| := j])
    ensures var e := |n.net.sym|;
      && Machine(n1, e) && n1.fin[e] == j && Below(n, n1, n.lo[first]) && n1.lo[e] == n.lo[first] && n1.hi[e] == e
  {
    var e := |n.net.sym|;
    ForkShape(n, nA, nB, nC, first, second);
    ForkParts(sat, n, nA, nB, nC, first, second);
    OrIntoAlive(sat, n, nA, nB, nC, nD, first, second, g, j);
    assert n.fin[first] < e && n.fin[second] < e;
    hide LangOf, Meaning, ForkSteps, Escapes;
    LinkedRange(nC.net, nD.net, n.lo[first], e, e, g, j) by { hide ForkSteps, Below, Unnumbered; }
    hide Closed;
  }

  /** The result of mkor's last variant: both final states are linked to a new state j. */
  ghost predicate NewEndSteps(nC: Nfa, nD: Nfa, nE: Nfa, nF: Nfa, e: int, g: int) {
    && AddState(nC, nD, SYM_EPSILON) && LinkPair(nD, nE, e, |nC.net.sym|) && AddLink(nE, nF, g, |nC.net.sym|)
  }

  lemma OrBothMeaning(sat: Match, n: Nfa, nA: Nfa, nB: Nfa, nC: Nfa, nD: Nfa, nE: Nfa, nF: Nfa, first: int, second: int)
    requires ForkSteps(n, nA, nB, nC, first, second)
    requires NewEndSteps(nC, nD, nE, nF, |n.net.sym|, n.fin[second])
    ensures LangOf(sat, nF.net, |n.net.sym|, |n.net.sym| + 1) == Meaning(sat, n, first) + Meaning(sat, n, second)
    ensures FreeSlot(nF.net, |n.net.sym| + 1)
  {
    var e := |n.net.sym|;
    ForkShape(n, nA, nB, nC, first, second);
    ForkParts(sat, n, nA, nB, nC, first, second);
    GrownAgrees(nC.net, nD.net, SYM_EPSILON, 1, e);
    hide ForkSteps, LangOf, Meaning, Below, Unnumbered, Closed;
    AgreeKeeps(sat, nC.net, nD.net, n.lo[first], n.hi[first], first, n.fin[first]);
    AgreeKeeps(sat, nC.net, nD.net, n.lo[second], n.hi[second], second, n.fin[second]);
    OrBoth(sat, nD.net, nE.net, nF.net, e, n.lo[second], n.hi[second], second, n.fin[second],
           n.lo[first], n.hi[first], first, n.fin[first], e + 1);
  }

  lemma BothClosed(sat: Match, n: Nfa, nA: Nfa, nB: Nfa, nC: Nfa, nD: Nfa, nE: Nfa, nF: Nfa, first: int, second: int)
    requires ForkSteps(n, nA, nB, nC, first, second)
    requires NewEndSteps(nC, nD, nE, nF, |n.net.sym|, n.fin[second])
    ensures Closed(nF.net, n.lo[first], |n.net.sym| + 1)
  {
    var e := |n.net.sym|;
    ForkShape(n, nA, nB, nC, first, second);
    ForkParts(sat, n, nA, nB, nC, first, second);
    EndsAreInside(n, nA, nB, nC, first, second);
    hide ForkSteps, LangOf, Closed, Unnumbered, Below, Escapes, Part;
    NewEndLinks(n, nC, nD, nE, nF, first, second);
    NewEndClosed(sat, nC, nD, nE, nF, n.lo[first], e, n.fin[first], n.fin[second]);
  }

  lemma NewEndClosed(sat: Match, nC: Nfa, nD: Nfa, nE: Nfa, nF: Nfa, a: int, e: int, f1: int, f2: int)
    requires NewEndSteps(nC, nD, nE, nF, e, f2) && |nC.net.sym| == e + 1 && 1 <= a <= e && Closed(nC.net, a, e)
    requires Linked(nD.net, nE.net, f1, e + 1) && Linked(nE.net, nF.net, f2, e + 1)
    ensures Closed(nF.net, a, e + 1)
  {
    GrownAgrees(nC.net, nD.net, SYM_EPSILON, 1, e);
    hide LangOf, Linked, AddLink, LinkPair;
    AgreeKeeps(sat, nC.net, nD.net, a, e, e, e);
    LinkedRange(nD.net, nE.net, a, e, e + 1, f1, e + 1);
    LinkedRange(nE.net, nF.net, a, e + 1, e + 1, f2, e + 1);
  }

  /** Both final states are linked to a new one. */
  lemma BothAlive(sat: Match, n: Nfa, nA: Nfa, nB: Nfa, nC: Nfa, nD: Nfa, nE: Nfa, nF: Nfa, first: int, second: int)
    requires ForkSteps(n, nA, nB, nC, first, second)
    requires NewEndSteps(nC, nD, nE, nF, |n.net.sym|, n.fin[second])
    ensures Alive(nF.net, n.lo[first], |n.net.sym| + 1, |n.net.sym| + 1)
  {
    var e := |n.net.sym|;
    ForkShape(n, nA, nB, nC, first, second);
    ForkParts(sat, n, nA, nB, nC, first, second);
    EndsAreInside(n, nA, nB, nC, first, second);
    GrownAgrees(nC.net, nD.net, SYM_EPSILON, 1, e);
    assert n.lo[first] <= first <= n.hi[first] && n.hi[first] + 1 == n.lo[second] && n.hi[second] + 1 == e && first != NO_TRANSITION;
    assert 1 <= n.lo[second] && 0 <= first < |n.fin| && 0 <= second < |n.fin|;
    hide ForkSteps, LangOf, Meaning, Closed, Unnumbered, Below, Escapes, Part;
    PartsAre(sat, n, nA, nB, nC, first, second);
    AliveAgrees(nC.net, nD.net, n.lo[first], n.hi[first], n.fin[first]);
    AliveAgrees(nC.net, nD.net, n.lo[second], n.hi[second], n.fin[second]);
    assert HasState(nF.net, e + 1) && HasState(nE.net, e + 1) && HasState(nF.net, e) && nF.net.sym[e] == SYM_EPSILON && nF.net.t1[e] == first;
    hide NewEndSteps;
    NewEndLinks(n, nC, nD, nE, nF, first, second);
    hide Linked, Alive;
    JoinedAlive(nD.net, nE.net, nF.net, n.lo[first], n.hi[first], n.fin[first], n.hi[second], n.fin[second], first);
  }

  /** Two ranges with final states f1 and f2, the fork e behind them, and the new end behind that. */
  lemma JoinedAlive(netD: Net, netE: Net, netF: Net, a: int, b: int, f1: int, c: int, f2: int, first: int)
    requires Linked(netD, netE, f1, c + 2) && Linked(netE, netF, f2, c + 2) && HasState(netE, c + 2) && HasState(netF, c + 2)
    requires a <= first <= b && Alive(netD, a, b, f1) && Alive(netD, b + 1, c, f2)
    requires HasState(netF, c + 1) && netF.sym[c + 1] == SYM_EPSILON && netF.t1[c + 1] == first && first != NO_TRANSITION
    ensures Alive(netF, a, c + 2, c + 2)
  {
    var e := c + 1;
    hide Linked, Escapes;
    EscapesSelf(netE, e + 1);
    EscapesSelf(netF, e + 1);
    AliveOn(netD, netE, f1, e + 1, a, b, e + 1);
    AliveKept(netE, netF, f2, e + 1, a, b, e + 1);
    AliveKept(netD, netE, f1, e + 1, b + 1, c, f2);
    AliveOn(netE, netF, f2, e + 1, b + 1, c, e + 1);
    EscapesBy(netF, e, first, e + 1);
  }

  lemma NewEndLinks(n: Nfa, nC: Nfa, nD: Nfa, nE: Nfa, nF: Nfa, first: int, second: int)
    requires 0 <= first < |n.fin| && 0 <= second < |n.fin|
    requires NewEndSteps(nC, nD, nE, nF, |n.net.sym|, n.fin[second]) && |nC.net.sym| == |n.net.sym| + 1
    requires |n.net.sym| < |nC.fin| && nC.fin[|n.net.sym|] == n.fin[first]
    ensures Linked(nD.net, nE.net, n.fin[first], |n.net.sym| + 1) && Linked(nE.net, nF.net, n.fin[second], |n.net.sym| + 1)
  {
  }

  lemma PartsAre(sat: Match, n: Nfa, nA: Nfa, nB: Nfa, nC: Nfa, first: int, second: int)
    requires ForkSteps(n, nA, nB, nC, first, second)
    ensures Closed(nC.net, n.lo[first], n.hi[first]) && Closed(nC.net, n.lo[second], n.hi[second])
  {
    ForkParts(sat, n, nA, nB, nC, first, second);
  }

  lemma EndsAreInside(n: Nfa, nA: Nfa, nB: Nfa, nC: Nfa, first: int, second: int)
    requires ForkSteps(n, nA, nB, nC, first, second)
    ensures 1 <= n.lo[first] <= n.fin[first] < |n.net.sym| && n.lo[first] <= n.fin[second] < |n.net.sym| && n.lo[first] <= |n.net.sym|
  {
    hide AddState, LinkPair, AddLink;
  }

  lemma BothEntries(n: Nfa, nA: Nfa, nB: Nfa, nC: Nfa, nD: Nfa, nE: Nfa, nF: Nfa, first: int, second: int)
    requires ForkSteps(n, nA, nB, nC, first, second)
    requires NewEndSteps(nC, nD, nE, nF, |n.net.sym|, n.fin[second])
    ensures var e := |n.net.sym|;
      && Sizes(nF) && e < |nF.lo| && nF.fin[e] == e + 1 && Below(n, nF, n.lo[first]) && nF.lo[e] == n.lo[first] && nF.hi[e] == e + 1
      && Unnumbered(nF, n.lo[first], e + 1)
  {
    ForkShape(n, nA, nB, nC, first, second);
    EndsAreInside(n, nA, nB, nC, first, second);
    hide Machine, ForkSteps;
  }

  lemma OrBothMachine(sat: Match, n: Nfa, nA: Nfa, nB: Nfa, nC: Nfa, nD: Nfa, nE: Nfa, nF: Nfa, first: int, second: int)
    requires ForkSteps(n, nA, nB, nC, first, second)
    requires NewEndSteps(nC, nD, nE, nF, |n.net.sym|, n.fin[second]) && FreeSlot(nF.net, |n.net.sym| + 1)
    ensures var e := |n.net.sym|;
      && Machine(nF, e) && nF.fin[e] == e + 1 && Below(n, nF, n.lo[first]) && nF.lo[e] == n.lo[first] && nF.hi[e] == e + 1
  {
    hide ForkSteps, NewEndSteps, Below, Alive, Unnumbered, Closed, FreeSlot;
    EndsAreInside(n, nA, nB, nC, first, second);
    BothClosed(sat, n, nA, nB, nC, nD, nE, nF, first, second);
    BothAlive(sat, n, nA, nB, nC, nD, nE, nF, first, second);
    BothEntries(n, nA, nB, nC, nD, nE, nF, first, second);
  }

  // ---- dupmachine ----

  /** n1 is n with a copy of state i, its transitions moved along. */
  ghost predicate Cloned(n: Nfa, n1: Nfa, i: int) {
    && Sizes(n) && 0 < i < |n.lo| && Sizes(n1)
    && var e := |n.lo|;
    && n1.net.sym == n.net.sym + [n.net.sym[i]]
    && n1.net.t1 == n.net.t1 + [Shift(n.net.t1[i], e - i)] && n1.net.t2 == n.net.t2 + [Shift(n.net.t2[i], e - i)]
    && n1.lo == n.lo + [e] && n1.hi == n.hi + [e] && n1.fin == n.fin + [e] && n1.acc == n.acc + [n.acc[i]]
  }

  /** The last state of nA, which is new, gets the transitions of state i. */
  lemma CloneNet(n: Nfa, nA: Nfa, nB: Nfa, nC: Nfa, i: int)
    requires Good(n) && 0 < i < |n.lo| && AddState(n, nA, n.net.sym[i])
    requires var e := |n.lo|; var t1 := n.net.t1[i]; var t2 := n.net.t2[i];
      && (if t1 == NO_TRANSITION then nB == nA else AddLink(nA, nB, e, t1 + e - i))
      && (if t2 == NO_TRANSITION then nC == nB else AddLink(nB, nC, e, t2 + e - i))
    ensures nC.acc == n.acc + [NIL]
    ensures Cloned(n, nC.(acc := n.acc + [n.acc[i]]), i)
  {
    var e, t1, t2 := |n.lo|, n.net.t1[i], n.net.t2[i];
    assert nB.net.t1 == n.net.t1 + [Shift(t1, e - i)] && nB.net.t2 == n.net.t2 + [NO_TRANSITION];
    assert nC.net.t1 == nB.net.t1 && nC.net.t2 == n.net.t2 + [Shift(t2, e - i)];
  }

  /** The states a..i-1 of n0 have been copied to the end. */
  ghost predicate CopiedTo(n0: Nfa, n: Nfa, a: int, i: int) {
    && Good(n0) && Good(n) && 1 <= a <= i <= |n0.lo| && |n.lo| == |n0.lo| + i - a
    && Below(n0, n, |n0.lo|) && Copied(n0.net, n.net, a, i - 1, |n0.lo| - a)
    && forall s :: a <= s < i ==> n.acc[s + (|n0.lo| - a)] == n0.acc[s]
  }

  /** The copy of state i is linked to the copies of its successors. */
  lemma CloneLinkGood(n0: Nfa, n: Nfa, nA: Nfa, nB: Nfa, a: int, b: int, i: int, t: int)
    requires CopiedTo(n0, n, a, i) && i <= b < |n0.lo| && Closed(n0.net, a, b)
    requires Good(nA) && |nA.net.sym| == |n.net.sym| + 1 && Agree(n.net, nA.net, 1, |n.net.sym| - 1)
    requires nA.net.sym[|n.net.sym|] == n0.net.sym[i]
    requires (t == n0.net.t1[i] || t == n0.net.t2[i]) && t != NO_TRANSITION
    requires AddLink(nA, nB, |n.net.sym|, t + (|n0.lo| - a))
    ensures Good(nB)
  {
    var off := |n0.lo| - a;
    assert Inside(a, b, n0.net.t1[i]) && Inside(a, b, n0.net.t2[i]);
    assert ForwardAt(n0.net, i);
    if n0.net.sym[i] != SYM_EPSILON && t < i {
      assert n.net.sym[t + off] == n0.net.sym[t];
    }
    LinkedGood(nA.net, nB.net, |n.net.sym|, t + off);
  }

  lemma CloneKeepsCopied(n0: Nfa, n: Nfa, n1: Nfa, a: int, i: int)
    requires CopiedTo(n0, n, a, i) && i < |n0.lo| && Good(n1) && Cloned(n, n1, i)
    ensures CopiedTo(n0, n1, a, i + 1)
  {
    hide Below, Copied, Proper, Forward;
    CloneBelow(n0, n, n1, a, i);
    CloneCopied(n0, n, n1, a, i);
    forall s | a <= s < i + 1
      ensures n1.acc[s + (|n0.lo| - a)] == n0.acc[s]
    {
      CloneNumber(n0, n, n1, a, i, s);
    }
  }

  lemma CloneBelow(n0: Nfa, n: Nfa, n1: Nfa, a: int, i: int)
    requires CopiedTo(n0, n, a, i) && i < |n0.lo| && Good(n1) && Cloned(n, n1, i)
    ensures Below(n0, n1, |n0.lo|)
  {
    hide Copied, Proper, Forward;
  }

  lemma CloneCopied(n0: Nfa, n: Nfa, n1: Nfa, a: int, i: int)
    requires CopiedTo(n0, n, a, i) && i < |n0.lo| && Good(n1) && Cloned(n, n1, i)
    ensures Copied(n0.net, n1.net, a, i, |n0.lo| - a)
  {
    hide Proper, Forward;
    assert |n.lo| - i == |n0.lo| - a;
  }

  lemma CloneNumber(n0: Nfa, n: Nfa, n1: Nfa, a: int, i: int, s: int)
    requires CopiedTo(n0, n, a, i) && i < |n0.lo| && Good(n1) && Cloned(n, n1, i) && a <= s <= i
    ensures s + (|n0.lo| - a) < |n1.acc| == |n0.lo| + i + 1 - a && n1.acc[s + (|n0.lo| - a)] == n0.acc[s]
  {
    hide Copied, Proper, Forward;
    assert |n.lo| - i == |n0.lo| - a;
  }

  /** The copy of a machine is a machine matching the same words. */
  lemma CopyIsMachine(sat: Match, n0: Nfa, n: Nfa, n1: Nfa, m: int)
    requires Machine(n0, m) && CopiedTo(n0, n, n0.lo[m], n0.hi[m] + 1) && n0.hi[m] < |n0.lo|
    requires var off := |n0.lo| - n0.lo[m]; var i := m + off;
      i < |n.lo| && n1 == n.(lo := n.lo[i := n0.lo[m] + off], hi := n.hi[i := n0.hi[m] + off], fin := n.fin[i := n0.fin[m] + off])
    ensures var off := |n0.lo| - n0.lo[m];
      && Machine(n1, m + off) && Meaning(sat, n1, m + off) == Meaning(sat, n0, m) && Below(n0, n1, |n0.lo|)
      && n1.net.sym[m + off] == n0.net.sym[m] && n1.lo[m + off] == |n0.lo| && n1.hi[m + off] == |n1.lo| - 1 && Good(n1)
  {
    hide CopiedTo, Copied, Part, Alive, Unnumbered, LangOf, Below, Good, Sizes;
    MachineHas(n0, m);
    var off := |n0.lo| - n0.lo[m];
    MachineParts(n0, m);
    CopiedParts(n0, n, n0.lo[m], n0.hi[m]);
    CopyMatches(sat, n0.net, n.net, n0.lo[m], n0.hi[m], off, m, n0.fin[m]);
    AliveCopied(n0.net, n.net, n0.lo[m], n0.hi[m], off, n0.fin[m]);
    CopyEntries(n0, n, n1, m);
    CopyUnnumbered(n0, n, n1, n0.lo[m], n0.hi[m]);
  }

  lemma MachineHas(n: Nfa, m: int)
    requires Machine(n, m)
    ensures 0 < m < |n.lo| == |n.hi| == |n.fin| == |n.net.sym| && 1 <= n.lo[m] <= m <= n.hi[m] < |n.lo| && Closed(n.net, n.lo[m], n.hi[m])
  {
  }

  /** A state below the copies is as it was. */
  lemma CopiedHas(n0: Nfa, n: Nfa, a: int, b: int, m: int)
    requires CopiedTo(n0, n, a, b + 1) && 0 < m < |n0.lo|
    ensures |n.lo| == |n.hi| == |n.fin| == |n.net.sym| == |n0.lo| + b + 1 - a
    ensures n.lo[m] == n0.lo[m] && n.hi[m] == n0.hi[m] && n.fin[m] == n0.fin[m] && n.net.sym[m] == n0.net.sym[m]
  {
    hide Copied, Forward, Proper;
  }

  /** The state to be copied next. */
  lemma CopiedState(n0: Nfa, n: Nfa, a: int, b: int, i: int)
    requires CopiedTo(n0, n, a, i) && i <= b < |n0.lo| && Closed(n0.net, a, b)
    ensures |n.net.sym| == |n.net.t1| == |n.net.t2| == |n.acc| == |n.lo| && 1 <= a <= i < |n.lo| && |n.lo| - i == |n0.lo| - a > 0
    ensures n.net.sym[i] == n0.net.sym[i] && n.net.t1[i] == n0.net.t1[i] && n.net.t2[i] == n0.net.t2[i]
    ensures i < |n0.net.t1| && i < |n0.net.t2| && i < |n0.net.sym| && Inside(a, b, n.net.t1[i]) && Inside(a, b, n.net.t2[i])
    ensures n.net.t1[i] == NO_TRANSITION || n.net.sym[i] != SYM_EPSILON ==> n.net.t2[i] == NO_TRANSITION
  {
    hide Copied, Forward;
  }

  lemma MachineParts(n: Nfa, m: int)
    requires Machine(n, m)
    ensures Sizes(n) && 1 <= n.lo[m] <= m <= n.hi[m] && n.lo[m] <= n.fin[m] <= n.hi[m]
  {
  }

  lemma CopiedParts(n0: Nfa, n: Nfa, a: int, b: int)
    requires CopiedTo(n0, n, a, b + 1)
    ensures Good(n) && Below(n0, n, |n0.lo|) && Copied(n0.net, n.net, a, b, |n0.lo| - a) && |n.lo| == |n0.lo| + b + 1 - a
  {
    hide Good, Below, Copied;
  }

  lemma CopyUnnumbered(n0: Nfa, n: Nfa, n1: Nfa, a: int, b: int)
    requires CopiedTo(n0, n, a, b + 1) && Unnumbered(n0, a, b) && Good(n1) && n1.acc == n.acc
    ensures Unnumbered(n1, a + (|n0.lo| - a), b + (|n0.lo| - a)) && Sizes(n1)
  {
    var off := |n0.lo| - a;
    forall s | a + off <= s <= b + off
      ensures n.acc[s] == NIL
    {
      assert n.acc[s - off + off] == n0.acc[s - off];
    }
  }

  /** The entries of the copied machine's first state. */
  lemma CopyEntries(n0: Nfa, n: Nfa, n1: Nfa, m: int)
    requires Machine(n0, m) && CopiedTo(n0, n, n0.lo[m], n0.hi[m] + 1) && n0.hi[m] < |n0.lo|
    requires var off := |n0.lo| - n0.lo[m]; var i := m + off;
      i < |n.lo| && n1 == n.(lo := n.lo[i := n0.lo[m] + off], hi := n.hi[i := n0.hi[m] + off], fin := n.fin[i := n0.fin[m] + off])
    ensures n1.net == n.net && n1.acc == n.acc && Good(n1) && Below(n0, n1, |n0.lo|)
    ensures var i := m + (|n0.lo| - n0.lo[m]); i < |n1.lo| && n1.lo[i] == |n0.lo| && n1.hi[i] == |n1.lo| - 1 && n1.net.sym[i] == n0.net.sym[m]
    ensures n1.fin[m + (|n0.lo| - n0.lo[m])] == n0.fin[m] + (|n0.lo| - n0.lo[m])
  {
    hide Unnumbered, Alive, Proper, Forward;
    var off := |n0.lo| - n0.lo[m];
    assert n.net.sym[m - off + off] == n.net.sym[m];
  }

  // ---- rules ----

  /** The machine of a rule: its final state is an epsilon state with the rule's number, the only number in it. */
  ghost predicate Ruled(n: Nfa, m: int, rule: int) {
    && Sizes(n) && 0 < m < |n.lo| && Closed(n.net, n.lo[m], n.hi[m])
    && n.lo[m] <= m <= n.hi[m] && n.lo[m] <= n.fin[m] <= n.hi[m]
    && n.net.sym[n.fin[m]] == SYM_EPSILON && Alive(n.net, n.lo[m], n.hi[m], n.fin[m])
    && forall s :: n.lo[m] <= s <= n.hi[m] ==> n.acc[s] == if s == n.fin[m] then rule else NIL
  }

  ghost predicate AcceptsBy(sat: Match, n: Nfa, s: int, rule: int, w: Word, q: int) {
    0 < q < |n.acc| && n.acc[q] == rule && Matches(sat, n.net, s, q, w)
  }

  ghost predicate Accepts(sat: Match, n: Nfa, s: int, rule: int, w: Word) {
    exists q :: AcceptsBy(sat, n, s, rule, w, q)
  }

  /** The words that lead from s to a state with the rule's number. */
  ghost function Matched(sat: Match, n: Nfa, s: int, rule: int): Language {
    iset w: Word | Accepts(sat, n, s, rule, w)
  }

  /** All transitions lead to states. */
  ghost predicate Total(n: Nfa) {
    Sizes(n) && Closed(n.net, 1, |n.net.sym| - 1)
  }

  lemma AcceptsIn(sat: Match, n: Nfa, a: int, b: int, s: int, rule: int, w: Word) returns (q: int)
    requires Closed(n.net, a, b) && a <= s <= b && Accepts(sat, n, s, rule, w)
    ensures AcceptsBy(sat, n, s, rule, w, q) && a <= q <= b
  {
    q :| AcceptsBy(sat, n, s, rule, w, q);
    var k :| Exits(sat, n.net, k, s, w, q);
    ClosedIsNotLeft(sat, n.net, a, b, k, s, w, q);
  }

  /** What a closed range accepts does not change while the range does not. */
  lemma MatchedKept(sat: Match, n: Nfa, n1: Nfa, a: int, b: int, s: int, rule: int)
    requires Closed(n.net, a, b) && Agree(n.net, n1.net, a, b) && a <= s <= b < |n.acc| && b < |n1.acc|
    requires forall q :: a <= q <= b ==> n.acc[q] == n1.acc[q]
    ensures Matched(sat, n1, s, rule) == Matched(sat, n, s, rule)
  {
    forall w: Word
      ensures Accepts(sat, n1, s, rule, w) <==> Accepts(sat, n, s, rule, w)
    {
      if Accepts(sat, n, s, rule, w) {
        var q := AcceptsIn(sat, n, a, b, s, rule, w);
        AgreeKeeps(sat, n.net, n1.net, a, b, s, q);
        assert w in LangOf(sat, n.net, s, q);
        assert AcceptsBy(sat, n1, s, rule, w, q);
      }
      if Accepts(sat, n1, s, rule, w) {
        AgreeKeeps(sat, n.net, n1.net, a, b, s, s);
        var q := AcceptsIn(sat, n1, a, b, s, rule, w);
        AgreeKeeps(sat, n.net, n1.net, a, b, s, q);
        assert w in LangOf(sat, n1.net, s, q);
        assert AcceptsBy(sat, n, s, rule, w, q);
      }
    }
  }

  /** A rule's machine accepts its words for its own number only. */
  lemma MatchedByRule(sat: Match, n: Nfa, m: int, own: int, rule: int)
    requires Ruled(n, m, own) && rule != NIL
    ensures Matched(sat, n, m, rule) == if rule == own then LangOf(sat, n.net, m, n.fin[m]) else iset{}
  {
    forall w: Word
      ensures Accepts(sat, n, m, rule, w) <==> rule == own && Matches(sat, n.net, m, n.fin[m], w)
    {
      if Accepts(sat, n, m, rule, w) {
        var q := AcceptsIn(sat, n, n.lo[m], n.hi[m], m, rule, w);
      }
      if rule == own && Matches(sat, n.net, m, n.fin[m], w) {
        assert AcceptsBy(sat, n, m, rule, w, n.fin[m]);
      }
    }
  }

  /** A number at a final epsilon state makes a machine a rule. */
  lemma NumberEnd(n: Nfa, n1: Nfa, m: int, rule: int)
    requires Machine(n, m) && n.net.sym[n.fin[m]] == SYM_EPSILON && n1 == n.(acc := n.acc[n.fin[m] := rule])
    ensures Ruled(n1, m, rule) && Below(n, n1, n.lo[m])
  {
  }

  /** A new numbered state e is appended to the machine. */
  lemma NumberNewEnd(sat: Match, n: Nfa, nA: Nfa, nB: Nfa, nC: Nfa, m: int, rule: int)
    requires Machine(n, m) && n.hi[m] + 1 == |n.lo| && AddState(n, nA, SYM_EPSILON)
    requires nB == nA.(acc := nA.acc[|n.lo| := rule]) && LinkPair(nB, nC, m, |n.lo|)
    ensures Ruled(nC, m, rule) && Below(n, nC, n.lo[m]) && nC.lo[m] == n.lo[m] && nC.hi[m] == |n.lo|
    ensures LangOf(sat, nC.net, m, nC.fin[m]) == Meaning(sat, n, m)
  {
    var e := |n.lo|;
    var n1 := nC.(acc := nA.acc);
    assert Below(n, nA, e);
    BelowKeeps(sat, n, nA, e, m);
    NewMachine(sat, n, nA, SYM_EPSILON);
    PairJoins(sat, nA, n1, m, e);
    CatEmptyRight(Meaning(sat, n, m));
    NumberEnd(n1, nC, m, rule) by { assert nC.acc == n1.acc[e := rule]; }
    BelowTrans(n, nA, n1, e, n.lo[m], n.lo[m]);
    BelowTrans(n, n1, nC, n.lo[m], n.lo[m], n.lo[m]);
  }

  /** An unnumbered state that branches to s and t accepts what they do. */
  lemma MatchedByBranch(sat: Match, n: Nfa, e: int, rule: int)
    requires Sizes(n) && HasState(n.net, e) && n.net.sym[e] == SYM_EPSILON && n.acc[e] == NIL && rule != NIL
    requires n.net.t1[e] != NO_TRANSITION && n.net.t2[e] != NO_TRANSITION
    ensures Matched(sat, n, e, rule) == Matched(sat, n, n.net.t1[e], rule) + Matched(sat, n, n.net.t2[e], rule)
  {
    var s, t := n.net.t1[e], n.net.t2[e];
    forall w: Word
      ensures Accepts(sat, n, e, rule, w) <==> Accepts(sat, n, s, rule, w) || Accepts(sat, n, t, rule, w)
    {
      forall q | 0 < q < |n.acc| && n.acc[q] == rule
        ensures AcceptsBy(sat, n, e, rule, w, q) <==> AcceptsBy(sat, n, s, rule, w, q) || AcceptsBy(sat, n, t, rule, w, q)
      {
        Branch(sat, n.net, e, q);
        assert w in LangOf(sat, n.net, e, q) <==> w in LangOf(sat, n.net, s, q) || w in LangOf(sat, n.net, t, q);
      }
    }
  }

  /** A new epsilon state accepts nothing. */
  lemma MatchedByNew(sat: Match, n: Nfa, n1: Nfa, rule: int)
    requires AddState(n, n1, SYM_EPSILON) && rule != NIL
    ensures Matched(sat, n1, |n.lo|, rule) == iset{}
  {
    NewMachine(sat, n, n1, SYM_EPSILON);
    forall w: Word
      ensures !Accepts(sat, n1, |n.lo|, rule, w)
    {
      if Accepts(sat, n1, |n.lo|, rule, w) {
        var q := AcceptsIn(sat, n1, |n.lo|, |n.lo|, |n.lo|, rule, w);
      }
    }
  }

  /** mkbranch's steps. */
  ghost predicate BranchSteps(n: Nfa, nA: Nfa, nB: Nfa, nC: Nfa, first: int, second: int) {
    AddState(n, nA, SYM_EPSILON) && AddLink(nA, nB, |n.lo|, first) && AddLink(nB, nC, |n.lo|, second)
  }

  lemma BranchResult(sat: Match, n: Nfa, nA: Nfa, nB: Nfa, nC: Nfa, first: int, second: int)
    requires BranchSteps(n, nA, nB, nC, first, second) && Total(n) && 0 < first < |n.lo| && 0 < second < |n.lo|
    ensures Total(nC) && Below(n, nC, |n.lo|)
    ensures forall rule :: rule != NIL ==>
      Matched(sat, nC, |n.lo|, rule) == Matched(sat, n, first, rule) + Matched(sat, n, second, rule)
  {
    var e := |n.lo|;
    assert Below(n, nC, e);
    forall s | 1 <= s <= e
      ensures Inside(1, e, nC.net.t1[s]) && Inside(1, e, nC.net.t2[s])
    {
      if s < e {
        assert Inside(1, e - 1, n.net.t1[s]) && Inside(1, e - 1, n.net.t2[s]);
      }
    }
    assert nC.net.t1[e] == first && nC.net.t2[e] == second && nC.net.sym[e] == SYM_EPSILON && nC.acc[e] == NIL;
    hide BranchSteps;
    forall rule | rule != NIL
      ensures Matched(sat, nC, e, rule) == Matched(sat, n, first, rule) + Matched(sat, n, second, rule)
    {
      MatchedByBranch(sat, nC, e, rule);
      MatchedKept(sat, n, nC, 1, e - 1, first, rule);
      MatchedKept(sat, n, nC, 1, e - 1, second, rule);
    }
  }
}