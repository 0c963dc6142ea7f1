/** From a specification's rules to the start states of its start conditions (`ext/flex/parse.y`, `ext/flex/dfa.c`). */
module Rules {
  import opened Words
  import opened NfaLang
  import opened NfaOps
  import opened NfaSteps
  import opened NfaMachines
  import opened Regex

  /** bol: the rule starts with '^'.  conds: the start conditions it is active in. */
  datatype Rule = Rule(pattern: Rx, bol: bool, conds: seq<int>)

  ghost function If(c: bool, A: Language): Language {
    if c then A else iset{}
  }

  /** State s is in the machine m of rule k. */
  ghost predicate Houses(n: Nfa, m: int, k: int, s: int) {
    k != NIL && Ruled(n, m, k) && n.lo[m] <= s <= n.hi[m]
  }

  ghost predicate InRule(n: Nfa, s: int) {
    exists m, k :: Houses(n, m, k, s)
  }

  /** Every symbol state is in the machine of a rule. */
  ghost predicate Housed(n: Nfa) {
    Sizes(n) && forall s :: 0 < s < |n.net.sym| && n.net.sym[s] != SYM_EPSILON ==> InRule(n, s)
  }

  /** So it has its transition. */
  lemma HousedContinues(n: Nfa)
    requires Housed(n)
    ensures Continued(n.net, 1, |n.net.sym| - 1, 0)
  {
    forall s | 1 <= s < |n.net.sym| && n.net.sym[s] != SYM_EPSILON
      ensures n.net.t1[s] != NO_TRANSITION
    {
      assert InRule(n, s);
      var m, k :| Houses(n, m, k, s);
      EscapesContinues(n.net, s, n.fin[m]);
    }
  }

  lemma HousesKept(n: Nfa, n1: Nfa, m: int, k: int, s: int)
    requires Houses(n, m, k, s) && Below(n, n1, |n.lo|)
    ensures Houses(n1, m, k, s)
  {
    hide Escapes;
    AliveAgrees(n.net, n1.net, n.lo[m], n.hi[m], n.fin[m]);
  }

  /** New states are epsilon states or in the machine of a new rule. */
  lemma HousedKept(n: Nfa, n1: Nfa, s: int)
    requires Housed(n) && Below(n, n1, |n.lo|) && 0 < s < |n.lo| && n1.net.sym[s] != SYM_EPSILON
    ensures InRule(n1, s)
  {
    assert InRule(n, s);
    var m, k :| Houses(n, m, k, s);
    HousesKept(n, n1, m, k, s);
  }

  /**
   All transitions lead to states, every symbol state is in the machine of a rule, and accepting
   numbers are 1..rules and belong to epsilon states.
   */
  ghost predicate Settled(n: Nfa, rules: int) {
    && Total(n) && Housed(n)
    && forall s :: 0 < s < |n.acc| ==> 0 <= n.acc[s] <= rules && (n.acc[s] != NIL ==> n.net.sym[s] == SYM_EPSILON)
  }

  lemma SettledBranch(n: Nfa, n1: Nfa, rules: int)
    requires Settled(n, rules) && Total(n1) && Below(n, n1, |n.lo|) && 0 <= rules
    requires |n1.lo| == |n.lo| + 1 && n1.net.sym[|n.lo|] == SYM_EPSILON && n1.acc[|n.lo|] == NIL
    ensures Settled(n1, rules)
  {
    hide Ruled;
    forall s | 0 < s < |n1.net.sym| && n1.net.sym[s] != SYM_EPSILON
      ensures InRule(n1, s)
    {
      HousedKept(n, n1, s);
    }
  }

  /** A rule's machine is appended. */
  lemma SettledRule(n: Nfa, n1: Nfa, m: int, rules: int)
    requires Settled(n, rules) && Total(n1) && Below(n, n1, |n.lo|) && 0 <= rules && Ruled(n1, m, rules + 1)
    requires n1.lo[m] == |n.lo| && n1.hi[m] == |n1.lo| - 1
    ensures Settled(n1, rules + 1)
  {
    hide Alive, Closed;
    forall s | 0 < s < |n1.net.sym| && n1.net.sym[s] != SYM_EPSILON
      ensures InRule(n1, s)
    {
      if s < |n.lo| {
        HousedKept(n, n1, s);
      } else {
        assert Houses(n1, m, rules + 1, s);
      }
    }
  }

  /** states[1..] are unnumbered epsilon states of the net. */
  ghost predicate StatesOf(n: Nfa, states: seq<int>) {
    Sizes(n) && forall c :: 1 <= c < |states| ==> 0 < states[c] < |n.lo| && n.net.sym[states[c]] == SYM_EPSILON && n.acc[states[c]] == NIL
  }

  ghost predicate Distinct(states: seq<int>) {
    forall c, d :: 1 <= c < d < |states| ==> states[c] != states[d]
  }

  /** From states1 in n1 one accepts what one did from states in n and, for the chosen conditions, what pat does. */
  ghost predicate Extended(sat: Match, n: Nfa, states: seq<int>, n1: Nfa, states1: seq<int>, conds: seq<int>, pat: int) {
    |states1| == |states| && forall c, rule :: 1 <= c < |states| && rule != NIL ==>
      Matched(sat, n1, states1[c], rule) == Matched(sat, n, states[c], rule) + If(c in conds, Matched(sat, n, pat, rule))
  }

  lemma MatchedBelow(sat: Match, n: Nfa, n1: Nfa, s: int, rule: int)
    requires Total(n) && Below(n, n1, |n.lo|) && 0 < s < |n.lo|
    ensures Matched(sat, n1, s, rule) == Matched(sat, n, s, rule)
  {
    MatchedKept(sat, n, n1, 1, |n.lo| - 1, s, rule);
  }

  lemma ExtendedStep(sat: Match, n0: Nfa, states0: seq<int>, n: Nfa, states: seq<int>, n1: Nfa, states1: seq<int>,
                     conds: seq<int>, c: int, pat: int)
    requires Total(n0) && Total(n) && Below(n0, n, |n0.lo|) && Below(n, n1, |n.lo|) && |n0.lo| <= |n.lo|
    requires StatesOf(n, states) && 0 < pat < |n0.lo| && 1 <= c < |states| && |states1| == |states|
    requires Extended(sat, n0, states0, n, states, conds, pat)
    requires forall d :: 1 <= d < |states| && d != c ==> states1[d] == states[d]
    requires forall rule :: rule != NIL ==>
      Matched(sat, n1, states1[c], rule) == Matched(sat, n, states[c], rule) + Matched(sat, n, pat, rule)
    ensures Extended(sat, n0, states0, n1, states1, conds + [c], pat)
  {
    forall d, rule | 1 <= d < |states0| && rule != NIL
      ensures Matched(sat, n1, states1[d], rule) == Matched(sat, n0, states0[d], rule) + If(d in conds + [c], Matched(sat, n0, pat, rule))
    {
      hide Matched, Below, Total;
      MatchedBelow(sat, n0, n, pat, rule);
      assert Matched(sat, n, states[d], rule) == Matched(sat, n0, states0[d], rule) + If(d in conds, Matched(sat, n0, pat, rule));
      if d != c {
        MatchedBelow(sat, n, n1, states[d], rule);
      }
    }
  }

  /** A rule is added to start condition c. */
  method BranchOne(b: NfaBuilder, states0: seq<int>, c: int, pat: int, ghost rules: nat, ghost n0: Nfa, ghost first: seq<int>, ghost conds: seq<int>)
    returns (states: seq<int>)
    requires b.Valid() && Settled(b.All(), rules) && StatesOf(b.All(), states0) && Distinct(states0)
    requires Total(n0) && 0 < pat < |n0.lo| <= b.lastnfa + 1 && 1 <= c < |states0|
    requires Below(n0, b.All(), |n0.lo|) && Extended(b.sat, n0, first, b.All(), states0, conds, pat)
    modifies b
    ensures b.Valid() && Settled(b.All(), rules) && StatesOf(b.All(), states) && Distinct(states)
    ensures old(b.lastnfa) <= b.lastnfa && |states| == |states0|
    ensures Below(n0, b.All(), |n0.lo|) && Extended(b.sat, n0, first, b.All(), states, conds + [c], pat)
  {
    hide Total, Matched, Housed, Extended;
    ghost var n := b.All();
    assert |n.lo| == b.lastnfa + 1;
    var m := b.MkBranch(states0[c], pat);
    states := states0[c := m];
    ExtendedStep(b.sat, n0, first, n, states0, b.All(), states, conds, c, pat);
    BelowTrans(n0, n, b.All(), |n0.lo|, |n.lo|, |n0.lo|);
    assert |b.All().lo| == b.lastnfa + 1;
    SettledBranch(n, b.All(), rules);
  }

  lemma NothingBranched(sat: Match, n: Nfa, states: seq<int>, pat: int)
    requires Good(n)
    ensures Below(n, n, |n.lo|) && Extended(sat, n, states, n, states, [], pat) && |n.lo| == |n.net.sym|
  {
  }

  lemma SettledHas(n: Nfa, rules: int)
    requires Settled(n, rules)
    ensures Total(n)
  {
  }

  /** A rule is added to the chosen start conditions. */
  method BranchAll(b: NfaBuilder, states0: seq<int>, conds: seq<int>, pat: int, ghost rules: nat) returns (states: seq<int>)
    requires b.Valid() && Settled(b.All(), rules) && StatesOf(b.All(), states0) && Distinct(states0) && 0 < pat <= b.lastnfa
    requires forall c :: c in conds ==> 1 <= c < |states0|
    modifies b
    ensures b.Valid() && Settled(b.All(), rules) && StatesOf(b.All(), states) && Distinct(states)
    ensures Below(old(b.All()), b.All(), old(b.lastnfa) + 1) && old(b.lastnfa) <= b.lastnfa
    ensures Extended(b.sat, old(b.All()), states0, b.All(), states, conds, pat)
  {
    ghost var n0 := b.All();
    states := states0;
    var i := 0;
    hide Total, Matched, Settled, StatesOf, Distinct, Below, Extended, Good;
    NothingBranched(b.sat, n0, states0, pat);
    SettledHas(n0, rules);
    assert conds[..0] == [];
    while i < |conds|
      invariant 0 <= i <= |conds| && b.Valid() && Settled(b.All(), rules) && StatesOf(b.All(), states) && Distinct(states)
      invariant |n0.lo| <= b.lastnfa + 1 && |states| == |states0|
      invariant Below(n0, b.All(), |n0.lo|) && Extended(b.sat, n0, states0, b.All(), states, conds[..i], pat)
    {
      assert conds[i] in conds;
      states := BranchOne(b, states, conds[i], pat, rules, n0, states0, conds[..i]);
      assert conds[..i] + [conds[i]] == conds[..i + 1];
      i := i + 1;
    }
    assert conds[..i] == conds;
  }

  predicate RuleOk(rule: Rule, lastsc: int) {
    forall c :: c in rule.conds ==> 1 <= c <= lastsc
  }

  /** What rule number k should match in start condition c. */
  ghost function Wanted(sat: Match, rules: seq<Rule>, c: int, bol: bool, k: int): Language {
    if 1 <= k <= |rules| && rules[k - 1].bol == bol && c in rules[k - 1].conds then Denotes(sat, rules[k - 1].pattern) else iset{}
  }

  /** From states[c], a word leads to a state numbered k exactly if rule k, active in c, matches it. */
  ghost predicate Serves(sat: Match, n: Nfa, states: seq<int>, rules: seq<Rule>, bol: bool) {
    forall c, k :: 1 <= c < |states| && k != NIL ==> Matched(sat, n, states[c], k) == Wanted(sat, rules, c, bol, k)
  }

  lemma ServesKept(sat: Match, n: Nfa, n1: Nfa, states: seq<int>, rules: seq<Rule>, bol: bool)
    requires Serves(sat, n, states, rules, bol) && Total(n) && StatesOf(n, states) && Below(n, n1, |n.lo|)
    ensures Serves(sat, n1, states, rules, bol) && StatesOf(n1, states)
  {
    assert Sizes(n1) && |n.lo| <= |n1.lo|;
    forall c, k | 1 <= c < |states| && k != NIL
      ensures Matched(sat, n1, states[c], k) == Wanted(sat, rules, c, bol, k)
    {
      MatchedBelow(sat, n, n1, states[c], k);
      assert Matched(sat, n, states[c], k) == Wanted(sat, rules, c, bol, k);
    }
  }

  /** The next rule is not of this kind. */
  lemma ServesOther(sat: Match, n: Nfa, states: seq<int>, rules: seq<Rule>, bol: bool, rule: Rule)
    requires Serves(sat, n, states, rules, bol) && rule.bol != bol
    ensures Serves(sat, n, states, rules + [rule], bol)
  {
    forall c, k | 1 <= c < |states| && k != NIL
      ensures Matched(sat, n, states[c], k) == Wanted(sat, rules + [rule], c, bol, k)
    {
      assert Matched(sat, n, states[c], k) == Wanted(sat, rules, c, bol, k);
    }
  }

  /** The next rule is of this kind and has been added. */
  lemma ServesNext(sat: Match, n: Nfa, states: seq<int>, n1: Nfa, states1: seq<int>, rules: seq<Rule>, rule: Rule, pat: int)
    requires Serves(sat, n, states, rules, rule.bol) && Extended(sat, n, states, n1, states1, rule.conds, pat)
    requires forall k :: k != NIL ==> Matched(sat, n, pat, k) == If(k == |rules| + 1, Denotes(sat, rule.pattern))
    ensures Serves(sat, n1, states1, rules + [rule], rule.bol)
  {
    forall c, k | 1 <= c < |states1| && k != NIL
      ensures Matched(sat, n1, states1[c], k) == Wanted(sat, rules + [rule], c, rule.bol, k)
    {
      hide Matched, Denotes;
      assert Matched(sat, n, states[c], k) == Wanted(sat, rules, c, rule.bol, k);
      assert Matched(sat, n1, states1[c], k) == Matched(sat, n, states[c], k) + If(c in rule.conds, Matched(sat, n, pat, k));
    }
  }

  /** Appending a closed range keeps all transitions leading to states. */
  lemma TotalGrows(n: Nfa, n1: Nfa, m: int)
    requires Total(n) && Below(n, n1, |n.lo|) && Sizes(n1) && 0 < m < |n1.lo|
    requires n1.lo[m] == |n.lo| && n1.hi[m] == |n1.lo| - 1 && Closed(n1.net, n1.lo[m], n1.hi[m])
    ensures Total(n1)
  {
    var d := |n1.lo| - 1;
    forall s | 1 <= s <= d
      ensures Inside(1, d, n1.net.t1[s]) && Inside(1, d, n1.net.t2[s])
    {
      if s < |n.lo| {
        assert Inside(1, |n.lo| - 1, n.net.t1[s]) && Inside(1, |n.lo| - 1, n.net.t2[s]);
      } else {
        assert Inside(|n.lo|, d, n1.net.t1[s]) && Inside(|n.lo|, d, n1.net.t2[s]);
      }
    }
  }

  /** The machine of a rule, with its number. */
  method BuildRule(b: NfaBuilder, pattern: Rx, num: int) returns (pat: int, errors: bool)
    requires b.Valid() && Settled(b.All(), num - 1) && 0 < num && Legal(pattern, b.legal)
    modifies b
    ensures b.Valid() && Settled(b.All(), num) && old(b.lastnfa) < pat <= b.lastnfa && Below(old(b.All()), b.All(), old(b.lastnfa) + 1)
    ensures forall k :: k != NIL ==> Matched(b.sat, b.All(), pat, k) == If(k == num, Denotes(b.sat, pattern))
    ensures errors <==> !WellFormed(pattern)
  {
    ghost var n := b.All();
    pat, errors := Build(b, pattern);
    ghost var n1 := b.All();
    assert n1.lo[pat] == |n.lo| <= pat;
    hide Denotes, WellFormed, Below, Total, LangOf, Matched, Closed, Unnumbered, Alive;
    b.AddAccept(pat, num);
    BelowTrans(n, n1, b.All(), |n.lo|, |n.lo|, |n.lo|);
    TotalGrows(n, b.All(), pat);
    SettledRule(n, b.All(), pat, num - 1);
    forall k | k != NIL
      ensures Matched(b.sat, b.All(), pat, k) == If(k == num, Denotes(b.sat, pattern))
    {
      MatchedByRule(b.sat, b.All(), pat, num, k);
    }
  }

  /** scset and scbol hold the start states of the start conditions 1..lastsc. */
  ghost predicate Served(sat: Match, n: Nfa, scset: seq<int>, scbol: seq<int>, rules: seq<Rule>) {
    && Settled(n, |rules|) && StatesOf(n, scset) && StatesOf(n, scbol) && Distinct(scset) && Distinct(scbol)
    && Serves(sat, n, scset, rules, false) && Serves(sat, n, scbol, rules, true)
  }

  /** A rule is parsed, numbered and added to its start conditions. */
  method AddRule(b: NfaBuilder, scset0: seq<int>, scbol0: seq<int>, ghost rules: seq<Rule>, rule: Rule, num: int)
    returns (scset: seq<int>, scbol: seq<int>, errors: bool)
    requires b.Valid() && Served(b.sat, b.All(), scset0, scbol0, rules) && num == |rules| + 1
    requires |scset0| == |scbol0| && RuleOk(rule, |scset0| - 1) && Legal(rule.pattern, b.legal)
    modifies b
    ensures b.Valid() && Served(b.sat, b.All(), scset, scbol, rules + [rule]) && |scset| == |scbol| == |scset0|
    ensures errors <==> !WellFormed(rule.pattern)
  {
    ghost var n := b.All();
    hide Serves, Total, Below, Matched, Denotes, WellFormed, Extended, Housed;
    assert |n.lo| == b.lastnfa + 1;
    var pat;
    pat, errors := BuildRule(b, rule.pattern, num);
    ghost var n1 := b.All();
    assert |n1.lo| == b.lastnfa + 1;
    ServesKept(b.sat, n, n1, scset0, rules, false);
    ServesKept(b.sat, n, n1, scbol0, rules, true);
    if rule.bol {
      scbol := BranchAll(b, scbol0, rule.conds, pat, num);
      scset := scset0;
      ServesNext(b.sat, n1, scbol0, b.All(), scbol, rules, rule, pat);
      ServesKept(b.sat, n1, b.All(), scset, rules, false);
      ServesOther(b.sat, b.All(), scset, rules, false, rule);
      assert |scbol| == |scbol0|;
    } else {
      scset := BranchAll(b, scset0, rule.conds, pat, num);
      scbol := scbol0;
      ServesNext(b.sat, n1, scset0, b.All(), scset, rules, rule, pat);
      ServesKept(b.sat, n1, b.All(), scbol, rules, true);
      ServesOther(b.sat, b.All(), scbol, rules, true, rule);
      assert |scset| == |scset0|;
    }
  }

  lemma StateServes(sat: Match, n: Nfa, n1: Nfa, states: seq<int>, bol: bool)
    requires AddState(n, n1, SYM_EPSILON) && Serves(sat, n1, states, [], bol) && 1 <= |states|
    ensures Serves(sat, n1, states + [|n.lo|], [], bol)
  {
    forall c, k | 1 <= c < |states| + 1 && k != NIL
      ensures Matched(sat, n1, (states + [|n.lo|])[c], k) == Wanted(sat, [], c, bol, k)
    {
      if c == |states| {
        MatchedByNew(sat, n, n1, k);
      } else {
        assert Matched(sat, n1, states[c], k) == Wanted(sat, [], c, bol, k);
      }
    }
  }

  /** A new epsilon state can start another condition. */
  lemma ServedGrows(sat: Match, n: Nfa, n1: Nfa, scset: seq<int>, scbol: seq<int>)
    requires Served(sat, n, scset, scbol, []) && AddState(n, n1, SYM_EPSILON) && Below(n, n1, |n.lo|)
    requires Machine(n1, |n.lo|) && n1.lo[|n.lo|] == |n.lo| == n1.hi[|n.lo|] && 1 <= |scset| && 1 <= |scbol|
    ensures Served(sat, n1, scset + [|n.lo|], scbol, [])
    ensures Served(sat, n1, scset, scbol + [|n.lo|], [])
  {
    hide Serves, Total;
    ServesKept(sat, n, n1, scset, [], false);
    ServesKept(sat, n, n1, scbol, [], true);
    TotalGrows(n, n1, |n.lo|);
    SettledBranch(n, n1, 0);
    StateServes(sat, n, n1, scset, false);
    StateServes(sat, n, n1, scbol, true);
  }

  /** A state is declared for each of the lastsc start conditions, and one for its rules with '^'. */
  method DeclareConditions(b: NfaBuilder, lastsc: nat) returns (scset: seq<int>, scbol: seq<int>)
    requires b.Valid() && b.lastnfa == 0
    modifies b
    ensures b.Valid() && |scset| == |scbol| == lastsc + 1 && Served(b.sat, b.All(), scset, scbol, [])
  {
    scset, scbol := [0], [0];
    var i := 0;
    assert Served(b.sat, b.All(), scset, scbol, []);
    hide Matched, Served, Below, LangOf;
    while i < lastsc
      invariant 0 <= i <= lastsc && b.Valid() && |scset| == |scbol| == i + 1 && Served(b.sat, b.All(), scset, scbol, [])
    {
      ghost var n := b.All();
      assert |n.lo| == b.lastnfa + 1;
      var s := b.MkState(SYM_EPSILON);
      ghost var n1 := b.All();
      ServedGrows(b.sat, n, n1, scset, scbol);
      scset := scset + [s];
      assert |n1.lo| == b.lastnfa + 1;
      var t := b.MkState(SYM_EPSILON);
      ServedGrows(b.sat, n1, b.All(), scset, scbol);
      scbol := scbol + [t];
      i := i + 1;
    }
  }

  /** The machine of a whole specification. */
  method BuildRules(b: NfaBuilder, rules: seq<Rule>, lastsc: nat) returns (scset: seq<int>, scbol: seq<int>, errors: bool)
    requires b.Valid() && b.lastnfa == 0 && forall rule :: rule in rules ==> RuleOk(rule, lastsc) && Legal(rule.pattern, b.legal)
    modifies b
    ensures b.Valid() && |scset| == |scbol| == lastsc + 1 && Served(b.sat, b.All(), scset, scbol, rules)
    ensures errors <==> exists rule :: rule in rules && !WellFormed(rule.pattern)
  {
    scset, scbol := DeclareConditions(b, lastsc);
    errors := false;
    var i := 0;
    hide Matched, Good, Served, WellFormed;
    assert rules[..0] == [];
    while i < |rules|
      invariant 0 <= i <= |rules| && b.Valid() && |scset| == |scbol| == lastsc + 1
      invariant Served(b.sat, b.All(), scset, scbol, rules[..i])
      invariant errors <==> exists j :: 0 <= j < i && !WellFormed(rules[j].pattern)
    {
      var bad;
      assert rules[i] in rules && rules[..i] + [rules[i]] == rules[..i + 1];
      scset, scbol, bad := AddRule(b, scset, scbol, rules[..i], rules[i], i + 1);
      errors := errors || bad;
      i := i + 1;
    }
    assert rules[..i] == rules;
  }

  /** What rule k should match from start state i: states 2c - 1 and 2c start condition c, even ones at the beginning of a line. */
  ghost function Active(sat: Match, rules: seq<Rule>, i: int, k: int): Language {
    if 1 <= k <= |rules| && (i % 2 == 0 || !rules[k - 1].bol) && (i + 1) / 2 in rules[k - 1].conds
    then Denotes(sat, rules[k - 1].pattern) else iset{}
  }

  /** The first NFA states of the DFA's start states 1..2 lastsc. */
  ghost predicate Started(sat: Match, n: Nfa, starts: seq<int>, rules: seq<Rule>) {
    && Settled(n, |rules|) && StatesOf(n, starts) && Distinct(starts)
    && forall i, k :: 1 <= i < |starts| && k != NIL ==> Matched(sat, n, starts[i], k) == Active(sat, rules, i, k)
  }

  lemma StartedKept(sat: Match, n: Nfa, n1: Nfa, starts: seq<int>, rules: seq<Rule>, s: int)
    requires Started(sat, n, starts, rules) && Settled(n1, |rules|) && Below(n, n1, |n.lo|) && 0 < s < |n1.lo| && 1 <= |starts|
    requires n1.net.sym[s] == SYM_EPSILON && n1.acc[s] == NIL
    requires forall k :: k != NIL ==> Matched(sat, n1, s, k) == Active(sat, rules, |starts|, k)
    requires forall i :: 1 <= i < |starts| ==> starts[i] != s
    ensures Started(sat, n1, starts + [s], rules)
  {
    forall i, k | 1 <= i < |starts| + 1 && k != NIL
      ensures Matched(sat, n1, (starts + [s])[i], k) == Active(sat, rules, i, k)
    {
      if i < |starts| {
        MatchedBelow(sat, n, n1, starts[i], k);
        assert Matched(sat, n, starts[i], k) == Active(sat, rules, i, k);
      }
    }
  }

  /** Which states starts holds: an odd one is a start condition's own, an even one was made by mkbranch since n0. */
  ghost predicate StartShape(n0: Nfa, n: Nfa, scset: seq<int>, starts: seq<int>) {
    && |n0.lo| <= |n.lo| && |starts| / 2 < |scset|
    && forall i :: 1 <= i < |starts| ==>
      if i % 2 == 1 then 0 < starts[i] < |n0.lo| && starts[i] == scset[i / 2 + 1] else |n0.lo| <= starts[i] < |n.lo|
  }

  /** ntod's first states: for each start condition one without and one with its '^' rules. */
  method StartStates(b: NfaBuilder, scset: seq<int>, scbol: seq<int>, ghost rules: seq<Rule>) returns (starts: seq<int>)
    requires b.Valid() && Served(b.sat, b.All(), scset, scbol, rules) && 1 <= |scset| == |scbol|
    modifies b
    ensures b.Valid() && Started(b.sat, b.All(), starts, rules) && |starts| == 2 * |scset| - 1
  {
    hide *;
    ghost var n0 := b.All();
    starts := [0];
    var i := 1;
    NothingStarted(b.sat, n0, scset, scbol, rules);
    while i <= 2 * (|scset| - 1)
      invariant 1 <= i <= 2 * |scset| - 1 && b.Valid() && |starts| == i
      invariant Started(b.sat, b.All(), starts, rules) && Served(b.sat, b.All(), scset, scbol, rules)
      invariant StartShape(n0, b.All(), scset, starts) && Served(b.sat, n0, scset, scbol, rules)
    {
      if i % 2 == 1 {
        OddStart(b.sat, n0, b.All(), scset, scbol, starts, rules);
        starts := starts + [scset[i / 2 + 1]];
      } else {
        starts := BranchStart(b, scset, scbol, rules, starts, n0);
      }
      i := i + 1;
    }
  }

  /** The start state for the beginning of a line. */
  method BranchStart(b: NfaBuilder, scset: seq<int>, scbol: seq<int>, ghost rules: seq<Rule>, starts0: seq<int>, ghost n0: Nfa)
    returns (starts: seq<int>)
    requires b.Valid() && Served(b.sat, b.All(), scset, scbol, rules) && Started(b.sat, b.All(), starts0, rules)
    requires StartShape(n0, b.All(), scset, starts0) && 1 <= |starts0| && |starts0| % 2 == 0 && |starts0| / 2 < |scset| == |scbol|
    modifies b
    ensures b.Valid() && Started(b.sat, b.All(), starts, rules) && Served(b.sat, b.All(), scset, scbol, rules)
    ensures StartShape(n0, b.All(), scset, starts) && |starts| == |starts0| + 1
  {
    hide Matched, Below, LangOf, Started, Serves, StartShape, Settled, Housed, Distinct;
    ghost var n := b.All();
    GoodSizes(n);
    ServedTotal(b.sat, n, scset, scbol, rules);
    var i := |starts0|;
    var m := b.MkBranch(scbol[i / 2], scset[i / 2]);
    GoodSizes(b.All());
    EvenStart(b.sat, n0, n, b.All(), scset, scbol, starts0, rules);
    starts := starts0 + [m];
  }

  lemma ServedTotal(sat: Match, n: Nfa, scset: seq<int>, scbol: seq<int>, rules: seq<Rule>)
    requires Served(sat, n, scset, scbol, rules)
    ensures Total(n) && StatesOf(n, scset) && StatesOf(n, scbol)
  {
  }

  lemma NothingStarted(sat: Match, n: Nfa, scset: seq<int>, scbol: seq<int>, rules: seq<Rule>)
    requires Served(sat, n, scset, scbol, rules) && 1 <= |scset|
    ensures Started(sat, n, [0], rules) && StartShape(n, n, scset, [0])
  {
  }

  lemma OddStart(sat: Match, n0: Nfa, n: Nfa, scset: seq<int>, scbol: seq<int>, starts: seq<int>, rules: seq<Rule>)
    requires Started(sat, n, starts, rules) && StartShape(n0, n, scset, starts) && |starts| % 2 == 1
    requires Served(sat, n, scset, scbol, rules) && Served(sat, n0, scset, scbol, rules) && |starts| / 2 + 1 < |scset|
    ensures Started(sat, n, starts + [scset[|starts| / 2 + 1]], rules)
    ensures StartShape(n0, n, scset, starts + [scset[|starts| / 2 + 1]])
  {
    var i := |starts|;
    var s := scset[i / 2 + 1];
    forall k | k != NIL
      ensures Matched(sat, n, s, k) == Active(sat, rules, i, k)
    {
      assert Matched(sat, n, scset[i / 2 + 1], k) == Wanted(sat, rules, i / 2 + 1, false, k);
    }
    StartedKept(sat, n, n, starts, rules, s);
  }

  lemma EvenStart(sat: Match, n0: Nfa, n: Nfa, n1: Nfa, scset: seq<int>, scbol: seq<int>, starts: seq<int>, rules: seq<Rule>)
    requires Started(sat, n, starts, rules) && StartShape(n0, n, scset, starts) && |starts| % 2 == 0 && 1 <= |starts|
    requires Served(sat, n, scset, scbol, rules) && |starts| / 2 < |scset| && |starts| / 2 < |scbol|
    requires Total(n1) && Below(n, n1, |n.lo|) && |n1.lo| == |n.lo| + 1 && n1.net.sym[|n.lo|] == SYM_EPSILON && n1.acc[|n.lo|] == NIL
    requires forall k :: k != NIL ==>
      Matched(sat, n1, |n.lo|, k) == Matched(sat, n, scbol[|starts| / 2], k) + Matched(sat, n, scset[|starts| / 2], k)
    ensures Started(sat, n1, starts + [|n.lo|], rules) && StartShape(n0, n1, scset, starts + [|n.lo|])
    ensures Served(sat, n1, scset, scbol, rules)
  {
    var i := |starts|;
    forall k | k != NIL
      ensures Matched(sat, n1, |n.lo|, k) == Active(sat, rules, i, k)
    {
      hide Matched, Denotes;
      assert Matched(sat, n, scset[i / 2], k) == Wanted(sat, rules, i / 2, false, k);
      assert Matched(sat, n, scbol[i / 2], k) == Wanted(sat, rules, i / 2, true, k);
    }
    SettledBranch(n, n1, |rules|);
    hide Matched, Serves, Total, Below, Housed;
    StartedKept(sat, n, n1, starts, rules, |n.lo|);
    ServesKept(sat, n, n1, scset, rules, false);
    ServesKept(sat, n, n1, scbol, rules, true);
  }
}
