/** The whole way from rules to a scanner: what each stage hands to the next, and what the result means. */
module Scanner {
  import Ecs
  import opened Words
  import opened NfaLang
  import opened NfaOps
  import opened NfaSteps
  import opened NfaMachines
  import opened Regex
  import opened Rules
  import opened Reach
  import opened Closure
  import opened Finite
  import opened Follow
  import opened Sorting
  import opened Subset
  import opened Dfa
  import opened DfaRows

  /** Rule k matches w from DFA start state i. */
  ghost predicate RuleMatches(al: Alphabet, rules: seq<Rule>, i: int, k: int, w: Word) {
    w in Active(Sat(al), rules, i, k)
  }

  /** In start condition c, at the beginning of a line or not, a rule matches if it is active there and its pattern stands for w. */
  lemma RuleMatchesIs(al: Alphabet, rules: seq<Rule>, c: int, bol: bool, k: int, w: Word)
    ensures RuleMatches(al, rules, if bol then 2 * c else 2 * c - 1, k, w) <==>
      1 <= k <= |rules| && c in rules[k - 1].conds && (bol || !rules[k - 1].bol) && w in Denotes(Sat(al), rules[k - 1].pattern)
  {
  }

  /** a says which rules match w from start state i. */
  ghost predicate AcceptanceIs(al: Alphabet, rules: seq<Rule>, i: int, w: Word, a: Acceptance) {
    match a
    case Lowest(rule) =>
      if rule == NIL then forall k :: !RuleMatches(al, rules, i, k, w)
      else RuleMatches(al, rules, i, rule, w) && forall k :: RuleMatches(al, rules, i, k, w) ==> rule <= k
    case Every(ks) =>
      Sorted(ks) && forall k :: k in ks <==> RuleMatches(al, rules, i, k, w)
  }

  /** After w the DFA has either jammed, and no rule matches w, or is in a state that accepts what matches w. */
  ghost predicate Verdict(al: Alphabet, rules: seq<Rule>, trans: seq<seq<int>>, dfaacc: seq<Acceptance>, i: int, w: Word) {
    var e := Run(trans, i, w);
    if e == 0 then forall k :: !RuleMatches(al, rules, i, k, w)
    else 1 <= e < |dfaacc| && AcceptanceIs(al, rules, i, w, dfaacc[e])
  }

  /** Rule k matches w exactly if w leads to an NFA state with number k. */
  lemma MatchedIsReached(al: Alphabet, n: Nfa, starts: seq<int>, rules: seq<Rule>, i: int, k: int, w: Word)
    requires Started(Sat(al), n, starts, rules) && 1 <= i < |starts|
    ensures RuleMatches(al, rules, i, k, w) <==>
      k != NIL && exists q :: 0 < q < |n.acc| && n.acc[q] == k && Reached(Sat(al), n.net, starts[i], w, q)
  {
    var sat, s := Sat(al), starts[i];
    if k != NIL {
      assert Matched(sat, n, s, k) == Active(sat, rules, i, k);
      if Accepts(sat, n, s, k, w) {
        var q :| AcceptsBy(sat, n, s, k, w, q);
        MatchesIsReached(sat, n.net, s, q, w);
      }
      if q :| 0 < q < |n.acc| && n.acc[q] == k && Reached(sat, n.net, s, w, q) {
        MatchesIsReached(sat, n.net, s, q, w);
        assert AcceptsBy(sat, n, s, k, w, q);
      }
    }
  }

  /** The finished construction. */
  ghost predicate Constructed(al: Alphabet, n: Nfa, starts: seq<int>, rules: seq<Rule>, dss: seq<seq<int>>, dhash: seq<int>,
                              dfaacc: seq<Acceptance>, trans: seq<seq<int>>)
  {
    && Started(Sat(al), n, starts, rules) && CompleteNet(n.net, n.acc) && Interned(n.net, n.acc, dss, dhash, dfaacc)
    && Processed(al, n.net, n.acc, dss, trans, |dss| - 1)
    && forall i :: 1 <= i < |starts| ==> StartedAs(al, n.net, n.acc, dss, starts, i)
  }

  lemma VerdictJammed(al: Alphabet, n: Nfa, starts: seq<int>, rules: seq<Rule>, dss: seq<seq<int>>, i: int, w: Word)
    requires Started(Sat(al), n, starts, rules) && 1 <= i < |starts| && StandsFor(al, n.net, n.acc, dss, starts[i], w, 0)
    ensures forall k :: !RuleMatches(al, rules, i, k, w)
  {
    forall k
      ensures !RuleMatches(al, rules, i, k, w)
    {
      MatchedIsReached(al, n, starts, rules, i, k, w);
    }
  }

  lemma VerdictAccepts(al: Alphabet, n: Nfa, starts: seq<int>, rules: seq<Rule>, dss: seq<seq<int>>, i: int, w: Word, e: int, a: Acceptance)
    requires Started(Sat(al), n, starts, rules) && 1 <= i < |starts| && |n.acc| == |n.net.sym|
    requires 1 <= e < |dss| && Tracks(Sat(al), n.net, n.acc, starts[i], w, dss[e])
    requires States(n.net, dss[e]) && AcceptanceOf(n.acc, dss[e], a)
    ensures AcceptanceIs(al, rules, i, w, a)
  {
    forall k
      ensures NumberIn(n.acc, dss[e], k) <==> RuleMatches(al, rules, i, k, w)
    {
      NumbersTracked(Sat(al), n.net, n.acc, starts[i], w, dss[e], k);
      MatchedIsReached(al, n, starts, rules, i, k, w);
    }
  }

  /** The DFA of a specification gives the right verdict on every word of classes, from every start condition. */
  lemma VerdictIsExact(al: Alphabet, n: Nfa, starts: seq<int>, rules: seq<Rule>, dss: seq<seq<int>>, dhash: seq<int>,
                       dfaacc: seq<Acceptance>, trans: seq<seq<int>>, i: int, w: Word)
    requires Constructed(al, n, starts, rules, dss, dhash, dfaacc, trans) && 1 <= i < |starts| && ClassWord(al, w)
    ensures Verdict(al, rules, trans, dfaacc, i, w)
  {
    hide Started, Reached, RuleMatches, Tracks, ClassWord;
    assert StartedAs(al, n.net, n.acc, dss, starts, i);
    RunIsExact(al, n.net, n.acc, dss, trans, starts[i], i, w);
    var e := Run(trans, i, w);
    if e == 0 {
      VerdictJammed(al, n, starts, rules, dss, i, w);
    } else {
      assert InternedAt(n.net, n.acc, dss[e], dhash[e], dfaacc[e]);
      VerdictAccepts(al, n, starts, rules, dss, i, w, e, dfaacc[e]);
    }
  }

  // ---- where a scanner can go on ----

  /** Symbol sym stands for some class at all. */
  ghost predicate TakesSome(al: Alphabet, sym: int) {
    exists c :: 1 <= c <= al.numecs && Takes(al, sym, c)
  }

  /** Some rule matches v. */
  ghost predicate SomeMatch(al: Alphabet, rules: seq<Rule>, i: int, v: Word) {
    exists k :: RuleMatches(al, rules, i, k, v)
  }

  /** Some rule matches a word that begins with u. */
  ghost predicate GoesOn(al: Alphabet, rules: seq<Rule>, i: int, u: Word) {
    exists v :: ClassWord(al, v) && u <= v && SomeMatch(al, rules, i, v)
  }

  /** Some rule matches a longer word that begins with u. */
  ghost predicate GoesFurther(al: Alphabet, rules: seq<Rule>, i: int, u: Word) {
    exists v :: ClassWord(al, v) && u < v && SomeMatch(al, rules, i, v)
  }

  /** A path for some word is one for a word of classes, if all symbols stand for some. */
  lemma {:induction false} PathOfClasses(al: Alphabet, net: Net, k: nat, s: int, w: Word, f: int) returns (v: Word)
    requires Exits(AnyMatch(), net, k, s, w, f)
    requires forall q :: 0 < q < |net.sym| && net.sym[q] != SYM_EPSILON ==> TakesSome(al, net.sym[q])
    ensures Exits(Sat(al), net, k, s, v, f) && ClassWord(al, v)
    decreases k
  {
    v := [];
    if s == f && Leaves(AnyMatch(), net, s, w) {
      if net.sym[s] != SYM_EPSILON {
        var c :| 1 <= c <= al.numecs && Takes(al, net.sym[s], c);
        v := [c];
      }
    } else if net.sym[s] == SYM_EPSILON {
      var t := if net.t1[s] != NO_TRANSITION && Exits(AnyMatch(), net, k - 1, net.t1[s], w, f) then net.t1[s] else net.t2[s];
      v := PathOfClasses(al, net, k - 1, t, w, f);
    } else {
      var c :| 1 <= c <= al.numecs && Takes(al, net.sym[s], c);
      var v1 := PathOfClasses(al, net, k - 1, net.t1[s], w[1..], f);
      v := [c] + v1;
      assert v[1..] == v1;
    }
  }

  lemma {:induction false} EpsStays(net: Net, a: int, b: int, k: nat, p: int, q: int)
    requires Closed(net, a, b) && a <= p <= b && EpsWithin(net, k, p, q)
    ensures a <= q <= b
    decreases k
  {
    if p != q {
      if net.t1[p] != NO_TRANSITION && EpsWithin(net, k - 1, net.t1[p], q) {
        EpsStays(net, a, b, k - 1, net.t1[p], q);
      } else {
        EpsStays(net, a, b, k - 1, net.t2[p], q);
      }
    }
  }

  /** Any state that a word leads to leads on to a numbered state. */
  lemma ReachedGoesOn(al: Alphabet, n: Nfa, rules: int, s: int, u: Word, q: int) returns (k: int, v: Word)
    requires Settled(n, rules) && u != [] && Reached(Sat(al), n.net, s, u, q)
    requires forall x :: 0 < x < |n.net.sym| && n.net.sym[x] != SYM_EPSILON ==> TakesSome(al, n.net.sym[x])
    ensures k != NIL && ClassWord(al, v) && u + v in Matched(Sat(al), n, s, k)
  {
    var u0, c := u[..|u| - 1], u[|u| - 1];
    assert u == u0 + [c];
    var p := ReachedLast(Sat(al), n.net, s, u0, c, q);
    assert InRule(n, p);
    var m;
    m, k :| Houses(n, m, k, p);
    var j: nat :| EpsWithin(n.net, j, n.net.t1[p], q);
    assert Inside(n.lo[m], n.hi[m], n.net.t1[p]);
    EpsStays(n.net, n.lo[m], n.hi[m], j, n.net.t1[p], q);
    assert Escapes(n.net, q, n.fin[m]);
    v := EscapeOfClasses(al, n.net, q, n.fin[m]);
    var x: nat :| Exits(Sat(al), n.net, x, q, v, n.fin[m]);
    ReachedThenExits(Sat(al), n.net, s, u, q, x, v, n.fin[m]);
    assert AcceptsBy(Sat(al), n, s, k, u + v, n.fin[m]);
  }

  lemma EscapeOfClasses(al: Alphabet, net: Net, q: int, f: int) returns (v: Word)
    requires Escapes(net, q, f)
    requires forall x :: 0 < x < |net.sym| && net.sym[x] != SYM_EPSILON ==> TakesSome(al, net.sym[x])
    ensures Matches(Sat(al), net, q, f, v) && ClassWord(al, v)
  {
    var w :| Matches(AnyMatch(), net, q, f, w);
    var k: nat :| Exits(AnyMatch(), net, k, q, w, f);
    v := PathOfClasses(al, net, k, q, w, f);
  }

  /**
   If every symbol of the patterns stands for some class, a DFA that has not jammed after a word is on
   its way to a match: some rule matches a word that begins with it.
   */
  lemma RunGoesOn(al: Alphabet, n: Nfa, starts: seq<int>, rules: seq<Rule>, dss: seq<seq<int>>, dhash: seq<int>,
                  dfaacc: seq<Acceptance>, trans: seq<seq<int>>, i: int, u: Word)
    requires Constructed(al, n, starts, rules, dss, dhash, dfaacc, trans) && 1 <= i < |starts| && ClassWord(al, u) && u != []
    requires forall x :: 0 < x < |n.net.sym| && n.net.sym[x] != SYM_EPSILON ==> TakesSome(al, n.net.sym[x])
    requires Run(trans, i, u) != 0
    ensures GoesOn(al, rules, i, u)
  {
    hide Reached, Tracks, Settled, GoesOn, Matched;
    assert StartedAs(al, n.net, n.acc, dss, starts, i);
    RunIsExact(al, n.net, n.acc, dss, trans, starts[i], i, u);
    var q := SomeReached(al, n, starts, dss, i, u, Run(trans, i, u));
    var k, v := ReachedGoesOn(al, n, |rules|, starts[i], u, q);
    GoesOnBy(al, rules, i, u, v, k);
  }

  lemma GoesOnBy(al: Alphabet, rules: seq<Rule>, i: int, u: Word, v: Word, k: int)
    requires RuleMatches(al, rules, i, k, u + v) && ClassWord(al, u) && ClassWord(al, v)
    ensures GoesOn(al, rules, i, u)
  {
    assert SomeMatch(al, rules, i, u + v) && u <= u + v && ClassWord(al, u + v);
  }

  lemma SomeReached(al: Alphabet, n: Nfa, starts: seq<int>, dss: seq<seq<int>>, i: int, u: Word, e: int) returns (q: int)
    requires Sized(n.net) && 1 <= i < |starts| && e != 0 && StandsFor(al, n.net, n.acc, dss, starts[i], u, e)
    ensures Reached(Sat(al), n.net, starts[i], u, q)
  {
    q := dss[e][0];
    assert q in dss[e];
  }

  /** The ghost of a construction: the NFA with its start states, and the DFA. */
  datatype Built = Built(n: Nfa, starts: seq<int>, dss: seq<seq<int>>, dhash: seq<int>, dfaacc: seq<Acceptance>, trans: seq<seq<int>>)

  ghost predicate BuiltFrom(al: Alphabet, rules: seq<Rule>, lastsc: nat, b: Built) {
    |b.starts| == 2 * lastsc + 1 && Constructed(al, b.n, b.starts, rules, b.dss, b.dhash, b.dfaacc, b.trans)
  }

  // ---- from the NFA to the DFA ----

  /** Patterns use characters and classes of the alphabet. */
  ghost function LegalIn(al: Alphabet): int -> bool {
    sym => SymbolOk(al, sym)
  }

  ghost predicate SymbolsLegal(al: Alphabet, n: Nfa) {
    forall s :: 0 < s < |n.net.sym| ==> n.net.sym[s] == SYM_EPSILON || SymbolOk(al, n.net.sym[s])
  }

  /** They stand for some equivalence class, too. */
  ghost function LivelyIn(al: Alphabet): int -> bool {
    sym => SymbolOk(al, sym) && TakesSome(al, sym)
  }

  /** No symbol of a pattern stands for nothing at all. */
  ghost predicate Lively(al: Alphabet, rules: seq<Rule>) {
    forall rule :: rule in rules ==> Legal(rule.pattern, LivelyIn(al))
  }

  /** What the NFA's symbols are to be. */
  ghost function Permitted(al: Alphabet, rules: seq<Rule>): int -> bool {
    if Lively(al, rules) then LivelyIn(al) else LegalIn(al)
  }

  ghost predicate SymbolsLively(al: Alphabet, n: Nfa) {
    forall s :: 0 < s < |n.net.sym| && n.net.sym[s] != SYM_EPSILON ==> TakesSome(al, n.net.sym[s])
  }

  lemma PermittedIsLegal(al: Alphabet, rules: seq<Rule>, rule: Rule)
    requires rule in rules && Legal(rule.pattern, LegalIn(al))
    ensures Legal(rule.pattern, Permitted(al, rules))
  {
  }

  lemma PermittedSymbols(al: Alphabet, rules: seq<Rule>, b: NfaBuilder)
    requires b.Valid() && b.legal == Permitted(al, rules)
    ensures SymbolsLegal(al, b.All()) && (Lively(al, rules) ==> SymbolsLively(al, b.All()))
  {
    hide Lively, TakesSome, SymbolOk, Good;
    forall s | 0 < s < |b.transchar|
      ensures b.transchar[s] == SYM_EPSILON || SymbolOk(al, b.transchar[s])
      ensures Lively(al, rules) && b.transchar[s] != SYM_EPSILON ==> TakesSome(al, b.transchar[s])
    {
      assert b.IsLegal(b.transchar[s]);
    }
  }

  /** Wherever the DFA has not jammed, some rule can still match. */
  ghost predicate AllGoOn(al: Alphabet, rules: seq<Rule>, lastsc: nat, trans: seq<seq<int>>) {
    forall i, u :: 1 <= i <= 2 * lastsc && ClassWord(al, u) && u != [] && Run(trans, i, u) != 0 ==> GoesOn(al, rules, i, u)
  }

  lemma LivelyGoesOn(al: Alphabet, n: Nfa, starts: seq<int>, rules: seq<Rule>, dss: seq<seq<int>>, dhash: seq<int>,
                     dfaacc: seq<Acceptance>, trans: seq<seq<int>>, lastsc: nat)
    requires Constructed(al, n, starts, rules, dss, dhash, dfaacc, trans) && |starts| == 2 * lastsc + 1
    requires Lively(al, rules) ==> SymbolsLively(al, n)
    ensures Lively(al, rules) ==> AllGoOn(al, rules, lastsc, trans)
  {
    hide Constructed, Lively, GoesOn, TakesSome;
    if Lively(al, rules) {
      forall i, u | 1 <= i <= 2 * lastsc && ClassWord(al, u) && u != [] && Run(trans, i, u) != 0
        ensures GoesOn(al, rules, i, u)
      {
        RunGoesOn(al, n, starts, rules, dss, dhash, dfaacc, trans, i, u);
      }
    }
  }

  /** The built NFA is what the subset construction needs. */
  lemma NfaIsReady(al: Alphabet, n: Nfa, starts: seq<int>, rules: seq<Rule>)
    requires AlphabetOk(al) && Good(n) && Started(Sat(al), n, starts, rules) && SymbolsLegal(al, n)
    requires 1 <= |starts|
    ensures Ready(al, n.net, n.acc, |rules|) && Regular(n.net, n.acc, |n.net.sym| + 1) && StartsOk(n.net, n.acc, starts)
  {
    HousedContinues(n);
    forall s | 0 < s < |n.net.sym|
      ensures 0 <= n.net.t1[s] < |n.net.sym| && 0 <= n.net.t2[s] < |n.net.sym|
    {
      assert Inside(1, |n.net.sym| - 1, n.net.t1[s]) && Inside(1, |n.net.sym| - 1, n.net.t2[s]);
    }
  }

  /** Transitions lead to states other than the end-of-buffer state, which has none. */
  ghost predicate EntriesOk(trans: seq<seq<int>>, lastdfa: int, eob: int, numecs: int) {
    && |trans| == lastdfa + 1
    && forall s, c :: 1 <= s <= lastdfa && 1 <= c <= numecs && c < |trans[s]| ==>
         0 <= trans[s][c] <= lastdfa && trans[s][c] != eob && (s == eob ==> trans[s][c] == 0)
  }

  lemma EntryIsOk(al: Alphabet, net: Net, acc: seq<int>, dss: seq<seq<int>>, s: int, c: int, e: int, eob: int)
    requires Sized(net) && 1 <= s < |dss| && States(net, dss[s]) && EntryOf(al, net, acc, dss, dss[s], c, e)
    requires 1 <= eob < |dss| && dss[eob] == []
    ensures 0 <= e < |dss| && e != eob && (s == eob ==> e == 0)
  {
    if e != 0 {
      TargetsSome(al, net, dss[s], c);
      var list :| ClosureOf(net, acc, Targets(net, dss[s], Consumers(al, net, c)), list) && SortOf(list, dss[e]);
      SortKeepsMembers(list, dss[e]);
    }
  }

  lemma EntriesAreOk(al: Alphabet, net: Net, acc: seq<int>, dss: seq<seq<int>>, trans: seq<seq<int>>, eob: int)
    requires Sized(net) && 1 <= eob < |dss| && dss[eob] == [] && Processed(al, net, acc, dss, trans, |dss| - 1)
    ensures EntriesOk(trans, |dss| - 1, eob, al.numecs)
  {
    forall s, c | 1 <= s < |dss| && 1 <= c <= al.numecs && c < |trans[s]|
      ensures 0 <= trans[s][c] < |dss| && trans[s][c] != eob && (s == eob ==> trans[s][c] == 0)
    {
      assert RowOf(al, net, acc, dss, dss[s], trans[s]);
      EntryIsOk(al, net, acc, dss, s, c, trans[s][c], eob);
    }
  }

  method NewArrays(b: NfaBuilder, ghost al: Alphabet, ghost starts: seq<int>, ghost rules: seq<Rule>) returns (nfa: NfaArrays)
    requires b.Valid() && AlphabetOk(al) && Started(Sat(al), b.All(), starts, rules) && SymbolsLegal(al, b.All())
    requires 1 <= |starts|
    ensures nfa.Valid() && nfa.net == b.All().net && nfa.accptnum == b.accptnum && fresh(nfa) && fresh(nfa.trans1)
    ensures Ready(al, nfa.net, nfa.accptnum, |rules|) && StartsOk(nfa.net, nfa.accptnum, starts)
  {
    NfaIsReady(al, b.All(), starts, rules);
    nfa := new NfaArrays(b.transchar, b.trans1, b.trans2, b.accptnum, |b.transchar| + 1);
  }

  /** The NFA of a specification, with the start states of its conditions. */
  method BuildNfa(rules: seq<Rule>, lastsc: nat, ghost al: Alphabet) returns (b: NfaBuilder, starts: seq<int>, errors: bool)
    requires AlphabetOk(al) && forall rule :: rule in rules ==> RuleOk(rule, lastsc) && Legal(rule.pattern, LegalIn(al))
    ensures errors <==> exists rule :: rule in rules && !WellFormed(rule.pattern)
    ensures b.Valid() && Started(Sat(al), b.All(), starts, rules) && |starts| == 2 * lastsc + 1
    ensures SymbolsLegal(al, b.All()) && (Lively(al, rules) ==> SymbolsLively(al, b.All()))
  {
    hide Serves, Settled, Good, Legal, WellFormed, Permitted, Lively, SymbolsLively, SymbolsLegal, AlphabetOk;
    b := new NfaBuilder(Sat(al), Permitted(al, rules));
    forall rule | rule in rules
      ensures Legal(rule.pattern, b.legal)
    {
      PermittedIsLegal(al, rules, rule);
    }
    var scset, scbol;
    scset, scbol, errors := BuildRules(b, rules, lastsc);
    starts := StartStates(b, scset, scbol, rules);
    PermittedSymbols(al, rules, b);
  }

  /** The verdict on all words, from all start states. */
  ghost predicate AllVerdicts(al: Alphabet, rules: seq<Rule>, lastsc: nat, trans: seq<seq<int>>, dfaacc: seq<Acceptance>) {
    forall i, w :: 1 <= i <= 2 * lastsc && ClassWord(al, w) ==> Verdict(al, rules, trans, dfaacc, i, w)
  }

  lemma VerdictsAreExact(al: Alphabet, n: Nfa, starts: seq<int>, rules: seq<Rule>, dss: seq<seq<int>>, dhash: seq<int>,
                         dfaacc: seq<Acceptance>, trans: seq<seq<int>>, lastsc: nat)
    requires Constructed(al, n, starts, rules, dss, dhash, dfaacc, trans) && |starts| == 2 * lastsc + 1
    ensures AllVerdicts(al, rules, lastsc, trans, dfaacc)
  {
    hide Constructed, Verdict;
    forall i, w | 1 <= i <= 2 * lastsc && ClassWord(al, w)
      ensures Verdict(al, rules, trans, dfaacc, i, w)
    {
      VerdictIsExact(al, n, starts, rules, dss, dhash, dfaacc, trans, i, w);
    }
  }

  /**
   From the rules of a specification to its DFA.  States 2c - 1 and 2c start condition c, the second
   one at the beginning of a line.  The DFA gives the right verdict on every word of classes; and if
   every symbol stands for some class, it jams as soon as no rule can match any more.
   */
  method BuildDfa(rules: seq<Rule>, lastsc: nat, al: Alphabet, csize: nat, reject: bool)
    returns (d: DfaStates, eob: int, useNul: bool, trans: seq<seq<int>>, rows: seq<DfaRow>, nultrans: seq<int>, errors: bool, ghost built: Built)
    requires AlphabetOk(al) && NulOk(al, csize)
    requires forall rule :: rule in rules ==> RuleOk(rule, lastsc) && Legal(rule.pattern, LegalIn(al))
    ensures errors <==> exists rule :: rule in rules && !WellFormed(rule.pattern)
    ensures d.Valid() && d.reject == reject && AllPassed(al, useNul, trans, rows, nultrans) && |rows| == d.lastdfa
    ensures useNul == (al.numecs == csize) && eob == 2 * lastsc + 1 <= d.lastdfa
    ensures EntriesOk(trans, d.lastdfa, eob, al.numecs)
    ensures BuiltFrom(al, rules, lastsc, built) && built.dfaacc == d.dfaacc && built.trans == trans
    ensures AllVerdicts(al, rules, lastsc, trans, d.dfaacc) && (Lively(al, rules) ==> AllGoOn(al, rules, lastsc, trans))
  {
    hide Serves, Settled, Good, RowOf, Legal, WellFormed, StartsOk, StandsFor, Lively, SymbolsLively, SymbolsLegal, AllGoOn, AllVerdicts, RuleOk;
    var b, starts;
    b, starts, errors := BuildNfa(rules, lastsc, al);
    ghost var n := b.All();
    var nfa := NewArrays(b, al, starts, rules);
    d := new DfaStates(nfa, |rules|, reject);
    eob, useNul, trans, rows, nultrans := Ntod(d, al, starts, csize);
    built := Built(n, starts, d.dss, d.dhash, d.dfaacc, trans);
    EntriesAreOk(al, d.nfa.net, d.nfa.accptnum, d.dss, trans, eob);
    VerdictsAreExact(al, n, starts, rules, d.dss, d.dhash, d.dfaacc, trans, lastsc);
    LivelyGoesOn(al, n, starts, rules, d.dss, d.dhash, d.dfaacc, trans, lastsc);
  }
}
