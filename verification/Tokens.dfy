/** The generated scanner: compressed tables, accepting lists, and the tokens it chooses. */
module Tokens {
  import Ecs
  import NfaLang
  import NfaOps
  import opened Words
  import opened NxtChk
  import opened Lookup
  import opened Regex
  import opened Rules
  import opened Follow
  import opened Sorting
  import opened Subset
  import opened Dfa
  import opened DfaRows
  import MkEntry
  import GenTabs
  import opened MatchLoop
  import opened Scanner
  import opened Alphabets

  /** The accepting lists. */
  function SetsOf(dfaacc: seq<Acceptance>): (r: seq<seq<int>>)
    ensures |r| == |dfaacc|
    ensures forall i :: 0 <= i < |dfaacc| && dfaacc[i].Every? ==> r[i] == dfaacc[i].rules
  {
    seq(|dfaacc|, i requires 0 <= i < |dfaacc| => if dfaacc[i].Every? then dfaacc[i].rules else [])
  }

  /** What the compressed tables and the NUL table together hold of the DFA. */
  ghost predicate Holds(al: Alphabet, trans: seq<seq<int>>, s: Scan, k: Known) {
    && ScanTables(s, k) && s.g.numecs == al.numecs && s.nul == al.nul && |trans| == s.g.lastdfa + 1
    && (forall e :: 1 <= e <= s.g.lastdfa ==> e in k.full)
    && forall e :: 1 <= e <= s.g.lastdfa ==> SameEntries(al, trans[e], k.full[e])
  }

  predicate SameEntries(al: Alphabet, tr: seq<int>, row: Row) {
    |tr| == |row| == al.numecs + 1 && forall c :: 1 <= c <= al.numecs ==> row[c] == tr[c]
  }

  /** Running the tables is running the DFA. */
  lemma {:induction false} TablesRun(al: Alphabet, trans: seq<seq<int>>, s: Scan, k: Known, i: int, w: Word)
    requires Holds(al, trans, s, k) && 1 <= i <= s.g.lastdfa && ClassWord(al, w)
    ensures After(s, k, i, w) == s.g.Target(Run(trans, i, w)) && 0 <= Run(trans, i, w) <= s.g.lastdfa
    decreases |w|
  {
    if w != [] {
      var u, c := w[..|w| - 1], w[|w| - 1];
      assert w == u + [c] && c in w;
      TablesRun(al, trans, s, k, i, u);
      TableRunLast(s.g, k.full, i, u, c);
      var e := Run(trans, i, u);
      if e != 0 {
        assert StateTables(s, k, e) && SameEntries(al, trans[e], k.full[e]);
      }
    }
  }

  /** The rows of the DFA's states, and of the jam state. */
  ghost function FullRows(trans: seq<seq<int>>, lastdfa: int, numecs: nat, eob: int): map<int, Row>
    requires |trans| == lastdfa + 1 && forall e :: 1 <= e <= lastdfa ==> |trans[e]| == numecs + 1
  {
    map e | 1 <= e <= lastdfa + 1 :: if e == lastdfa + 1 then JamRow(numecs, eob) else trans[e][0 := if e == eob then 0 else eob]
  }

  /** State e has the tables of its transition array. */
  lemma StateHolds(al: Alphabet, trans: seq<seq<int>>, rows: seq<DfaRow>, s: Scan, k: Known, e: int)
    requires 1 <= e <= |rows| == s.g.lastdfa && |trans| == |s.nultrans| == |rows| + 1 && s.g.numecs == al.numecs && s.nul == al.nul && Shaped(s.g)
    requires Passed(al, s.byTable, trans[e], rows[e - 1], s.nultrans[e]) && EntriesOk(trans, |rows|, k.eob, al.numecs) && 1 <= k.eob <= |rows|
    requires e in k.rows && k.rows[e] == GenTabs.RowFor(rows[e - 1], e, al.numecs, k.eob)
    requires e in k.full && k.full[e] == trans[e][0 := if e == k.eob then 0 else k.eob]
    requires s.g.base[e] == s.g.jambase <==> e != k.eob && rows[e - 1].totaltrans == 0
    ensures StateTables(s, k, e)
  {
    if e == k.eob {
      EobRow(trans, |rows|, k.eob, al.numecs);
    }
    NoTransitions(trans[e], al.numecs);
    assert forall c :: 1 <= c <= al.numecs ==> trans[e][c] == k.full[e][c];
  }

  /** A state has no transitions if none are counted. */
  lemma NoTransitions(tr: seq<int>, numecs: nat)
    requires |tr| == numecs + 1 && forall c :: 1 <= c <= numecs ==> 0 <= tr[c]
    ensures MkEntry.CountKept(tr, JAMSTATE, numecs) == 0 <==> forall c :: 1 <= c <= numecs ==> tr[c] == 0
  {
    MkEntry.CountNone(tr, JAMSTATE, numecs);
    forall c | 1 <= c <= numecs ensures MkEntry.Kept(tr, JAMSTATE, c) <==> tr[c] != 0 {
    }
  }

  /** The tables are those of the DFA. */
  lemma RowsHold(al: Alphabet, trans: seq<seq<int>>, rows: seq<DfaRow>, s: Scan, k: Known)
    requires AllPassed(al, s.byTable, trans, rows, s.nultrans) && EntriesOk(trans, |rows|, k.eob, al.numecs) && 1 <= k.eob <= |rows|
    requires Encodes(s.g, k.rows) && JamBased(s.g, k.rows) && s.g.lastdfa == |rows| && s.g.numecs == al.numecs && s.nul == al.nul
    requires forall i :: 0 <= i < |rows| ==> |rows[i].state| == al.numecs + 1
    requires forall e :: 1 <= e <= |rows| ==> e in k.rows && k.rows[e] == GenTabs.RowFor(rows[e - 1], e, al.numecs, k.eob)
    requires forall e :: 1 <= e <= |rows| ==> (s.g.base[e] == s.g.jambase <==> e != k.eob && rows[e - 1].totaltrans == 0)
    requires (forall e :: 1 <= e <= |rows| ==> |trans[e]| == al.numecs + 1) && k.full == FullRows(trans, |rows|, al.numecs, k.eob)
    requires AllListed(s.accept, k.sets, k.eob, s.endAction) && |k.sets| == |rows| + 1
    ensures Holds(al, trans, s, k)
  {
    assert Passed(al, s.byTable, trans[1], rows[0], s.nultrans[1]);
    hide Encodes, AllListed, EntriesOk, GenTabs.RowFor, StateTables;
    forall e | 1 <= e <= |rows|
      ensures StateTables(s, k, e)
    {
      assert Passed(al, s.byTable, trans[e], rows[e - 1], s.nultrans[e]);
      StateHolds(al, trans, rows, s, k, e);
    }
    assert s.g.JamState() in k.full && k.full[s.g.JamState()] == JamRow(al.numecs, k.eob);
    assert ScanTables(s, k);
    assert forall e :: 1 <= e <= s.g.lastdfa ==> SameEntries(al, trans[e], k.full[e]);
  }

  lemma EobRow(trans: seq<seq<int>>, lastdfa: int, eob: int, numecs: int)
    requires EntriesOk(trans, lastdfa, eob, numecs) && 1 <= eob <= lastdfa
    ensures forall c :: 1 <= c <= numecs && c < |trans[eob]| ==> trans[eob][c] == 0
  {
  }

  /** State e of the tables, or the jam state, says which rules match w from start state i. */
  ghost predicate Says(al: Alphabet, rules: seq<Rule>, sets: seq<seq<int>>, i: int, w: Word, g: Gen, e: int) {
    if e == g.JamState() then forall k :: !RuleMatches(al, rules, i, k, w)
    else 1 <= e < |sets| && Sorted(sets[e]) && forall k :: k in sets[e] <==> RuleMatches(al, rules, i, k, w)
  }

  /** Wherever the scanner has not jammed, some rule can still match. */
  ghost predicate ScanGoesOn(al: Alphabet, rules: seq<Rule>, lastsc: nat, s: Scan, k: Known) {
    forall i, u :: 1 <= i <= 2 * lastsc && ClassWord(al, u) && u != [] && After(s, k, i, u) != s.g.JamState() ==> GoesOn(al, rules, i, u)
  }

  /** The scanner is that of the rules.  If every symbol stands for some class, it goes on only where a rule does. */
  ghost predicate ScanOf(al: Alphabet, rules: seq<Rule>, lastsc: nat, s: Scan, k: Known) {
    && ScanTables(s, k) && k.eob == 2 * lastsc + 1 <= s.g.lastdfa && s.g.numecs == al.numecs && s.nul == al.nul
    && s.endAction == |rules| + 1 && (Lively(al, rules) ==> ScanGoesOn(al, rules, lastsc, s, k))
    && forall i, w :: 1 <= i <= 2 * lastsc && ClassWord(al, w) ==> Says(al, rules, k.sets, i, w, s.g, After(s, k, i, w))
  }

  lemma SaysVerdict(al: Alphabet, rules: seq<Rule>, trans: seq<seq<int>>, dfaacc: seq<Acceptance>, s: Scan, k: Known, i: int, w: Word)
    requires Holds(al, trans, s, k) && |dfaacc| == s.g.lastdfa + 1 && 1 <= i <= s.g.lastdfa && ClassWord(al, w)
    requires Verdict(al, rules, trans, dfaacc, i, w) && forall e :: 1 <= e <= s.g.lastdfa ==> dfaacc[e].Every?
    ensures Says(al, rules, SetsOf(dfaacc), i, w, s.g, After(s, k, i, w))
  {
    hide RuleMatches;
    TablesRun(al, trans, s, k, i, w);
  }

  lemma RowsGood(al: Alphabet, csize: nat, useNul: bool, trans: seq<seq<int>>, rows: seq<DfaRow>, nultrans: seq<int>)
    requires AllPassed(al, useNul, trans, rows, nultrans) && NulOk(al, csize) && useNul == (al.numecs == csize)
    ensures forall i :: 0 <= i < |rows| ==> |rows[i].state| == al.numecs + 1 && GoodRow(rows[i], al.numecs)
    ensures forall e :: 1 <= e <= |rows| ==> |trans[e]| == al.numecs + 1
  {
    forall i | 0 <= i < |rows|
      ensures |rows[i].state| == al.numecs + 1 && GoodRow(rows[i], al.numecs)
    {
      assert Passed(al, useNul, trans[i + 1], rows[i], nultrans[i + 1]);
      if useNul {
        MkEntry.CountWithout(trans[i + 1], rows[i].state, al.numecs, al.nul);
        CountToWithout(trans[i + 1], rows[i].state, rows[i].comstate, al.numecs, al.nul);
      }
    }
    forall e | 1 <= e <= |rows|
      ensures |trans[e]| == al.numecs + 1
    {
      assert Passed(al, useNul, trans[e], rows[e - 1], nultrans[e]);
    }
  }

  /** What table compression was given is the DFA of the rules; a scanner is made of it unless the templates are used up. */
  ghost predicate FromDfa(al: Alphabet, rules: seq<Rule>, lastsc: nat, s: Scan, jammed: nat, built: Built, rows: seq<DfaRow>) {
    && BuiltFrom(al, rules, lastsc, built) && AllPassed(al, s.byTable, built.trans, rows, s.nultrans)
    && EntriesOk(built.trans, |rows|, 2 * lastsc + 1, al.numecs)
    && (jammed != 0 ==> GenTabs.UsesUpTemplates(rows, al.numecs, jammed))
  }

  /**
   Generates the scanner of a specification that uses REJECT.  It is that of the rules, unless table
   compression meets a state that needs template number 32766; so many of the DFA's states must be
   candidates for templates before that can happen.
   */
  method Generate(rules: seq<Rule>, lastsc: nat, al: Alphabet, csize: nat, usemecs: bool, interactive: bool)
    returns (s: Scan, jammed: nat, errors: bool, ghost k: Known, ghost built: Built, ghost rows: seq<DfaRow>)
    requires AlphabetOk(al) && NulOk(al, csize)
    requires forall rule :: rule in rules ==> RuleOk(rule, lastsc) && Legal(rule.pattern, LegalIn(al))
    ensures jammed == 0 ==> ScanOf(al, rules, lastsc, s, k)
    ensures errors <==> exists rule :: rule in rules && !WellFormed(rule.pattern)
    ensures s.byTable == (al.numecs == csize) && s.interactive == interactive && s.nul == al.nul
    ensures FromDfa(al, rules, lastsc, s, jammed, built, rows)
  {
    hide Verdict, Legal, WellFormed, RuleOk, Holds, EntriesOk, AlphabetOk, Interned, ScanTables, Encodes, JamBased, GoodRow, AllPassed, AllListed;
    hide BuiltFrom, AllVerdicts, AllGoOn, Lively, GenTabs.UsesUpTemplates;
    var d, eob, useNul, trans, passed, nultrans;
    d, eob, useNul, trans, passed, nultrans, errors, built := BuildDfa(rules, lastsc, al, csize, true);
    rows := passed;
    RowsGood(al, csize, useNul, trans, rows, nultrans);
    var g;
    ghost var final;
    g, jammed, final := GenTabs.CompressDfa(passed, al.numecs, usemecs, eob);
    var sets := SetsOf(d.dfaacc);
    var accept := GenAccept(sets, eob, |rules| + 1);
    s := Scan(g, accept, |rules| + 1, interactive, al.nul, useNul, nultrans);
    PassedLengths(al, useNul, trans, rows, nultrans);
    k := Known(final, FullRows(trans, |rows|, al.numecs, eob), sets, eob);
    if jammed == 0 {
      RowsHold(al, trans, rows, s, k);
      GeneratedIsExact(al, rules, lastsc, trans, d.dfaacc, s, k);
    }
  }

  lemma PassedLengths(al: Alphabet, useNul: bool, trans: seq<seq<int>>, rows: seq<DfaRow>, nultrans: seq<int>)
    requires AllPassed(al, useNul, trans, rows, nultrans)
    ensures |trans| == |nultrans| == |rows| + 1
  {
  }

  lemma GeneratedIsExact(al: Alphabet, rules: seq<Rule>, lastsc: nat, trans: seq<seq<int>>, dfaacc: seq<Acceptance>, s: Scan, k: Known)
    requires Holds(al, trans, s, k) && |dfaacc| == s.g.lastdfa + 1 && k.eob == 2 * lastsc + 1 <= s.g.lastdfa
    requires forall e :: 1 <= e <= s.g.lastdfa ==> dfaacc[e].Every?
    requires s.endAction == |rules| + 1 && k.sets == SetsOf(dfaacc)
    requires AllVerdicts(al, rules, lastsc, trans, dfaacc) && (Lively(al, rules) ==> AllGoOn(al, rules, lastsc, trans))
    ensures ScanOf(al, rules, lastsc, s, k)
  {
    if Lively(al, rules) {
      TablesGoOn(al, rules, lastsc, trans, s, k);
    }
    hide Lively, ScanGoesOn;
    forall i, w | 1 <= i <= 2 * lastsc && ClassWord(al, w)
      ensures Says(al, rules, k.sets, i, w, s.g, After(s, k, i, w))
    {
      assert Verdict(al, rules, trans, dfaacc, i, w);
      SaysVerdict(al, rules, trans, dfaacc, s, k, i, w);
    }
  }

  lemma TablesGoOn(al: Alphabet, rules: seq<Rule>, lastsc: nat, trans: seq<seq<int>>, s: Scan, k: Known)
    requires Holds(al, trans, s, k) && 2 * lastsc <= s.g.lastdfa && AllGoOn(al, rules, lastsc, trans)
    ensures ScanGoesOn(al, rules, lastsc, s, k)
  {
    hide Holds, GoesOn;
    forall i, u | 1 <= i <= 2 * lastsc && ClassWord(al, u) && u != [] && After(s, k, i, u) != s.g.JamState()
      ensures GoesOn(al, rules, i, u)
    {
      TablesRun(al, trans, s, k, i, u);
    }
  }

  /** The default rule matches any one character. */
  ghost predicate HasDefault(al: Alphabet, rules: seq<Rule>, i: int) {
    forall c :: 1 <= c <= al.numecs ==> IsMatched(al, rules, i, c)
  }

  ghost predicate IsMatched(al: Alphabet, rules: seq<Rule>, i: int, c: int) {
    exists k :: RuleMatches(al, rules, i, k, [c])
  }

  /** What is added at the end of every specification: a negated empty class, active in all start conditions. */
  predicate IsDefault(al: Alphabet, rule: Rule, lastsc: nat) {
    && rule.pattern.Symbol? && rule.pattern.sym < 0 && !rule.bol && (forall c :: 1 <= c <= lastsc ==> c in rule.conds)
    && HasClass(al, -rule.pattern.sym) && ClassSymbols(al, -rule.pattern.sym) == [] && al.cclng[-rule.pattern.sym]
  }

  lemma DefaultMatchesOne(al: Alphabet, rules: seq<Rule>, lastsc: nat, k: int, i: int, c: int)
    requires 1 <= k <= |rules| && IsDefault(al, rules[k - 1], lastsc) && 1 <= i <= 2 * lastsc && 1 <= c <= al.numecs
    ensures RuleMatches(al, rules, i, k, [c])
  {
    var rule := rules[k - 1];
    assert (i + 1) / 2 in rule.conds;
    assert Takes(al, rule.pattern.sym, c);
    assert [c] in NfaOps.Single(Sat(al), rule.pattern.sym);
  }

  /** With the default rule, some rule matches any one character. */
  lemma DefaultRuleMatches(al: Alphabet, rules: seq<Rule>, lastsc: nat, k: int, i: int)
    requires 1 <= k <= |rules| && IsDefault(al, rules[k - 1], lastsc) && 1 <= i <= 2 * lastsc
    ensures HasDefault(al, rules, i)
  {
    hide RuleMatches, IsDefault;
    forall c | 1 <= c <= al.numecs
      ensures IsMatched(al, rules, i, c)
    {
      DefaultMatchesOne(al, rules, lastsc, k, i, c);
    }
  }

  /** The token at the front of w: the longest match, and the first rule among those that match it. */
  ghost predicate TokenOf(al: Alphabet, rules: seq<Rule>, i: int, w: Word, r: Choice) {
    && r.Acts? && 1 <= r.cp <= |w| && IsFirst(al, rules, i, w[..r.cp], r.act)
    && forall v, k :: ClassWord(al, v) && r.cp < |v| && Compatible(v, w) ==> !RuleMatches(al, rules, i, k, v)
  }

  /** Rule k is the first that matches v. */
  ghost predicate IsFirst(al: Alphabet, rules: seq<Rule>, i: int, v: Word, k: int) {
    RuleMatches(al, rules, i, k, v) && forall k1 :: RuleMatches(al, rules, i, k1, v) ==> k <= k1
  }

  /** The token's rule is the first that matches its text, and no rule matches more of w, or more than w. */
  lemma TokenIs(al: Alphabet, rules: seq<Rule>, i: int, w: Word, r: Choice, k: int)
    requires TokenOf(al, rules, i, w, r)
    ensures 1 <= r.cp <= |w| && RuleMatches(al, rules, i, r.act, w[..r.cp]) && (k < r.act ==> !RuleMatches(al, rules, i, k, w[..r.cp]))
    ensures forall v :: ClassWord(al, v) && r.cp < |v| && (v <= w || w <= v) ==> !RuleMatches(al, rules, i, k, v)
  {
  }

  /** Some rule matches a prefix longer than h. */
  ghost predicate LaterMatch(al: Alphabet, rules: seq<Rule>, i: int, w: Word, h: nat) {
    exists j :: h < j <= |w| && SomeMatch(al, rules, i, w[..j])
  }

  /** The same rule is the first that matches the prefixes of lengths h - 1 and h. */
  ghost predicate SameFirst(al: Alphabet, rules: seq<Rule>, i: int, w: Word, h: nat)
    requires 1 <= h <= |w|
  {
    exists k :: IsFirst(al, rules, i, w[..h - 1], k) && IsFirst(al, rules, i, w[..h], k)
  }

  /**
   What is chosen if position h is missing on the stack of states and no rule matches a longer prefix:
   the first rule of the longest match shorter than h, but for one character more; or the stack is left.
   */
  ghost predicate TokenMisplaced(al: Alphabet, rules: seq<Rule>, i: int, w: Word, h: nat, r: Choice)
    requires h <= |w|
  {
    match r
    case Lost => forall j :: 0 <= j < h ==> !SomeMatch(al, rules, i, w[..j])
    case Acts(act, cp) =>
      1 <= cp <= h && (forall j :: cp <= j < h ==> !SomeMatch(al, rules, i, w[..j])) && IsFirst(al, rules, i, w[..cp - 1], act)
  }

  /** The course of a run in terms of rules: after which prefixes some rule can still match, and more than the prefix. */
  ghost function RuleCourse(al: Alphabet, rules: seq<Rule>, i: int, w: Word): (c: Course)
    ensures |c.lives| == |c.more| == |w| + 1
    ensures forall j :: 0 <= j <= |w| ==> c.lives[j] == GoesOn(al, rules, i, w[..j]) && c.more[j] == GoesFurther(al, rules, i, w[..j])
  {
    Course(seq(|w| + 1, j requires 0 <= j <= |w| => GoesOn(al, rules, i, w[..j])),
           seq(|w| + 1, j requires 0 <= j <= |w| => GoesFurther(al, rules, i, w[..j])))
  }

  lemma PartIsWord(al: Alphabet, w: Word, cp: int)
    requires ClassWord(al, w) && 0 <= cp <= |w|
    ensures ClassWord(al, w[..cp])
  {
    assert forall x :: x in w[..cp] ==> x in w;
  }

  /** The rules listed for the state after a word are those that match it, in order. */
  lemma RulesAre(al: Alphabet, rules: seq<Rule>, lastsc: nat, s: Scan, k: Known, i: int, v: Word)
    requires ScanOf(al, rules, lastsc, s, k) && 1 <= i <= 2 * lastsc && ClassWord(al, v)
    ensures Classes(s.g, v) && (forall r :: r in RulesAfter(s, k, i, v) <==> RuleMatches(al, rules, i, r, v))
    ensures RulesAfter(s, k, i, v) != [] <==> SomeMatch(al, rules, i, v)
    ensures RulesAfter(s, k, i, v) != [] ==> forall r :: IsFirst(al, rules, i, v, r) <==> r == RulesAfter(s, k, i, v)[0]
  {
    hide RuleMatches, After;
    assert Classes(s.g, v);
    RunInRange(s, k, i, v);
    assert Says(al, rules, k.sets, i, v, s.g, After(s, k, i, v));
    var listed := RulesAfter(s, k, i, v);
    assert Sorted(listed);
    FirstIsLeast(listed);
    if listed != [] {
      assert listed[0] in listed;
    }
  }

  lemma FirstIsLeast(r: seq<int>)
    requires Sorted(r)
    ensures r != [] ==> forall k :: k in r ==> r[0] <= k
  {
  }

  lemma ClassesAreWords(al: Alphabet, rules: seq<Rule>, lastsc: nat, s: Scan, k: Known, v: Word)
    requires ScanOf(al, rules, lastsc, s, k)
    ensures Classes(s.g, v) <==> ClassWord(al, v)
    ensures s.endAction == |rules| + 1 && ScanTables(s, k)
  {
  }

  /** The default rule is where the match loop needs it, and the end-of-buffer action is none of the rules. */
  lemma LoopIsReady(al: Alphabet, rules: seq<Rule>, lastsc: nat, s: Scan, k: Known, i: int, w: Word)
    requires ScanOf(al, rules, lastsc, s, k) && HasDefault(al, rules, i) && 1 <= i <= 2 * lastsc && ClassWord(al, w)
    ensures DefaultRule(s, k, i, w) && EndIsNoRule(s, k, i)
  {
    if w != [] {
      assert w[..1] == [w[0]] && w[0] in w;
      PartIsWord(al, w, 1);
      RulesAre(al, rules, lastsc, s, k, i, w[..1]);
      assert IsMatched(al, rules, i, w[0]);
    }
    forall v | Classes(s.g, v)
      ensures s.endAction !in RulesAfter(s, k, i, v)
    {
      ClassesAreWords(al, rules, lastsc, s, k, v);
      RulesAre(al, rules, lastsc, s, k, i, v);
    }
  }

  /** What the match loop is to choose is the token. */
  lemma ChosenIsToken(al: Alphabet, rules: seq<Rule>, lastsc: nat, s: Scan, k: Known, i: int, w: Word, r: Choice)
    requires ScanOf(al, rules, lastsc, s, k) && 1 <= i <= 2 * lastsc && ClassWord(al, w) && r.Acts? && 1 <= r.cp <= |w|
    ensures Chosen(s, k, i, w, r) <==> TokenOf(al, rules, i, w, r)
  {
    hide RuleMatches, ScanOf, RulesAfter, IsFirst;
    PartIsWord(al, w, r.cp);
    RulesAre(al, rules, lastsc, s, k, i, w[..r.cp]);
    FirstMatches(al, rules, i, w[..r.cp]);
    forall v | ClassWord(al, v)
      ensures Classes(s.g, v) && (RulesAfter(s, k, i, v) == [] <==> forall j :: !RuleMatches(al, rules, i, j, v))
    {
      RulesAre(al, rules, lastsc, s, k, i, v);
    }
    forall v | Classes(s.g, v)
      ensures ClassWord(al, v)
    {
      ClassesAreWords(al, rules, lastsc, s, k, v);
    }
  }

  /** Where the missing state does not matter, and what is chosen otherwise, in terms of rules. */
  lemma InPlaceIs(al: Alphabet, rules: seq<Rule>, lastsc: nat, s: Scan, k: Known, i: int, w: Word, h: nat, r: Choice)
    requires ScanOf(al, rules, lastsc, s, k) && 1 <= i <= 2 * lastsc && ClassWord(al, w) && h <= |w|
    ensures LaterRule(s, k, i, w, h) <==> LaterMatch(al, rules, i, w, h)
    ensures 1 <= h ==> (SameRule(s, k, i, w, h) <==> SameFirst(al, rules, i, w, h))
    ensures Misplaced(s, k, i, w, h, r) <==> TokenMisplaced(al, rules, i, w, h, r)
  {
    hide RuleMatches, ScanOf, RulesAfter, IsFirst, SomeMatch;
    forall j | 0 <= j <= |w|
      ensures RulesAfter(s, k, i, w[..j]) != [] <==> SomeMatch(al, rules, i, w[..j])
      ensures RulesAfter(s, k, i, w[..j]) != [] ==> forall r :: IsFirst(al, rules, i, w[..j], r) <==> r == RulesAfter(s, k, i, w[..j])[0]
      ensures forall r :: IsFirst(al, rules, i, w[..j], r) ==> SomeMatch(al, rules, i, w[..j])
    {
      PartIsWord(al, w, j);
      RulesAre(al, rules, lastsc, s, k, i, w[..j]);
      FirstMatches(al, rules, i, w[..j]);
    }
    if 1 <= h && SameRule(s, k, i, w, h) {
      assert IsFirst(al, rules, i, w[..h], RulesAfter(s, k, i, w[..h - 1])[0]);
    }
  }

  lemma FirstMatches(al: Alphabet, rules: seq<Rule>, i: int, v: Word)
    ensures forall k :: IsFirst(al, rules, i, v, k) ==> SomeMatch(al, rules, i, v)
  {
  }

  /** The text in the buffer, NUL characters included. */
  lemma TextIsWord(al: Alphabet, rules: seq<Rule>, lastsc: nat, s: Scan, k: Known, buf: seq<int>)
    requires ScanOf(al, rules, lastsc, s, k) && |buf| >= 2 && Buffered(s, buf)
    ensures ClassWord(al, Text(s, buf))
  {
    TextIsClasses(s, k, buf);
    ClassesAreWords(al, rules, lastsc, s, k, Text(s, buf));
  }

  /** Once the scanner has jammed no rule can match, and in a state without transitions no rule can match more. */
  lemma JamIsDead(al: Alphabet, rules: seq<Rule>, lastsc: nat, s: Scan, k: Known, i: int, u: Word)
    requires ScanOf(al, rules, lastsc, s, k) && 1 <= i <= 2 * lastsc && ClassWord(al, u)
    ensures GoesOn(al, rules, i, u) ==> After(s, k, i, u) != s.g.JamState()
    ensures GoesFurther(al, rules, i, u) ==> !Bare(s, After(s, k, i, u))
  {
    RunInRange(s, k, i, u);
    forall v | ClassWord(al, v) && u <= v && SomeMatch(al, rules, i, v)
      ensures After(s, k, i, u) != s.g.JamState() && (u != v ==> !Bare(s, After(s, k, i, u)))
    {
      RulesAre(al, rules, lastsc, s, k, i, v);
      assert v[..|u|] == u;
      if u != v && (After(s, k, i, u) == s.g.JamState() || Bare(s, After(s, k, i, u))) {
        DeadEnd(s, k, i, v, |u|);
      }
    }
  }

  /** A class to go on with. */
  lemma NextClass(s: Scan, k: Known, i: int, u: Word) returns (c: int)
    requires ScanTables(s, k) && Classes(s.g, u) && Start(s, k, i) && !Bare(s, After(s, k, i, u))
    ensures 1 <= c <= s.g.numecs && After(s, k, i, u + [c]) != s.g.JamState()
  {
    RunInRange(s, k, i, u);
    var e := After(s, k, i, u);
    assert StateTables(s, k, e);
    c :| 1 <= c <= s.g.numecs && k.full[e][c] != 0;
    TableRunLast(s.g, k.full, i, u, c);
  }

  /** If no symbol stands for nothing, a scanner that has not jammed can still match, and one with transitions can match more. */
  lemma LiveGoesOn(al: Alphabet, rules: seq<Rule>, lastsc: nat, s: Scan, k: Known, i: int, u: Word)
    requires ScanOf(al, rules, lastsc, s, k) && Lively(al, rules) && HasDefault(al, rules, i) && 1 <= i <= 2 * lastsc && ClassWord(al, u)
    ensures After(s, k, i, u) != s.g.JamState() ==> GoesOn(al, rules, i, u)
    ensures !Bare(s, After(s, k, i, u)) ==> GoesFurther(al, rules, i, u)
  {
    hide Lively, ScanTables, HasDefault, After, SomeMatch;
    if u == [] {
      StartGoesOn(al, rules, lastsc, s, k, i);
    }
    if !Bare(s, After(s, k, i, u)) {
      assert Classes(s.g, u);
      var c := NextClass(s, k, i, u);
      assert ClassWord(al, u + [c]) && GoesOn(al, rules, i, u + [c]);
      var v :| ClassWord(al, v) && u + [c] <= v && SomeMatch(al, rules, i, v);
      assert u < v;
    }
  }

  lemma StartGoesOn(al: Alphabet, rules: seq<Rule>, lastsc: nat, s: Scan, k: Known, i: int)
    requires ScanOf(al, rules, lastsc, s, k) && HasDefault(al, rules, i)
    ensures GoesOn(al, rules, i, [])
  {
    assert 1 <= al.nul <= al.numecs && IsMatched(al, rules, i, al.nul);
    assert ClassWord(al, [al.nul]) && SomeMatch(al, rules, i, [al.nul]) && [] <= [al.nul];
  }

  /** The scanner reaches the end of the buffer, in terms of rules. */
  ghost predicate RulesRunOut(al: Alphabet, rules: seq<Rule>, i: int, w: Word, interactive: bool, buf: seq<int>)
    requires |w| == |buf| - 2
  {
    ReadsOn(RuleCourse(al, rules, i, w), interactive, buf, |w|)
  }

  /** The position that the stack of states lacks, in terms of rules. */
  ghost function RulesMissing(al: Alphabet, rules: seq<Rule>, i: int, w: Word, byTable: bool, interactive: bool, buf: seq<int>): nat
    requires |w| == |buf| - 2
  {
    Hole(RuleCourse(al, rules, i, w), byTable, interactive, buf)
  }

  lemma FurtherIsOn(al: Alphabet, rules: seq<Rule>, i: int, u: Word)
    ensures GoesFurther(al, rules, i, u) ==> GoesOn(al, rules, i, u)
  {
  }

  lemma RulesRunOutIs(al: Alphabet, rules: seq<Rule>, i: int, w: Word, interactive: bool, buf: seq<int>)
    requires |w| == |buf| - 2
    ensures RulesRunOut(al, rules, i, w, interactive, buf) <==>
      (GoesOn(al, rules, i, w) && (interactive && |buf| > 2 && buf[|buf| - 3] != 0 ==> GoesFurther(al, rules, i, w)))
  {
    assert w[..|w|] == w;
  }

  /** As long as rules can match the scanner reads on; and if no symbol stands for nothing, no longer. */
  lemma CourseInRules(al: Alphabet, rules: seq<Rule>, lastsc: nat, s: Scan, k: Known, i: int, buf: seq<int>)
    requires ScanOf(al, rules, lastsc, s, k) && HasDefault(al, rules, i) && 1 <= i <= 2 * lastsc && |buf| >= 2 && Buffered(s, buf)
    ensures RulesRunOut(al, rules, i, Text(s, buf), s.interactive, buf) ==> RunsOut(s, k, i, buf)
    ensures Lively(al, rules) ==> (RunsOut(s, k, i, buf) <==> RulesRunOut(al, rules, i, Text(s, buf), s.interactive, buf))
    ensures Lively(al, rules) ==> Missing(s, k, i, buf) == RulesMissing(al, rules, i, Text(s, buf), s.byTable, s.interactive, buf)
  {
    hide ScanOf, HasDefault, Lively, Buffered, After, GoesOn, GoesFurther;
    var w := Text(s, buf);
    var c, d := CourseOf(s, k, i, w), RuleCourse(al, rules, i, w);
    TextIsWord(al, rules, lastsc, s, k, buf);
    forall j | 0 <= j <= |w|
      ensures (d.lives[j] ==> c.lives[j]) && (d.more[j] ==> c.more[j])
      ensures Lively(al, rules) ==> d.lives[j] == c.lives[j] && d.more[j] == c.more[j]
    {
      PartIsWord(al, w, j);
      JamIsDead(al, rules, lastsc, s, k, i, w[..j]);
      if Lively(al, rules) {
        LiveGoesOn(al, rules, lastsc, s, k, i, w[..j]);
      }
    }
    if Lively(al, rules) {
      assert c.lives == d.lives && c.more == d.more;
    }
  }

  /**
   One turn of the generated scanner: from start state i, on a buffer with the characters of w, it
   performs the end-of-buffer action if it reaches the end, and otherwise the action of the first rule
   that has the longest match.  So it does with NUL characters in w, unless they have a table of their
   own and it passes any: then a state may be missing, and unless some rule matches more than the text
   up to there the choice is misplaced; it is right exactly if that text has the same first rule with
   and without the NUL.  The end is reached if the rules allow it; and where no symbol stands for
   nothing, both the end and the missing state are where the rules put them.
   */
  method NextToken(al: Alphabet, ghost rules: seq<Rule>, ghost lastsc: nat, s: Scan, ghost k: Known, i: int, buf: seq<int>)
    returns (r: Choice)
    requires ScanOf(al, rules, lastsc, s, k) && 1 <= i <= 2 * lastsc && HasDefault(al, rules, i)
    requires |buf| >= 2 && Buffered(s, buf)
    ensures Missing(s, k, i, buf) <= |buf| - 2
    ensures RunsOut(s, k, i, buf) ==> r == Acts(|rules| + 1, |buf| - 1)
    ensures !RunsOut(s, k, i, buf) && Missing(s, k, i, buf) == 0 ==> TokenOf(al, rules, i, Text(s, buf), r)
    ensures !RunsOut(s, k, i, buf) && Missing(s, k, i, buf) > 0 ==>
      TokenWithout(al, rules, i, Text(s, buf), Missing(s, k, i, buf), r)
    ensures RulesRunOut(al, rules, i, Text(s, buf), s.interactive, buf) ==> RunsOut(s, k, i, buf)
    ensures Lively(al, rules) ==> (RunsOut(s, k, i, buf) <==> RulesRunOut(al, rules, i, Text(s, buf), s.interactive, buf))
    ensures Lively(al, rules) ==> Missing(s, k, i, buf) == RulesMissing(al, rules, i, Text(s, buf), s.byTable, s.interactive, buf)
    ensures GoesOn(al, rules, i, Text(s, buf)) && !(s.interactive && |buf| > 2 && buf[|buf| - 3] != 0) ==> r == Acts(|rules| + 1, |buf| - 1)
    ensures GoesFurther(al, rules, i, Text(s, buf)) ==> r == Acts(|rules| + 1, |buf| - 1)
    ensures Lively(al, rules) && !GoesOn(al, rules, i, Text(s, buf)) ==> !(r.Acts? && r.act == |rules| + 1)
    ensures Lively(al, rules) && s.interactive && |buf| > 2 && buf[|buf| - 3] != 0 && !GoesFurther(al, rules, i, Text(s, buf)) ==>
      !(r.Acts? && r.act == |rules| + 1)
    ensures !(r.Acts? && r.act == |rules| + 1) && (!s.byTable || forall j :: 0 <= j < |buf| - 2 ==> buf[j] != 0) ==>
      TokenOf(al, rules, i, Text(s, buf), r)
  {
    hide After, GoesOn, GoesFurther;
    hide RuleMatches, HasDefault, ScanOf, TokenOf, LaterMatch, SameFirst, SomeMatch, Chosen, LaterRule, SameRule, Buffered;
    hide RunsOut, Missing, RulesRunOut, RulesMissing, Misplaced, TokenMisplaced, Lively;
    TextIsWord(al, rules, lastsc, s, k, buf);
    LoopIsReady(al, rules, lastsc, s, k, i, Text(s, buf));
    ClassesAreWords(al, rules, lastsc, s, k, []);
    CourseInRules(al, rules, lastsc, s, k, i, buf);
    RunsOutIs(s, k, i, buf);
    RulesRunOutIs(al, rules, i, Text(s, buf), s.interactive, buf);
    FurtherIsOn(al, rules, i, Text(s, buf));
    r := Match(s, k, i, buf);
    ChoiceIsToken(al, rules, lastsc, s, k, i, Text(s, buf), r);
    InPlaceIs(al, rules, lastsc, s, k, i, Text(s, buf), Missing(s, k, i, buf), r);
  }

  /** The choice from a stack of states without position h. */
  ghost predicate TokenWithout(al: Alphabet, rules: seq<Rule>, i: int, w: Word, h: nat, r: Choice)
    requires 1 <= h <= |w|
  {
    if LaterMatch(al, rules, i, w, h) then TokenOf(al, rules, i, w, r)
    else TokenMisplaced(al, rules, i, w, h, r) && (TokenOf(al, rules, i, w, r) <==> SameFirst(al, rules, i, w, h))
  }

  lemma ChoiceIsToken(al: Alphabet, rules: seq<Rule>, lastsc: nat, s: Scan, k: Known, i: int, w: Word, r: Choice)
    requires ScanOf(al, rules, lastsc, s, k) && 1 <= i <= 2 * lastsc && ClassWord(al, w)
    ensures Chosen(s, k, i, w, r) <==> TokenOf(al, rules, i, w, r)
  {
    if r.Acts? && 1 <= r.cp <= |w| {
      ChosenIsToken(al, rules, lastsc, s, k, i, w, r);
    }
  }
}
