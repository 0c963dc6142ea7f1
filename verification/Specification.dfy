/**
 From a specification to the tokens of a text, in terms of characters: what the generator makes of
 the character classes and rules (`readin` and `main` in `ext/flex/main.c` call the parts in turn),
 and what the scanner then does.
 */
module Specification {
  import Ecs
  import opened EcNumbers
  import opened Words
  import NfaLang
  import opened Regex
  import opened Rules
  import opened Follow
  import opened Dfa
  import opened DfaRows
  import opened MatchLoop
  import opened Scanner
  import opened Alphabets
  import opened Tokens
  import opened Characters

  /** The symbols of patterns are classes, and characters that mkechar has been called for. */
  ghost function InUse(singles: set<int>, lastccl: nat): int -> bool {
    sym => sym in singles || 1 <= -sym <= lastccl
  }

  /** What the alphabet promises of the symbols in use. */
  ghost predicate SymbolsMean(al: Alphabet, cs: Charset, singles: set<int>, lastccl: nat) {
    && |al.ecgroup| == cs.csize + 1
    && forall sym :: sym in singles || 1 <= -sym <= lastccl ==>
         SymbolOk(al, sym) && forall ch :: 0 <= ch < cs.csize ==> (Takes(al, sym, ClassOf(al, ch)) <==> TakesChar(cs, sym, ch))
  }

  /** Patterns over those symbols can be built, and mean over classes what they mean over characters. */
  lemma {:induction false} PatternAgrees(al: Alphabet, cs: Charset, singles: set<int>, lastccl: nat, r: Rx)
    requires SymbolsMean(al, cs, singles, lastccl) && Legal(r, InUse(singles, lastccl))
    ensures SymbolsAgree(al, CharSat(cs), r) && Legal(r, LegalIn(al))
  {
    match r {
      case Symbol(sym) =>
      case Series(a, b) =>
        PatternAgrees(al, cs, singles, lastccl, a);
        PatternAgrees(al, cs, singles, lastccl, b);
      case Either(a, b) =>
        PatternAgrees(al, cs, singles, lastccl, a);
        PatternAgrees(al, cs, singles, lastccl, b);
      case _ =>
        PatternAgrees(al, cs, singles, lastccl, r.body);
    }
  }

  /** The symbol stands for some character. */
  ghost predicate Stands(cs: Charset, sym: int) {
    exists ch :: 0 <= ch < cs.csize && TakesChar(cs, sym, ch)
  }

  ghost function StandsForSome(cs: Charset): int -> bool {
    sym => Stands(cs, sym)
  }

  /** Every symbol of the patterns stands for some character: no pattern uses an empty class. */
  ghost predicate NoEmptyClass(cs: Charset, rules: seq<Rule>) {
    forall rule :: rule in rules ==> Legal(rule.pattern, StandsForSome(cs))
  }

  /** So it is if no class of the input is empty, and every single character is one of the input's. */
  lemma NoneIsEmpty(cs: Charset, singles: set<int>, lastccl: nat, rules: seq<Rule>)
    requires forall rule :: rule in rules ==> Legal(rule.pattern, InUse(singles, lastccl))
    requires forall c :: c in singles ==> 0 <= c < cs.csize
    requires forall sym :: 1 <= -sym <= lastccl ==> Stands(cs, sym)
    ensures NoEmptyClass(cs, rules)
  {
    hide Legal, InUse;
    forall rule | rule in rules
      ensures Legal(rule.pattern, StandsForSome(cs))
    {
      PatternStands(cs, singles, lastccl, rule.pattern);
    }
  }

  lemma {:induction false} PatternStands(cs: Charset, singles: set<int>, lastccl: nat, r: Rx)
    requires Legal(r, InUse(singles, lastccl)) && forall c :: c in singles ==> 0 <= c < cs.csize
    requires forall sym :: 1 <= -sym <= lastccl ==> Stands(cs, sym)
    ensures Legal(r, StandsForSome(cs))
  {
    match r {
      case Symbol(sym) =>
        if sym in singles {
          assert TakesChar(cs, sym, sym);
        }
      case Series(a, b) =>
        PatternStands(cs, singles, lastccl, a);
        PatternStands(cs, singles, lastccl, b);
      case Either(a, b) =>
        PatternStands(cs, singles, lastccl, a);
        PatternStands(cs, singles, lastccl, b);
      case _ =>
        PatternStands(cs, singles, lastccl, r.body);
    }
  }

  /** A pattern without empty classes has symbols that stand for some equivalence class. */
  lemma {:induction false} PatternLively(al: Alphabet, cs: Charset, singles: set<int>, lastccl: nat, r: Rx)
    requires SymbolsMean(al, cs, singles, lastccl) && Legal(r, InUse(singles, lastccl)) && Legal(r, StandsForSome(cs))
    requires forall ch :: 0 <= ch < cs.csize ==> 1 <= ClassOf(al, ch) <= al.numecs
    ensures Legal(r, LivelyIn(al))
  {
    match r {
      case Symbol(sym) =>
        if sym != NfaLang.SYM_EPSILON {
          assert Stands(cs, sym) && SymbolOk(al, sym);
          var ch :| 0 <= ch < cs.csize && TakesChar(cs, sym, ch);
          assert Takes(al, sym, ClassOf(al, ch));
        }
      case Series(a, b) =>
        PatternLively(al, cs, singles, lastccl, a);
        PatternLively(al, cs, singles, lastccl, b);
      case Either(a, b) =>
        PatternLively(al, cs, singles, lastccl, a);
        PatternLively(al, cs, singles, lastccl, b);
      case _ =>
        PatternLively(al, cs, singles, lastccl, r.body);
    }
  }

  lemma RulesLively(al: Alphabet, cs: Charset, singles: set<int>, lastccl: nat, rules: seq<Rule>)
    requires SymbolsMean(al, cs, singles, lastccl) && forall rule :: rule in rules ==> Legal(rule.pattern, InUse(singles, lastccl))
    requires forall ch :: 0 <= ch < cs.csize ==> 1 <= ClassOf(al, ch) <= al.numecs
    ensures NoEmptyClass(cs, rules) ==> Lively(al, rules)
  {
    hide SymbolsMean, Legal;
    if NoEmptyClass(cs, rules) {
      forall rule | rule in rules
        ensures Legal(rule.pattern, LivelyIn(al))
      {
        PatternLively(al, cs, singles, lastccl, rule.pattern);
      }
    }
  }

  /** The default rule in terms of characters: a negated class without characters. */
  predicate IsDefaultRule(cs: Charset, rule: Rule, lastsc: nat, lastccl: nat) {
    && rule.pattern.Symbol? && 1 <= -rule.pattern.sym <= lastccl && !rule.bol && (forall c :: 1 <= c <= lastsc ==> c in rule.conds)
    && IsClass(cs, -rule.pattern.sym) && Entries(cs, -rule.pattern.sym) == [] && cs.ng[-rule.pattern.sym]
  }

  lemma DefaultIsDefault(al: Alphabet, cs: Charset, part: seq<int>, rule: Rule, lastsc: nat, lastccl: nat)
    requires AlphabetOf(al, cs, part) && |cs.map_| == lastccl + 1 && IsDefaultRule(cs, rule, lastsc, lastccl)
    ensures IsDefault(al, rule, lastsc)
  {
    var k := -rule.pattern.sym;
    assert Listed(al, cs, k);
  }

  /** What the finished scanner and its alphabet are for a specification. */
  ghost predicate Made(cs: Charset, rules: seq<Rule>, lastsc: nat, al: Alphabet, s: Scan, k: Known) {
    && ScanOf(al, rules, lastsc, s, k) && Agrees(cs, al, rules) && (NoEmptyClass(cs, rules) ==> Lively(al, rules))
    && ClassOf(al, 0) == al.nul && (s.byTable ==> forall ch :: 1 <= ch < cs.csize ==> ClassOf(al, ch) != al.nul)
    && forall i :: 1 <= i <= 2 * lastsc ==> HasDefault(al, rules, i)
  }

  /** The alphabet serves the rules. */
  lemma AlphabetServes(al: Alphabet, cs: Charset, part: seq<int>, singles: set<int>, lastccl: nat, rules: seq<Rule>, lastsc: nat)
    requires AlphabetOf(al, cs, part) && SymbolsMean(al, cs, singles, lastccl) && |cs.map_| == lastccl + 1
    requires forall ch :: 0 <= ch < cs.csize ==> 1 <= ClassOf(al, ch) <= al.numecs
    requires forall rule :: rule in rules ==> Legal(rule.pattern, InUse(singles, lastccl))
    requires rules != [] && IsDefaultRule(cs, rules[|rules| - 1], lastsc, lastccl)
    ensures forall rule :: rule in rules ==> Legal(rule.pattern, LegalIn(al))
    ensures Agrees(cs, al, rules) && (NoEmptyClass(cs, rules) ==> Lively(al, rules))
    ensures forall i :: 1 <= i <= 2 * lastsc ==> HasDefault(al, rules, i)
    ensures al.numecs == cs.csize ==> forall ch :: 1 <= ch < cs.csize ==> ClassOf(al, ch) != al.nul
  {
    DefaultIsDefault(al, cs, part, rules[|rules| - 1], lastsc, lastccl);
    hide AlphabetOf, SymbolsMean, Legal, SymbolsAgree, HasDefault, IsDefault, IsDefaultRule, Lively, NoEmptyClass, HasChar;
    RulesLively(al, cs, singles, lastccl, rules);
    forall rule | rule in rules
      ensures SymbolsAgree(al, CharSat(cs), rule.pattern) && Legal(rule.pattern, LegalIn(al))
    {
      PatternAgrees(al, cs, singles, lastccl, rule.pattern);
    }
    forall c | 1 <= c <= al.numecs
      ensures HasChar(al, c)
    {
      ClassHasChar(al, cs, part, c);
    }
    forall i | 1 <= i <= 2 * lastsc
      ensures HasDefault(al, rules, i)
    {
      DefaultRuleMatches(al, rules, lastsc, |rules|, i);
    }
    if al.numecs == cs.csize {
      forall ch | 1 <= ch < cs.csize
        ensures ClassOf(al, ch) != al.nul
      {
        NulAlone(al, cs, part, ch);
      }
    }
    SymbolsMeanHas(al, cs, singles, lastccl);
  }

  lemma SymbolsMeanHas(al: Alphabet, cs: Charset, singles: set<int>, lastccl: nat)
    requires SymbolsMean(al, cs, singles, lastccl)
    ensures |al.ecgroup| == cs.csize + 1
  {
  }

  /**
   Equivalence classes, NFA, DFA, tables: the scanner of a specification that uses REJECT, unless so
   many states of the DFA are candidates for templates that table compression needs number 32766.
   */
  method Flex(nextecm: array<int>, ecgroup: array<int>, ccltbl: array<int>, cclmap: array<int>, ccllen: array<int>,
              cs: Charset, ghost part: seq<int>, ghost singles: set<int>, lastccl: nat, rules: seq<Rule>, lastsc: nat,
              usemecs: bool, interactive: bool)
    returns (al: Alphabet, s: Scan, jammed: nat, errors: bool, ghost k: Known, ghost built: Built, ghost rows: seq<DfaRow>)
    requires nextecm != ecgroup && ecgroup != ccltbl && ecgroup != cclmap && ecgroup != ccllen
    requires ccltbl != cclmap && ccltbl != ccllen && cclmap != ccllen
    requires Refined(cs, part, singles) && Ecs.Linked(nextecm[..], ecgroup[..], part, cs.csize) && ecgroup.Length == cs.csize + 1
    requires ccltbl[..] == cs.tbl && cclmap[..] == cs.map_ && ccllen[..] == cs.len
    requires |cs.map_| == |cs.len| == |cs.ng| == lastccl + 1 && LaidOut(cs.map_, cs.len, |cs.tbl|, lastccl)
    requires cs.csize == 128 || cs.csize == Ecs.CSIZE
    requires forall rule :: rule in rules ==> RuleOk(rule, lastsc) && Legal(rule.pattern, InUse(singles, lastccl))
    requires rules != [] && IsDefaultRule(cs, rules[|rules| - 1], lastsc, lastccl)
    modifies ecgroup, ccltbl, ccllen
    ensures AlphabetOf(al, cs, part) && FromDfa(al, rules, lastsc, s, jammed, built, rows)
    ensures jammed == 0 ==> Made(cs, rules, lastsc, al, s, k)
    ensures errors <==> exists rule :: rule in rules && !WellFormed(rule.pattern)
    ensures s.byTable == (al.numecs == cs.csize) && s.interactive == interactive
  {
    al := MakeAlphabet(nextecm, ecgroup, ccltbl, cclmap, ccllen, cs, part, singles, lastccl);
    assert SymbolsMean(al, cs, singles, lastccl);
    hide SymbolsMean, AlphabetOf, AlphabetOk, ScanOf, Legal, Agrees, HasDefault, RuleOk, WellFormed, FromDfa, Lively, NoEmptyClass, IsDefaultRule;
    AlphabetServes(al, cs, part, singles, lastccl, rules, lastsc);
    s, jammed, errors, k, built, rows := Generate(rules, lastsc, al, cs.csize, usemecs, interactive);
  }

  /** In the buffer NUL looks like its end; read with NUL's class, the text is the classes of its characters. */
  lemma CodesAreText(cs: Charset, rules: seq<Rule>, lastsc: nat, al: Alphabet, s: Scan, k: Known, u: Word)
    requires Made(cs, rules, lastsc, al, s, k) && TextOf(cs, u)
    ensures CharWord(al, u) && Buffered(s, Codes(al, u)) && Text(s, Codes(al, u)) == ClassesOf(al, u)
    ensures 0 !in u ==> forall j :: 0 <= j < |u| ==> Codes(al, u)[j] != 0
    ensures |Codes(al, u)| == |u| + 2 && (u != [] ==> (Codes(al, u)[|u| - 1] == 0 <==> u[|u| - 1] == 0))
  {
    assert s.nul == al.nul && s.g.numecs == al.numecs && 1 <= s.nul;
    assert forall i :: 0 <= i < |u| ==> 0 <= u[i] < cs.csize && u[i] in u;
  }

  /** What the rules say of a turn on a text. */
  ghost predicate TurnOf(cs: Charset, rules: seq<Rule>, i: int, u: Word, ended: bool, h: nat, r: Choice)
    requires h <= |u|
  {
    if ended then r == Acts(|rules| + 1, |u| + 1)
    else if h == 0 then CharToken(cs, rules, i, u, r)
    else CharTokenWithout(cs, rules, i, u, h, r)
  }

  /**
   One turn of the scanner in start state i, on a buffer that holds a text of characters: it finds the
   text's token, or runs to the end of the text.  Only if NUL has a table of its own and occurs can a
   state be missing.  If rules can still match, the scanner runs to the end; and if no pattern uses an
   empty class, only then, and the missing state is where the rules put it.
   */
  method NextTokenOfText(cs: Charset, ghost rules: seq<Rule>, ghost lastsc: nat, al: Alphabet, s: Scan, ghost k: Known, i: int, u: Word)
    returns (r: Choice)
    requires Made(cs, rules, lastsc, al, s, k) && 1 <= i <= 2 * lastsc && TextOf(cs, u)
    ensures Missing(s, k, i, Codes(al, u)) <= |u| && (!s.byTable || 0 !in u ==> Missing(s, k, i, Codes(al, u)) == 0)
    ensures TurnOf(cs, rules, i, u, RunsOut(s, k, i, Codes(al, u)), Missing(s, k, i, Codes(al, u)), r)
    ensures TextRunsOut(cs, rules, i, u, s.interactive) ==> RunsOut(s, k, i, Codes(al, u))
    ensures NoEmptyClass(cs, rules) ==>
      (RunsOut(s, k, i, Codes(al, u)) <==> TextRunsOut(cs, rules, i, u, s.interactive))
    ensures NoEmptyClass(cs, rules) ==> Missing(s, k, i, Codes(al, u)) == TextMissing(cs, rules, i, u, s.byTable, s.interactive)
    ensures TextGoesOn(cs, rules, i, u) && !(s.interactive && u != [] && u[|u| - 1] != 0) ==> r == Acts(|rules| + 1, |u| + 1)
    ensures TextGoesFurther(cs, rules, i, u) ==> r == Acts(|rules| + 1, |u| + 1)
    ensures NoEmptyClass(cs, rules) && !TextGoesOn(cs, rules, i, u) ==> !(r.Acts? && r.act == |rules| + 1)
    ensures NoEmptyClass(cs, rules) && s.interactive && u != [] && u[|u| - 1] != 0 && !TextGoesFurther(cs, rules, i, u) ==>
      !(r.Acts? && r.act == |rules| + 1)
    ensures !(r.Acts? && r.act == |rules| + 1) && (!s.byTable || 0 !in u) ==> CharToken(cs, rules, i, u, r)
  {
    hide GoesOn, GoesFurther, TextGoesOn, TextGoesFurther;
    hide ScanOf, HasDefault, Buffered, TokenOf, CharToken, TokenWithout, CharTokenWithout, Missing, RunsOut, Agrees, Lively, NoEmptyClass;
    hide TextRunsOut, TextMissing, RulesRunOut, RulesMissing, Codes;
    CodesAreText(cs, rules, lastsc, al, s, k, u);
    NoneMissing(s, k, i, Codes(al, u));
    OnwardMirrors(cs, al, rules, i, u);
    r := NextToken(al, rules, lastsc, s, k, i, Codes(al, u));
    TokenOfCharacters(cs, al, rules, i, u, r);
    if 1 <= Missing(s, k, i, Codes(al, u)) {
      WithoutOfCharacters(cs, al, rules, i, u, Missing(s, k, i, Codes(al, u)), r);
    }
    RunOfCharacters(cs, al, rules, i, u, s.byTable, s.interactive);
  }
}
