/**
 The full-speed scanner of a specification without REJECT: the table that `genctbl` makes of its DFA
 (`ext/flex/gen.c`), and the tokens found by the match loop with backing up.
 */
module FullScanner {
  import opened Words
  import opened Regex
  import opened Rules
  import opened Follow
  import opened Subset
  import opened Dfa
  import opened MatchLoop
  import opened Scanner
  import opened Tokens
  import FullSpeed

  /** The transition arrays with an empty one for state 0. */
  function WithJam(trans: seq<seq<int>>, numecs: nat): (full: seq<seq<int>>)
    requires trans != []
    ensures |full| == |trans| && full[0] == seq(numecs + 1, i => 0) && forall s :: 1 <= s < |trans| ==> full[s] == trans[s]
  {
    [seq(numecs + 1, i => 0)] + trans[1..]
  }

  /** The table is followed as the DFA is run. */
  lemma {:induction false} FollowIsRun(trans: seq<seq<int>>, numecs: nat, s: int, w: Word)
    requires trans != [] && 1 <= s && forall e :: 1 <= e < |trans| ==> |trans[e]| == numecs + 1
    ensures FullSpeed.Follow(FullSpeed.RowMap(WithJam(trans, numecs)), s, w) == Run(trans, s, w)
    decreases |w|
  {
    if w != [] {
      FollowIsRun(trans, numecs, s, w[..|w| - 1]);
    }
  }

  /** Having jammed, the DFA does not go on. */
  lemma {:induction false} RunDead(trans: seq<seq<int>>, s: int, w: Word, x: nat)
    requires x <= |w| && Run(trans, s, w[..x]) == 0
    ensures Run(trans, s, w) == 0
    decreases |w|
  {
    if x == |w| {
      assert w[..x] == w;
    } else {
      var u := w[..|w| - 1];
      assert u[..x] == w[..x];
      RunDead(trans, s, u, x);
    }
  }

  /** The action numbers of the states, 0 where a state accepts nothing. */
  function Numbers(dfaacc: seq<Acceptance>): (acc: seq<int>)
    ensures |acc| == |dfaacc| && (0 < |acc| ==> acc[0] == 0)
    ensures forall s :: 1 <= s < |dfaacc| && dfaacc[s].Lowest? ==> acc[s] == dfaacc[s].rule
  {
    seq(|dfaacc|, s requires 0 <= s < |dfaacc| => if s == 0 || dfaacc[s].Every? then 0 else dfaacc[s].rule)
  }

  /** After w the DFA has jammed, or is in a state with the first rule that matches w. */
  ghost predicate FirstAfter(al: Alphabet, rules: seq<Rule>, trans: seq<seq<int>>, acc: seq<int>, i: int, w: Word) {
    var e := Run(trans, i, w);
    if e == 0 then !SomeMatch(al, rules, i, w)
    else 1 <= e < |acc| && if acc[e] == 0 then !SomeMatch(al, rules, i, w) else IsFirst(al, rules, i, w, acc[e])
  }

  /** The table is that of the rules.  If every symbol stands for some class, it is followed only as long as a rule can match. */
  ghost predicate FullOf(al: Alphabet, rules: seq<Rule>, lastsc: nat, out: seq<FullSpeed.Info>, base: seq<int>, trans: seq<seq<int>>, acc: seq<int>) {
    && 1 <= al.numecs && 2 * lastsc < |trans| - 1 && |acc| == |trans| && (forall e :: 1 <= e < |trans| ==> |trans[e]| == al.numecs + 1)
    && (forall e, c :: 1 <= e < |trans| && 1 <= c <= al.numecs ==> 0 <= trans[e][c] < |trans|)
    && FullSpeed.Exact(out, base, FullSpeed.RowMap(WithJam(trans, al.numecs)), al.numecs, |trans| - 1, acc, |rules| + 1)
    && (Lively(al, rules) ==> AllGoOn(al, rules, lastsc, trans))
    && forall i, w :: 1 <= i <= 2 * lastsc && ClassWord(al, w) ==> FirstAfter(al, rules, trans, acc, i, w)
  }

  lemma VerdictIsFirst(al: Alphabet, rules: seq<Rule>, trans: seq<seq<int>>, dfaacc: seq<Acceptance>, i: int, w: Word)
    requires Verdict(al, rules, trans, dfaacc, i, w) && forall e :: 1 <= e < |dfaacc| ==> dfaacc[e].Lowest?
    ensures FirstAfter(al, rules, trans, Numbers(dfaacc), i, w)
  {
    hide RuleMatches, Run;
  }

  /** The full-speed table of a specification. */
  method GenerateFull(rules: seq<Rule>, lastsc: nat, al: Alphabet, csize: nat)
    returns (out: seq<FullSpeed.Info>, base: seq<int>, errors: bool, ghost trans: seq<seq<int>>, ghost acc: seq<int>)
    requires AlphabetOk(al) && NulOk(al, csize)
    requires forall rule :: rule in rules ==> RuleOk(rule, lastsc) && Legal(rule.pattern, LegalIn(al))
    ensures FullOf(al, rules, lastsc, out, base, trans, acc)
    ensures errors <==> exists rule :: rule in rules && !WellFormed(rule.pattern)
  {
    hide Verdict, Legal, WellFormed, RuleOk, AlphabetOk, Interned, AllPassed, FirstAfter, FullSpeed.Exact, BuiltFrom, Lively, AllGoOn;
    var d, eob, useNul, table, rows, nultrans;
    ghost var built;
    d, eob, useNul, table, rows, nultrans, errors, built := BuildDfa(rules, lastsc, al, csize, false);
    trans := table;
    RowsGood(al, csize, useNul, table, rows, nultrans);
    PassedLengths(al, useNul, table, rows, nultrans);
    var numbers := Numbers(d.dfaacc);
    acc := numbers;
    out, base := FullSpeed.BuildFullTable(WithJam(table, al.numecs), al.numecs, numbers, |rules| + 1);
    forall i, w | 1 <= i <= 2 * lastsc && ClassWord(al, w)
      ensures FirstAfter(al, rules, trans, acc, i, w)
    {
      VerdictIsFirst(al, rules, trans, d.dfaacc, i, w);
    }
  }

  /** Where the table's run ends, so do the matches. */
  lemma NothingLonger(al: Alphabet, rules: seq<Rule>, lastsc: nat, out: seq<FullSpeed.Info>, base: seq<int>, trans: seq<seq<int>>, acc: seq<int>,
                      i: int, w: Word, cp: nat, v: Word)
    requires FullOf(al, rules, lastsc, out, base, trans, acc) && 1 <= i <= 2 * lastsc && cp < |w|
    requires FullSpeed.Follow(FullSpeed.RowMap(WithJam(trans, al.numecs)), i, w[..cp + 1]) == 0
    requires ClassWord(al, v) && cp < |v| && Compatible(v, w)
    ensures !SomeMatch(al, rules, i, v)
  {
    assert v[..cp + 1] == w[..cp + 1];
    FollowIsRun(trans, al.numecs, i, w[..cp + 1]);
    RunDead(trans, i, v, cp + 1);
    assert FirstAfter(al, rules, trans, acc, i, v);
  }

  /** What the state after a prefix says of it. */
  lemma StateSays(al: Alphabet, rules: seq<Rule>, lastsc: nat, out: seq<FullSpeed.Info>, base: seq<int>, trans: seq<seq<int>>, acc: seq<int>,
                  i: int, w: Word, j: nat)
    requires FullOf(al, rules, lastsc, out, base, trans, acc) && 1 <= i <= 2 * lastsc && ClassWord(al, w) && j <= |w|
    ensures var e := FullSpeed.Follow(FullSpeed.RowMap(WithJam(trans, al.numecs)), i, w[..j]);
      if 1 <= e < |acc| && acc[e] != 0 then IsFirst(al, rules, i, w[..j], acc[e]) else !SomeMatch(al, rules, i, w[..j])
  {
    PartIsWord(al, w, j);
    FollowIsRun(trans, al.numecs, i, w[..j]);
    assert FirstAfter(al, rules, trans, acc, i, w[..j]);
  }

  /** The last prefix with an action, before the run ends, is the token. */
  lemma LastActionIsToken(al: Alphabet, rules: seq<Rule>, lastsc: nat, out: seq<FullSpeed.Info>, base: seq<int>, trans: seq<seq<int>>,
                          acc: seq<int>, i: int, w: Word, cp: nat, j: nat)
    requires FullOf(al, rules, lastsc, out, base, trans, acc) && 1 <= i <= 2 * lastsc && ClassWord(al, w) && 1 <= j <= cp < |w|
    requires var rows := FullSpeed.RowMap(WithJam(trans, al.numecs));
      && FullSpeed.Follow(rows, i, w[..cp + 1]) == 0
      && (var e := FullSpeed.Follow(rows, i, w[..j]); 1 <= e < |acc| && acc[e] != 0)
      && forall x :: j < x <= cp ==> var e := FullSpeed.Follow(rows, i, w[..x]); 1 <= e < |acc| && acc[e] == 0
    ensures TokenOf(al, rules, i, w, Acts(acc[FullSpeed.Follow(FullSpeed.RowMap(WithJam(trans, al.numecs)), i, w[..j])], j))
  {
    hide FullOf, IsFirst, RuleMatches, FullSpeed.Follow, FullSpeed.RowMap, WithJam;
    StateSays(al, rules, lastsc, out, base, trans, acc, i, w, j);
    forall v, k | ClassWord(al, v) && j < |v| && Compatible(v, w)
      ensures !RuleMatches(al, rules, i, k, v)
    {
      if |v| <= cp {
        assert v == w[..|v|];
        StateSays(al, rules, lastsc, out, base, trans, acc, i, w, |v|);
      } else {
        NothingLonger(al, rules, lastsc, out, base, trans, acc, i, w, cp, v);
      }
      assert !SomeMatch(al, rules, i, v);
    }
  }

  /** The default rule matches the first character. */
  lemma FirstMatches(al: Alphabet, rules: seq<Rule>, i: int, w: Word)
    requires HasDefault(al, rules, i) && ClassWord(al, w) && w != []
    ensures SomeMatch(al, rules, i, w[..1])
  {
    assert w[..1] == [w[0]] && w[0] in w;
    assert IsMatched(al, rules, i, w[0]);
  }

  lemma FirstActs(al: Alphabet, rules: seq<Rule>, lastsc: nat, out: seq<FullSpeed.Info>, base: seq<int>, trans: seq<seq<int>>, acc: seq<int>,
                  i: int, w: Word)
    requires FullOf(al, rules, lastsc, out, base, trans, acc) && 1 <= i <= 2 * lastsc && HasDefault(al, rules, i) && ClassWord(al, w) && w != []
    ensures var e := FullSpeed.Follow(FullSpeed.RowMap(WithJam(trans, al.numecs)), i, w[..1]); 1 <= e < |acc| && acc[e] != 0
  {
    FirstMatches(al, rules, i, w);
    StateSays(al, rules, lastsc, out, base, trans, acc, i, w, 1);
  }

  /** The loop has stopped short of the end of the buffer, in a state with an action. */
  lemma StopIsToken(al: Alphabet, rules: seq<Rule>, lastsc: nat, out: seq<FullSpeed.Info>, base: seq<int>, trans: seq<seq<int>>,
                    acc: seq<int>, i: int, buf: seq<int>, w: Word, cp: nat, state: int)
    requires FullOf(al, rules, lastsc, out, base, trans, acc) && 1 <= i <= 2 * lastsc && HasDefault(al, rules, i)
    requires |buf| >= 2 && w == buf[..|buf| - 2] && ClassWord(al, w) && cp < |w|
    requires var rows := FullSpeed.RowMap(WithJam(trans, al.numecs));
      && FullSpeed.Follow(rows, i, buf[..cp + 1]) == 0
      && FullSpeed.StoppedIn(out, base, |trans| - 1, acc, state, FullSpeed.Follow(rows, i, buf[..cp]))
    ensures 1 <= state <= |out| && (out[state - 1].next != 0 ==> TokenOf(al, rules, i, w, Acts(out[state - 1].next, cp)))
  {
    hide FullOf, HasDefault, TokenOf, SomeMatch, IsFirst, FullSpeed.Follow, FullSpeed.RowMap, WithJam;
    assert w[..cp] == buf[..cp] && w[..cp + 1] == buf[..cp + 1];
    FirstActs(al, rules, lastsc, out, base, trans, acc, i, w);
    if out[state - 1].next != 0 {
      LastActionIsToken(al, rules, lastsc, out, base, trans, acc, i, w, cp, cp);
    }
  }

  /** It has stopped in a state without an action; then one before had one. */
  lemma BackUpIsToken(al: Alphabet, rules: seq<Rule>, lastsc: nat, out: seq<FullSpeed.Info>, base: seq<int>, trans: seq<seq<int>>,
                      acc: seq<int>, i: int, buf: seq<int>, w: Word, cp: nat, state: int, lastCpos: int, lastState: int)
    requires FullOf(al, rules, lastsc, out, base, trans, acc) && 1 <= i <= 2 * lastsc && HasDefault(al, rules, i)
    requires |buf| >= 2 && w == buf[..|buf| - 2] && ClassWord(al, w) && cp < |w|
    requires var rows := FullSpeed.RowMap(WithJam(trans, al.numecs));
      && FullSpeed.Follow(rows, i, buf[..cp + 1]) == 0
      && FullSpeed.StoppedIn(out, base, |trans| - 1, acc, state, FullSpeed.Follow(rows, i, buf[..cp]))
    requires 1 <= state <= |out| && out[state - 1].next == 0
    requires FullSpeed.Noted(out, base, FullSpeed.RowMap(WithJam(trans, al.numecs)), |trans| - 1, acc, i, buf, cp, lastCpos, lastState)
    ensures 1 <= lastState <= |out| && TokenOf(al, rules, i, w, Acts(out[lastState - 1].next, lastCpos + 1))
  {
    hide FullOf, HasDefault, TokenOf, SomeMatch, IsFirst, FullSpeed.Follow, FullSpeed.RowMap, WithJam;
    assert forall j :: 0 <= j <= |w| ==> w[..j] == buf[..j];
    FirstActs(al, rules, lastsc, out, base, trans, acc, i, w);
    assert w[..1] == buf[..1];
    LastActionIsToken(al, rules, lastsc, out, base, trans, acc, i, w, cp, lastCpos + 1);
  }

  /** Once the DFA has jammed no rule can match; and if no symbol stands for nothing, only then. */
  lemma RunIsLive(al: Alphabet, rules: seq<Rule>, lastsc: nat, out: seq<FullSpeed.Info>, base: seq<int>, trans: seq<seq<int>>, acc: seq<int>,
                  i: int, u: Word)
    requires FullOf(al, rules, lastsc, out, base, trans, acc) && 1 <= i <= 2 * lastsc && HasDefault(al, rules, i) && ClassWord(al, u)
    ensures GoesOn(al, rules, i, u) ==> Run(trans, i, u) != 0
    ensures Lively(al, rules) ==> (Run(trans, i, u) != 0 <==> GoesOn(al, rules, i, u))
  {
    hide Lively, SomeMatch, FullSpeed.Exact;
    forall v | ClassWord(al, v) && u <= v && SomeMatch(al, rules, i, v)
      ensures Run(trans, i, u) != 0
    {
      assert v[..|u|] == u && FirstAfter(al, rules, trans, acc, i, v);
      if Run(trans, i, u) == 0 {
        RunDead(trans, i, v, |u|);
      }
    }
    if u == [] {
      FirstMatches(al, rules, i, [1]);
      assert [1][..1] == [1] && ClassWord(al, [1]) && [] <= [1];
    }
  }

  /** The run has not stopped before the end of the buffer exactly if the DFA has not jammed. */
  lemma EndIsReached(trans: seq<seq<int>>, numecs: nat, i: int, buf: seq<int>, w: Word, cp: nat)
    requires trans != [] && 1 <= i && (forall e :: 1 <= e < |trans| ==> |trans[e]| == numecs + 1)
    requires |buf| >= 2 && w == buf[..|buf| - 2]
    requires var rows := FullSpeed.RowMap(WithJam(trans, numecs));
      && (cp < |w| ==> FullSpeed.Follow(rows, i, buf[..cp + 1]) == 0)
      && (cp >= |w| ==> forall j :: 1 <= j <= |w| ==> FullSpeed.Follow(rows, i, buf[..j]) != 0)
    ensures Run(trans, i, w) != 0 <==> cp >= |w|
  {
    hide FullSpeed.RowMap, WithJam;
    if cp < |w| {
      assert w[..cp + 1] == buf[..cp + 1];
      FollowIsRun(trans, numecs, i, w[..cp + 1]);
      RunDead(trans, i, w, cp + 1);
    } else {
      FollowIsRun(trans, numecs, i, w);
    }
  }

  lemma FullOfHas(al: Alphabet, rules: seq<Rule>, lastsc: nat, out: seq<FullSpeed.Info>, base: seq<int>, trans: seq<seq<int>>, acc: seq<int>)
    requires FullOf(al, rules, lastsc, out, base, trans, acc)
    ensures 2 * lastsc < |trans| - 1 < |base| && |acc| == |trans| && forall e :: 1 <= e < |trans| ==> |trans[e]| == al.numecs + 1
    ensures var rows := FullSpeed.RowMap(WithJam(trans, al.numecs));
      && FullSpeed.Exact(out, base, rows, al.numecs, |trans| - 1, acc, |rules| + 1)
      && forall s, c :: 0 <= s <= |trans| - 1 && s in rows && 1 <= c < |rows[s]| ==> 0 <= rows[s][c] <= |trans| - 1
  {
  }

  /**
   One turn of the full-speed scanner, on a buffer without NUL characters: the end-of-buffer action if
   the DFA has not jammed at the end, otherwise the token.  As long as rules can match the DFA has not
   jammed; and if no symbol stands for nothing, no longer.
   */
  method NextFullToken(al: Alphabet, ghost rules: seq<Rule>, ghost lastsc: nat, out: seq<FullSpeed.Info>, base: seq<int>, ghost trans: seq<seq<int>>,
                       ghost acc: seq<int>, i: int, buf: seq<int>) returns (r: Choice)
    requires FullOf(al, rules, lastsc, out, base, trans, acc) && 1 <= i <= 2 * lastsc && HasDefault(al, rules, i)
    requires |buf| >= 2 && buf[|buf| - 2] == buf[|buf| - 1] == 0 && ClassWord(al, buf[..|buf| - 2])
    ensures if Run(trans, i, buf[..|buf| - 2]) != 0 then r == Acts(|rules| + 1, |buf| - 1) else TokenOf(al, rules, i, buf[..|buf| - 2], r)
    ensures GoesOn(al, rules, i, buf[..|buf| - 2]) ==> Run(trans, i, buf[..|buf| - 2]) != 0
    ensures Lively(al, rules) ==> (Run(trans, i, buf[..|buf| - 2]) != 0 <==> GoesOn(al, rules, i, buf[..|buf| - 2]))
  {
    hide FullOf, HasDefault, TokenOf, Lively, GoesOn, Run, FullSpeed.Exact, FullSpeed.Noted, FullSpeed.StoppedIn, FullSpeed.Follow, FullSpeed.RowMap, WithJam;
    FullOfHas(al, rules, lastsc, out, base, trans, acc);
    ghost var w, full := buf[..|buf| - 2], FullSpeed.RowMap(WithJam(trans, al.numecs));
    assert forall j :: 0 <= j < |w| ==> buf[j] in w;
    var cp, state, lastCpos, lastState := FullSpeed.FullMatch(out, base, full, al.numecs, |trans| - 1, acc, |rules| + 1, i, base[i], buf);
    EndIsReached(trans, al.numecs, i, buf, w, cp);
    RunIsLive(al, rules, lastsc, out, base, trans, acc, i, w);
    if cp < |w| {
      StopIsToken(al, rules, lastsc, out, base, trans, acc, i, buf, w, cp, state);
      if out[state - 1].next == 0 {
        BackUpIsToken(al, rules, lastsc, out, base, trans, acc, i, buf, w, cp, state, lastCpos, lastState);
      }
    }
    var yy_act := out[state - 1].next;
    if yy_act == 0 {
      // no action here: the one noted before counts
      cp := lastCpos + 1;
      yy_act := out[lastState - 1].next;
    }
    r := Acts(yy_act, cp);
  }
}
