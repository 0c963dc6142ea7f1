/**
 A scanner for the patterns a and a\0b that reads NUL by a table of its own, and what its match loop
 makes of a NUL that leads on to no longer match.
 */
module NulTable {
  import opened NxtChk
  import opened Lookup
  import opened MatchLoop

  const A := 1
  const B := 2
  const NUL_CLASS := 3

  /** The transitions of states 1..4, the end-of-buffer state 5 and the jam state 6, without those on NUL. */
  function Rows(): (r: map<int, Row>) {
    map[1 := [5, 2, 0, 0], 2 := [5, 0, 0, 0], 3 := [5, 0, 4, 0], 4 := [5, 0, 0, 0], 5 := [0, 0, 0, 0], 6 := [5, 0, 0, 0]]
  }

  function Tables(): Gen {
    Gen([0, 1, 5, 9, 21, 17, 21], [0, 6, 6, 6, 6, 6, 0],
        [0, 5, 2, 6, 6, 5, 6, 6, 6, 5, 6, 4, 6, 5, 6, 6, 6, 6, 6, 6, 6, 5, 6, 6, 6],
        [0, 1, 1, 1, 1, 2, 2, 2, 2, 3, 3, 3, 3, 4, 4, 4, 4, 5, 5, 5, 5, 6, 6, 6, 6],
        [0, 1, 2, 3], 3, false, 5, 6, 24, 21)
  }

  function Scanner(interactive: bool): Scan {
    Scan(Tables(), AcceptTables([0, 1, 1, 2, 2, 3, 4, 4], [0, 1, 2, 3]), 3, interactive, NUL_CLASS, true, [0, 0, 3, 0, 0, 0])
  }

  /** State 2 has rule 1, after a; state 4 has rule 2, after a\0b. */
  function Facts(): Known {
    Known(Rows(), Rows()[2 := [5, 0, 0, 3]], [[], [], [1], [], [2], []], 5)
  }

  lemma TablesHold()
    ensures Encodes(Tables(), Rows())
  {
    var g, rows := Tables(), Rows();
    forall s | 1 <= s <= 6
      ensures s in rows && StateOk(g, rows, s)
    {
      forall c | 0 <= c < |rows[s]|
        ensures EntryOk(g, rows, s, c)
      {
        assert s != 4 ==> SlotOf(g, s, c) == 4 * s - 3 + c;
      }
    }
  }

  lemma RulesListed(interactive: bool)
    ensures AllListed(Scanner(interactive).accept, Facts().sets, 5, 3)
  {
    var list := Scanner(interactive).accept.acclist;
    assert list[1..1] == [] && list[1..2] == [1] && list[2..2] == [] && list[2..3] == [2] && list[3..4] == [3] && list[4..4] == [];
  }

  lemma StateHolds(interactive: bool, e: int)
    requires 1 <= e <= 5
    ensures Shaped(Tables()) && StateTables(Scanner(interactive), Facts(), e)
  {
    hide Encodes;
    var full := Facts().full;
    assert full[1][A] == 2 && full[2][NUL_CLASS] == 3 && full[3][B] == 4;
  }

  lemma ScannerOk(interactive: bool)
    ensures ScanTables(Scanner(interactive), Facts())
  {
    hide Encodes, AllListed, StateTables;
    TablesHold();
    RulesListed(interactive);
    forall e | 1 <= e <= 5
      ensures StateTables(Scanner(interactive), Facts(), e)
    {
      StateHolds(interactive, e);
    }
  }

  /** The states on the way through a, NUL, a, and after a, NUL. */
  lemma Runs(interactive: bool)
    ensures var s, k := Scanner(interactive), Facts();
      && After(s, k, 1, []) == 1 && After(s, k, 1, [A]) == 2 && After(s, k, 1, [A, NUL_CLASS]) == 3
      && After(s, k, 1, [A, NUL_CLASS, A]) == 6
  {
    var s, k := Scanner(interactive), Facts();
    TableRunLast(s.g, k.full, 1, [], A);
    assert [] + [A] == [A];
    TableRunLast(s.g, k.full, 1, [A], NUL_CLASS);
    assert [A] + [NUL_CLASS] == [A, NUL_CLASS];
    TableRunLast(s.g, k.full, 1, [A, NUL_CLASS], A);
    assert [A, NUL_CLASS] + [A] == [A, NUL_CLASS, A];
  }

  lemma NoEndRule(interactive: bool)
    ensures EndIsNoRule(Scanner(interactive), Facts(), 1)
  {
    ScannerOk(interactive);
    hide ScanTables, After;
    forall v | Classes(Tables(), v)
      ensures 3 !in RulesAfter(Scanner(interactive), Facts(), 1, v)
    {
      RunInRange(Scanner(interactive), Facts(), 1, v);
    }
  }

  /** The rules of the prefixes of a, NUL, a. */
  lemma PrefixRules(interactive: bool, w: seq<int>, j: nat)
    requires w == [A, NUL_CLASS, A] && j <= 3
    ensures var s, k := Scanner(interactive), Facts();
      && After(s, k, 1, w[..j]) == [1, 2, 3, 6][j]
      && RulesAfter(s, k, 1, w[..j]) == if j == 1 then [1] else []
  {
    Runs(interactive);
    assert w[..0] == [] && w[..1] == [A] && w[..2] == [A, NUL_CLASS] && w[..3] == [A, NUL_CLASS, A];
  }

  lemma FirstIsRight(interactive: bool, w: seq<int>)
    requires w == [A, NUL_CLASS, A]
    ensures Chosen(Scanner(interactive), Facts(), 1, w, Acts(1, 1))
  {
    var s, k := Scanner(interactive), Facts();
    PrefixRules(interactive, w, 1);
    forall v | Classes(s.g, v) && 1 < |v| && Compatible(v, w)
      ensures RulesAfter(s, k, 1, v) == []
    {
      if |v| <= 3 {
        assert v == w[..|v|];
        PrefixRules(interactive, w, |v|);
      } else {
        assert v[..3] == w[..3];
        PrefixRules(interactive, w, 3);
        ScannerOk(interactive);
        DeadEnd(s, k, 1, v, 3);
      }
    }
  }

  /** The state after the NUL is missing on the stack, and no later prefix has a rule. */
  lemma NulIsMissing(interactive: bool, buf: seq<int>, w: seq<int>)
    requires buf == [A, 0, A, 0, 0] && w == [A, NUL_CLASS, A] == Text(Scanner(interactive), buf)
    ensures Missing(Scanner(interactive), Facts(), 1, buf) == 2 && !RunsOut(Scanner(interactive), Facts(), 1, buf)
    ensures !Unharmed(Scanner(interactive), Facts(), 1, w, 2) && !SameRule(Scanner(interactive), Facts(), 1, w, 2)
  {
    hide After, RulesAfter, Scanner, Facts;
    var c := CourseOf(Scanner(interactive), Facts(), 1, w);
    forall j | 0 <= j <= 3
      ensures c.lives[j] == (j != 3) && RulesAfter(Scanner(interactive), Facts(), 1, w[..j]) == if j == 1 then [1] else []
    {
      PrefixRules(interactive, w, j);
      JamIsSix(interactive);
    }
    Input(interactive, buf, w);
    LastNulIs(c, buf, 3, 2);
  }

  lemma MisplacedIs(interactive: bool, w: seq<int>, r: Choice)
    requires w == [A, NUL_CLASS, A] && Misplaced(Scanner(interactive), Facts(), 1, w, 2, r)
    ensures r == Acts(1, 2)
  {
    hide RulesAfter, Scanner, Facts;
    PrefixRules(interactive, w, 0);
    PrefixRules(interactive, w, 1);
  }

  lemma JamIsSix(interactive: bool)
    ensures Scanner(interactive).g.JamState() == 6
  {
  }

  lemma Input(interactive: bool, buf: seq<int>, w: seq<int>)
    requires buf == [A, 0, A, 0, 0] && w == [A, NUL_CLASS, A]
    ensures Text(Scanner(interactive), buf) == w && Buffered(Scanner(interactive), buf) && DefaultRule(Scanner(interactive), Facts(), 1, w)
    ensures Scanner(interactive).byTable && Scanner(interactive).endAction == 3
  {
    PrefixRules(interactive, w, 1);
  }

  /** On a, NUL, a the token is a, but the scanner takes the NUL as well. */
  method NulMisplaces(interactive: bool) returns (r: Choice)
    ensures r == Acts(1, 2) && !Chosen(Scanner(interactive), Facts(), 1, [A, NUL_CLASS, A], r)
    ensures Chosen(Scanner(interactive), Facts(), 1, [A, NUL_CLASS, A], Acts(1, 1))
  {
    hide ScanTables, Buffered, Chosen, Missing, RunsOut, Unharmed, SameRule, Misplaced, EndIsNoRule, DefaultRule, After, Scanner, Facts;
    ScannerOk(interactive);
    NoEndRule(interactive);
    ghost var w := [A, NUL_CLASS, A];
    var s, buf := Scanner(interactive), [A, 0, A, 0, 0];
    Input(interactive, buf, w);
    FirstIsRight(interactive, w);
    NulIsMissing(interactive, buf, w);
    r := Match(s, Facts(), 1, buf);
    MisplacedIs(interactive, w, r);
  }
}
