/**
 A scanner for a pattern with an empty class, two characters and then one that there is none of, and the
 default rule.  After two characters it waits for the third one, so that it runs on to the end of the
 buffer, although no rule can match more than one character.
 */
module EmptyClass {
  import opened Words
  import opened NfaLang
  import opened NfaOps
  import opened NxtChk
  import opened Lookup
  import opened Regex
  import opened Rules
  import opened Follow
  import opened Subset
  import opened MatchLoop
  import opened Scanner
  import opened Tokens

  const NONE := -1
  const ANY := -2

  /** One equivalence class; class 1 is empty, and class 2 is its negation. */
  function OneClass(): Alphabet {
    Alphabet(1, 1, [1], [], [0, 0, 0], [0, 0, 0], [false, false, true])
  }

  function Patterns(): seq<Rule> {
    [Rule(Series(Series(Symbol(ANY), Symbol(ANY)), Symbol(NONE)), false, [1]), Rule(Symbol(ANY), false, [1])]
  }

  /** The start states 1 and 2, the end-of-buffer state 3, states 4 and 5 after one and two characters, the jam state 6. */
  function Rows(): (r: map<int, Row>) {
    map[1 := [3, 4], 2 := [3, 4], 3 := [0, 0], 4 := [3, 5], 5 := [3, 0], 6 := [3, 0]]
  }

  function Tables(): Gen {
    Gen([0, 1, 3, 5, 7, 9, 9], [0, 6, 6, 6, 6, 6, 0], [0, 3, 4, 3, 4, 6, 6, 3, 5, 3, 6], [0, 1, 1, 2, 2, 3, 3, 4, 4, 6, 6],
        [0, 1], 1, false, 5, 6, 10, 9)
  }

  function Waiting(): Scan {
    Scan(Tables(), AcceptTables([0, 1, 1, 1, 2, 3, 3, 3], [0, 3, 2]), 3, false, 1, false, [])
  }

  function Facts(): Known {
    Known(Rows(), Rows(), [[], [], [], [], [2], []], 3)
  }

  lemma TablesHold()
    ensures Encodes(Tables(), Rows())
  {
    var g, rows := Tables(), Rows();
    forall s | 1 <= s <= 6
      ensures s in rows && StateOk(g, rows, s)
    {
      forall c | 0 <= c < |rows[s]|
        ensures EntryOk(g, rows, s, c)
      {
        assert s != 5 ==> SlotOf(g, s, c) == (if s == 6 then 9 else 2 * s - 1) + c;
      }
    }
  }

  lemma RulesListed()
    ensures AllListed(Waiting().accept, Facts().sets, 3, 3)
  {
    var list := Waiting().accept.acclist;
    assert list[1..1] == [] && list[1..2] == [3] && list[2..3] == [2] && list[3..3] == [];
  }

  lemma StateHolds(e: int)
    requires 1 <= e <= 5
    ensures Shaped(Tables()) && StateTables(Waiting(), Facts(), e)
  {
    hide Encodes;
    var full := Facts().full;
    assert full[1][1] == 4 && full[2][1] == 4 && full[4][1] == 5;
  }

  lemma TablesOk()
    ensures ScanTables(Waiting(), Facts())
  {
    hide Encodes, AllListed, StateTables;
    TablesHold();
    RulesListed();
    forall e | 1 <= e <= 5
      ensures StateTables(Waiting(), Facts(), e)
    {
      StateHolds(e);
    }
  }

  lemma Onward(e: int)
    requires e == 1 || e == 2 || e == 4 || e == 5 || e == 6
    ensures e in Rows() && |Rows()[e]| == 2 && Tables().Target(Rows()[e][1]) == if e <= 2 then 4 else if e == 4 then 5 else 6
  {
  }

  lemma AtStart(i: int)
    ensures After(Waiting(), Facts(), i, []) == i
  {
  }

  /** The state after a text depends on its length only. */
  lemma {:induction false} AfterIs(i: int, w: Word)
    requires 1 <= i <= 2 && forall j :: 0 <= j < |w| ==> w[j] == 1
    ensures After(Waiting(), Facts(), i, w) == if w == [] then i else if |w| == 1 then 4 else if |w| == 2 then 5 else 6
    decreases |w|
  {
    hide TableRun, Rows, Tables;
    AtStart(i);
    if w != [] {
      var u := w[..|w| - 1];
      AfterIs(i, u);
      assert w == u + [1];
      TableRunLast(Tables(), Rows(), i, u, 1);
      Onward(After(Waiting(), Facts(), i, u));
    }
  }

  lemma TakesIs(c: int)
    ensures !Takes(OneClass(), NONE, c) && Takes(OneClass(), ANY, c)
  {
  }

  /** Only the default rule matches anything. */
  lemma MatchesIs(i: int, k: int, w: Word)
    requires 1 <= i <= 2 && ClassWord(OneClass(), w)
    ensures RuleMatches(OneClass(), Patterns(), i, k, w) <==> k == 2 && |w| == 1
  {
    var sat := Sat(OneClass());
    forall v: Word
      ensures v !in Single(sat, NONE)
    {
      if |v| == 1 {
        TakesIs(v[0]);
      }
    }
    if |w| == 1 {
      TakesIs(w[0]);
    }
  }

  lemma NotLively()
    ensures !Lively(OneClass(), Patterns())
  {
    assert Patterns()[0] in Patterns();
    assert !TakesSome(OneClass(), NONE) by {
      forall c ensures !Takes(OneClass(), NONE, c) {
        TakesIs(c);
      }
    }
    assert !Legal(Patterns()[0].pattern.right, LivelyIn(OneClass()));
  }

  lemma SaysIs(i: int, w: Word)
    requires 1 <= i <= 2 && ClassWord(OneClass(), w)
    ensures Says(OneClass(), Patterns(), Facts().sets, i, w, Tables(), After(Waiting(), Facts(), i, w))
  {
    hide RuleMatches, After;
    AfterIs(i, w);
    forall k
      ensures RuleMatches(OneClass(), Patterns(), i, k, w) <==> k == 2 && |w| == 1
    {
      MatchesIs(i, k, w);
    }
  }

  lemma IsScanner()
    ensures ScanOf(OneClass(), Patterns(), 1, Waiting(), Facts())
  {
    hide ScanTables, Lively, Says, After;
    TablesOk();
    NotLively();
    forall i, w | 1 <= i <= 2 && ClassWord(OneClass(), w)
      ensures Says(OneClass(), Patterns(), Facts().sets, i, w, Tables(), After(Waiting(), Facts(), i, w))
    {
      SaysIs(i, w);
    }
  }

  /** The text of two characters is run through, but no rule matches a word that begins with it, and its token is its first character. */
  lemma RunsOnForNothing()
    ensures ScanOf(OneClass(), Patterns(), 1, Waiting(), Facts()) && Text(Waiting(), [1, 1, 0, 0]) == [1, 1]
    ensures RunsOut(Waiting(), Facts(), 1, [1, 1, 0, 0]) && !GoesOn(OneClass(), Patterns(), 1, [1, 1])
    ensures TokenOf(OneClass(), Patterns(), 1, [1, 1], Acts(2, 1))
  {
    hide RuleMatches, ScanOf, After;
    IsScanner();
    var w := Text(Waiting(), [1, 1, 0, 0]);
    assert w == [1, 1] && w[..2] == [1, 1] && w[..1] == [1];
    AfterIs(1, [1, 1]);
    forall k, v | ClassWord(OneClass(), v)
      ensures RuleMatches(OneClass(), Patterns(), 1, k, v) <==> k == 2 && |v| == 1
    {
      MatchesIs(1, k, v);
    }
  }
}
