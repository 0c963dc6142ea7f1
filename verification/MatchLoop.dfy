/**
 The scanner's match loop in the form it has with REJECT (`yylex` in `ext/flex/scan.c`), with the
 way it reads NUL characters, and the accepting lists (`gentabs` in `ext/flex/gen.c`).
 */
module MatchLoop {
  import opened Words
  import opened NxtChk
  import opened Lookup

  // ---- yy_accept and yy_acclist ----

  /** yy_acclist holds the rules of state s from yy_accept[s] up to yy_accept[s + 1]. */
  datatype AcceptTables = AcceptTables(accept: seq<int>, acclist: seq<int>)

  ghost predicate Lists(a: AcceptTables, s: int, rules: seq<int>) {
    && 1 <= s && s + 1 < |a.accept| && 1 <= a.accept[s] <= a.accept[s + 1] <= |a.acclist|
    && a.acclist[a.accept[s]..a.accept[s + 1]] == rules
  }

  /** The end-of-buffer state accepts the end-of-buffer action, the jam state nothing. */
  function RulesOf(sets: seq<seq<int>>, eob: int, endAction: int, s: int): seq<int> {
    if s == eob then [endAction] else if 1 <= s < |sets| then sets[s] else []
  }

  ghost predicate AllListed(a: AcceptTables, sets: seq<seq<int>>, eob: int, endAction: int) {
    forall s :: 1 <= s <= |sets| ==> Lists(a, s, RulesOf(sets, eob, endAction, s))
  }

  /** The states below i have been listed; j is the next free index. */
  ghost predicate ListedBelow(accept: seq<int>, acclist: seq<int>, sets: seq<seq<int>>, eob: int, endAction: int, i: int) {
    && |accept| == i && 1 <= |acclist| && (forall s :: 1 <= s < i ==> 1 <= accept[s] <= EndOf(accept, acclist, s) <= |acclist|)
    && forall s :: 1 <= s < i ==> acclist[accept[s]..EndOf(accept, acclist, s)] == RulesOf(sets, eob, endAction, s)
  }

  /** Where the list of state s ends. */
  function EndOf(accept: seq<int>, acclist: seq<int>, s: int): int {
    if 0 <= s + 1 < |accept| then accept[s + 1] else |acclist|
  }

  lemma ListedStep(accept: seq<int>, acclist: seq<int>, sets: seq<seq<int>>, eob: int, endAction: int, i: int)
    requires ListedBelow(accept, acclist, sets, eob, endAction, i) && 1 <= i
    ensures ListedBelow(accept + [|acclist|], acclist + RulesOf(sets, eob, endAction, i), sets, eob, endAction, i + 1)
  {
    var accept1, acclist1 := accept + [|acclist|], acclist + RulesOf(sets, eob, endAction, i);
    forall s | 1 <= s < i + 1
      ensures 1 <= accept1[s] <= EndOf(accept1, acclist1, s) <= |acclist1|
      ensures acclist1[accept1[s]..EndOf(accept1, acclist1, s)] == RulesOf(sets, eob, endAction, s)
    {
      if s < i {
        assert EndOf(accept1, acclist1, s) == EndOf(accept, acclist, s);
        assert acclist1[accept[s]..EndOf(accept, acclist, s)] == acclist[accept[s]..EndOf(accept, acclist, s)];
      } else {
        assert acclist1[|acclist|..|acclist1|] == RulesOf(sets, eob, endAction, i);
      }
    }
  }

  /** Emits the accepting lists of states 1..lastdfa, an empty one for the jam state, and a cap. */
  method GenAccept(sets: seq<seq<int>>, eob: int, endAction: int) returns (a: AcceptTables)
    requires 1 <= |sets| && 1 <= eob < |sets|
    ensures AllListed(a, sets, eob, endAction)
  {
    var accept, acclist := [0], [0];
    var i := 1;
    while i < |sets|
      invariant 1 <= i <= |sets| && ListedBelow(accept, acclist, sets, eob, endAction, i)
    {
      ListedStep(accept, acclist, sets, eob, endAction, i);
      accept := accept + [|acclist|];
      var accset := if i == eob then [endAction] else sets[i];
      ghost var acclist0 := acclist;
      var k := 0;
      assert accset[..0] == [];
      while k < |accset|
        invariant 0 <= k <= |accset| && acclist == acclist0 + accset[..k]
      {
        assert accset[..k + 1] == accset[..k] + [accset[k]];
        acclist := acclist + [accset[k]];
        k := k + 1;
      }
      assert accset[..k] == accset;
      i := i + 1;
    }
    ListedStep(accept, acclist, sets, eob, endAction, i);
    assert acclist + RulesOf(sets, eob, endAction, i) == acclist;
    accept := accept + [|acclist|];
    accept := accept + [|acclist|];
    a := AcceptTables(accept, acclist);
  }

  // ---- the scanner and what is known of its tables ----

  /**
   A generated scanner.  NUL characters are read as class nul, by yy_NUL_trans if byTable is set;
   an interactive scanner stops before a state without transitions would jam.
   */
  datatype Scan = Scan(g: Gen, accept: AcceptTables, endAction: int, interactive: bool, nul: int, byTable: bool, nultrans: seq<int>)

  /** What the tables hold, the same with the transitions on NUL, the rules of the states, and the end-of-buffer state. */
  datatype Known = Known(rows: map<int, Row>, full: map<int, Row>, sets: seq<seq<int>>, eob: int)

  /** Class 0 leads every state but eob itself to eob, and no other class does; the jam state only jams. */
  ghost predicate ScanTables(s: Scan, k: Known) {
    && Encodes(s.g, k.rows) && 1 <= k.eob <= s.g.lastdfa && 1 <= s.nul <= s.g.numecs && |k.sets| == s.g.lastdfa + 1
    && (s.byTable ==> |s.nultrans| == s.g.lastdfa + 1) && AllListed(s.accept, k.sets, k.eob, s.endAction)
    && (forall e :: 1 <= e <= s.g.lastdfa ==> StateTables(s, k, e))
    && s.g.base[s.g.JamState()] == s.g.jambase && s.g.JamState() in k.full && |k.full[s.g.JamState()]| == s.g.numecs + 1
    && forall c :: 1 <= c <= s.g.numecs ==> k.full[s.g.JamState()][c] == 0
  }

  /** What the tables hold of state e: without NUL's transition if that is in a table of its own. */
  ghost predicate StateTables(s: Scan, k: Known, e: int)
    requires Shaped(s.g) && 1 <= e <= s.g.lastdfa && (s.byTable ==> |s.nultrans| == s.g.lastdfa + 1)
  {
    && e in k.rows && e in k.full && RowOk(s.g, k.rows[e], e, k.eob) && RowOk(s.g, k.full[e], e, k.eob)
    && (forall c :: 1 <= c <= s.g.numecs && !(s.byTable && c == s.nul) ==> k.rows[e][c] == k.full[e][c])
    && (s.byTable && 1 <= s.nul <= s.g.numecs ==> s.nultrans[e] == k.full[e][s.nul])
    && (s.g.base[e] == s.g.jambase <==> e != k.eob && forall c :: 1 <= c <= s.g.numecs ==> k.full[e][c] == 0)
  }

  ghost predicate RowOk(g: Gen, row: Row, s: int, eob: int) {
    && |row| == g.numecs + 1 && row[0] == (if s == eob then 0 else eob)
    && forall c :: 1 <= c <= g.numecs ==> 0 <= row[c] <= g.lastdfa && row[c] != eob && (s == eob ==> row[c] == 0)
  }

  // ---- runs over the tables ----

  /** The state after word w. */
  ghost function TableRun(g: Gen, rows: map<int, Row>, s: int, w: Word): int {
    if w == [] then s
    else
      var e, c := TableRun(g, rows, s, w[..|w| - 1]), w[|w| - 1];
      if e in rows && 0 <= c < |rows[e]| then g.Target(rows[e][c]) else 0
  }

  lemma TableRunLast(g: Gen, rows: map<int, Row>, s: int, w: Word, c: int)
    ensures var e := TableRun(g, rows, s, w);
      TableRun(g, rows, s, w + [c]) == if e in rows && 0 <= c < |rows[e]| then g.Target(rows[e][c]) else 0
  {
    assert (w + [c])[..|w|] == w;
  }

  predicate Classes(g: Gen, w: Word) {
    forall i :: 0 <= i < |w| ==> 1 <= w[i] <= g.numecs
  }

  /** The state after w, NUL included. */
  ghost function After(s: Scan, k: Known, start: int, w: Word): int {
    TableRun(s.g, k.full, start, w)
  }

  ghost predicate Start(s: Scan, k: Known, start: int) {
    1 <= start <= s.g.lastdfa && start != k.eob
  }

  /** Words of classes lead to ordinary states other than the end-of-buffer state, or to the jam state. */
  lemma {:induction false} RunInRange(s: Scan, k: Known, start: int, w: Word)
    requires ScanTables(s, k) && Classes(s.g, w) && 1 <= start <= s.g.lastdfa
    ensures 1 <= After(s, k, start, w) <= s.g.JamState() && (w != [] || start != k.eob ==> After(s, k, start, w) != k.eob)
    decreases |w|
  {
    if w != [] {
      var u, c := w[..|w| - 1], w[|w| - 1];
      assert w == u + [c];
      RunInRange(s, k, start, u);
      TableRunLast(s.g, k.full, start, u, c);
      var e := After(s, k, start, u);
      if e <= s.g.lastdfa {
        assert StateTables(s, k, e);
      }
    }
  }

  /** The loop stops here. */
  predicate Stops(s: Scan, e: int) {
    if s.interactive then Bare(s, e) else e == s.g.JamState()
  }

  /** One word begins with the other. */
  predicate Compatible(v: Word, w: Word) {
    v <= w || w <= v
  }

  /** Every word that agrees with w and is longer than x jams. */
  ghost predicate Ended(s: Scan, k: Known, start: int, w: Word, x: nat) {
    forall v :: Classes(s.g, v) && x < |v| && Compatible(v, w) ==> After(s, k, start, v) == s.g.JamState()
  }

  /** Once the run has jammed, or is in a state without transitions, it jams on every further class. */
  lemma {:induction false} DeadEnd(s: Scan, k: Known, start: int, v: Word, x: nat)
    requires ScanTables(s, k) && Classes(s.g, v) && x < |v|
    requires var t := After(s, k, start, v[..x]); 1 <= t <= s.g.JamState() && (t == s.g.JamState() || Bare(s, t))
    ensures After(s, k, start, v) == s.g.JamState()
    decreases |v|
  {
    var u, c := v[..|v| - 1], v[|v| - 1];
    assert v == u + [c];
    TableRunLast(s.g, k.full, start, u, c);
    if |u| == x {
      assert u == v[..x];
      var e := After(s, k, start, u);
      if e <= s.g.lastdfa {
        assert StateTables(s, k, e);
      }
    } else {
      assert u[..x] == v[..x];
      DeadEnd(s, k, start, u, x);
    }
  }

  lemma StopEnds(s: Scan, k: Known, start: int, w: Word, x: nat)
    requires ScanTables(s, k) && x <= |w|
    requires var t := After(s, k, start, w[..x]); 1 <= t <= s.g.JamState() && Stops(s, t)
    ensures Ended(s, k, start, w, x)
  {
    forall v | Classes(s.g, v) && x < |v| && Compatible(v, w)
      ensures After(s, k, start, v) == s.g.JamState()
    {
      assert v[..x] == w[..x];
      DeadEnd(s, k, start, v, x);
    }
  }

  lemma JamEnds(s: Scan, k: Known, start: int, w: Word, x: nat)
    requires ScanTables(s, k) && x < |w| && After(s, k, start, w[..x + 1]) == s.g.JamState()
    ensures Ended(s, k, start, w, x)
  {
    forall v | Classes(s.g, v) && x < |v| && Compatible(v, w)
      ensures After(s, k, start, v) == s.g.JamState()
    {
      assert v[..x + 1] == w[..x + 1];
      if |v| == x + 1 {
        assert v == v[..x + 1];
      } else {
        DeadEnd(s, k, start, v, x + 1);
      }
    }
  }

  // ---- the buffer, and the stack of states ----

  /**
   The characters in the buffer as yy_ec has them, followed by the two end-of-buffer characters.
   NUL characters are 0 like those; no other character is in NUL's class if NUL has its own table.
   */
  ghost predicate Buffered(s: Scan, buf: seq<int>) {
    && |buf| >= 2 && buf[|buf| - 2] == buf[|buf| - 1] == 0
    && forall i :: 0 <= i < |buf| ==> 0 <= buf[i] <= s.g.numecs && !(s.byTable && buf[i] == s.nul)
  }

  /** The classes of characters that are 0 where they are NUL. */
  function Read(nul: int, codes: seq<int>): (w: Word)
    ensures |w| == |codes| && forall i :: 0 <= i < |w| ==> w[i] == if codes[i] == 0 then nul else codes[i]
  {
    seq(|codes|, i requires 0 <= i < |codes| => if codes[i] == 0 then nul else codes[i])
  }

  /** The word in the buffer. */
  function Text(s: Scan, buf: seq<int>): (w: Word)
    requires |buf| >= 2
    ensures |w| == |buf| - 2 && forall i :: 0 <= i < |w| ==> w[i] == if buf[i] == 0 then s.nul else buf[i]
  {
    Read(s.nul, buf[..|buf| - 2])
  }

  lemma TextIsClasses(s: Scan, k: Known, buf: seq<int>)
    requires ScanTables(s, k) && Buffered(s, buf)
    ensures Classes(s.g, Text(s, buf))
  {
  }

  /** The states on the way through w. */
  ghost predicate Trail(s: Scan, k: Known, start: int, w: Word, t: seq<int>) {
    && 1 <= |t| <= |w| + 1
    && forall j :: 0 <= j < |t| ==> t[j] == After(s, k, start, w[..j]) && 1 <= t[j] <= s.g.JamState() && t[j] != k.eob
  }

  /** Before its last state a trail has not jammed. */
  lemma TrailAlive(s: Scan, k: Known, start: int, w: Word, t: seq<int>, j: nat)
    requires ScanTables(s, k) && Classes(s.g, w) && Trail(s, k, start, w, t) && j < |t| && t[|t| - 1] <= s.g.lastdfa
    ensures t[j] <= s.g.lastdfa
  {
    var v := w[..|t| - 1];
    if t[j] == s.g.JamState() && j < |v| {
      assert v[..j] == w[..j];
      DeadEnd(s, k, start, v, j);
    }
  }

  lemma TrailStep(s: Scan, k: Known, start: int, w: Word, t: seq<int>, next: int)
    requires ScanTables(s, k) && Classes(s.g, w) && Start(s, k, start) && Trail(s, k, start, w, t) && |t| <= |w|
    requires var e := t[|t| - 1]; e <= s.g.lastdfa && e in k.full && w[|t| - 1] < |k.full[e]| && next == s.g.Target(k.full[e][w[|t| - 1]])
    ensures Trail(s, k, start, w, t + [next])
  {
    var j := |t|;
    assert w[..j] == w[..j - 1] + [w[j - 1]];
    TableRunLast(s.g, k.full, start, w[..j - 1], w[j - 1]);
    RunInRange(s, k, start, w[..j]);
  }

  /** The stack the scanner has: position hole of the trail is missing, unless hole is 0. */
  function Without(t: seq<int>, hole: nat): seq<int>
    requires hole < |t|
  {
    if hole == 0 then t else t[..hole] + t[hole + 1..]
  }

  /**
   The loop is on the trail, or past a 0 in the buffer: in the end-of-buffer state, or one further and
   jammed.  It has read on from cp0, and has not stopped since.
   */
  ghost predicate Ahead(s: Scan, k: Known, start: int, buf: seq<int>, cp0: nat, hole: nat, stack: seq<int>, cp: nat, t: seq<int>, e: int)
    requires |buf| >= 2
  {
    && Trail(s, k, start, Text(s, buf), t) && cp0 < |t| && t[cp0] <= s.g.lastdfa && hole < |t| && (forall j :: cp0 <= j < |t| - 1 ==> buf[j] != 0)
    && 1 <= e <= s.g.JamState() && (forall j :: cp0 < j < cp && j < |t| ==> !Stops(s, t[j]))
    && match cp - |t| {
         case -1 => e == t[cp] && stack == Without(t, hole)
         case 0 => buf[|t| - 1] == 0 && t[|t| - 1] <= s.g.lastdfa && e == k.eob && stack == Without(t, hole) + [k.eob]
         case 1 => buf[|t| - 1] == 0 && t[|t| - 1] <= s.g.lastdfa && e == s.g.JamState() && stack == Without(t, hole) + [k.eob, s.g.JamState()]
         case _ => false
       }
  }

  /** A character other than NUL is read as its class, in the tables and in the text. */
  lemma CharIsRead(s: Scan, k: Known, buf: seq<int>, cp: nat, e: int)
    requires ScanTables(s, k) && |buf| >= 2 && Buffered(s, buf) && cp < |buf| && 1 <= e <= s.g.lastdfa && buf[cp] != 0
    ensures cp < |buf| - 2 && Text(s, buf)[cp] == buf[cp] && Classes(s.g, Text(s, buf)) && 0 <= buf[cp]
    ensures e in k.rows && e in k.full && buf[cp] < |k.rows[e]| && buf[cp] < |k.full[e]| && k.rows[e][buf[cp]] == k.full[e][buf[cp]]
  {
    assert StateTables(s, k, e);
  }

  lemma WithoutGrows(t: seq<int>, hole: nat, next: int)
    requires hole < |t|
    ensures Without(t + [next], hole) == Without(t, hole) + [next]
  {
  }

  lemma AheadOnTrail(s: Scan, k: Known, start: int, buf: seq<int>, cp0: nat, hole: nat, stack: seq<int>, cp: nat, t: seq<int>, e: int,
                     next: int)
    requires ScanTables(s, k) && |buf| >= 2 && Buffered(s, buf) && Start(s, k, start) && cp < |buf| && e <= s.g.lastdfa
    requires Ahead(s, k, start, buf, cp0, hole, stack, cp, t, e) && cp == |t| - 1 && buf[cp] != 0
    requires e in k.rows && buf[cp] < |k.rows[e]| && 0 <= buf[cp] && next == s.g.Target(k.rows[e][buf[cp]])
    requires cp == cp0 || !Stops(s, e)
    ensures Ahead(s, k, start, buf, cp0, hole, stack + [next], cp + 1, t + [next], next)
  {
    hide ScanTables, Buffered, Trail, Without, Start, Stops;
    CharIsRead(s, k, buf, cp, e);
    TrailStep(s, k, start, Text(s, buf), t, next);
    TrailLast(s, k, start, Text(s, buf), t, next);
    WithoutGrows(t, hole, next);
  }

  lemma TrailLast(s: Scan, k: Known, start: int, w: Word, t: seq<int>, next: int)
    requires Trail(s, k, start, w, t + [next])
    ensures 1 <= next <= s.g.JamState()
  {
    assert (t + [next])[|t|] == next;
  }

  lemma AheadPast(s: Scan, k: Known, start: int, buf: seq<int>, cp0: nat, hole: nat, stack: seq<int>, cp: nat, t: seq<int>, e: int,
                  next: int)
    requires ScanTables(s, k) && Buffered(s, buf) && cp < |buf| && e <= s.g.lastdfa
    requires Ahead(s, k, start, buf, cp0, hole, stack, cp, t, e) && !(cp == |t| - 1 && buf[cp] != 0)
    requires e in k.rows && buf[cp] < |k.rows[e]| && next == s.g.Target(k.rows[e][buf[cp]])
    requires cp == cp0 || !Stops(s, e)
    ensures Ahead(s, k, start, buf, cp0, hole, stack + [next], cp + 1, t, next)
  {
    hide ScanTables, Without, Stops;
    EndIsRead(s, k, buf, cp, e);
  }

  /** Class 0 leads to the end-of-buffer state, and that jams. */
  lemma EndIsRead(s: Scan, k: Known, buf: seq<int>, cp: nat, e: int)
    requires ScanTables(s, k) && Buffered(s, buf) && cp < |buf| && 1 <= e <= s.g.lastdfa && (e == k.eob || buf[cp] == 0)
    ensures e in k.rows && 0 <= buf[cp] < |k.rows[e]| && s.g.Target(k.rows[e][buf[cp]]) == if e == k.eob then s.g.JamState() else k.eob
    ensures 1 <= k.eob <= s.g.lastdfa
  {
    assert StateTables(s, k, e);
  }

  /** Before a state that is no jam state the loop has a character to read and a row to read it by. */
  lemma AheadHas(s: Scan, k: Known, start: int, buf: seq<int>, cp0: nat, hole: nat, stack: seq<int>, cp: nat, t: seq<int>, e: int)
    requires ScanTables(s, k) && Buffered(s, buf) && Ahead(s, k, start, buf, cp0, hole, stack, cp, t, e) && e <= s.g.lastdfa
    ensures cp < |buf| && e in k.rows && 0 <= buf[cp] < |k.rows[e]| && 1 <= e <= s.g.total && Encodes(s.g, k.rows)
  {
    assert StateTables(s, k, e);
  }

  lemma AheadIn(s: Scan, k: Known, start: int, buf: seq<int>, cp0: nat, hole: nat, stack: seq<int>, cp: nat, t: seq<int>, e: int)
    requires ScanTables(s, k) && |buf| >= 2 && Ahead(s, k, start, buf, cp0, hole, stack, cp, t, e)
    ensures 1 <= e <= s.g.JamState() < |s.g.base| && cp <= |buf| && s.g.base[s.g.JamState()] == s.g.jambase
  {
  }

  /** The first loop: runs until the scanner cannot go on. */
  method RunAhead(s: Scan, ghost k: Known, ghost start: int, buf: seq<int>, state: int, stack0: seq<int>, cp0: nat, ghost t0: seq<int>,
                  ghost hole: nat) returns (stack: seq<int>, cp: nat, ghost t: seq<int>)
    requires ScanTables(s, k) && Buffered(s, buf) && |buf| >= 2 && Start(s, k, start) && state <= s.g.lastdfa
    requires |t0| == cp0 + 1 && Ahead(s, k, start, buf, cp0, hole, stack0, cp0, t0, state)
    ensures cp0 < cp && exists e :: 0 <= e < |s.g.base| && Ahead(s, k, start, buf, cp0, hole, stack, cp, t, e) && Stops(s, e)
  {
    hide Ahead, ScanTables, Buffered, Encodes;
    var yy_current_state := state;
    stack, cp, t := stack0, cp0, t0;
    AheadIn(s, k, start, buf, cp0, hole, stack, cp, t, yy_current_state);
    var first := true;
    while first || !Stops(s, yy_current_state)
      invariant 1 <= yy_current_state <= s.g.JamState() < |s.g.base| && cp0 <= cp <= |buf| && (first ==> yy_current_state <= s.g.lastdfa)
      invariant Ahead(s, k, start, buf, cp0, hole, stack, cp, t, yy_current_state) && (first ==> cp == cp0) && (!first ==> cp0 < cp)
      decreases |buf| - cp
    {
      AheadHas(s, k, start, buf, cp0, hole, stack, cp, t, yy_current_state);
      var next;
      ghost var metas;
      next, metas := NextState(s.g, yy_current_state, buf[cp], k.rows);
      if cp == |t| - 1 && buf[cp] != 0 {
        AheadOnTrail(s, k, start, buf, cp0, hole, stack, cp, t, yy_current_state, next);
        t := t + [next];
      } else {
        AheadPast(s, k, start, buf, cp0, hole, stack, cp, t, yy_current_state, next);
      }
      yy_current_state := next;
      stack := stack + [yy_current_state];
      cp := cp + 1;
      first := false;
      AheadIn(s, k, start, buf, cp0, hole, stack, cp, t, yy_current_state);
    }
  }

  // ---- how far the scanner gets ----

  /**
   The course of a run through a text: after which prefixes of the text it has not jammed, and after
   which ones there is a character to go on with.
   */
  datatype Course = Course(lives: seq<bool>, more: seq<bool>)

  predicate CourseOn(c: Course, buf: seq<int>) {
    |c.lives| == |c.more| == |buf| - 1
  }

  /**
   After j characters the loop reads the next one: it has not jammed, and if it is interactive it is
   not in a state without transitions.  It does not look whether it is in such a state on a NUL.
   */
  predicate ReadsOn(c: Course, interactive: bool, buf: seq<int>, j: nat)
    requires CourseOn(c, buf) && j <= |buf| - 2
  {
    c.lives[j] && (interactive && 0 < j && buf[j - 1] != 0 ==> c.more[j])
  }

  /** The run ends on a NUL that the loop has read. */
  predicate EndsOnNul(c: Course, interactive: bool, buf: seq<int>)
    requires CourseOn(c, buf)
  {
    exists j :: 0 <= j < |buf| - 2 && buf[j] == 0 && ReadsOn(c, interactive, buf, j) && !c.lives[j + 1]
  }

  /** The end of the last NUL in the first n characters that is passed, or 0. */
  function LastNul(c: Course, buf: seq<int>, n: nat): nat
    requires CourseOn(c, buf) && n <= |buf| - 2
  {
    if n == 0 then 0 else if buf[n - 1] == 0 && c.lives[n] then n else LastNul(c, buf, n - 1)
  }

  /**
   The position on the stack of states that is missing at the end of the run, or 0: that of the last
   NUL passed, if NUL has a table of its own, and unless the stack has been made anew for a later one.
   */
  function Hole(c: Course, byTable: bool, interactive: bool, buf: seq<int>): nat
    requires CourseOn(c, buf)
  {
    if !byTable || |buf| < 2 || EndsOnNul(c, interactive, buf) then 0 else LastNul(c, buf, |buf| - 2)
  }

  lemma {:induction false} LastNulIs(c: Course, buf: seq<int>, n: nat, h: nat)
    requires CourseOn(c, buf) && h <= n <= |buf| - 2 && forall j :: h < j <= n ==> buf[j - 1] != 0 || !c.lives[j]
    requires h > 0 ==> buf[h - 1] == 0 && c.lives[h]
    ensures LastNul(c, buf, n) == h
  {
    if h < n {
      LastNulIs(c, buf, n - 1, h);
    }
  }

  lemma {:induction false} LastNulPassed(c: Course, buf: seq<int>, n: nat)
    requires CourseOn(c, buf) && n <= |buf| - 2
    ensures LastNul(c, buf, n) <= n
    ensures LastNul(c, buf, n) > 0 ==> buf[LastNul(c, buf, n) - 1] == 0 && c.lives[LastNul(c, buf, n)]
  {
    if n > 0 {
      LastNulPassed(c, buf, n - 1);
    }
  }

  /**
   None is missing if NUL has no table of its own, or if a NUL is read that the run does not survive.
   It is read where the run lives, unless the scanner is interactive and has stopped before it.
   */
  lemma HoleIsNone(c: Course, byTable: bool, interactive: bool, buf: seq<int>, j: nat)
    requires CourseOn(c, buf) && |buf| >= 2 && (byTable ==> j < |buf| - 2 && buf[j] == 0 && c.lives[j] && !c.lives[j + 1])
    requires byTable && interactive && j > 0 && buf[j - 1] != 0 ==> c.more[j]
    ensures Hole(c, byTable, interactive, buf) == 0
  {
    if byTable {
      assert ReadsOn(c, interactive, buf, j);
    }
  }

  /** Otherwise it is that of the last NUL on which the run lives. */
  lemma HoleIsLast(c: Course, interactive: bool, buf: seq<int>, h: nat)
    requires CourseOn(c, buf) && |buf| >= 2 && h <= |buf| - 2 && (h > 0 ==> buf[h - 1] == 0 && c.lives[h])
    requires forall j :: h < j <= |buf| - 2 ==> buf[j - 1] != 0 || !c.lives[j]
    requires forall j :: 0 <= j < |buf| - 2 && buf[j] == 0 && c.lives[j] && !c.lives[j + 1] ==>
      interactive && j > 0 && buf[j - 1] != 0 && !c.more[j]
    ensures Hole(c, true, interactive, buf) == h
  {
    LastNulIs(c, buf, |buf| - 2, h);
  }

  /** State e has no transitions. */
  predicate Bare(s: Scan, e: int) {
    0 <= e < |s.g.base| && s.g.base[e] == s.g.jambase
  }

  /** The course of a run over the tables. */
  ghost function CourseOf(s: Scan, k: Known, start: int, w: Word): (c: Course)
    ensures |c.lives| == |c.more| == |w| + 1
    ensures forall j :: 0 <= j <= |w| ==> c.lives[j] == (After(s, k, start, w[..j]) != s.g.JamState())
    ensures forall j :: 0 <= j <= |w| ==> c.more[j] == !Bare(s, After(s, k, start, w[..j]))
  {
    Course(seq(|w| + 1, j requires 0 <= j <= |w| => After(s, k, start, w[..j]) != s.g.JamState()),
           seq(|w| + 1, j requires 0 <= j <= |w| => !Bare(s, After(s, k, start, w[..j]))))
  }

  /** The loop reaches the end of the buffer. */
  ghost predicate RunsOut(s: Scan, k: Known, start: int, buf: seq<int>)
    requires |buf| >= 2
  {
    ReadsOn(CourseOf(s, k, start, Text(s, buf)), s.interactive, buf, |buf| - 2)
  }

  /** The position of the state that the stack lacks. */
  ghost function Missing(s: Scan, k: Known, start: int, buf: seq<int>): nat
    requires |buf| >= 2
  {
    Hole(CourseOf(s, k, start, Text(s, buf)), s.byTable, s.interactive, buf)
  }

  /** Without NUL characters, or without a table of their own, no state is missing. */
  lemma NoneMissing(s: Scan, k: Known, start: int, buf: seq<int>)
    requires |buf| >= 2
    ensures !s.byTable || (forall j :: 0 <= j < |buf| - 2 ==> buf[j] != 0) ==> Missing(s, k, start, buf) == 0
  {
    LastNulPassed(CourseOf(s, k, start, Text(s, buf)), buf, |buf| - 2);
  }

  // ---- choosing the action ----

  /** The rules of the state after w. */
  ghost function RulesAfter(s: Scan, k: Known, start: int, w: Word): seq<int> {
    RulesOf(k.sets, k.eob, s.endAction, After(s, k, start, w))
  }

  /** What the second loop finds in a stack. */
  ghost predicate Found(s: Scan, k: Known, stack: seq<int>, cp0: int, found: bool, act: int, cp: int, top: int) {
    && -1 <= top < |stack| && cp == cp0 - (|stack| - 1 - top) && (found <==> 0 <= top)
    && (forall j :: top < j < |stack| ==> RulesOf(k.sets, k.eob, s.endAction, stack[j]) == [])
    && (found ==> var rules := RulesOf(k.sets, k.eob, s.endAction, stack[top]); rules != [] && act == rules[0])
  }

  /** The second loop: takes states off the stack until one has a rule.  It may find none: then it has left the stack. */
  method FindAction(s: Scan, ghost k: Known, stack: seq<int>, cp0: int) returns (found: bool, act: int, cp: int, ghost top: int)
    requires ScanTables(s, k) && stack != [] && forall j :: 0 <= j < |stack| ==> 1 <= stack[j] <= s.g.JamState()
    ensures Found(s, k, stack, cp0, found, act, cp, top)
  {
    var yy_state_ptr := |stack| - 1;
    cp, act := cp0, 0;
    while yy_state_ptr >= 0
      invariant -1 <= yy_state_ptr < |stack| && cp == cp0 - (|stack| - 1 - yy_state_ptr)
      invariant forall j :: yy_state_ptr < j < |stack| ==> RulesOf(k.sets, k.eob, s.endAction, stack[j]) == []
    {
      var yy_current_state := stack[yy_state_ptr];
      assert Lists(s.accept, yy_current_state, RulesOf(k.sets, k.eob, s.endAction, yy_current_state));
      var yy_lp := s.accept.accept[yy_current_state];
      if yy_lp != 0 && yy_lp < s.accept.accept[yy_current_state + 1] {
        act := s.accept.acclist[yy_lp];
        return true, act, cp, yy_state_ptr;
      }
      cp := cp - 1;
      yy_state_ptr := yy_state_ptr - 1;
    }
    found, top := false, -1;
  }

  // ---- NUL characters ----

  /** The transition on NUL, from the tables or from yy_NUL_trans; there 0 stands for the jam state. */
  method NulTrans(s: Scan, ghost k: Known, state: int) returns (next: int, isJam: bool)
    requires ScanTables(s, k) && 1 <= state <= s.g.lastdfa
    ensures state in k.full && s.nul < |k.full[state]| && (isJam <==> k.full[state][s.nul] == 0)
    ensures !isJam ==> next == s.g.Target(k.full[state][s.nul]) && next != s.g.JamState()
  {
    assert StateTables(s, k, state);
    if s.byTable {
      next := s.nultrans[state];
      isJam := next == 0;
    } else {
      ghost var metas;
      next, metas := NextState(s.g, state, s.nul, k.rows);
      isJam := next == s.g.JamState();
    }
  }

  /** Goes through the first `amount` characters again, NUL included, and stacks every state. */
  method GetPreviousState(s: Scan, ghost k: Known, start: int, buf: seq<int>, amount: nat, ghost t: seq<int>) returns (stack: seq<int>)
    requires ScanTables(s, k) && Buffered(s, buf) && Start(s, k, start) && amount <= |buf| - 2
    requires Trail(s, k, start, Text(s, buf), t) && |t| == amount + 1 && t[amount] <= s.g.lastdfa
    ensures stack == t
  {
    var yy_current_state := start;
    stack := [start];
    assert Text(s, buf)[..0] == [];
    TextIsClasses(s, k, buf);
    var yy_cp := 0;
    while yy_cp < amount
      invariant 0 <= yy_cp <= amount && |stack| == yy_cp + 1 && stack == t[..yy_cp + 1] && yy_current_state == t[yy_cp]
    {
      TrailAlive(s, k, start, Text(s, buf), t, yy_cp);
      TrailAlive(s, k, start, Text(s, buf), t, yy_cp + 1);
      assert StateTables(s, k, yy_current_state);
      TrailStep(s, k, start, Text(s, buf), t[..yy_cp + 1], s.g.Target(k.full[yy_current_state][Text(s, buf)[yy_cp]]));
      if buf[yy_cp] != 0 {
        ghost var metas;
        yy_current_state, metas := NextState(s.g, yy_current_state, buf[yy_cp], k.rows);
      } else {
        var isJam;
        yy_current_state, isJam := NulTrans(s, k, yy_current_state);
      }
      stack := stack + [yy_current_state];
      yy_cp := yy_cp + 1;
    }
  }

  // ---- the whole loop ----

  /** The action and the number of characters it is performed for, or the scanner has left its stack of states. */
  datatype Choice = Acts(act: int, cp: int) | Lost

  /** What is right: act is the first rule of the state after cp characters, and no longer word has any rule. */
  ghost predicate Chosen(s: Scan, k: Known, start: int, w: Word, r: Choice) {
    && r.Acts? && 1 <= r.cp <= |w|
    && (var rules := RulesAfter(s, k, start, w[..r.cp]); rules != [] && r.act == rules[0])
    && forall v :: Classes(s.g, v) && r.cp < |v| && Compatible(v, w) ==> RulesAfter(s, k, start, v) == []
  }

  /** The start leads on the first character to a state with a rule: the default rule sees to that. */
  ghost predicate DefaultRule(s: Scan, k: Known, start: int, w: Word) {
    Start(s, k, start) && (w != [] ==> RulesAfter(s, k, start, w[..1]) != [])
  }

  /** The end-of-buffer action is no rule. */
  ghost predicate EndIsNoRule(s: Scan, k: Known, start: int) {
    forall v :: Classes(s.g, v) ==> s.endAction !in RulesAfter(s, k, start, v)
  }

  /** A prefix longer than h has a rule. */
  ghost predicate LaterRule(s: Scan, k: Known, start: int, w: Word, h: nat) {
    exists j :: h < j <= |w| && RulesAfter(s, k, start, w[..j]) != []
  }

  /** The prefixes of lengths h - 1 and h have the same first rule. */
  ghost predicate SameRule(s: Scan, k: Known, start: int, w: Word, h: nat)
    requires 1 <= h <= |w|
  {
    var before, after := RulesAfter(s, k, start, w[..h - 1]), RulesAfter(s, k, start, w[..h]);
    before != [] && after != [] && before[0] == after[0]
  }

  /** No state is missing on the stack, or a later one has a rule. */
  ghost predicate Unharmed(s: Scan, k: Known, start: int, w: Word, hole: nat) {
    hole == 0 || LaterRule(s, k, start, w, hole)
  }

  /** No state is missing on the stack, or the rules are where the missing one does not matter. */
  ghost predicate InPlace(s: Scan, k: Known, start: int, w: Word, hole: nat)
    requires hole <= |w|
  {
    Unharmed(s, k, start, w, hole) || SameRule(s, k, start, w, hole)
  }

  /**
   What is chosen if position h is missing on the stack and no longer prefix has a rule: the first
   rule of the last prefix shorter than h that has any, but for one character more; without such a
   prefix the stack is left.
   */
  ghost predicate Misplaced(s: Scan, k: Known, start: int, w: Word, h: nat, r: Choice)
    requires h <= |w|
  {
    match r
    case Lost => forall j :: 0 <= j < h ==> RulesAfter(s, k, start, w[..j]) == []
    case Acts(act, cp) =>
      && 1 <= cp <= h && (forall j :: cp <= j < h ==> RulesAfter(s, k, start, w[..j]) == [])
      && var rules := RulesAfter(s, k, start, w[..cp - 1]); rules != [] && act == rules[0]
  }

  /** The last state of the trail with a rule gives the right choice. */
  lemma LastRule(s: Scan, k: Known, start: int, w: Word, t: seq<int>, act: int, cp: int)
    requires Trail(s, k, start, w, t) && Ended(s, k, start, w, |t| - 1) && |k.sets| == s.g.lastdfa + 1
    requires 1 <= cp < |t| && forall j :: cp < j < |t| ==> RulesOf(k.sets, k.eob, s.endAction, t[j]) == []
    requires var rules := RulesOf(k.sets, k.eob, s.endAction, t[cp]); rules != [] && act == rules[0]
    requires k.eob <= s.g.lastdfa
    ensures Chosen(s, k, start, w, Acts(act, cp))
  {
    forall v | Classes(s.g, v) && cp < |v| && Compatible(v, w)
      ensures RulesAfter(s, k, start, v) == []
    {
      if |v| < |t| {
        assert v == w[..|v|];
      }
    }
  }

  /** A full stack gives the right choice. */
  lemma FullStack(s: Scan, k: Known, start: int, w: Word, t: seq<int>, found: bool, act: int, cp: int, top: int)
    requires Trail(s, k, start, w, t) && 2 <= |t| && Ended(s, k, start, w, |t| - 1) && |k.sets| == s.g.lastdfa + 1 && k.eob <= s.g.lastdfa
    requires DefaultRule(s, k, start, w) && Found(s, k, t, |t| - 1, found, act, cp, top)
    ensures found && Chosen(s, k, start, w, Acts(act, cp))
  {
    assert RulesOf(k.sets, k.eob, s.endAction, t[1]) != [];
    LastRule(s, k, start, w, t, act, cp);
  }

  ghost predicate RunOver(s: Scan, k: Known, start: int, w: Word, t: seq<int>, hole: nat, stack: seq<int>) {
    && Trail(s, k, start, w, t) && 1 <= hole < |t| - 1 && Ended(s, k, start, w, |t| - 1) && |k.sets| == s.g.lastdfa + 1
    && k.eob <= s.g.lastdfa && Classes(s.g, w) && |stack| == |t| - 1
    && forall j :: 0 <= j < |stack| ==> stack[j] == t[if j < hole then j else j + 1]
  }

  lemma FoundAbove(s: Scan, k: Known, start: int, w: Word, t: seq<int>, hole: nat, stack: seq<int>, found: bool, act: int, cp: int, top: int)
    requires RunOver(s, k, start, w, t, hole, stack) && Found(s, k, stack, |t| - 1, found, act, cp, top) && hole <= top
    ensures Chosen(s, k, start, w, Acts(act, cp)) && LaterRule(s, k, start, w, hole)
  {
    forall j | cp < j < |t| ensures RulesOf(k.sets, k.eob, s.endAction, t[j]) == [] {
      assert t[j] == stack[j - 1];
    }
    LastRule(s, k, start, w, t, act, cp);
    assert RulesAfter(s, k, start, w[..cp]) != [];
  }

  lemma NoLaterRule(s: Scan, k: Known, start: int, w: Word, t: seq<int>, hole: nat, stack: seq<int>, found: bool, act: int, cp: int, top: int)
    requires RunOver(s, k, start, w, t, hole, stack) && Found(s, k, stack, |t| - 1, found, act, cp, top) && top < hole
    ensures !LaterRule(s, k, start, w, hole)
    ensures forall j :: hole < j < |t| ==> RulesOf(k.sets, k.eob, s.endAction, t[j]) == []
  {
    forall j | hole < j < |t| ensures RulesOf(k.sets, k.eob, s.endAction, t[j]) == [] {
      assert t[j] == stack[j - 1];
    }
    forall j | hole < j <= |w| ensures RulesAfter(s, k, start, w[..j]) == [] {
      if j >= |t| {
        assert Classes(s.g, w[..j]) && Compatible(w[..j], w);
      }
    }
  }

  lemma FoundMisplaced(s: Scan, k: Known, start: int, w: Word, t: seq<int>, hole: nat, stack: seq<int>, found: bool, act: int, cp: int, top: int)
    requires RunOver(s, k, start, w, t, hole, stack) && Found(s, k, stack, |t| - 1, found, act, cp, top) && top < hole
    ensures Misplaced(s, k, start, w, hole, if found then Acts(act, cp) else Lost)
  {
    forall j | 0 <= j < hole ensures RulesAfter(s, k, start, w[..j]) == RulesOf(k.sets, k.eob, s.endAction, stack[j]) {
      assert t[j] == stack[j];
    }
  }

  lemma FoundAtHole(s: Scan, k: Known, start: int, w: Word, t: seq<int>, hole: nat, stack: seq<int>, found: bool, act: int, cp: int, top: int)
    requires RunOver(s, k, start, w, t, hole, stack) && Found(s, k, stack, |t| - 1, found, act, cp, top) && top == hole - 1
    requires forall j :: hole < j < |t| ==> RulesOf(k.sets, k.eob, s.endAction, t[j]) == []
    ensures Chosen(s, k, start, w, Acts(act, cp)) <==> SameRule(s, k, start, w, hole)
  {
    assert RulesAfter(s, k, start, w[..hole - 1]) == RulesOf(k.sets, k.eob, s.endAction, stack[top]);
    assert RulesAfter(s, k, start, w[..hole]) == RulesOf(k.sets, k.eob, s.endAction, t[hole]);
    if SameRule(s, k, start, w, hole) {
      LastRule(s, k, start, w, t, act, cp);
    }
  }

  lemma FoundBelow(s: Scan, k: Known, start: int, w: Word, t: seq<int>, hole: nat, stack: seq<int>, found: bool, act: int, cp: int, top: int)
    requires RunOver(s, k, start, w, t, hole, stack) && Found(s, k, stack, |t| - 1, found, act, cp, top) && top < hole - 1
    ensures !SameRule(s, k, start, w, hole) && (found ==> !Chosen(s, k, start, w, Acts(act, cp)))
  {
    assert RulesAfter(s, k, start, w[..hole - 1]) == RulesOf(k.sets, k.eob, s.endAction, stack[hole - 1]);
    if found {
      assert cp == top + 1;
      assert RulesAfter(s, k, start, w[..cp]) == RulesOf(k.sets, k.eob, s.endAction, stack[cp]);
    }
  }

  /** A stack without position hole gives the right choice if and only if a longer prefix has a rule, or the two around hole agree. */
  lemma ShortStack(s: Scan, k: Known, start: int, w: Word, t: seq<int>, hole: nat, found: bool, act: int, cp: int, top: int)
    requires Trail(s, k, start, w, t) && 1 <= hole < |t| - 1 && Ended(s, k, start, w, |t| - 1) && |k.sets| == s.g.lastdfa + 1
    requires k.eob <= s.g.lastdfa && Classes(s.g, w) && Found(s, k, Without(t, hole), |t| - 1, found, act, cp, top)
    ensures Chosen(s, k, start, w, if found then Acts(act, cp) else Lost)
      <==> LaterRule(s, k, start, w, hole) || SameRule(s, k, start, w, hole)
    ensures LaterRule(s, k, start, w, hole) || Misplaced(s, k, start, w, hole, if found then Acts(act, cp) else Lost)
  {
    var stack := Without(t, hole);
    assert RunOver(s, k, start, w, t, hole, stack);
    assert found <==> 0 <= top;
    hide RunOver, Found, Trail, Ended, LaterRule, SameRule, Misplaced;
    if hole <= top {
      FoundAbove(s, k, start, w, t, hole, stack, found, act, cp, top);
    } else {
      NoLaterRule(s, k, start, w, t, hole, stack, found, act, cp, top);
      FoundMisplaced(s, k, start, w, t, hole, stack, found, act, cp, top);
      if top == hole - 1 {
        FoundAtHole(s, k, start, w, t, hole, stack, found, act, cp, top);
      } else {
        FoundBelow(s, k, start, w, t, hole, stack, found, act, cp, top);
      }
    }
  }

  // ---- the whole loop ----

  /** What the end of the buffer comes to: the end-of-buffer action is chosen, right after the 0. */
  lemma PastIsEnd(s: Scan, k: Known, start: int, buf: seq<int>, cp0: nat, hole: nat, stack: seq<int>, cp: nat, t: seq<int>, e: int,
                  found: bool, act: int, cp1: int, top: int)
    requires ScanTables(s, k) && |buf| >= 2 && Ahead(s, k, start, buf, cp0, hole, stack, cp, t, e) && cp != |t| - 1
    requires Found(s, k, stack, cp, found, act, cp1, top)
    ensures found && act == s.endAction && cp1 == |t| && buf[|t| - 1] == 0 && t[|t| - 1] <= s.g.lastdfa
  {
    var n := |Without(t, hole)|;
    assert stack[n] == k.eob && RulesOf(k.sets, k.eob, s.endAction, stack[n]) == [s.endAction];
    if cp == |t| + 1 {
      assert stack[n + 1] == s.g.JamState() && RulesOf(k.sets, k.eob, s.endAction, stack[n + 1]) == [];
    }
  }

  lemma AheadTrail(s: Scan, k: Known, start: int, buf: seq<int>, cp0: nat, hole: nat, stack: seq<int>, cp: nat, t: seq<int>, e: int)
    requires |buf| >= 2 && Ahead(s, k, start, buf, cp0, hole, stack, cp, t, e) && cp == |t| - 1
    ensures Trail(s, k, start, Text(s, buf), t) && hole < |t| && stack == Without(t, hole)
  {
  }

  lemma WithoutAt(t: seq<int>, hole: nat, top: nat) returns (j: nat)
    requires hole < |t| && top < |Without(t, hole)|
    ensures j < |t| && Without(t, hole)[top] == t[j]
  {
    j := if hole == 0 || top < hole then top else top + 1;
  }

  lemma TrailRule(s: Scan, k: Known, start: int, w: Word, t: seq<int>, j: nat, act: int)
    requires Classes(s.g, w) && Trail(s, k, start, w, t) && j < |t| && EndIsNoRule(s, k, start)
    requires act in RulesOf(k.sets, k.eob, s.endAction, t[j])
    ensures act != s.endAction
  {
    assert Classes(s.g, w[..j]);
    assert act in RulesAfter(s, k, start, w[..j]);
  }

  /** Where the loop stops on the trail, only rules are found. */
  lemma TrailHasRules(s: Scan, k: Known, start: int, buf: seq<int>, cp0: nat, hole: nat, stack: seq<int>, cp: nat, t: seq<int>, e: int,
                      found: bool, act: int, cp1: int, top: int)
    requires ScanTables(s, k) && |buf| >= 2 && Buffered(s, buf) && Ahead(s, k, start, buf, cp0, hole, stack, cp, t, e) && cp == |t| - 1
    requires Found(s, k, stack, cp, found, act, cp1, top) && EndIsNoRule(s, k, start)
    ensures !(found && act == s.endAction)
  {
    hide Ahead, ScanTables, Buffered, Trail, Without, EndIsNoRule, RulesOf;
    AheadTrail(s, k, start, buf, cp0, hole, stack, cp, t, e);
    TextIsClasses(s, k, buf);
    if found {
      var j := WithoutAt(t, hole, top);
      TrailRule(s, k, start, Text(s, buf), t, j, act);
    }
  }

  /** Where the loop has read on, the run has not jammed. */
  lemma AheadLives(s: Scan, k: Known, start: int, buf: seq<int>, cp0: nat, hole: nat, stack: seq<int>, cp: nat, t: seq<int>, e: int, j: nat)
    requires ScanTables(s, k) && |buf| >= 2 && Buffered(s, buf) && Ahead(s, k, start, buf, cp0, hole, stack, cp, t, e)
    requires j < |t| && j < cp && cp0 < cp
    ensures j <= |buf| - 2 && After(s, k, start, Text(s, buf)[..j]) != s.g.JamState()
    ensures cp0 < j ==> !Stops(s, After(s, k, start, Text(s, buf)[..j]))
  {
    hide ScanTables, Buffered;
    JamIsBare(s, k);
    if j <= cp0 {
      TextIsClasses(s, k, buf);
      TrailBegins(s, k, start, Text(s, buf), t, cp0);
      hide Trail;
      TrailAlive(s, k, start, Text(s, buf), t[..cp0 + 1], j);
    }
  }

  lemma JamIsBare(s: Scan, k: Known)
    requires ScanTables(s, k)
    ensures Bare(s, s.g.JamState())
  {
  }

  lemma TrailBegins(s: Scan, k: Known, start: int, w: Word, t: seq<int>, m: nat)
    requires Trail(s, k, start, w, t) && m < |t|
    ensures Trail(s, k, start, w, t[..m + 1]) && forall j :: 0 <= j < |t| ==> t[j] == After(s, k, start, w[..j])
  {
  }

  /** The course of a run that has stopped on the trail. */
  lemma StopCourse(s: Scan, k: Known, start: int, buf: seq<int>, cp0: nat, cp: nat, e: int, c: Course)
    requires |buf| >= 2 && c == CourseOf(s, k, start, Text(s, buf)) && cp0 < cp <= |buf| - 2 && (cp0 > 0 ==> buf[cp0 - 1] == 0)
    requires forall j :: 0 <= j < cp ==> c.lives[j]
    requires forall j :: cp < j <= |buf| - 2 ==> !c.lives[j]
    requires forall j :: cp0 <= j < cp ==> buf[j] != 0
    requires e == After(s, k, start, Text(s, buf)[..cp]) && Stops(s, e)
    ensures Hole(c, s.byTable, s.interactive, buf) == (if s.byTable then cp0 else 0) && !ReadsOn(c, s.interactive, buf, |buf| - 2)
  {
    hide After;
    assert !ReadsOn(c, s.interactive, buf, cp);
    LastNulIs(c, buf, |buf| - 2, cp0);
  }

  lemma StopIsRight(s: Scan, k: Known, start: int, buf: seq<int>, cp0: nat, hole: nat, stack: seq<int>, cp: nat, t: seq<int>, e: int,
                    found: bool, act: int, cp1: int, top: int)
    requires ScanTables(s, k) && Buffered(s, buf) && Ahead(s, k, start, buf, cp0, hole, stack, cp, t, e) && cp == |t| - 1
    requires cp0 < cp && hole <= cp0 && Stops(s, e) && DefaultRule(s, k, start, Text(s, buf))
    requires Found(s, k, stack, cp, found, act, cp1, top)
    ensures Chosen(s, k, start, Text(s, buf), if found then Acts(act, cp1) else Lost) <==> InPlace(s, k, start, Text(s, buf), hole)
    ensures Unharmed(s, k, start, Text(s, buf), hole) || Misplaced(s, k, start, Text(s, buf), hole, if found then Acts(act, cp1) else Lost)
  {
    var w := Text(s, buf);
    TextIsClasses(s, k, buf);
    StopEnds(s, k, start, w, cp);
    hide Trail, Chosen, Ended, Found, Stops;
    if hole == 0 {
      FullStack(s, k, start, w, t, found, act, cp1, top);
    } else {
      ShortStack(s, k, start, w, t, hole, found, act, cp1, top);
    }
  }

  /** A scanner that stops on the trail does not reach the end of the buffer, and where it passed the last NUL it began. */
  lemma StopIsOn(s: Scan, k: Known, start: int, buf: seq<int>, cp0: nat, hole: nat, stack: seq<int>, cp: nat, t: seq<int>, e: int)
    requires ScanTables(s, k) && |buf| >= 2 && Buffered(s, buf) && Ahead(s, k, start, buf, cp0, hole, stack, cp, t, e) && cp == |t| - 1
    requires cp0 < cp && Stops(s, e) && (cp0 > 0 ==> buf[cp0 - 1] == 0)
    ensures Missing(s, k, start, buf) == (if s.byTable then cp0 else 0) && !RunsOut(s, k, start, buf)
  {
    var w, c := Text(s, buf), CourseOf(s, k, start, Text(s, buf));
    TextIsClasses(s, k, buf);
    StopEnds(s, k, start, w, cp);
    forall j | 0 <= j < cp ensures c.lives[j] {
      AheadLives(s, k, start, buf, cp0, hole, stack, cp, t, e, j);
    }
    forall j | cp < j <= |buf| - 2 ensures !c.lives[j] {
      assert Classes(s.g, w[..j]) && Compatible(w[..j], w);
    }
    StopCourse(s, k, start, buf, cp0, cp, e, c);
  }

  lemma AheadReaches(s: Scan, k: Known, start: int, buf: seq<int>, cp0: nat, hole: nat, stack: seq<int>, cp: nat, t: seq<int>, e: int)
    requires |buf| >= 2 && Ahead(s, k, start, buf, cp0, hole, stack, cp, t, e) && cp != |t| - 1
    ensures cp0 < |t| <= cp && |t| <= |buf| - 1 && forall j :: cp0 <= j < |t| - 1 ==> buf[j] != 0
  {
  }

  /** A 0 has been read: it is the end of the buffer, and the run has reached it, or it is a NUL. */
  lemma PastCourse(s: Scan, k: Known, start: int, buf: seq<int>, cp0: nat, hole: nat, stack: seq<int>, cp: nat, t: seq<int>, e: int)
    requires ScanTables(s, k) && |buf| >= 2 && Buffered(s, buf) && Ahead(s, k, start, buf, cp0, hole, stack, cp, t, e) && cp != |t| - 1
    requires cp0 < cp && (cp0 > 0 ==> buf[cp0 - 1] == 0)
    ensures ReadsOn(CourseOf(s, k, start, Text(s, buf)), s.interactive, buf, |t| - 1)
    ensures |t| == |buf| - 1 ==> RunsOut(s, k, start, buf) && Missing(s, k, start, buf) == if s.byTable then cp0 else 0
  {
    var c := CourseOf(s, k, start, Text(s, buf));
    hide ScanTables, After, Buffered, Ahead, Stops, Hole, ReadsOn;
    AheadReaches(s, k, start, buf, cp0, hole, stack, cp, t, e);
    forall j | 0 <= j < |t| ensures c.lives[j] && (cp0 < j ==> !Stops(s, After(s, k, start, Text(s, buf)[..j]))) {
      AheadLives(s, k, start, buf, cp0, hole, stack, cp, t, e, j);
    }
    EndCourse(s, k, start, buf, cp0, c, |t| - 1);
  }

  lemma EndCourse(s: Scan, k: Known, start: int, buf: seq<int>, cp0: nat, c: Course, n: nat)
    requires |buf| >= 2 && c == CourseOf(s, k, start, Text(s, buf)) && cp0 <= n <= |buf| - 2 && (cp0 > 0 ==> buf[cp0 - 1] == 0)
    requires forall j :: 0 <= j <= n ==> c.lives[j]
    requires forall j :: cp0 <= j < n ==> buf[j] != 0
    requires cp0 < n ==> !Stops(s, After(s, k, start, Text(s, buf)[..n]))
    ensures ReadsOn(c, s.interactive, buf, n)
    ensures n == |buf| - 2 ==> Hole(c, s.byTable, s.interactive, buf) == if s.byTable then cp0 else 0
  {
    hide After;
    if n == |buf| - 2 {
      LastNulIs(c, buf, n, cp0);
    }
  }

  lemma NulJams(s: Scan, k: Known, start: int, buf: seq<int>, t: seq<int>)
    requires ScanTables(s, k) && |buf| >= 2 && Trail(s, k, start, Text(s, buf), t) && |t| <= |buf| - 2
    requires var e := t[|t| - 1]; e in k.full && s.nul < |k.full[e]| && k.full[e][s.nul] == 0 && buf[|t| - 1] == 0
    ensures After(s, k, start, Text(s, buf)[..|t|]) == s.g.JamState()
  {
    var w, x := Text(s, buf), |t| - 1;
    assert w[..x + 1] == w[..x] + [s.nul];
    TableRunLast(s.g, k.full, start, w[..x], s.nul);
  }

  /** A NUL that cannot be passed ends the run; the stack has just been made anew. */
  lemma NulJamIsRight(s: Scan, k: Known, start: int, buf: seq<int>, t: seq<int>, found: bool, act: int, cp1: int, top: int)
    requires ScanTables(s, k) && Buffered(s, buf) && Start(s, k, start) && Trail(s, k, start, Text(s, buf), t) && |t| <= |buf| - 2
    requires var e := t[|t| - 1]; e in k.full && s.nul < |k.full[e]| && k.full[e][s.nul] == 0 && buf[|t| - 1] == 0
    requires DefaultRule(s, k, start, Text(s, buf)) && Found(s, k, t, |t| - 1, found, act, cp1, top)
    ensures found && Chosen(s, k, start, Text(s, buf), Acts(act, cp1)) && InPlace(s, k, start, Text(s, buf), 0)
    ensures Unharmed(s, k, start, Text(s, buf), 0)
  {
    var w, x := Text(s, buf), |t| - 1;
    TextIsClasses(s, k, buf);
    NulJams(s, k, start, buf, t);
    hide Found;
    JamEnds(s, k, start, w, x);
    assert x != 0;
    FullStack(s, k, start, w, t, found, act, cp1, top);
  }

  /** The run then ends there, before the end of the buffer. */
  lemma NulJamCourse(s: Scan, k: Known, start: int, buf: seq<int>, t: seq<int>)
    requires ScanTables(s, k) && |buf| >= 2 && Buffered(s, buf) && Trail(s, k, start, Text(s, buf), t) && |t| <= |buf| - 2
    requires var e := t[|t| - 1]; e in k.full && s.nul < |k.full[e]| && k.full[e][s.nul] == 0 && buf[|t| - 1] == 0
    requires ReadsOn(CourseOf(s, k, start, Text(s, buf)), s.interactive, buf, |t| - 1)
    ensures Missing(s, k, start, buf) == 0 && !RunsOut(s, k, start, buf)
  {
    var w, c := Text(s, buf), CourseOf(s, k, start, Text(s, buf));
    TextIsClasses(s, k, buf);
    NulJams(s, k, start, buf, t);
    assert !c.lives[|t| - 1 + 1];
    hide Trail, After;
    if |t| < |w| {
      assert w[..|w|] == w;
      DeadEnd(s, k, start, w, |t|);
    }
  }

  lemma NulOnTrail(s: Scan, k: Known, start: int, buf: seq<int>, t: seq<int>, next: int)
    requires ScanTables(s, k) && Buffered(s, buf) && Start(s, k, start) && Trail(s, k, start, Text(s, buf), t) && |t| <= |buf| - 2
    requires var e := t[|t| - 1]; e <= s.g.lastdfa && e in k.full && s.nul < |k.full[e]| && next == s.g.Target(k.full[e][s.nul])
    requires buf[|t| - 1] == 0 && next != s.g.JamState()
    ensures Trail(s, k, start, Text(s, buf), t + [next]) && 1 <= next <= s.g.lastdfa
  {
    TextIsClasses(s, k, buf);
    TrailStep(s, k, start, Text(s, buf), t, next);
    assert (t + [next])[|t|] == next;
  }

  /** The run goes on after a NUL, with or without the state entered on it. */
  lemma NulPassed(s: Scan, k: Known, start: int, buf: seq<int>, t: seq<int>, next: int)
    requires ScanTables(s, k) && |buf| >= 2 && Buffered(s, buf) && Start(s, k, start) && Trail(s, k, start, Text(s, buf), t) && |t| <= |buf| - 2
    requires var e := t[|t| - 1]; e <= s.g.lastdfa && e in k.full && s.nul < |k.full[e]| && next == s.g.Target(k.full[e][s.nul])
    requires buf[|t| - 1] == 0 && next != s.g.JamState()
    ensures Ahead(s, k, start, buf, |t|, 0, t + [next], |t|, t + [next], next)
    ensures Ahead(s, k, start, buf, |t|, |t|, t, |t|, t + [next], next)
    ensures next <= s.g.lastdfa
  {
    NulOnTrail(s, k, start, buf, t, next);
    hide Trail, ScanTables, Buffered;
    assert Without(t + [next], |t|) == t;
  }

  lemma EobIs(s: Scan, k: Known)
    requires ScanTables(s, k)
    ensures 1 <= k.eob <= s.g.lastdfa
  {
  }

  lemma StartAhead(s: Scan, k: Known, start: int, buf: seq<int>)
    requires |buf| >= 2 && DefaultRule(s, k, start, Text(s, buf))
    ensures Start(s, k, start) && Ahead(s, k, start, buf, 0, 0, [start], 0, [start], start)
  {
    assert Text(s, buf)[..0] == [];
  }

  lemma TrailBelow(s: Scan, k: Known, start: int, buf: seq<int>, t: seq<int>)
    requires |buf| >= 2 && Trail(s, k, start, Text(s, buf), t)
    ensures 1 <= |t| <= |buf| - 1 && forall j :: 0 <= j < |t| ==> 1 <= t[j] <= s.g.JamState()
  {
  }

  lemma StackIs(s: Scan, k: Known, start: int, buf: seq<int>, cp0: nat, hole: nat, stack: seq<int>, cp: nat, t: seq<int>, e: int)
    requires 1 <= k.eob <= s.g.lastdfa && |buf| >= 2 && Ahead(s, k, start, buf, cp0, hole, stack, cp, t, e) && cp0 < cp && hole <= cp0
    ensures stack != [] && forall j :: 0 <= j < |stack| ==> 1 <= stack[j] <= s.g.JamState()
  {
    TrailBelow(s, k, start, buf, t);
    var m := Without(t, hole);
    forall j | 0 <= j < |m| ensures 1 <= m[j] <= s.g.JamState() {
      var i := WithoutAt(t, hole, j);
    }
  }

  /** What the first stop of a turn comes to. */
  lemma StopOrEnd(s: Scan, k: Known, start: int, buf: seq<int>, cp0: nat, hole: nat, stack: seq<int>, cp: nat, t: seq<int>, e: int,
                  found: bool, act: int, cp1: int, top: int)
    requires ScanTables(s, k) && |buf| >= 2 && Buffered(s, buf) && Ahead(s, k, start, buf, cp0, hole, stack, cp, t, e)
    requires cp0 < cp && Stops(s, e) && hole == (if s.byTable then cp0 else 0) && (cp0 > 0 ==> buf[cp0 - 1] == 0)
    requires DefaultRule(s, k, start, Text(s, buf)) && EndIsNoRule(s, k, start) && Found(s, k, stack, cp, found, act, cp1, top)
    ensures if found && act == s.endAction then
        && cp1 == |t| <= |buf| - 1 && Trail(s, k, start, Text(s, buf), t) && cp0 < |t| && t[|t| - 1] <= s.g.lastdfa && buf[|t| - 1] == 0
        && ReadsOn(CourseOf(s, k, start, Text(s, buf)), s.interactive, buf, |t| - 1)
        && (cp1 == |buf| - 1 ==> RunsOut(s, k, start, buf) && hole == Missing(s, k, start, buf))
      else
        && !RunsOut(s, k, start, buf) && hole == Missing(s, k, start, buf) <= |buf| - 2
        && (Chosen(s, k, start, Text(s, buf), if found then Acts(act, cp1) else Lost) <==> InPlace(s, k, start, Text(s, buf), hole))
        && (Unharmed(s, k, start, Text(s, buf), hole) || Misplaced(s, k, start, Text(s, buf), hole, if found then Acts(act, cp1) else Lost))
  {
    hide Chosen, InPlace, Unharmed, Misplaced, RunsOut, Missing, ReadsOn, Stops, EndIsNoRule, DefaultRule, Found;
    AheadIn(s, k, start, buf, cp0, hole, stack, cp, t, e);
    if cp == |t| - 1 {
      StopIsRight(s, k, start, buf, cp0, hole, stack, cp, t, e, found, act, cp1, top);
      StopIsOn(s, k, start, buf, cp0, hole, stack, cp, t, e);
      TrailHasRules(s, k, start, buf, cp0, hole, stack, cp, t, e, found, act, cp1, top);
    } else {
      PastIsEnd(s, k, start, buf, cp0, hole, stack, cp, t, e, found, act, cp1, top);
      PastCourse(s, k, start, buf, cp0, hole, stack, cp, t, e);
    }
  }

  /** The end of the buffer is reached unless the run has jammed, or an interactive scanner is in a state without transitions after a character other than NUL. */
  lemma RunsOutIs(s: Scan, k: Known, start: int, buf: seq<int>)
    requires |buf| >= 2
    ensures var e := After(s, k, start, Text(s, buf));
      RunsOut(s, k, start, buf) <==>
      (e != s.g.JamState() && !(s.interactive && |buf| > 2 && buf[|buf| - 3] != 0 && 0 <= e < |s.g.base| && s.g.base[e] == s.g.jambase))
  {
    assert Text(s, buf)[..|buf| - 2] == Text(s, buf);
  }

  /** What the choice is, in terms of states. */
  lemma ChoiceIs(s: Scan, k: Known, start: int, buf: seq<int>, r: Choice)
    requires |buf| >= 2 && Missing(s, k, start, buf) <= |buf| - 2
    requires RunsOut(s, k, start, buf) ==> r == Acts(s.endAction, |buf| - 1)
    requires !RunsOut(s, k, start, buf) ==> !(r.Acts? && r.act == s.endAction)
    requires !RunsOut(s, k, start, buf) ==>
      (Chosen(s, k, start, Text(s, buf), r) <==> InPlace(s, k, start, Text(s, buf), Missing(s, k, start, buf)))
    ensures var e := After(s, k, start, Text(s, buf));
      (r.Acts? && r.act == s.endAction) <==>
      (e != s.g.JamState() && !(s.interactive && |buf| > 2 && buf[|buf| - 3] != 0 && 0 <= e < |s.g.base| && s.g.base[e] == s.g.jambase))
    ensures !(r.Acts? && r.act == s.endAction) && (!s.byTable || forall j :: 0 <= j < |buf| - 2 ==> buf[j] != 0) ==>
      Chosen(s, k, start, Text(s, buf), r)
  {
    hide RunsOut, Missing, Chosen;
    RunsOutIs(s, k, start, buf);
    NoneMissing(s, k, start, buf);
  }

  lemma ChosenIsNoEnd(s: Scan, k: Known, start: int, w: Word, r: Choice)
    requires Chosen(s, k, start, w, r) && Classes(s.g, w) && EndIsNoRule(s, k, start)
    ensures r.act != s.endAction
  {
    assert Classes(s.g, w[..r.cp]);
    assert r.act in RulesAfter(s, k, start, w[..r.cp]);
  }

  /**
   yylex's choice of a rule, NUL characters in the buffer included: the end-of-buffer action if the
   loop reaches the end, otherwise the longest match, and of those the first rule.  If NUL has a table
   of its own, the state entered on a NUL is missing on the stack; unless a later state has a rule, the
   choice is then misplaced, and right exactly if the states around the missing one have the same first rule.
   */
  method Match(s: Scan, ghost k: Known, start: int, buf: seq<int>) returns (r: Choice)
    requires ScanTables(s, k) && |buf| >= 2 && Buffered(s, buf) && DefaultRule(s, k, start, Text(s, buf)) && EndIsNoRule(s, k, start)
    ensures Missing(s, k, start, buf) <= |buf| - 2
    ensures if RunsOut(s, k, start, buf) then r == Acts(s.endAction, |buf| - 1)
      else Chosen(s, k, start, Text(s, buf), r) <==> InPlace(s, k, start, Text(s, buf), Missing(s, k, start, buf))
    ensures var e := After(s, k, start, Text(s, buf));
      (r.Acts? && r.act == s.endAction) <==>
      (e != s.g.JamState() && !(s.interactive && |buf| > 2 && buf[|buf| - 3] != 0 && 0 <= e < |s.g.base| && s.g.base[e] == s.g.jambase))
    ensures r.Acts? && r.act == s.endAction ==> r.cp == |buf| - 1
    ensures !(r.Acts? && r.act == s.endAction) && (!s.byTable || forall j :: 0 <= j < |buf| - 2 ==> buf[j] != 0) ==>
      Chosen(s, k, start, Text(s, buf), r)
    ensures RunsOut(s, k, start, buf) || Unharmed(s, k, start, Text(s, buf), Missing(s, k, start, buf))
      || Misplaced(s, k, start, Text(s, buf), Missing(s, k, start, buf), r)
  {
    hide Ahead, ScanTables, Buffered, Found, Chosen, InPlace, Unharmed, Misplaced, RunsOut, Missing, ReadsOn, Stops, EndIsNoRule, After;
    StartAhead(s, k, start, buf);
    var yy_n_chars := |buf| - 2;
    var yy_current_state, stack, yy_cp := start, [start], 0;
    ghost var t := [start];
    ghost var hole: nat := 0;
    while true
      invariant 0 <= yy_cp <= yy_n_chars && |t| == yy_cp + 1 && yy_current_state <= s.g.lastdfa
      invariant Ahead(s, k, start, buf, yy_cp, hole, stack, yy_cp, t, yy_current_state)
      invariant hole == (if s.byTable then yy_cp else 0) && (yy_cp > 0 ==> buf[yy_cp - 1] == 0)
      decreases |buf| - yy_cp
    {
      ghost var cp0 := yy_cp;
      stack, yy_cp, t := RunAhead(s, k, start, buf, yy_current_state, stack, yy_cp, t, hole);
      ghost var e: int :| 0 <= e < |s.g.base| && Ahead(s, k, start, buf, cp0, hole, stack, yy_cp, t, e) && Stops(s, e);
      EobIs(s, k);
      StackIs(s, k, start, buf, cp0, hole, stack, yy_cp, t, e);
      var found, yy_act, cp;
      ghost var top;
      found, yy_act, cp, top := FindAction(s, k, stack, yy_cp);
      StopOrEnd(s, k, start, buf, cp0, hole, stack, yy_cp, t, e, found, yy_act, cp, top);
      if !found || yy_act != s.endAction {
        r := if found then Acts(yy_act, cp) else Lost;
        ChoiceIs(s, k, start, buf, r);
        return;
      }
      if cp > yy_n_chars {
        r := Acts(yy_act, cp);
        ChoiceIs(s, k, start, buf, r);
        return;
      }
      // a NUL character, not the end of the buffer
      TrailBelow(s, k, start, buf, t);
      stack := GetPreviousState(s, k, start, buf, cp - 1, t);
      var next, isJam := NulTrans(s, k, stack[cp - 1]);
      if isJam {
        found, yy_act, cp, top := FindAction(s, k, stack, cp - 1);
        NulJamIsRight(s, k, start, buf, t, found, yy_act, cp, top);
        NulJamCourse(s, k, start, buf, t);
        r := Acts(yy_act, cp);
        TextIsClasses(s, k, buf);
        ChosenIsNoEnd(s, k, start, Text(s, buf), r);
        ChoiceIs(s, k, start, buf, r);
        return;
      }
      NulPassed(s, k, start, buf, t, next);
      yy_cp, yy_current_state, t := cp, next, t + [next];
      if s.byTable {
        hole := cp;
      } else {
        stack, hole := stack + [next], 0;
      }
    }
  }
}
