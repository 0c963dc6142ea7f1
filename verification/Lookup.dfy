/**
 The generated compressed tables and the scanner's lookup in them (`gen_next_compressed_state`,
 `ext/flex/gen.c`).
 */
module Lookup {
  import opened NxtChk

  /** What gentabs emits.  The jam state is lastdfa + 1; templates follow it up to total. */
  datatype Gen = Gen(base: seq<int>, def: seq<int>, nxt: seq<int>, chk: seq<int>, meta: seq<int>,
                     numecs: nat, usemecs: bool, lastdfa: nat, total: nat, tblend: nat, jambase: nat)
  {
    function JamState(): int { lastdfa + 1 }

    /** A class as templates are indexed by it. */
    function MetaOf(c: int): int
      requires 0 <= c < |meta|
    {
      if usemecs then meta[c] else c
    }

    /** Jam entries are emitted as the jam state. */
    function Target(v: int): int {
      if v == 0 then JamState() else v
    }
  }

  ghost predicate Shaped(g: Gen) {
    && |g.base| == |g.def| == g.total + 1 && |g.nxt| == |g.chk| == g.tblend + 1
    && |g.meta| == g.numecs + 1 && 0 <= g.lastdfa < g.total
  }

  /** The slot of state s for class c. */
  function SlotOf(g: Gen, s: int, c: int): int
    requires 0 <= s < |g.base|
  {
    g.base[s] + c
  }

  /** What the default chain hands class c of state s on to agrees with s. */
  ghost predicate Inherits(g: Gen, rows: map<int, Row>, s: int, c: int)
    requires Shaped(g) && 1 <= s <= g.total && s in rows && 0 <= c < |rows[s]|
  {
    var d := g.def[s];
    && s != g.JamState() && 1 <= d <= g.total && d in rows
    && (if d == g.JamState() then c < |rows[d]| && rows[d][c] == rows[s][c]
        else if d <= g.lastdfa then d < s <= g.lastdfa && c < |rows[d]| && rows[d][c] == rows[s][c]
        else s <= g.lastdfa && c <= g.numecs && 0 <= g.MetaOf(c) < |rows[d]| && rows[d][g.MetaOf(c)] == rows[s][c])
  }

  /** State s finds its own entry in its slot, or inherits it. */
  ghost predicate EntryOk(g: Gen, rows: map<int, Row>, s: int, c: int)
    requires Shaped(g) && 1 <= s <= g.total && s in rows && 0 <= c < |rows[s]|
  {
    && 0 <= SlotOf(g, s, c) <= g.tblend
    && (if g.chk[SlotOf(g, s, c)] == s then g.nxt[SlotOf(g, s, c)] == g.Target(rows[s][c])
        else Inherits(g, rows, s, c))
  }

  ghost predicate StateOk(g: Gen, rows: map<int, Row>, s: int)
    requires Shaped(g) && 1 <= s <= g.total
  {
    && s in rows
    && forall c :: 0 <= c < |rows[s]| ==> EntryOk(g, rows, s, c)
  }

  /** The tables stand for these rows. */
  ghost predicate Encodes(g: Gen, rows: map<int, Row>) {
    && Shaped(g)
    && (forall s :: 1 <= s <= g.total ==> s in rows)
    && (forall s :: 1 <= s <= g.total ==> StateOk(g, rows, s))
  }

  /** The jam state has base jambase, and so have only states that jam on every class. */
  ghost predicate JamBased(g: Gen, rows: map<int, Row>) {
    && Shaped(g) && g.base[g.JamState()] == g.jambase
    && forall s :: 1 <= s <= g.lastdfa && g.base[s] == g.jambase ==> s in rows && forall c :: 1 <= c < |rows[s]| ==> rows[s][c] == 0
  }

  /** How far a state is from the end of its default chain. */
  function Rank(g: Gen, s: int): int {
    if s == g.JamState() then 0 else if s > g.lastdfa then 1 else s + 1
  }

  /**
   The next state on class c, following the default chain: the entry of the row the tables stand
   for, or the jam state where that is 0.  Every index is within the tables, the chain ends, and
   yy_meta is applied once at most.
   */
  method NextState(g: Gen, state: int, class_: int, ghost rows: map<int, Row>) returns (next: int, ghost metas: nat)
    requires Encodes(g, rows) && 1 <= state <= g.total && 0 <= class_ && class_ < |rows[state]|
    ensures next == g.Target(rows[state][class_]) && metas <= (if g.usemecs then 1 else 0)
  {
    metas := 0;
    var yy_current_state, yy_c := state, class_;
    while g.chk[g.base[yy_current_state] + yy_c] != yy_current_state
      invariant 1 <= yy_current_state <= g.total && yy_current_state in rows && 0 <= yy_c < |rows[yy_current_state]|
      invariant StateOk(g, rows, yy_current_state) && EntryOk(g, rows, yy_current_state, yy_c)
      invariant rows[yy_current_state][yy_c] == rows[state][class_]
      invariant metas <= (if g.usemecs then 1 else 0) && (metas > 0 ==> yy_current_state > g.lastdfa)
      decreases Rank(g, yy_current_state)
    {
      var d := g.def[yy_current_state];
      assert StateOk(g, rows, d);
      yy_current_state := d;
      if g.usemecs && yy_current_state >= g.lastdfa + 2 {
        yy_c := g.meta[yy_c];
        metas := metas + 1;
      }
    }
    next := g.nxt[g.base[yy_current_state] + yy_c];
  }
}
