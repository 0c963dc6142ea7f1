/**
 Finishing the compressed tables: the template entries (`cmptmps`), the one-transition stack, the
 jam entries (`mkdeftbl`) in `ext/flex/tblcmp.c`, and the fix-ups `gentabs` makes as it emits
 them (`ext/flex/gen.c`).
 */
module GenTabs {
  import opened NxtChk
  import Ecs
  import EcNumbers
  import opened MkEntry
  import opened Protos
  import opened Compress
  import opened Lookup
  import opened DfaRows

  /** The state number of template t. */
  function TState(lastdfa: nat, t: nat): int {
    lastdfa + t + 1
  }

  // ---- from the built tables to the emitted ones ----

  /** What the tables hold once every state and template has its entries. */
  ghost predicate Complete(t: Tab, m: Meaning, placed: set<int>, numecs: nat, eob: int, lastdfa: nat, numtemps: nat) {
    && Inv(t, m, placed) && JAMSTATE in m && m[JAMSTATE] == JamRow(numecs, eob)
    && 1 <= numecs <= 256 && lastdfa + numtemps + 1 < |t.base|
    && (forall s :: s in placed <==> 1 <= s <= lastdfa || lastdfa + 2 <= s <= lastdfa + numtemps + 1)
  }

  /** State s links to the jam row, an older state, or a template whose row agrees with its own. */
  ghost predicate StateLinked(t: Tab, m: Meaning, meta: seq<int>, numecs: nat, lastdfa: nat, numtemps: nat, s: int) {
    && 0 <= s < |t.def| && s in m && |m[s]| == numecs + 1 && |meta| == numecs + 1
    && (t.def[s] == JAMSTATE || 0 < t.def[s]
        || (Tmpl(numtemps) <= t.def[s] < 0 && TemplateAgrees(m, meta, numecs, lastdfa, Tmpl(t.def[s]))))
  }

  /** The template entries for t say, by meta-class, what link -t says by class. */
  ghost predicate TemplateAgrees(m: Meaning, meta: seq<int>, numecs: nat, lastdfa: nat, t: int)
    requires |meta| == numecs + 1
  {
    && 0 < t && Tmpl(t) in m && TState(lastdfa, t) in m && |m[Tmpl(t)]| == numecs + 1
    && forall c :: 0 <= c <= numecs ==>
         0 <= meta[c] < |m[TState(lastdfa, t)]| && m[TState(lastdfa, t)][meta[c]] == m[Tmpl(t)][c]
  }

  /** Template entries link to the jam row only, and are not all jam. */
  ghost predicate TemplateLinked(t: Tab, m: Meaning, numecs: nat, eob: int, s: int) {
    && 0 <= s < |t.def| && s in m && 1 <= |m[s]| <= numecs + 1 && t.def[s] == JAMSTATE
    && exists c :: 1 <= c < |m[s]| && m[s][c] != 0
  }

  /** t1 is t with the jam state's entries after everything else. */
  ghost predicate JamPlaced(t: Tab, t1: Tab, numecs: nat, eob: int, lastdfa: nat) {
    && Shape(t) && lastdfa + 1 < |t.base| && |t1.chk| == |t1.nxt|
    && t1.tblend == t.tblend + 1 + numecs < |t1.chk| && |t.chk| <= |t1.chk|
    && t1.base == t.base[lastdfa + 1 := t.tblend + 1] && t1.def == t.def[lastdfa + 1 := 0]
    && (forall k :: 0 <= k <= t.tblend ==> t1.chk[k] == t.chk[k] && t1.nxt[k] == t.nxt[k])
    && (forall k :: t.tblend < k <= t1.tblend ==>
          t1.chk[k] == lastdfa + 1 && t1.nxt[k] == if k == t.tblend + 1 then eob else 0)
  }

  function FixBase(b: int, jambase: int): int {
    if b == JAMSTATE then jambase else b
  }

  function FixDef(d: int, lastdfa: nat): int {
    if d == JAMSTATE then lastdfa + 1 else if d < 0 then lastdfa - d + 1 else d
  }

  function FixNxt(chk: int, nxt: int, jamstate: int): int {
    if chk == 0 || nxt == 0 then jamstate else nxt
  }

  /** g is what gentabs emits for t1. */
  ghost predicate Emitted(g: Gen, t1: Tab, lastdfa: nat, numtemps: nat, jambase: int) {
    && Shaped(g) && g.lastdfa == lastdfa && g.total == lastdfa + numtemps + 1 && g.jambase == jambase && g.tblend == t1.tblend
    && lastdfa + numtemps + 1 < |t1.base| == |t1.def| && t1.tblend < |t1.chk| == |t1.nxt|
    && (forall i :: 1 <= i <= lastdfa ==> g.base[i] == FixBase(t1.base[i], jambase) && g.def[i] == FixDef(t1.def[i], lastdfa))
    && g.base[lastdfa + 1] == t1.base[lastdfa + 1]
    && (forall i :: lastdfa + 2 <= i <= g.total ==> g.base[i] == t1.base[i] && g.def[i] == lastdfa + 1)
    && g.chk[0] == 0
    && (forall k :: 1 <= k <= g.tblend ==> g.chk[k] == t1.chk[k] && g.nxt[k] == FixNxt(t1.chk[k], t1.nxt[k], lastdfa + 1))
  }

  /** The rows the emitted tables stand for, by state number. */
  ghost function FinalRows(m: Meaning, numecs: nat, eob: int, lastdfa: nat, numtemps: nat): map<int, Row>
    requires forall s :: 1 <= s <= lastdfa || lastdfa + 2 <= s <= lastdfa + numtemps + 1 ==> s in m
  {
    map s | 1 <= s <= lastdfa + numtemps + 1 :: if s == lastdfa + 1 then JamRow(numecs, eob) else m[s]
  }

  /** All the hypotheses of the emission theorem. */
  ghost predicate Emission(g: Gen, t: Tab, t1: Tab, m: Meaning, placed: set<int>, meta: seq<int>,
                           numecs: nat, eob: int, lastdfa: nat, numtemps: nat)
  {
    && Complete(t, m, placed, numecs, eob, lastdfa, numtemps)
    && (forall s :: 1 <= s <= lastdfa ==> StateLinked(t, m, meta, numecs, lastdfa, numtemps, s))
    && (forall s :: lastdfa + 2 <= s <= lastdfa + numtemps + 1 ==> TemplateLinked(t, m, numecs, eob, s))
    && JamPlaced(t, t1, numecs, eob, lastdfa)
    && Emitted(g, t1, lastdfa, numtemps, t.tblend + 1)
    && g.numecs == numecs && g.meta == meta && |meta| == numecs + 1
    && (!g.usemecs ==> forall c :: 0 <= c <= numecs ==> meta[c] == c)
    && (forall s :: 1 <= s <= lastdfa || lastdfa + 2 <= s <= lastdfa + numtemps + 1 ==> s in m)
  }

  /** Slots below the jam entries are as they were built. */
  lemma SlotEmitted(g: Gen, t: Tab, t1: Tab, m: Meaning, placed: set<int>, numecs: nat, eob: int, lastdfa: nat, numtemps: nat, s: int, k: int)
    requires Inv(t, m, placed) && JamPlaced(t, t1, numecs, eob, lastdfa)
    requires Emitted(g, t1, lastdfa, numtemps, t.tblend + 1)
    requires 0 <= k <= g.tblend && 0 < s && s != lastdfa + 1
    ensures g.chk[k] == s <==> 0 <= k < |t.chk| && t.chk[k] == s
    ensures g.chk[k] == s ==>
      s in placed && s in m && 0 < s < |t.base| && (0 <= k - t.base[s] < |m[s]| ==> g.nxt[k] == g.Target(m[s][k - t.base[s]]))
  {
    if k <= t.tblend {
      assert OwnedSlot(t, m, placed, k);
    }
  }

  /** An entry of a placed state: in its slot, or the same as in the row it links to. */
  lemma EntryEmitted(g: Gen, t: Tab, t1: Tab, m: Meaning, placed: set<int>, numecs: nat, eob: int, lastdfa: nat, numtemps: nat, s: int, c: int)
    requires Inv(t, m, placed) && JamPlaced(t, t1, numecs, eob, lastdfa)
    requires Emitted(g, t1, lastdfa, numtemps, t.tblend + 1)
    requires s in placed && 0 < s <= g.total && s != lastdfa + 1 && s in m && 0 <= c < |m[s]| <= numecs + 1 <= 257
    requires g.base[s] == FixBase(t.base[s], t.tblend + 1)
    ensures 0 <= SlotOf(g, s, c) <= g.tblend
    ensures if g.chk[SlotOf(g, s, c)] == s then g.nxt[SlotOf(g, s, c)] == g.Target(m[s][c])
            else t.def[s] in m && c < |m[t.def[s]]| && m[t.def[s]][c] == m[s][c]
  {
    assert Covered(t, m, s);
    var k := SlotOf(g, s, c);
    SlotEmitted(g, t, t1, m, placed, numecs, eob, lastdfa, numtemps, s, k);
    if m[s][c] != m[t.def[s]][c] {
      assert HasSlot(t, s, c);
    }
  }

  lemma OrdinaryOk(g: Gen, t: Tab, t1: Tab, m: Meaning, placed: set<int>, meta: seq<int>,
                   numecs: nat, eob: int, lastdfa: nat, numtemps: nat, s: int)
    requires Emission(g, t, t1, m, placed, meta, numecs, eob, lastdfa, numtemps) && 1 <= s <= lastdfa
    ensures StateOk(g, FinalRows(m, numecs, eob, lastdfa, numtemps), s)
  {
    var rows := FinalRows(m, numecs, eob, lastdfa, numtemps);
    assert StateLinked(t, m, meta, numecs, lastdfa, numtemps, s) && Covered(t, m, s) by {
      assert s in placed;
    }
    var d := t.def[s];
    assert 0 < d ==> d < s && d in m && 1 <= d <= lastdfa;
    assert 0 < d ==> StateLinked(t, m, meta, numecs, lastdfa, numtemps, d);
    forall c | 0 <= c < |rows[s]| ensures EntryOk(g, rows, s, c) {
      EntryEmitted(g, t, t1, m, placed, numecs, eob, lastdfa, numtemps, s, c);
      if g.chk[SlotOf(g, s, c)] != s {
        OrdinaryInherits(g, t, t1, m, placed, meta, numecs, eob, lastdfa, numtemps, s, c);
      }
    }
  }

  lemma OrdinaryInherits(g: Gen, t: Tab, t1: Tab, m: Meaning, placed: set<int>, meta: seq<int>,
                         numecs: nat, eob: int, lastdfa: nat, numtemps: nat, s: int, c: int)
    requires Emission(g, t, t1, m, placed, meta, numecs, eob, lastdfa, numtemps) && 1 <= s <= lastdfa
    requires StateLinked(t, m, meta, numecs, lastdfa, numtemps, s) && 0 <= c <= numecs
    requires t.def[s] in m && c < |m[t.def[s]]| && m[t.def[s]][c] == m[s][c]
    requires 0 < t.def[s] ==> t.def[s] < s && |m[t.def[s]]| == numecs + 1
    ensures Inherits(g, FinalRows(m, numecs, eob, lastdfa, numtemps), s, c)
  {
    hide Inv, Shape;
    var d := t.def[s];
    assert g.def[s] == FixDef(d, lastdfa);
  }

  lemma TemplateOk(g: Gen, t: Tab, t1: Tab, m: Meaning, placed: set<int>, meta: seq<int>,
                   numecs: nat, eob: int, lastdfa: nat, numtemps: nat, s: int)
    requires Emission(g, t, t1, m, placed, meta, numecs, eob, lastdfa, numtemps)
    requires lastdfa + 2 <= s <= lastdfa + numtemps + 1
    ensures StateOk(g, FinalRows(m, numecs, eob, lastdfa, numtemps), s)
  {
    var rows := FinalRows(m, numecs, eob, lastdfa, numtemps);
    assert TemplateLinked(t, m, numecs, eob, s);
    assert Covered(t, m, s) by {
      assert s in placed;
    }
    var x :| 1 <= x < |m[s]| && m[s][x] != 0;
    assert HasSlot(t, s, x);
    forall c | 0 <= c < |rows[s]| ensures EntryOk(g, rows, s, c) {
      EntryEmitted(g, t, t1, m, placed, numecs, eob, lastdfa, numtemps, s, c);
    }
  }

  lemma JamOk(g: Gen, t: Tab, t1: Tab, m: Meaning, placed: set<int>, meta: seq<int>,
              numecs: nat, eob: int, lastdfa: nat, numtemps: nat)
    requires Emission(g, t, t1, m, placed, meta, numecs, eob, lastdfa, numtemps) && 0 < eob
    ensures StateOk(g, FinalRows(m, numecs, eob, lastdfa, numtemps), lastdfa + 1)
  {
    var rows := FinalRows(m, numecs, eob, lastdfa, numtemps);
    var js := lastdfa + 1;
    forall c | 0 <= c < |rows[js]| ensures EntryOk(g, rows, js, c) {
      var k := SlotOf(g, js, c);
      assert t.tblend < k <= t1.tblend;
    }
  }

  /** The emitted tables stand for the rows the states were built from. */
  lemma EmissionIsExact(g: Gen, t: Tab, t1: Tab, m: Meaning, placed: set<int>, meta: seq<int>,
                        numecs: nat, eob: int, lastdfa: nat, numtemps: nat)
    requires Emission(g, t, t1, m, placed, meta, numecs, eob, lastdfa, numtemps) && 0 < eob
    ensures Encodes(g, FinalRows(m, numecs, eob, lastdfa, numtemps))
  {
    var rows := FinalRows(m, numecs, eob, lastdfa, numtemps);
    assert Shaped(g) && g.total == lastdfa + numtemps + 1;
    forall s | 1 <= s <= g.total ensures s in rows && StateOk(g, rows, s) {
      if s <= lastdfa {
        OrdinaryOk(g, t, t1, m, placed, meta, numecs, eob, lastdfa, numtemps, s);
      } else if s == lastdfa + 1 {
        JamOk(g, t, t1, m, placed, meta, numecs, eob, lastdfa, numtemps);
      } else {
        TemplateOk(g, t, t1, m, placed, meta, numecs, eob, lastdfa, numtemps, s);
      }
    }
  }

  /** A base equal to jambase belongs to a state that has no entries and links to the jam row. */
  lemma JamBaseJams(g: Gen, t: Tab, t1: Tab, m: Meaning, placed: set<int>, meta: seq<int>,
                    numecs: nat, eob: int, lastdfa: nat, numtemps: nat)
    requires Emission(g, t, t1, m, placed, meta, numecs, eob, lastdfa, numtemps)
    ensures JamBased(g, FinalRows(m, numecs, eob, lastdfa, numtemps))
  {
    forall s | 1 <= s <= lastdfa && g.base[s] == g.jambase
      ensures s in m && forall c :: 1 <= c < |m[s]| ==> m[s][c] == 0
    {
      assert Covered(t, m, s) by {
        assert s in placed;
      }
      assert t.base[s] == JAMSTATE && t.def[s] == JAMSTATE;
      forall c | 1 <= c < |m[s]|
        ensures m[s][c] == 0
      {
        assert !HasSlot(t, s, c);
      }
    }
  }

  // ---- template entries, one per meta-class ----

  /** Meta-class codes: positive for the representative of a meta-class, as cre8ecs leaves them. */
  ghost predicate MetaCodes(codes: seq<int>, part: seq<int>, numecs: nat) {
    |part| == numecs + 1 == |codes| && forall x :: 1 <= x <= numecs ==> codes[x] == EcNumbers.Code(part, x)
  }

  /** The meta-class of every class; class 0 is its own. */
  ghost predicate MetaTable(meta: seq<int>, part: seq<int>, numecs: nat) {
    && |part| == numecs + 1 == |meta| && meta[0] == 0
    && forall x :: 1 <= x <= numecs ==> meta[x] == EcNumbers.ClassNumber(part, x)
  }

  /** tmp has the template's transition for the meta-class of every representative below j. */
  ghost predicate TmpUpTo(tmp: seq<int>, trow: Row, part: seq<int>, numecs: nat, j: nat, totaltrans: int)
    requires 1 <= j <= numecs + 1 == |part|
  {
    && |trow| == numecs + 1 && |tmp| == EcNumbers.NumClasses(part, numecs) + 1
    && EcNumbers.NumClasses(part, j - 1) < |tmp|
    && totaltrans == CountKept(tmp, JAMSTATE, EcNumbers.NumClasses(part, j - 1))
    && forall x :: 1 <= x < j && EcNumbers.Least(part, x) == x ==>
         EcNumbers.ClassNumber(part, x) < |tmp| && tmp[EcNumbers.ClassNumber(part, x)] == trow[x]
  }

  lemma TmpStep(tmp: seq<int>, trow: Row, part: seq<int>, numecs: nat, j: nat, totaltrans: int, tmp1: seq<int>, total1: int)
    requires 1 <= j <= numecs && |part| == numecs + 1 && TmpUpTo(tmp, trow, part, numecs, j, totaltrans)
    requires EcNumbers.Least(part, j) != j ==> tmp1 == tmp && total1 == totaltrans
    requires EcNumbers.Least(part, j) == j ==>
      EcNumbers.ClassNumber(part, j) < |tmp| && tmp1 == tmp[EcNumbers.ClassNumber(part, j) := trow[j]] &&
      total1 == totaltrans + (if trow[j] > 0 then 1 else 0)
    requires 0 <= trow[j]
    ensures TmpUpTo(tmp1, trow, part, numecs, j + 1, total1)
  {
    hide EcNumbers.Least, EcNumbers.ClassNumber, EcNumbers.NumClasses, CountKept;
    ClassCounts(part, numecs, j);
    if EcNumbers.Least(part, j) == j {
      var c := EcNumbers.ClassNumber(part, j);
      KeptStep(tmp, tmp1, c, trow[j]);
      forall x: nat | 1 <= x < j && EcNumbers.Least(part, x) == x ensures EcNumbers.ClassNumber(part, x) != c {
        EcNumbers.NumbersFollowLeast(part, x, j);
      }
    }
  }

  lemma ClassCounts(part: seq<int>, numecs: nat, j: nat)
    requires 1 <= j <= numecs && |part| == numecs + 1
    ensures EcNumbers.NumClasses(part, j) == EcNumbers.NumClasses(part, j - 1) + if EcNumbers.Least(part, j) == j then 1 else 0
    ensures EcNumbers.NumClasses(part, j) <= EcNumbers.NumClasses(part, numecs)
    ensures EcNumbers.Least(part, j) == j ==> EcNumbers.ClassNumber(part, j) == EcNumbers.NumClasses(part, j)
  {
    EcNumbers.NumClassesMonotone(part, j, numecs);
  }

  lemma KeptStep(tmp: seq<int>, tmp1: seq<int>, c: nat, x: int)
    requires 1 <= c < |tmp| && tmp1 == tmp[c := x] && 0 <= x
    ensures CountKept(tmp1, JAMSTATE, c) == CountKept(tmp, JAMSTATE, c - 1) + if x > 0 then 1 else 0
  {
    CountPrefix(tmp, tmp1, JAMSTATE, c - 1);
  }

  lemma TmpStart(tmp: seq<int>, trow: Row, part: seq<int>, numecs: nat)
    requires |trow| == numecs + 1 == |part| && |tmp| == EcNumbers.NumClasses(part, numecs) + 1
    ensures TmpUpTo(tmp, trow, part, numecs, 1, 0)
  {
  }

  /** The collected entries are the template's row by meta-class. */
  lemma TmpIsRow(tmp: seq<int>, row: Row, trow: Row, part: seq<int>, m: Meaning, numecs: nat, eob: int, totaltrans: int, com: int)
    requires |part| == numecs + 1 && TmpUpTo(tmp, trow, part, numecs, numecs + 1, totaltrans) && 1 <= numecs
    requires TemplateRow(trow, numecs, com) && JAMSTATE in m && m[JAMSTATE] == JamRow(numecs, eob)
    requires forall x, y :: 1 <= x <= numecs && 1 <= y <= numecs && part[x] == part[y] ==> trow[x] == trow[y]
    requires row == tmp[0 := eob]
    ensures 1 <= |tmp| - 1 <= numecs
    ensures Represents(tmp, row, m, JAMSTATE) && totaltrans == CountKept(tmp, JAMSTATE, |tmp| - 1)
    ensures forall x :: 1 <= x <= numecs ==> 1 <= EcNumbers.ClassNumber(part, x) < |row| && row[EcNumbers.ClassNumber(part, x)] == trow[x]
    ensures exists c :: 1 <= c < |row| && row[c] != 0
  {
    EcNumbers.NumClassesMonotone(part, 0, numecs);
    forall x: nat | 1 <= x <= numecs
      ensures 1 <= EcNumbers.ClassNumber(part, x) < |tmp| && tmp[EcNumbers.ClassNumber(part, x)] == trow[x]
    {
      var l := EcNumbers.Least(part, x);
      EcNumbers.NumbersFollowLeast(part, x, l);
      assert EcNumbers.Least(part, l) == l;
    }
    forall c: nat | 1 <= c < |tmp| ensures tmp[c] == 0 || tmp[c] == com {
      var x := EcNumbers.EveryNumberUsed(part, numecs, c);
    }
    var x :| 1 <= x <= numecs && trow[x] == com;
    assert row[EcNumbers.ClassNumber(part, x)] == com;
  }

  lemma StoredIsMeant(tnxt: seq<int>, m: Meaning, numecs: nat, i: nat)
    requires TemplateStored(tnxt, m, numecs, i)
    ensures Tmpl(i) in m
  {
  }

  /** An array whose entries may be anything. */
  method SomeEntries(n: nat) returns (tmp: seq<int>)
    ensures |tmp| == n
  {
    assert |seq(n, _ => 0)| == n;
    tmp :| |tmp| == n;
  }

  /** Collects the entries of template i, one per meta-class, and counts its transitions. */
  method CollectTemplate(tnxt: seq<int>, tecbck: array<int>, usemecs: bool, numecs: nat, i: nat, nummecs: nat,
                         ghost m: Meaning, ghost part: seq<int>)
    returns (tmp: seq<int>, totaltrans: int)
    requires TemplateStored(tnxt, m, numecs, i) && |part| == numecs + 1 && |m[Tmpl(i)]| == numecs + 1
    requires tecbck.Length == numecs + 1 && nummecs == EcNumbers.NumClasses(part, numecs)
    requires if usemecs then MetaCodes(tecbck[..], part, numecs) else Discrete(part)
    ensures TmpUpTo(tmp, m[Tmpl(i)], part, numecs, numecs + 1, totaltrans)
  {
    hide TmpUpTo, TemplateStored, MetaCodes, Discrete, EcNumbers.Least, EcNumbers.ClassNumber, EcNumbers.NumClasses;
    StoredIsMeant(tnxt, m, numecs, i);
    ghost var trow := m[Tmpl(i)];
    tmp := SomeEntries(nummecs + 1);
    totaltrans := 0;
    TmpStart(tmp, trow, part, numecs);
    var tmpbase := numecs * i;
    var j := 1;
    while j <= numecs
      invariant 1 <= j <= numecs + 1 && |tmp| == nummecs + 1
      invariant TmpUpTo(tmp, trow, part, numecs, j, totaltrans)
    {
      ghost var tmp0, total0 := tmp, totaltrans;
      EntryStored(tnxt, m, numecs, i, j, tmpbase);
      CodeOf(tecbck[..], usemecs, part, numecs, j);
      var trans := tnxt[tmpbase + j];
      if usemecs {
        // only the representative of a meta-class has a positive code
        if tecbck[j] > 0 {
          tmp := tmp[tecbck[j] := trans];
          if trans > 0 {
            totaltrans := totaltrans + 1;
          }
        }
      } else {
        tmp := tmp[j := trans];
        if trans > 0 {
          totaltrans := totaltrans + 1;
        }
      }
      TmpStep(tmp0, trow, part, numecs, j, total0, tmp, totaltrans);
      j := j + 1;
    }
  }

  ghost predicate Discrete(part: seq<int>) {
    forall x, y :: 0 <= x < y < |part| ==> part[x] != part[y]
  }

  /** Without meta-classes every class is its own representative and number. */
  lemma {:induction false} DiscreteNumbers(part: seq<int>, k: nat)
    requires Discrete(part) && k < |part|
    ensures EcNumbers.NumClasses(part, k) == k
    ensures 1 <= k ==> EcNumbers.Least(part, k) == k && EcNumbers.ClassNumber(part, k) == k
  {
    if k > 0 {
      DiscreteNumbers(part, k - 1);
    }
  }

  lemma EntryStored(tnxt: seq<int>, m: Meaning, numecs: nat, i: nat, j: nat, tmpbase: nat)
    requires TemplateStored(tnxt, m, numecs, i) && |m[Tmpl(i)]| == numecs + 1 && 1 <= j <= numecs
    requires tmpbase == numecs * i
    ensures 0 <= tmpbase + j < |tnxt| && tnxt[tmpbase + j] == m[Tmpl(i)][j] && 0 <= m[Tmpl(i)][j]
  {
    var k := At(numecs, i + 1, j);
    assert k == numecs * i + j;
  }

  /** Which entry of the collected row class j goes to, if any. */
  lemma CodeOf(codes: seq<int>, usemecs: bool, part: seq<int>, numecs: nat, j: nat)
    requires |part| == numecs + 1 == |codes| && 1 <= j <= numecs
    requires if usemecs then MetaCodes(codes, part, numecs) else Discrete(part)
    ensures usemecs ==> (codes[j] > 0 <==> EcNumbers.Least(part, j) == j)
    ensures usemecs && codes[j] > 0 ==> codes[j] == EcNumbers.ClassNumber(part, j)
    ensures !usemecs ==> EcNumbers.Least(part, j) == j && EcNumbers.ClassNumber(part, j) == j
    ensures EcNumbers.ClassNumber(part, j) < EcNumbers.NumClasses(part, numecs) + 1
  {
    EcNumbers.NumbersFollowLeast(part, j, j);
    if !usemecs {
      DiscreteNumbers(part, j);
    }
  }

  /** Template t has its entries, indexed by meta-class. */
  ghost predicate TemplateDone(m: Meaning, link: map<int, int>, part: seq<int>, numecs: nat, eob: int, lastdfa: nat, t: nat)
    requires |part| == numecs + 1
  {
    var s := TState(lastdfa, t);
    && s in m && s in link && link[s] == JAMSTATE && Tmpl(t) in m && |m[Tmpl(t)]| == numecs + 1
    && 2 <= |m[s]| <= numecs + 1 && m[s][0] == eob && m[Tmpl(t)][0] == eob
    && (forall x :: 1 <= x <= numecs ==>
          1 <= EcNumbers.ClassNumber(part, x) < |m[s]| && m[s][EcNumbers.ClassNumber(part, x)] == m[Tmpl(t)][x])
    && exists c :: 1 <= c < |m[s]| && m[s][c] != 0
  }

  /** Templates below i are done; nothing else has changed since m0 and link0. */
  ghost predicate TemplatesDone(m: Meaning, link: map<int, int>, m0: Meaning, link0: map<int, int>, part: seq<int>,
                                numecs: nat, eob: int, lastdfa: nat, numtemps: nat, i: nat)
    requires |part| == numecs + 1
  {
    && Links(m0, numecs, eob, numtemps, lastdfa) && 1 <= i <= numtemps + 1
    && (forall l :: l in m0 ==> l in m && m[l] == m0[l])
    && (forall l :: l in m ==> l in m0 || lastdfa + 2 <= l <= lastdfa + i)
    && (forall s :: s in link0 && s <= lastdfa ==> s in link && link[s] == link0[s])
    && (forall t :: 1 <= t < i ==> TemplateDone(m, link, part, numecs, eob, lastdfa, t))
  }

  lemma TemplateKeepsOthers(m: Meaning, link: map<int, int>, m0: Meaning, link0: map<int, int>, part: seq<int>,
                            numecs: nat, eob: int, lastdfa: nat, numtemps: nat, i: nat, row: Row,
                            m1: Meaning, link1: map<int, int>)
    requires |part| == numecs + 1 && TemplatesDone(m, link, m0, link0, part, numecs, eob, lastdfa, numtemps, i) && i <= numtemps
    requires m1 == m[TState(lastdfa, i) := row] && link1 == link[TState(lastdfa, i) := JAMSTATE]
    requires TemplateDone(m1, link1, part, numecs, eob, lastdfa, i)
    ensures TemplatesDone(m1, link1, m0, link0, part, numecs, eob, lastdfa, numtemps, i + 1)
  {
    forall l | l in m0 ensures l != TState(lastdfa, i) {
      assert LinkOk(m0, numecs, eob, numtemps, lastdfa, l);
    }
    forall t | 1 <= t < i ensures TemplateDone(m1, link1, part, numecs, eob, lastdfa, t) {
      assert TemplateDone(m, link, part, numecs, eob, lastdfa, t);
      assert Tmpl(t) != TState(lastdfa, i) && TState(lastdfa, t) != TState(lastdfa, i);
    }
  }

  /** Template i's state number is new, and its link row is still the one it was made with. */
  lemma TemplateNext(m: Meaning, link: map<int, int>, m0: Meaning, link0: map<int, int>, part: seq<int>,
                     numecs: nat, eob: int, lastdfa: nat, numtemps: nat, i: nat)
    requires |part| == numecs + 1 && TemplatesDone(m, link, m0, link0, part, numecs, eob, lastdfa, numtemps, i) && i <= numtemps
    ensures TState(lastdfa, i) !in m && Tmpl(i) in m && Tmpl(i) in m0 && m[Tmpl(i)] == m0[Tmpl(i)]
    ensures |m[Tmpl(i)]| == numecs + 1 && (Tmpl(i) != eob ==> m[Tmpl(i)][0] == eob)
    ensures JAMSTATE in m && m[JAMSTATE] == JamRow(numecs, eob) && 0 < eob
  {
    assert LinkOk(m0, numecs, eob, numtemps, lastdfa, Tmpl(i));
    forall l | l in m0 ensures l <= lastdfa {
      assert LinkOk(m0, numecs, eob, numtemps, lastdfa, l);
    }
  }

  lemma TemplateIsDone(tmp: seq<int>, row: Row, m: Meaning, link: map<int, int>, part: seq<int>, numecs: nat, eob: int,
                       lastdfa: nat, t: nat, m1: Meaning, link1: map<int, int>)
    requires |part| == numecs + 1 && 1 <= t && Tmpl(t) in m && |m[Tmpl(t)]| == numecs + 1 && m[Tmpl(t)][0] == eob
    requires 1 <= |tmp| - 1 <= numecs && row == tmp[0 := eob]
    requires forall x :: 1 <= x <= numecs ==> 1 <= EcNumbers.ClassNumber(part, x) < |row| && row[EcNumbers.ClassNumber(part, x)] == m[Tmpl(t)][x]
    requires exists c :: 1 <= c < |row| && row[c] != 0
    requires m1 == m[TState(lastdfa, t) := row] && link1 == link[TState(lastdfa, t) := JAMSTATE]
    ensures TemplateDone(m1, link1, part, numecs, eob, lastdfa, t)
  {
    assert Tmpl(t) != TState(lastdfa, t);
  }

  /** Makes the table entries of all templates. */
  method EnterTemplates(c: Compressor, lastdfa: nat, nummecs: nat, ghost part: seq<int>, ghost m0: Meaning, ghost link0: map<int, int>)
    requires c.tables.Valid() && 1 <= c.numecs <= 256 && c.tables.numecs == c.numecs && |part| == c.numecs + 1
    requires c.tecbck.Length == c.numecs + 1 && nummecs == EcNumbers.NumClasses(part, c.numecs)
    requires if c.usemecs then MetaCodes(c.tecbck[..], part, c.numecs) else Discrete(part)
    requires MetaOk(part, m0, c.numecs, c.numtemps) && TemplatesStored(c.tnxt, m0, c.numecs, c.numtemps)
    requires c.tables.m == m0 && c.tables.link == link0 && Links(m0, c.numecs, c.eob, c.numtemps, lastdfa)
    requires lastdfa + c.numtemps + 1 < |c.tables.base|
    modifies c.tables
    ensures c.tables.Valid() && |c.tables.base| == |old(c.tables.base)|
    ensures TemplatesDone(c.tables.m, c.tables.link, m0, link0, part, c.numecs, c.eob, lastdfa, c.numtemps, c.numtemps + 1)
    ensures forall s :: s in c.tables.States() <==> s in old(c.tables.States()) || lastdfa + 2 <= s <= lastdfa + c.numtemps + 1
    ensures old(c.tables.bare) <= c.tables.bare && forall s :: s in c.tables.bare && s <= lastdfa ==> s in old(c.tables.bare)
  {
    var i := 1;
    while i <= c.numtemps
      invariant 1 <= i <= c.numtemps + 1 && c.tables.Valid() && |c.tables.base| == |old(c.tables.base)|
      invariant TemplatesDone(c.tables.m, c.tables.link, m0, link0, part, c.numecs, c.eob, lastdfa, c.numtemps, i)
      invariant forall s :: s in c.tables.States() <==> s in old(c.tables.States()) || lastdfa + 2 <= s <= lastdfa + i
      invariant old(c.tables.bare) <= c.tables.bare && forall s :: s in c.tables.bare && s <= lastdfa ==> s in old(c.tables.bare)
    {
      EnterTemplate(c, lastdfa, nummecs, i, part, m0, link0);
      i := i + 1;
    }
  }

  lemma TemplateReady(tnxt: seq<int>, m0: Meaning, part: seq<int>, numecs: nat, numtemps: nat, i: nat) returns (com: int)
    requires |part| == numecs + 1 && MetaOk(part, m0, numecs, numtemps) && TemplatesStored(tnxt, m0, numecs, numtemps) && 1 <= i <= numtemps
    ensures TemplateStored(tnxt, m0, numecs, i) && Tmpl(i) in m0 && TemplateRow(m0[Tmpl(i)], numecs, com) && |m0[Tmpl(i)]| == numecs + 1
    ensures forall x, y :: 1 <= x <= numecs && 1 <= y <= numecs && part[x] == part[y] ==> m0[Tmpl(i)][x] == m0[Tmpl(i)][y]
  {
    assert TemplateStored(tnxt, m0, numecs, i) && MetaRespects(part, m0, numecs, Tmpl(i));
    com :| TemplateRow(m0[Tmpl(i)], numecs, com);
  }

  lemma TmpLength(tmp: seq<int>, trow: Row, part: seq<int>, numecs: nat, totaltrans: int)
    requires |part| == numecs + 1 && TmpUpTo(tmp, trow, part, numecs, numecs + 1, totaltrans)
    ensures |tmp| == EcNumbers.NumClasses(part, numecs) + 1
  {
  }

  method EnterTemplate(c: Compressor, lastdfa: nat, nummecs: nat, i: nat, ghost part: seq<int>, ghost m0: Meaning, ghost link0: map<int, int>)
    requires c.tables.Valid() && 1 <= c.numecs <= 256 && c.tables.numecs == c.numecs && |part| == c.numecs + 1
    requires c.tecbck.Length == c.numecs + 1 && nummecs == EcNumbers.NumClasses(part, c.numecs)
    requires if c.usemecs then MetaCodes(c.tecbck[..], part, c.numecs) else Discrete(part)
    requires MetaOk(part, m0, c.numecs, c.numtemps) && TemplatesStored(c.tnxt, m0, c.numecs, c.numtemps)
    requires 1 <= i <= c.numtemps && lastdfa + c.numtemps + 1 < |c.tables.base|
    requires TemplatesDone(c.tables.m, c.tables.link, m0, link0, part, c.numecs, c.eob, lastdfa, c.numtemps, i)
    modifies c.tables
    ensures c.tables.Valid() && |c.tables.base| == |old(c.tables.base)|
    ensures TemplatesDone(c.tables.m, c.tables.link, m0, link0, part, c.numecs, c.eob, lastdfa, c.numtemps, i + 1)
    ensures c.tables.States() == old(c.tables.States()) + {lastdfa + i + 1} && old(c.tables.bare) <= c.tables.bare <= old(c.tables.bare) + {lastdfa + i + 1}
  {
    hide TemplatesDone, TemplateDone, MetaOk, TemplatesStored, TemplateStored, MetaRespects, MetaCodes, Discrete, TmpUpTo;
    hide EntryTables.Valid, EcNumbers.ClassNumber, EcNumbers.NumClasses, Represents, CountKept, TemplateRow;
    ghost var m, link := c.tables.m, c.tables.link;
    TemplateNext(m, link, m0, link0, part, c.numecs, c.eob, lastdfa, c.numtemps, i);
    ghost var com := TemplateReady(c.tnxt, m0, part, c.numecs, c.numtemps, i);
    var tmp, totaltrans := CollectTemplate(c.tnxt, c.tecbck, c.usemecs, c.numecs, i, nummecs, m0, part);
    TmpLength(tmp, m0[Tmpl(i)], part, c.numecs, totaltrans);
    ghost var row := tmp[0 := c.eob];
    TmpIsRow(tmp, row, m0[Tmpl(i)], part, m, c.numecs, c.eob, totaltrans, com);
    // lastdfa + 1 is kept for MkDefTbl, so template i gets the number after that
    c.tables.MkEntry(tmp, nummecs, lastdfa + i + 1, JAMSTATE, totaltrans, row);
    TemplateIsDone(tmp, row, m, link, part, c.numecs, c.eob, lastdfa, i, c.tables.m, c.tables.link);
    TemplateKeepsOthers(m, link, m0, link0, part, c.numecs, c.eob, lastdfa, c.numtemps, i, row, c.tables.m, c.tables.link);
  }

  // ---- mkdeftbl ----

  /** Adds the jam state's entries: end of buffer on class 0, jam on every other class. */
  method MkDefTbl(tables: EntryTables, numecs: nat, eob: int, lastdfa: nat) returns (jambase: nat)
    requires Shape(tables.T()) && lastdfa + 1 < |tables.base|
    modifies tables`nxt, tables`chk, tables`base, tables`def, tables`tblend
    ensures JamPlaced(old(tables.T()), tables.T(), numecs, eob, lastdfa) && jambase == old(tables.tblend) + 1
  {
    ghost var t := tables.T();
    var jamstate := lastdfa + 1;
    jambase := tables.tblend + 1;
    tables.EnsureRoom(jambase + numecs);
    tables.tblend := jambase;
    tables.nxt := tables.nxt[jambase := eob];
    tables.chk := tables.chk[jambase := jamstate];
    var i := 1;
    while i <= numecs
      invariant 1 <= i <= numecs + 1
      invariant JamEntries(tables.nxt, tables.chk, t, jambase, eob, jamstate, i)
      invariant jambase + numecs < |tables.chk| && tables.base == t.base && tables.def == t.def && tables.tblend == jambase
    {
      tables.nxt := tables.nxt[jambase + i := 0];
      tables.chk := tables.chk[jambase + i := jamstate];
      i := i + 1;
    }
    tables.base := tables.base[jamstate := jambase];
    tables.def := tables.def[jamstate := 0];
    tables.tblend := jambase + numecs;
  }

  ghost predicate JamEntries(nxt: seq<int>, chk: seq<int>, t: Tab, jambase: nat, eob: int, jamstate: int, i: nat) {
    && |nxt| == |chk| && |t.chk| <= |chk| && |t.nxt| == |t.chk| && jambase + i <= |chk| && t.tblend + 1 == jambase < |t.chk|
    && (forall k :: 0 <= k < jambase ==> chk[k] == t.chk[k] && nxt[k] == t.nxt[k])
    && (forall k :: jambase <= k < jambase + i ==> chk[k] == jamstate && nxt[k] == if k == jambase then eob else 0)
  }

  // ---- gentabs ----

  /** Emits base, turning JAMSTATE bases of states into jambase. */
  method EmitBase(base: seq<int>, lastdfa: nat, total: nat, jambase: int) returns (b: seq<int>)
    requires lastdfa < total < |base|
    ensures |b| == total + 1
    ensures forall i :: 1 <= i <= total ==> b[i] == if i <= lastdfa then FixBase(base[i], jambase) else base[i]
  {
    b := [0];
    var i := 1;
    while i <= total
      invariant 1 <= i <= total + 1 && |b| == i
      invariant forall k :: 1 <= k < i ==> b[k] == if k <= lastdfa then FixBase(base[k], jambase) else base[k]
    {
      b := b + [if i <= lastdfa && base[i] == JAMSTATE then jambase else base[i]];
      i := i + 1;
    }
  }

  /** Emits def: references to the jam state and to templates become state numbers. */
  method EmitDef(def: seq<int>, lastdfa: nat, total: nat) returns (d: seq<int>)
    requires lastdfa < total < |def|
    ensures |d| == total + 1
    ensures forall i :: 1 <= i <= lastdfa ==> d[i] == FixDef(def[i], lastdfa)
    ensures forall i :: lastdfa + 2 <= i <= total ==> d[i] == lastdfa + 1
  {
    d := [0];
    var i := 1;
    while i <= total
      invariant 1 <= i <= total + 1 && |d| == i
      invariant forall k :: 1 <= k < i && k <= lastdfa ==> d[k] == FixDef(def[k], lastdfa)
      invariant forall k :: lastdfa + 2 <= k < i ==> d[k] == lastdfa + 1
    {
      var v := def[i];
      if i <= lastdfa {
        if v == JAMSTATE {
          v := lastdfa + 1;
        } else if v < 0 {
          v := lastdfa - v + 1;
        }
      } else if i > lastdfa + 1 {
        v := lastdfa + 1;
      }
      d := d + [v];
      i := i + 1;
    }
  }

  /** Emits nxt and chk: entries that are free or 0 go to the jam state. */
  method EmitNxtChk(nxt: seq<int>, chk: seq<int>, tblend: nat, jamstate: int) returns (n: seq<int>, c: seq<int>)
    requires tblend < |nxt| == |chk|
    ensures |n| == |c| == tblend + 1 && c[0] == 0
    ensures forall k :: 1 <= k <= tblend ==> c[k] == chk[k] && n[k] == FixNxt(chk[k], nxt[k], jamstate)
  {
    n, c := [0], [0];
    var i := 1;
    while i <= tblend
      invariant 1 <= i <= tblend + 1 && |n| == |c| == i && c[0] == 0
      invariant forall k :: 1 <= k < i ==> c[k] == chk[k] && n[k] == FixNxt(chk[k], nxt[k], jamstate)
    {
      n := n + [if chk[i] == 0 || nxt[i] == 0 then jamstate else nxt[i]];
      c := c + [chk[i]];
      i := i + 1;
    }
  }

  /** Emits all tables. */
  method Emit(tables: EntryTables, meta: seq<int>, numecs: nat, usemecs: bool, lastdfa: nat, numtemps: nat, jambase: nat)
    returns (g: Gen)
    requires |meta| == numecs + 1 && 0 <= tables.tblend < |tables.chk| == |tables.nxt|
    requires lastdfa + numtemps + 1 < |tables.base| == |tables.def|
    ensures Emitted(g, tables.T(), lastdfa, numtemps, jambase)
    ensures g.numecs == numecs && g.usemecs == usemecs && g.meta == meta
  {
    var total := lastdfa + numtemps + 1;
    var b := EmitBase(tables.base, lastdfa, total, jambase);
    var d := EmitDef(tables.def, lastdfa, total);
    var n, c := EmitNxtChk(tables.nxt, tables.chk, tables.tblend, lastdfa + 1);
    g := Gen(b, d, n, c, meta, numecs, usemecs, lastdfa, total, tables.tblend, jambase);
  }

  // ---- putting it together ----

  /** Every state 1..lastdfa has been entered, in order. */
  ghost predicate AllEntered(c: Compressor, lastdfa: nat)
    reads c, c.tables, c.protos, c.tecfwd, c.tecbck, c.cclflags
  {
    && c.Valid() && c.last == lastdfa && c.tecbck.Length == c.tecfwd.Length == c.numecs + 1
    && (forall s :: s in c.tables.States() <==> 1 <= s <= lastdfa)
  }

  /** Compresses the templates: numbers the meta-classes and makes an entry per meta-class. */
  method CmpTmps(c: Compressor, lastdfa: nat) returns (nummecs: nat, ghost part: seq<int>)
    requires AllEntered(c, lastdfa)
    modifies c.tables, c.tecbck
    ensures c.tables.Valid() && |part| == c.numecs + 1 && lastdfa + c.numtemps + 1 < |c.tables.base|
    ensures if c.usemecs then MetaCodes(c.tecbck[..], part, c.numecs) else Discrete(part)
    ensures TemplatesDone(c.tables.m, c.tables.link, old(c.tables.m), old(c.tables.link), part, c.numecs, c.eob, lastdfa,
                          c.numtemps, c.numtemps + 1)
    ensures forall s :: s in c.tables.States() <==> 1 <= s <= lastdfa || lastdfa + 2 <= s <= lastdfa + c.numtemps + 1
    ensures old(c.tables.bare) <= c.tables.bare && forall s :: s in c.tables.bare && s <= lastdfa ==> s in old(c.tables.bare)
  {
    nummecs, part := NumberMeta(c);
    RoomForStates(c.tables, lastdfa + c.numtemps + 1);
    EnterTemplates(c, lastdfa, nummecs, part, c.tables.m, c.tables.link);
  }

  /** Creates the meta-classes from the data gathered on template transitions. */
  method NumberMeta(c: Compressor) returns (nummecs: nat, ghost part: seq<int>)
    requires c.Valid() && c.tecbck.Length == c.tecfwd.Length == c.numecs + 1
    modifies c.tecbck
    ensures |part| == c.numecs + 1 && nummecs == EcNumbers.NumClasses(part, c.numecs)
    ensures if c.usemecs then MetaCodes(c.tecbck[..], part, c.numecs) else Discrete(part)
    ensures MetaOk(part, c.tables.m, c.numecs, c.numtemps)
  {
    if c.usemecs {
      part := c.part;
      nummecs := EcNumbers.Cre8Ecs(c.tecfwd, c.tecbck, c.numecs, part);
    } else {
      part := seq(c.numecs + 1, x => x);
      nummecs := c.numecs;
      DiscreteNumbers(part, c.numecs);
      DiscreteMeta(part, c.tables.m, c.tnxt, c.numecs, c.eob, c.numtemps, c.last);
    }
  }

  lemma DiscreteMeta(part: seq<int>, m: Meaning, tnxt: seq<int>, numecs: nat, eob: int, numtemps: nat, last: int)
    requires |part| == numecs + 1 && Discrete(part) && TemplatesStored(tnxt, m, numecs, numtemps) && Links(m, numecs, eob, numtemps, last)
    ensures MetaOk(part, m, numecs, numtemps)
  {
    forall t | 1 <= t <= numtemps ensures MetaRespects(part, m, numecs, Tmpl(t)) {
      assert LinkOk(m, numecs, eob, numtemps, last, Tmpl(t));
    }
  }

  method RoomForStates(tables: EntryTables, last: nat)
    requires tables.Valid()
    modifies tables
    ensures tables.Valid() && last < |tables.base|
    ensures tables.m == old(tables.m) && tables.link == old(tables.link) && tables.States() == old(tables.States())
    ensures tables.bare == old(tables.bare)
  {
    while last >= |tables.base|
      invariant tables.Valid()
      invariant tables.m == old(tables.m) && tables.link == old(tables.link) && tables.States() == old(tables.States())
      invariant tables.bare == old(tables.bare)
      decreases last - |tables.base|
    {
      tables.IncreaseMaxDfas();
    }
  }

  /** The meta-class table as it is emitted. */
  method EmitMeta(tecbck: array<int>, usemecs: bool, numecs: nat, ghost part: seq<int>) returns (meta: seq<int>)
    requires tecbck.Length == numecs + 1 == |part|
    requires if usemecs then MetaCodes(tecbck[..], part, numecs) else Discrete(part)
    ensures MetaTable(meta, part, numecs) && (!usemecs ==> forall x :: 0 <= x <= numecs ==> meta[x] == x)
  {
    meta := [0];
    var i := 1;
    while i <= numecs
      invariant 1 <= i <= numecs + 1 && |meta| == i && meta[0] == 0
      invariant forall x :: 1 <= x < i ==> meta[x] == EcNumbers.ClassNumber(part, x)
      invariant !usemecs ==> forall x :: 0 <= x < i ==> meta[x] == x
    {
      CodeOf(tecbck[..], usemecs, part, numecs, i);
      EcNumbers.NumbersFollowLeast(part, i, i);
      meta := meta + [if !usemecs then i else if tecbck[i] < 0 then -tecbck[i] else tecbck[i]];
      i := i + 1;
    }
  }

  /** The finished tables meet the hypotheses of the emission theorem. */
  ghost predicate Finished(t: Tab, m: Meaning, m0: Meaning, placed: set<int>, meta: seq<int>, usemecs: bool,
                           numecs: nat, eob: int, lastdfa: nat, numtemps: nat)
  {
    && Complete(t, m, placed, numecs, eob, lastdfa, numtemps) && 0 < eob && |meta| == numecs + 1
    && (forall s :: 1 <= s <= lastdfa ==> StateLinked(t, m, meta, numecs, lastdfa, numtemps, s))
    && (forall s :: lastdfa + 2 <= s <= lastdfa + numtemps + 1 ==> TemplateLinked(t, m, numecs, eob, s))
    && (!usemecs ==> forall c :: 0 <= c <= numecs ==> meta[c] == c)
    && (forall s :: 1 <= s <= lastdfa ==> s in m0 && s in m && m[s] == m0[s])
    && (forall s :: lastdfa + 2 <= s <= lastdfa + numtemps + 1 ==> s in m)
  }

  lemma FinishedTables(t: Tab, m: Meaning, m0: Meaning, link: map<int, int>, link0: map<int, int>, placed: set<int>,
                       part: seq<int>, meta: seq<int>, usemecs: bool, numecs: nat, eob: int, lastdfa: nat, numtemps: nat)
    requires Inv(t, m, placed) && LinkRec(t.def, [], placed, link) && |part| == numecs + 1 && 1 <= numecs <= 256
    requires forall s :: s in placed <==> 1 <= s <= lastdfa || lastdfa + 2 <= s <= lastdfa + numtemps + 1
    requires TemplatesDone(m, link, m0, link0, part, numecs, eob, lastdfa, numtemps, numtemps + 1)
    requires lastdfa + numtemps + 1 < |t.base| && MetaTable(meta, part, numecs)
    requires !usemecs ==> forall c :: 0 <= c <= numecs ==> meta[c] == c
    ensures Finished(t, m, m0, placed, meta, usemecs, numecs, eob, lastdfa, numtemps)
  {
    forall s | 1 <= s <= lastdfa
      ensures StateLinked(t, m, meta, numecs, lastdfa, numtemps, s)
    {
      StateIsLinked(t, m, m0, link, link0, placed, part, meta, numecs, eob, lastdfa, numtemps, s);
    }
    forall s | 1 <= s <= lastdfa ensures s in m0 {
      StateIsLinked(t, m, m0, link, link0, placed, part, meta, numecs, eob, lastdfa, numtemps, s);
    }
    forall s | lastdfa + 2 <= s <= lastdfa + numtemps + 1
      ensures TemplateLinked(t, m, numecs, eob, s)
    {
      assert TemplateDone(m, link, part, numecs, eob, lastdfa, s - lastdfa - 1);
      assert s in placed;
    }
    forall s | lastdfa + 2 <= s <= lastdfa + numtemps + 1 ensures s in m {
      assert TemplateDone(m, link, part, numecs, eob, lastdfa, s - lastdfa - 1);
    }
  }

  lemma StateIsLinked(t: Tab, m: Meaning, m0: Meaning, link: map<int, int>, link0: map<int, int>, placed: set<int>,
                      part: seq<int>, meta: seq<int>, numecs: nat, eob: int, lastdfa: nat, numtemps: nat, s: int)
    requires Inv(t, m, placed) && |part| == numecs + 1 && 1 <= s <= lastdfa && s in placed
    requires TemplatesDone(m, link, m0, link0, part, numecs, eob, lastdfa, numtemps, numtemps + 1)
    requires MetaTable(meta, part, numecs)
    ensures StateLinked(t, m, meta, numecs, lastdfa, numtemps, s) && s in m0
  {
    assert Covered(t, m, s);
    assert s in m0 && LinkOk(m0, numecs, eob, numtemps, lastdfa, s);
    var d := t.def[s];
    assert d in m0 && LinkOk(m0, numecs, eob, numtemps, lastdfa, d);
    if d != JAMSTATE && d < 0 {
      assert TemplateDone(m, link, part, numecs, eob, lastdfa, Tmpl(d));
    }
  }

  lemma AllEnteredHas(c: Compressor, lastdfa: nat)
    requires AllEntered(c, lastdfa)
    ensures 1 <= c.numecs <= 256 && c.tecbck.Length == c.tecfwd.Length == c.numecs + 1
  {
  }

  lemma TablesHave(tables: EntryTables)
    requires tables.Valid()
    ensures Inv(tables.T(), tables.m, tables.placed) && Shape(tables.T()) && LinkRec(tables.def, tables.one, tables.placed, tables.link)
    ensures |tables.base| == |tables.def| && 0 <= tables.tblend < |tables.chk| == |tables.nxt|
    ensures BareOk(tables.base, tables.placed, tables.bare)
  {
  }

  /** Of the states, the bare ones are emitted with the base jambase. */
  ghost predicate JamBases(g: Gen, bare: set<int>) {
    Shaped(g) && forall s :: 1 <= s <= g.lastdfa ==> (g.base[s] == g.jambase <==> s in bare)
  }

  lemma JamBasesBare(g: Gen, t: Tab, t1: Tab, placed: set<int>, bare: set<int>, bare0: set<int>, numecs: nat, eob: int, lastdfa: nat, numtemps: nat)
    requires BareOk(t.base, placed, bare) && JamPlaced(t, t1, numecs, eob, lastdfa) && Emitted(g, t1, lastdfa, numtemps, t.tblend + 1)
    requires bare0 <= bare && forall s :: s in bare && s <= lastdfa ==> s in bare0
    requires forall s :: 1 <= s <= lastdfa ==> s in placed && (t.base[s] == JAMSTATE || t.base[s] <= t.tblend)
    ensures JamBases(g, bare0)
  {
  }

  lemma BasesBelow(t: Tab, m: Meaning, placed: set<int>, lastdfa: nat)
    requires Inv(t, m, placed) && forall s :: 1 <= s <= lastdfa ==> s in placed
    ensures forall s :: 1 <= s <= lastdfa ==> s in placed && s < |t.base| && (t.base[s] == JAMSTATE || t.base[s] <= t.tblend)
  {
    forall s | 1 <= s <= lastdfa
      ensures s < |t.base| && (t.base[s] == JAMSTATE || t.base[s] <= t.tblend)
    {
      assert Covered(t, m, s);
    }
  }

  /**
   Finishes the tables of all states and emits them: looking up any state and class in them
   gives the entry of the transition array the state was built from.
   */
  method FinishTables(c: Compressor, lastdfa: nat) returns (g: Gen, ghost rows: map<int, Row>)
    requires AllEntered(c, lastdfa) && 1 <= lastdfa
    modifies c.tables, c.tecbck
    ensures Encodes(g, rows) && JamBased(g, rows) && g.lastdfa == lastdfa && g.numecs == c.numecs
    ensures forall s :: 1 <= s <= lastdfa ==> s in old(c.tables.m) && s in rows && rows[s] == old(c.tables.m)[s]
    ensures lastdfa + 1 in rows && rows[lastdfa + 1] == JamRow(c.numecs, c.eob)
    ensures JamBases(g, old(c.tables.bare))
  {
    hide JamBases, BareOk, JamBased, MetaCodes, Discrete, MetaTable, TemplatesDone, StateLinked, TemplateLinked, LinkRec, Waiting;
    hide Compressor.Valid, EntryTables.Valid, AllEntered, Encodes, Finished, Shape, Inv;
    AllEnteredHas(c, lastdfa);
    ghost var m0, link0, bare0 := c.tables.m, c.tables.link, c.tables.bare;
    var nummecs;
    ghost var part;
    nummecs, part := CmpTmps(c, lastdfa);
    c.tables.DrainStack();
    TablesHave(c.tables);
    ghost var t, m, placed := c.tables.T(), c.tables.m, c.tables.placed;
    BasesBelow(t, m, placed, lastdfa);
    var meta := EmitMeta(c.tecbck, c.usemecs, c.numecs, part);
    FinishedTables(t, m, m0, c.tables.link, link0, placed, part, meta, c.usemecs, c.numecs, c.eob, lastdfa, c.numtemps);
    var jambase := MkDefTbl(c.tables, c.numecs, c.eob, lastdfa);
    g := Emit(c.tables, meta, c.numecs, c.usemecs, lastdfa, c.numtemps, jambase);
    JamBasesBare(g, t, c.tables.T(), placed, c.tables.bare, bare0, c.numecs, c.eob, lastdfa, c.numtemps);
    rows := FinalTables(g, t, c.tables.T(), m, m0, placed, meta, c.numecs, c.eob, lastdfa, c.numtemps);
  }

  lemma FinalTables(g: Gen, t: Tab, t1: Tab, m: Meaning, m0: Meaning, placed: set<int>, meta: seq<int>,
                    numecs: nat, eob: int, lastdfa: nat, numtemps: nat)
    returns (rows: map<int, Row>)
    requires Finished(t, m, m0, placed, meta, g.usemecs, numecs, eob, lastdfa, numtemps)
    requires JamPlaced(t, t1, numecs, eob, lastdfa) && Emitted(g, t1, lastdfa, numtemps, t.tblend + 1)
    requires g.numecs == numecs && g.meta == meta
    ensures Encodes(g, rows) && JamBased(g, rows) && g.lastdfa == lastdfa
    ensures forall s :: 1 <= s <= lastdfa ==> s in m0 && s in rows && rows[s] == m0[s]
    ensures lastdfa + 1 in rows && rows[lastdfa + 1] == JamRow(numecs, eob)
  {
    EmissionIsExact(g, t, t1, m, placed, meta, numecs, eob, lastdfa, numtemps);
    JamBaseJams(g, t, t1, m, placed, meta, numecs, eob, lastdfa, numtemps);
    rows := FinalRows(m, numecs, eob, lastdfa, numtemps);
  }

  /** The row of a state: transitions by class, end of buffer on class 0. */
  ghost function RowFor(r: DfaRow, s: int, numecs: nat, eob: int): (row: Row)
    requires |r.state| == numecs + 1
  {
    if s == eob then seq(numecs + 1, i => 0) else r.state[0 := eob]
  }

  /** How many of the first n states could become templates. */
  function Candidates(rows: seq<DfaRow>, numecs: nat, n: nat): (r: nat)
    requires n <= |rows| && forall i :: 0 <= i < |rows| ==> |rows[i].state| == numecs + 1
    ensures r <= n
  {
    if n == 0 then 0 else Candidates(rows, numecs, n - 1) + (if IsCandidate(rows[n - 1]) then 1 else 0)
  }

  predicate IsCandidate(r: DfaRow)
  {
    MakesTemplate(r.totaltrans, r.comstate, r.comfreq)
  }

  lemma {:induction false} CandidatesGrow(rows: seq<DfaRow>, numecs: nat, a: nat, b: nat)
    requires a <= b <= |rows| && forall i :: 0 <= i < |rows| ==> |rows[i].state| == numecs + 1
    ensures Candidates(rows, numecs, a) <= Candidates(rows, numecs, b)
  {
    if a < b {
      CandidatesGrow(rows, numecs, a, b - 1);
    }
  }

  /** So many of the states 1..ds could become templates that one needs template number 32766. */
  ghost predicate UsesUpTemplates(rows: seq<DfaRow>, numecs: nat, ds: nat) {
    && ds <= |rows| && (forall i :: 0 <= i < |rows| ==> |rows[i].state| == numecs + 1)
    && -JAMSTATE <= Candidates(rows, numecs, ds) <= Candidates(rows, numecs, |rows|)
  }

  /** The bare states are those without transitions, NUL's included, except for the end-of-buffer state. */
  ghost predicate BareRows(bare: set<int>, rows: seq<DfaRow>, eob: int, ds: nat) {
    ds <= |rows| && forall s :: s in bare <==> 1 <= s <= ds && s != eob && rows[s - 1].totaltrans == 0
  }

  /** The states entered so far have the rows they were given. */
  ghost predicate RowsEntered(c: Compressor, rows: seq<DfaRow>, ds: nat)
    requires forall i :: 0 <= i < |rows| ==> |rows[i].state| == c.numecs + 1
    reads c, c.tables, c.protos, c.tecfwd, c.tecbck, c.cclflags
  {
    && c.Valid() && c.last == ds <= |rows| && c.tecbck.Length == c.tecfwd.Length == c.numecs + 1
    && c.numtemps <= Candidates(rows, c.numecs, ds) && |rows| < |c.tables.base|
    && (forall s :: s in c.tables.States() <==> 1 <= s <= ds) && BareRows(c.tables.bare, rows, c.eob, ds)
    && (forall s :: 1 <= s <= ds ==> s in c.tables.m && c.tables.m[s] == RowFor(rows[s - 1], s, c.numecs, c.eob))
  }

  /** The rows of the states 1..ds are meant. */
  ghost predicate Meant(m: Meaning, rows: seq<DfaRow>, numecs: nat, eob: int, ds: nat)
    requires ds <= |rows| && forall i :: 0 <= i < |rows| ==> |rows[i].state| == numecs + 1
  {
    forall s :: 1 <= s <= ds ==> s in m && m[s] == RowFor(rows[s - 1], s, numecs, eob)
  }

  ghost predicate Entered(states: set<int>, ds: nat) {
    forall s :: s in states <==> 1 <= s <= ds
  }

  lemma RowsEnteredHas(c: Compressor, rows: seq<DfaRow>, ds: nat)
    requires forall i :: 0 <= i < |rows| ==> |rows[i].state| == c.numecs + 1
    requires RowsEntered(c, rows, ds)
    ensures c.Valid() && c.last == ds <= |rows| && c.tecbck.Length == c.tecfwd.Length == c.numecs + 1
    ensures c.numtemps <= Candidates(rows, c.numecs, ds) && |rows| < |c.tables.base|
    ensures Meant(c.tables.m, rows, c.numecs, c.eob, ds) && Entered(c.tables.States(), ds) && BareRows(c.tables.bare, rows, c.eob, ds)
  {
    hide Compressor.Valid, RowFor;
  }

  lemma RowsEnteredNext(c: Compressor, rows: seq<DfaRow>, ds: nat, m: Meaning, states: set<int>, bare: set<int>, row: Row)
    requires forall i :: 0 <= i < |rows| ==> |rows[i].state| == c.numecs + 1
    requires c.Valid() && c.last == ds && c.tecbck.Length == c.tecfwd.Length == c.numecs + 1
    requires 1 <= ds <= |rows| < |c.tables.base| && c.numtemps <= Candidates(rows, c.numecs, ds)
    requires Meant(m, rows, c.numecs, c.eob, ds - 1) && GainsState(m, c.tables.m, ds, row)
    requires BareRows(bare, rows, c.eob, ds - 1) && c.tables.bare == bare + if ds != c.eob && rows[ds - 1].totaltrans == 0 then {ds} else {}
    requires row == RowFor(rows[ds - 1], ds, c.numecs, c.eob) && Entered(states, ds - 1) && c.tables.States() == states + {ds}
    ensures RowsEntered(c, rows, ds)
  {
    hide Compressor.Valid, RowFor;
  }

  /** A row of ntod can be passed to bldtbl. */
  lemma CanBeBuilt(c: Compressor, r: DfaRow, ds: nat, row: Row, rows: nat)
    requires c.Valid() && c.last == ds - 1 && ds != c.eob && GoodRow(r, c.numecs) && row == RowFor(r, ds, c.numecs, c.eob)
    requires 1 <= ds <= rows < |c.tables.base|
    ensures c.Buildable(r.state, ds, r.totaltrans, r.comstate, row)
  {
    hide Compressor.Valid;
  }

  /** The state that becomes template 32766 does not keep its row. */
  lemma JammedRowDiffers(r: DfaRow, ds: int, numecs: nat, eob: int)
    requires GoodRow(r, numecs) && MakesTemplate(r.totaltrans, r.comstate, r.comfreq) && ds != eob
    requires r.totaltrans * 100 >= numecs * PROTO_SIZE_PERCENTAGE
    ensures Jammed(r.state, r.comstate, numecs, eob) != RowFor(r, ds, numecs, eob)
  {
    CandidateGoes(r, numecs);
    LimitLoses(r.state, RowFor(r, ds, numecs, eob), numecs, eob, r.totaltrans, r.comstate, r.comfreq);
  }

  lemma GoodRowHas(r: DfaRow, numecs: nat)
    requires GoodRow(r, numecs)
    ensures |r.state| == numecs + 1 && forall c :: 1 <= c <= numecs ==> 0 <= r.state[c]
  {
  }

  lemma EobRow(r: DfaRow, numecs: nat, eob: int)
    requires |r.state| == numecs + 1
    ensures RowFor(r, eob, numecs, eob) == seq(numecs + 1, i => 0)
  {
  }

  lemma GainsOne(m: Meaning, s: int, row: Row)
    requires s !in m
    ensures GainsState(m, m[s := row], s, row)
  {
  }

  /** Enters state ds of the DFA the way ntod does; the state loses transitions if it needs template 32766. */
  method EnterDfaState(c: Compressor, rows: seq<DfaRow>, ds: nat) returns (jammed: bool)
    requires forall i :: 0 <= i < |rows| ==> |rows[i].state| == c.numecs + 1 && GoodRow(rows[i], c.numecs)
    requires 1 <= ds <= |rows| && RowsEntered(c, rows, ds - 1)
    modifies c.Repr()
    ensures !jammed ==> RowsEntered(c, rows, ds)
    ensures jammed ==> old(c.numtemps) + 1 == -JAMSTATE <= Candidates(rows, c.numecs, ds) && ds != c.eob
    ensures jammed ==> c.tables.Valid() && ds in c.tables.m && ds in c.tables.States()
    ensures jammed ==> c.tables.m[ds] == Jammed(rows[ds - 1].state, rows[ds - 1].comstate, c.numecs, c.eob)
    ensures jammed ==> c.tables.m[ds] != RowFor(rows[ds - 1], ds, c.numecs, c.eob)
  {
    jammed := false;
    hide RowsEntered, Compressor.Valid, RowFor, GoodRow, GainsState, Compressor.Buildable, Meant, Entered, BareRows;
    RowsEnteredHas(c, rows, ds - 1);
    ghost var row := RowFor(rows[ds - 1], ds, c.numecs, c.eob);
    ghost var m, states, bare := c.tables.m, c.tables.States(), c.tables.bare;
    GoodRowHas(rows[ds - 1], c.numecs);
    if ds == c.eob {
      EobRow(rows[ds - 1], c.numecs, c.eob);
      c.EnterEob(row);
      GainsOne(m, ds, row);
    } else {
      var r := rows[ds - 1];
      CanBeBuilt(c, r, ds, row, |rows|);
      jammed := c.BldTbl(r.state, ds, r.totaltrans, r.comstate, r.comfreq, row);
      if jammed {
        JammedRowDiffers(r, ds, c.numecs, c.eob);
        return;
      }
    }
    RowsEnteredNext(c, rows, ds, m, states, bare, row);
  }

  lemma GoodRowsHave(rows: seq<DfaRow>, numecs: nat)
    requires forall i :: 0 <= i < |rows| ==> GoodRow(rows[i], numecs)
    ensures forall i :: 0 <= i < |rows| ==> |rows[i].state| == numecs + 1
  {
  }

  lemma AllRowsEntered(c: Compressor, rows: seq<DfaRow>)
    requires forall i :: 0 <= i < |rows| ==> |rows[i].state| == c.numecs + 1
    requires RowsEntered(c, rows, |rows|)
    ensures AllEntered(c, |rows|) && Meant(c.tables.m, rows, c.numecs, c.eob, |rows|) && BareRows(c.tables.bare, rows, c.eob, |rows|)
  {
    hide Compressor.Valid, RowFor;
  }

  lemma MeantHas(m: Meaning, rows: seq<DfaRow>, numecs: nat, eob: int, ds: nat)
    requires ds <= |rows| && (forall i :: 0 <= i < |rows| ==> |rows[i].state| == numecs + 1) && Meant(m, rows, numecs, eob, ds)
    ensures forall s :: 1 <= s <= ds ==> s in m && m[s] == RowFor(rows[s - 1], s, numecs, eob)
  {
  }

  /** inittbl, and room for the states. */
  method StartTables(rows: seq<DfaRow>, numecs: nat, usemecs: bool, eob: int) returns (c: Compressor)
    requires 1 <= numecs <= 256 && 0 < eob && forall i :: 0 <= i < |rows| ==> |rows[i].state| == numecs + 1
    ensures fresh(c.Repr()) && c.numecs == numecs && c.usemecs == usemecs && c.eob == eob && RowsEntered(c, rows, 0)
  {
    hide GoodRow;
    c := new Compressor(numecs, usemecs, eob);
    RoomForStates(c.tables, |rows|);
  }

  /**
   Compresses a whole DFA with states 1..|rows|: from every state, looking a class up in the
   emitted tables gives the entry the state's transition array has for it, the jam state where
   that entry is 0, and on class 0 the end-of-buffer state.  It stops at a state that needs
   template number 32766, which takes that many states with a transition common enough.
   */
  method CompressDfa(rows: seq<DfaRow>, numecs: nat, usemecs: bool, eob: int)
    returns (g: Gen, jammed: nat, ghost final: map<int, Row>)
    requires 1 <= numecs <= 256 && 1 <= eob <= |rows|
    requires forall i :: 0 <= i < |rows| ==> |rows[i].state| == numecs + 1 && GoodRow(rows[i], numecs)
    ensures jammed == 0 ==> Encodes(g, final) && JamBased(g, final) && g.lastdfa == |rows| && g.numecs == numecs
    ensures jammed == 0 ==> forall s :: 1 <= s <= |rows| ==> s in final && final[s] == RowFor(rows[s - 1], s, numecs, eob)
    ensures jammed == 0 ==> |rows| + 1 in final && final[|rows| + 1] == JamRow(numecs, eob)
    ensures jammed == 0 ==> forall s :: 1 <= s <= |rows| ==> (g.base[s] == g.jambase <==> s != eob && rows[s - 1].totaltrans == 0)
    ensures jammed != 0 ==> UsesUpTemplates(rows, numecs, jammed)
  {
    hide RowsEntered, AllEntered, GoodRow, RowFor, Compressor.Valid, Encodes, JamBased, Meant, Entered;
    GoodRowsHave(rows, numecs);
    var c := StartTables(rows, numecs, usemecs, eob);
    var todo_head := 0;
    while todo_head < |rows|
      invariant 0 <= todo_head <= |rows| && fresh(c.Repr())
      invariant RowsEntered(c, rows, todo_head)
    {
      todo_head := todo_head + 1;
      var lost := EnterDfaState(c, rows, todo_head);
      if lost {
        CandidatesGrow(rows, numecs, todo_head, |rows|);
        g, jammed, final := Gen([], [], [], [], [], 0, false, 0, 0, 0, 0), todo_head, map[];
        return;
      }
    }
    AllRowsEntered(c, rows);
    MeantHas(c.tables.m, rows, numecs, eob, |rows|);
    jammed := 0;
    g, final := FinishTables(c, |rows|);
  }
}
