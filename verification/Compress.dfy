/**
 Choosing how to store a DFA state: on its own, as its difference from an earlier state's
 table, or as its difference from a template (`bldtbl`, `mktemplate`; `ext/flex/tblcmp.c`).
 */
module Compress {
  import Ecs
  import opened NxtChk
  import opened MkEntry
  import opened Protos
  import opened DfaRows

  const PROTO_SIZE_PERCENTAGE := 15
  const CHECK_COM_PERCENTAGE := 50
  const FIRST_MATCH_DIFF_PERCENTAGE := 10
  const ACCEPTABLE_DIFF_PERCENTAGE := 50
  const TEMPLATE_SAME_PERCENTAGE := 60
  const NEW_PROTO_DIFF_PERCENTAGE := 20
  const INITIAL_MAX_TEMPLATE_XPAIRS := 2500
  const MAX_TEMPLATE_XPAIRS_INCREMENT := 2500

  /** The link to template t. */
  function Tmpl(t: int): int {
    0 - t
  }

  ghost predicate LinkOk(m: Meaning, numecs: nat, eob: int, numtemps: nat, last: int, l: int)
    requires l in m
  {
    && |m[l]| == numecs + 1 && l <= last && l != 0
    && (l != eob ==> m[l][0] == eob)
    && (l < 0 ==> l == JAMSTATE || Tmpl(numtemps) <= l)
  }

  /** The links known so far: the jam row, numtemps templates, and states up to last. */
  ghost predicate Links(m: Meaning, numecs: nat, eob: int, numtemps: nat, last: int) {
    && JAMSTATE in m && m[JAMSTATE] == JamRow(numecs, eob) && numtemps < -JAMSTATE && 0 < eob
    && (forall l :: l in m ==> LinkOk(m, numecs, eob, numtemps, last, l))
    && (forall t :: 1 <= t <= numtemps ==> Tmpl(t) in m)
  }

  /** A template goes to one state wherever it goes anywhere, and it goes somewhere. */
  ghost predicate TemplateRow(row: Row, numecs: nat, comstate: int) {
    && |row| == numecs + 1 && 0 < comstate
    && (forall i :: 1 <= i <= numecs ==> row[i] == 0 || row[i] == comstate)
    && (exists i :: 1 <= i <= numecs && row[i] == comstate)
  }

  lemma CommonIsState(row: Row, numecs: nat, comstate: int)
    requires TemplateRow(row, numecs, comstate)
    ensures 0 < comstate
  {
  }

  /** tnxt holds the rows of the templates. */
  ghost predicate TemplatesStored(tnxt: seq<int>, m: Meaning, numecs: nat, numtemps: nat) {
    && numecs * numtemps + numecs < |tnxt|
    && (forall t :: 1 <= t <= numtemps ==> TemplateStored(tnxt, m, numecs, t))
  }

  ghost predicate TemplateStored(tnxt: seq<int>, m: Meaning, numecs: nat, t: nat) {
    && Tmpl(t) in m && (exists com :: TemplateRow(m[Tmpl(t)], numecs, com))
    && forall i {:trigger At(numecs, t + 1, i)} :: 1 <= i <= numecs ==>
         0 <= At(numecs, t + 1, i) < |tnxt| && tnxt[At(numecs, t + 1, i)] == m[Tmpl(t)][i]
  }

  /** Classes in one meta-class have the same transition in every template. */
  ghost predicate MetaOk(part: seq<int>, m: Meaning, numecs: nat, numtemps: nat) {
    && |part| == numecs + 1
    && forall t :: 1 <= t <= numtemps ==> MetaRespects(part, m, numecs, Tmpl(t))
  }

  ghost predicate MetaRespects(part: seq<int>, m: Meaning, numecs: nat, l: int)
    requires |part| == numecs + 1
  {
    && l in m && |m[l]| == numecs + 1
    && forall x, y :: 1 <= x <= numecs && 1 <= y <= numecs && part[x] == part[y] ==> m[l][x] == m[l][y]
  }

  // ---- keeping these when links are added ----

  lemma LinksAddState(m: Meaning, numecs: nat, eob: int, numtemps: nat, last: int, s: int, row: Row)
    requires Links(m, numecs, eob, numtemps, last) && last < s && 0 < s && |row| == numecs + 1
    requires s != eob ==> row[0] == eob
    ensures s !in m && Links(m[s := row], numecs, eob, numtemps, s)
  {
    assert s in m ==> LinkOk(m, numecs, eob, numtemps, last, s);
    var m1 := m[s := row];
    forall l | l in m1 ensures LinkOk(m1, numecs, eob, numtemps, s, l) {
      assert l != s ==> LinkOk(m, numecs, eob, numtemps, last, l);
    }
  }

  lemma LinksAddTemplate(m: Meaning, numecs: nat, eob: int, numtemps: nat, last: int, row: Row)
    requires Links(m, numecs, eob, numtemps, last) && numtemps + 1 < -JAMSTATE && 0 <= last && FullRow1(row, numecs, eob)
    ensures Tmpl(numtemps + 1) !in m && Links(m[Tmpl(numtemps + 1) := row], numecs, eob, numtemps + 1, last)
  {
    var s := Tmpl(numtemps + 1);
    assert s in m ==> LinkOk(m, numecs, eob, numtemps, last, s);
    var m1 := m[s := row];
    forall l | l in m1 ensures LinkOk(m1, numecs, eob, numtemps + 1, last, l) {
      assert l != s ==> LinkOk(m, numecs, eob, numtemps, last, l);
    }
  }

  ghost predicate FullRow1(row: Row, numecs: nat, eob: int) {
    |row| == numecs + 1 && row[0] == eob
  }

  lemma TemplatesAdd(tnxt: seq<int>, m: Meaning, numecs: nat, numtemps: nat, s: int, row: Row)
    requires TemplatesStored(tnxt, m, numecs, numtemps) && s !in m
    ensures TemplatesStored(tnxt, m[s := row], numecs, numtemps)
  {
    var m1 := m[s := row];
    forall t | 1 <= t <= numtemps ensures TemplateStored(tnxt, m1, numecs, t) {
      assert TemplateStored(tnxt, m, numecs, t);
    }
  }

  lemma MetaAdd(part: seq<int>, m: Meaning, numecs: nat, numtemps: nat, s: int, row: Row)
    requires MetaOk(part, m, numecs, numtemps) && s !in m
    ensures MetaOk(part, m[s := row], numecs, numtemps)
  {
    var m1 := m[s := row];
    forall t | 1 <= t <= numtemps ensures MetaRespects(part, m1, numecs, Tmpl(t)) {
      assert MetaRespects(part, m, numecs, Tmpl(t));
    }
  }

  /** Splitting the meta-classes by where the new template goes makes them respect it too. */
  lemma MetaRefine(part: seq<int>, m: Meaning, numecs: nat, numtemps: nat, s: set<int>, com: int)
    requires MetaOk(part, m, numecs, numtemps)
    requires Tmpl(numtemps + 1) in m && TemplateRow(m[Tmpl(numtemps + 1)], numecs, com)
    requires forall i :: 1 <= i <= numecs ==> (i in s <==> m[Tmpl(numtemps + 1)][i] != 0)
    ensures MetaOk(Ecs.Refine(part, s), m, numecs, numtemps + 1)
  {
    var p1 := Ecs.Refine(part, s);
    forall x: nat, y: nat | 1 <= x <= numecs && 1 <= y <= numecs && p1[x] == p1[y]
      ensures part[x] == part[y] && (x in s <==> y in s)
    {
      Ecs.RefineIsExact(part, s, x, y);
    }
    hide Ecs.Refine;
    forall t | 1 <= t <= numtemps + 1 ensures MetaRespects(p1, m, numecs, Tmpl(t)) {
      if t <= numtemps {
        assert MetaRespects(part, m, numecs, Tmpl(t));
      }
    }
  }

  // ---- making a template ----

  /** The row of the template for a state: comstate wherever the state goes anywhere. */
  ghost function TemplateOf(state: seq<int>, comstate: int, numecs: nat, eob: int): (r: Row)
    requires |state| == numecs + 1
    ensures |r| == numecs + 1 && r[0] == eob
    ensures forall i :: 1 <= i <= numecs ==> r[i] == if state[i] == 0 then 0 else comstate
  {
    seq(numecs + 1, i requires 0 <= i <= numecs => if i == 0 then eob else if state[i] == 0 then 0 else comstate)
  }

  /** ts lists the classes below i that state has a transition on. */
  ghost predicate TransSet(ts: seq<int>, state: seq<int>, numecs: nat, i: int)
    requires |state| == numecs + 1
  {
    && Ecs.StrictlyAscending(ts)
    && (forall k :: 0 <= k < |ts| ==> 1 <= ts[k] < i && ts[k] <= numecs && state[ts[k]] != 0)
    && (forall c :: 1 <= c < i && c <= numecs && state[c] != 0 ==> c in ts)
  }

  lemma TransSetStep(ts: seq<int>, state: seq<int>, numecs: nat, i: int)
    requires |state| == numecs + 1 && 1 <= i <= numecs && TransSet(ts, state, numecs, i)
    ensures TransSet(if state[i] != 0 then ts + [i] else ts, state, numecs, i + 1)
  {
  }

  lemma TransSetEntries(ts: seq<int>, state: seq<int>, numecs: nat)
    requires |state| == numecs + 1 && numecs <= 256 && TransSet(ts, state, numecs, numecs + 1)
    requires numecs == 256 ==> state[256] == 0
    ensures Ecs.Symbols(ts, 0) == ts && Ecs.ClassEntries(ts, numecs) && |ts| <= Ecs.CSIZE
    ensures forall i :: 1 <= i <= numecs ==> (i in Ecs.Members(ts) <==> state[i] != 0)
  {
    assert forall k :: 0 <= k < |ts| ==> ts[k] <= 255 ;
    AscendingShort(ts, |ts|);
  }

  lemma {:induction false} AscendingShort(ts: seq<int>, k: nat)
    requires k <= |ts| && Ecs.StrictlyAscending(ts) && forall j :: 0 <= j < |ts| ==> 1 <= ts[j]
    ensures k > 0 ==> k <= ts[k - 1]
  {
    if k > 1 {
      AscendingShort(ts, k - 1);
    }
  }

  lemma AtShift(numecs: nat, p: nat, i: nat)
    requires 1 <= p
    ensures At(numecs, p, i) == At(numecs, p, 0) + i
  {
  }

  lemma AtIsProduct(numecs: nat, t: nat, tmpbase: nat)
    ensures tmpbase == t * numecs <==> tmpbase == numecs * t
    ensures tmpbase == numecs * t <==> tmpbase == At(numecs, t + 1, 0)
  {
  }

  /** A class number as the unsigned char it is stored in. */
  function CharCode(i: nat): (c: nat)
    ensures i < Ecs.CSIZE ==> c == i
  {
    i % Ecs.CSIZE
  }

  /** Classes below i of the template are written and listed. */
  ghost predicate FillInv(tnxt0: seq<int>, tnxt: seq<int>, ts: seq<int>, state: seq<int>, comstate: int, numecs: nat,
                          eob: int, t: nat, i: nat)
  {
    && |state| == numecs + 1 && |tnxt| == |tnxt0|
    && Saved(tnxt0, tnxt, TemplateOf(state, comstate, numecs, eob), numecs, t + 1, i)
    && TransSet(ts, state, numecs, i)
  }

  lemma FillStep(tnxt0: seq<int>, tnxt: seq<int>, ts: seq<int>, state: seq<int>, comstate: int, numecs: nat,
                 eob: int, t: nat, i: nat, k: int, tnxt1: seq<int>, ts1: seq<int>)
    requires FillInv(tnxt0, tnxt, ts, state, comstate, numecs, eob, t, i) && 1 <= i <= numecs
    requires k == At(numecs, t + 1, i) && 0 <= k < |tnxt|
    requires tnxt1 == tnxt[k := if state[i] == 0 then 0 else comstate]
    requires ts1 == if state[i] != 0 then ts + [i] else ts
    ensures FillInv(tnxt0, tnxt1, ts1, state, comstate, numecs, eob, t, i + 1)
  {
    SaveNext(tnxt0, tnxt, TemplateOf(state, comstate, numecs, eob), numecs, t + 1, i);
    TransSetStep(ts, state, numecs, i);
    hide Saved, TransSet, At;
  }

  lemma FillDone(tnxt0: seq<int>, tnxt: seq<int>, ts: seq<int>, state: seq<int>, comstate: int, numecs: nat,
                 eob: int, t: nat)
    requires FillInv(tnxt0, tnxt, ts, state, comstate, numecs, eob, t, numecs + 1)
    ensures Saved(tnxt0, tnxt, TemplateOf(state, comstate, numecs, eob), numecs, t + 1, numecs + 1)
    ensures TransSet(ts, state, numecs, numecs + 1)
  {
  }

  /** The new template's row is stored; the others still are. */
  lemma TemplateStoredAdd(tnxt: seq<int>, tnxt1: seq<int>, m: Meaning, numecs: nat, numtemps: nat, com: int)
    requires TemplatesStored(tnxt, m, numecs, numtemps)
    requires |tnxt| == |tnxt1| && numecs * (numtemps + 1) + numecs < |tnxt|
    requires Tmpl(numtemps + 1) in m && TemplateRow(m[Tmpl(numtemps + 1)], numecs, com)
    requires Saved(tnxt, tnxt1, m[Tmpl(numtemps + 1)], numecs, numtemps + 2, numecs + 1)
    ensures TemplatesStored(tnxt1, m, numecs, numtemps + 1)
  {
    forall t | 1 <= t <= numtemps + 1 ensures TemplateStored(tnxt1, m, numecs, t) {
      if t <= numtemps {
        assert TemplateStored(tnxt, m, numecs, t);
        forall i {:trigger At(numecs, t + 1, i)} | 1 <= i <= numecs
          ensures 0 <= At(numecs, t + 1, i) < |tnxt1| && tnxt1[At(numecs, t + 1, i)] == m[Tmpl(t)][i]
        {
          assert 0 <= At(numecs, t + 1, i) < |tnxt|;
        }
      }
    }
  }

  lemma TemplatesRoom(tnxt: seq<int>, tnxt1: seq<int>, m: Meaning, numecs: nat, numtemps: nat)
    requires TemplatesStored(tnxt, m, numecs, numtemps) && tnxt <= tnxt1
    ensures TemplatesStored(tnxt1, m, numecs, numtemps)
  {
    forall t | 1 <= t <= numtemps ensures TemplateStored(tnxt1, m, numecs, t) {
      assert TemplateStored(tnxt, m, numecs, t);
    }
  }

  /** The part of tnxt that holds template t, seen as a transition array. */
  lemma ViewIsRow(tnxt: seq<int>, m: Meaning, numecs: nat, t: nat, tmpbase: nat, view: seq<int>)
    requires TemplatesStored(tnxt, m, numecs, t) && 1 <= t && tmpbase == At(numecs, t + 1, 0)
    requires tmpbase + numecs < |tnxt| && view == tnxt[tmpbase..tmpbase + numecs + 1]
    requires Tmpl(t) in m && |m[Tmpl(t)]| == numecs + 1
    ensures forall i :: 1 <= i <= numecs ==> view[i] == m[Tmpl(t)][i]
  {
    assert TemplateStored(tnxt, m, numecs, t);
    forall i: nat | 1 <= i <= numecs ensures view[i] == m[Tmpl(t)][i] {
      AtShift(numecs, t + 1, i);
      assert tnxt[At(numecs, t + 1, i)] == m[Tmpl(t)][i];
    }
  }

  lemma OneList(fwd: seq<int>, bck: seq<int>, part: seq<int>, n: nat)
    requires 1 <= n && |fwd| == |bck| == |part| == n + 1 && forall x :: 0 <= x <= n ==> part[x] == 0
    requires forall x :: 1 <= x <= n ==> fwd[x] == (if x < n then x + 1 else Ecs.NIL) && bck[x] == (if x == 1 then Ecs.NIL else x - 1)
    ensures Ecs.Linked(fwd, bck, part, n)
  {
  }

  class Compressor {
    const numecs: nat
    const usemecs: bool
    const eob: int
    const tables: EntryTables
    const protos: ProtoQueue
    var numtemps: nat
    var tnxt: seq<int>
    const tecfwd: array<int>
    const tecbck: array<int>
    const cclflags: array<bool>
    ghost var part: seq<int>
    ghost var last: int

    ghost function Repr(): set<object>
    {
      {this, tables, protos, tecfwd, tecbck, cclflags}
    }

    /** The meta-classes, when they are in use. */
    ghost predicate MetaValid(m: Meaning)
      reads this, tecfwd, tecbck, cclflags
    {
      && tecfwd != tecbck && cclflags.Length == Ecs.CSIZE
      && MetaOk(part, m, numecs, numtemps)
      && Ecs.Linked(tecfwd[..], tecbck[..], part, numecs)
      && forall k :: 0 <= k < cclflags.Length ==> !cclflags[k]
    }

    ghost predicate Valid()
      reads this, tables, protos, tecfwd, tecbck, cclflags
    {
      && 1 <= numecs <= 256 && tables.numecs == protos.numecs == numecs && protos.eob == eob && 0 <= last
      && tables.Valid() && protos.Valid(tables.m)
      && Links(tables.m, numecs, eob, numtemps, last)
      && TemplatesStored(tnxt, tables.m, numecs, numtemps)
      && (usemecs ==> MetaValid(tables.m))
    }

    /** inittbl: no state entered, all classes in one meta-class. */
    constructor (numecs: nat, usemecs: bool, eob: int)
      requires 1 <= numecs <= 256 && 0 < eob
      ensures Valid() && fresh(Repr()) && last == 0 && tables.m == map[JAMSTATE := JamRow(numecs, eob)] && tables.States() == tables.bare == {}
      ensures this.numecs == numecs && this.usemecs == usemecs && this.eob == eob && numtemps == 0
      ensures tecfwd.Length == tecbck.Length == numecs + 1
    {
      this.numecs, this.usemecs, this.eob := numecs, usemecs, eob;
      var e := new EntryTables(numecs, eob);
      tables := e;
      protos := new ProtoQueue(numecs, eob, e.m);
      numtemps, last := 0, 0;
      tnxt := seq(INITIAL_MAX_TEMPLATE_XPAIRS, _ => 0);
      var fwd := new int[numecs + 1](i requires 0 <= i => if i < numecs then i + 1 else Ecs.NIL);
      var bck := new int[numecs + 1](i requires 0 <= i => if i <= 1 then Ecs.NIL else i - 1);
      tecfwd, tecbck := fwd, bck;
      cclflags := new bool[Ecs.CSIZE](_ => false);
      part := seq(numecs + 1, _ => 0);
      new;
      OneList(tecfwd[..], tecbck[..], part, numecs);
    }

    /** Looks for the proto that differs least from state, the way bldtbl does. */
    method FindProto(state: seq<int>, totaltrans: int, comstate: int, checkcom: bool, ghost row: Row)
      returns (minprot: int, mindiff: int, ext: seq<int>)
      requires protos.Valid(tables.m) && RowOf(state, row, protos.numecs, protos.eob) && 1 <= totaltrans
      ensures mindiff == totaltrans
        || (minprot in protos.queue && IsDiff(ext, mindiff, row, tables.m, protos.prottbl[minprot], protos.numecs))
    {
      ghost var m, q := tables.m, protos.queue;
      ghost var found := false;
      minprot, mindiff, ext := protos.firstprot, totaltrans, [];
      if checkcom {
        var i := protos.firstprot;
        ghost var k := 0;
        while i != NIL
          invariant 0 <= k <= |q| && (i != NIL ==> k < |q| && i == q[k]) && !found
          decreases |q| - k
        {
          assert 1 <= i <= |q|;
          if protos.protcomst[i] == comstate {
            minprot := i;
            mindiff, ext := protos.TblDiff(state, minprot, m, row);
            found := true;
            break;
          }
          i := protos.protnext[i];
          k := k + 1;
        }
      } else if protos.firstprot != NIL {
        minprot := protos.firstprot;
        mindiff, ext := protos.TblDiff(state, minprot, m, row);
        found := true;
      }
      if mindiff * 100 > totaltrans * FIRST_MATCH_DIFF_PERCENTAGE {
        minprot, mindiff, ext := ScanRest(state, minprot, mindiff, ext, row);
      }
    }

    /** The best of the match so far and the protos from minprot0 on. */
    method ScanRest(state: seq<int>, minprot0: int, mindiff0: int, ext0: seq<int>, ghost row: Row)
      returns (minprot: int, mindiff: int, ext: seq<int>)
      requires protos.Valid(tables.m) && RowOf(state, row, protos.numecs, protos.eob)
      requires minprot0 == NIL || minprot0 in protos.queue
      ensures (minprot == minprot0 && mindiff == mindiff0 && ext == ext0)
        || (mindiff < mindiff0 && minprot in protos.queue && IsDiff(ext, mindiff, row, tables.m, protos.prottbl[minprot], protos.numecs))
    {
      ghost var m, q := tables.m, protos.queue;
      minprot, mindiff, ext := minprot0, mindiff0, ext0;
      var i := minprot0;
      ghost var k := 0;
      if i != NIL {
        k :| 0 <= k < |q| && q[k] == i;
      }
      while i != NIL
        invariant 0 <= k <= |q| && (i != NIL ==> k < |q| && i == q[k])
        invariant (minprot == minprot0 && mindiff == mindiff0 && ext == ext0)
          || (mindiff < mindiff0 && minprot in q && IsDiff(ext, mindiff, row, m, protos.prottbl[minprot], protos.numecs))
        decreases |q| - k
      {
        var d, e := protos.TblDiff(state, i, m, row);
        if d < mindiff {
          ext, mindiff, minprot := e, d, i;
        }
        i := protos.protnext[i];
        k := k + 1;
      }
    }

    /** Enters statenum as its difference ext from link d. */
    method EnterState(ext: seq<int>, d: int, statenum: int, count: int, ghost row: Row)
      requires Valid() && last < statenum < |tables.base| && statenum != eob && d in tables.m
      requires |row| == numecs + 1 == |ext| && row[0] == eob && Represents(ext, row, tables.m, d)
      requires CountFits(ext, d, numecs, count)
      modifies tables, this`last
      ensures Valid() && tables.m == old(tables.m)[statenum := row] && last == statenum
      ensures tables.bare == old(tables.bare) + if count == 0 && d == JAMSTATE then {statenum} else {}
      ensures tables.States() == old(tables.States()) + {statenum} && |tables.base| == |old(tables.base)|
    {
      ghost var m := tables.m;
      LinksAddState(m, numecs, eob, numtemps, last, statenum, row);
      assert LinkOk(m, numecs, eob, numtemps, last, d);
      tables.MkEntry(ext, numecs, statenum, d, count, row);
      last := statenum;
      ProtRowsGrow(protos.prottbl, protos.protsave, numecs, eob, m, |protos.queue|, statenum, row);
      TemplatesAdd(tnxt, m, numecs, numtemps, statenum, row);
      if usemecs {
        MetaAdd(part, m, numecs, numtemps, statenum, row);
      }
    }

    /** Links proto minprot's row and statenum, both known, by making statenum a proto. */
    method MakeProto(state: seq<int>, statenum: int, comstate: int)
      requires Valid() && FullRow(tables.m, statenum, numecs, eob) && statenum != JAMSTATE && |state| == numecs + 1
      requires forall i :: 1 <= i <= numecs ==> state[i] == tables.m[statenum][i]
      modifies protos
      ensures Valid() && protos.firstprot in protos.queue && protos.prottbl[protos.firstprot] == statenum
      ensures forall p :: p in old(protos.queue) ==> p in protos.queue
    {
      protos.MkProt(state, statenum, comstate, tables.m);
    }

    /** Writes the row of template t into tnxt at tmpbase and lists the classes it goes anywhere on. */
    method FillTemplate(state: seq<int>, comstate: int, tmpbase: nat, ghost t: nat) returns (transset: seq<int>)
      requires |state| == numecs + 1 && 1 <= numecs <= 256
      requires tmpbase == At(numecs, t + 1, 0) && tmpbase + numecs < |tnxt|
      requires numecs == 256 ==> state[256] == 0
      modifies `tnxt
      ensures |tnxt| == |old(tnxt)|
      ensures Saved(old(tnxt), tnxt, TemplateOf(state, comstate, numecs, eob), numecs, t + 1, numecs + 1)
      ensures TransSet(transset, state, numecs, numecs + 1)
    {
      ghost var tnxt0 := tnxt;
      transset := [];
      var i := 1;
      assert FillInv(tnxt0, tnxt, transset, state, comstate, numecs, eob, t, i);
      hide FillInv, At, CharCode;
      while i <= numecs
        invariant 1 <= i <= numecs + 1 && |tnxt| == |tnxt0|
        invariant FillInv(tnxt0, tnxt, transset, state, comstate, numecs, eob, t, i)
      {
        ghost var tnxt1, ts := tnxt, transset;
        if state[i] == 0 {
          tnxt := tnxt[tmpbase + i := 0];
        } else {
          transset := transset + [CharCode(i)];
          tnxt := tnxt[tmpbase + i := comstate];
        }
        AtShift(numecs, t + 1, i);
        FillStep(tnxt0, tnxt1, ts, state, comstate, numecs, eob, t, i, tmpbase + i, tnxt, transset);
        i := i + 1;
      }
      FillDone(tnxt0, tnxt, transset, state, comstate, numecs, eob, t);
    }

    /** Makes room in tnxt for one more template. */
    method GrowTemplates(tmpbase: nat)
      requires TemplatesStored(tnxt, tables.m, numecs, numtemps) && numecs <= 256
      requires tmpbase == numecs * (numtemps + 1)
      modifies `tnxt
      ensures TemplatesStored(tnxt, tables.m, numecs, numtemps) && tmpbase + numecs < |tnxt|
    {
      ghost var tnxt0 := tnxt;
      if tmpbase + numecs >= |tnxt| {
        tnxt := tnxt + seq(MAX_TEMPLATE_XPAIRS_INCREMENT, _ => 0);
        TemplatesRoom(tnxt0, tnxt, tables.m, numecs, numtemps);
      }
      assert numecs * (numtemps + 1) == numecs * numtemps + numecs;
    }

    /** From now on template t has a row. */
    ghost method LearnTemplate(tnxt0: seq<int>, t: nat, comstate: int, trow: Row)
      requires 1 <= numecs <= 256 && protos.numecs == numecs && protos.eob == eob && 0 <= last
      requires tables.Valid() && protos.Valid(tables.m) && Links(tables.m, numecs, eob, numtemps, last)
      requires t == numtemps + 1 < -JAMSTATE && TemplateRow(trow, numecs, comstate) && trow[0] == eob
      requires TemplatesStored(tnxt0, tables.m, numecs, numtemps) && |tnxt0| == |tnxt| && numecs * t + numecs < |tnxt|
      requires Saved(tnxt0, tnxt, trow, numecs, t + 1, numecs + 1)
      requires usemecs ==> MetaOk(part, tables.m, numecs, numtemps)
      modifies tables`m
      ensures tables.Valid() && Tmpl(t) !in old(tables.m) && tables.m == old(tables.m)[Tmpl(t) := trow]
      ensures protos.Valid(tables.m) && Links(tables.m, numecs, eob, t, last)
      ensures TemplatesStored(tnxt, tables.m, numecs, t)
      ensures usemecs ==> MetaOk(part, tables.m, numecs, numtemps)
    {
      ghost var m := tables.m;
      LinksAddTemplate(m, numecs, eob, numtemps, last, trow);
      tables.Learn(Tmpl(t), trow);
      ProtRowsGrow(protos.prottbl, protos.protsave, numecs, eob, m, |protos.queue|, Tmpl(t), trow);
      TemplatesAdd(tnxt0, m, numecs, numtemps, Tmpl(t), trow);
      TemplateStoredAdd(tnxt0, tnxt, tables.m, numecs, numtemps, comstate);
      if usemecs {
        MetaAdd(part, m, numecs, numtemps, Tmpl(t), trow);
      }
    }

    /** Splits the meta-classes by the classes template t goes anywhere on. */
    method SplitMeta(transset: seq<int>, state: seq<int>, t: nat, ghost comstate: int)
      requires 1 <= numecs <= 256 && |state| == numecs + 1 && TransSet(transset, state, numecs, numecs + 1)
      requires (numecs == 256 ==> state[256] == 0) && t == numtemps + 1
      requires MetaValid(tables.m) && Tmpl(t) in tables.m && TemplateRow(tables.m[Tmpl(t)], numecs, comstate)
      requires forall i :: 1 <= i <= numecs ==> (state[i] != 0 <==> tables.m[Tmpl(t)][i] != 0)
      modifies `part, tecfwd, tecbck, cclflags
      ensures MetaOk(part, tables.m, numecs, t) && Ecs.Linked(tecfwd[..], tecbck[..], part, numecs)
      ensures forall k :: 0 <= k < cclflags.Length ==> !cclflags[k]
    {
      TransSetEntries(transset, state, numecs);
      Ecs.MkECcl(transset, tecfwd, tecbck, numecs, 0, cclflags, part);
      MetaRefine(part, tables.m, numecs, numtemps, Ecs.Members(transset), comstate);
      part := Ecs.Refine(part, Ecs.Members(transset));
    }

    /** Records the row of the template for state in tnxt and lists the classes it goes anywhere on. */
    method StoreTemplate(state: seq<int>, comstate: int, tmpbase: nat, t: nat) returns (transset: seq<int>)
      requires Valid() && |state| == numecs + 1 && t == numtemps + 1 < -JAMSTATE
      requires numecs == 256 ==> state[256] == 0
      requires TemplateRow(TemplateOf(state, comstate, numecs, eob), numecs, comstate)
      requires tmpbase == At(numecs, t + 1, 0)
      modifies `tnxt, tables`m
      ensures tables.Valid() && Tmpl(t) !in old(tables.m)
      ensures tables.m == old(tables.m)[Tmpl(t) := TemplateOf(state, comstate, numecs, eob)]
      ensures protos.Valid(tables.m) && Links(tables.m, numecs, eob, t, last)
      ensures TemplatesStored(tnxt, tables.m, numecs, t) && tmpbase + numecs < |tnxt|
      ensures usemecs ==> MetaOk(part, tables.m, numecs, numtemps)
      ensures TransSet(transset, state, numecs, numecs + 1)
    {
      hide Links, TemplateRow;
      AtIsProduct(numecs, t, tmpbase);
      GrowTemplates(tmpbase);
      ghost var tnxt0 := tnxt;
      transset := FillTemplate(state, comstate, tmpbase, t);
      LearnTemplate(tnxt0, t, comstate, TemplateOf(state, comstate, numecs, eob));
    }

    /** Makes a template from state, splits the meta-classes by it, and makes it the first proto. */
    method NewTemplate(state: seq<int>, comstate: int) returns (t: nat)
      requires Valid() && |state| == numecs + 1 && numtemps + 1 < -JAMSTATE
      requires numecs == 256 ==> state[256] == 0
      requires TemplateRow(TemplateOf(state, comstate, numecs, eob), numecs, comstate)
      modifies `tnxt, `part, `numtemps, tables`m, protos, tecfwd, tecbck, cclflags
      ensures Valid() && t == numtemps == old(numtemps) + 1
      ensures Tmpl(t) !in old(tables.m) && tables.m == old(tables.m)[Tmpl(t) := TemplateOf(state, comstate, numecs, eob)]
      ensures protos.firstprot in protos.queue && protos.prottbl[protos.firstprot] == Tmpl(t)
    {
      hide At, TemplateRow;
      t := numtemps + 1;
      var tmpbase := t * numecs;
      AtIsProduct(numecs, t, tmpbase);
      CommonIsState(TemplateOf(state, comstate, numecs, eob), numecs, comstate);
      var transset := StoreTemplate(state, comstate, tmpbase, t);
      if usemecs {
        SplitMeta(transset, state, t, comstate);
      }
      numtemps := t;
      QueueTemplate(t, tmpbase, comstate);
    }

    /** Makes the last template the first proto. */
    method QueueTemplate(t: nat, tmpbase: nat, comstate: int)
      requires Valid() && 1 <= t == numtemps && tmpbase == At(numecs, t + 1, 0) && tmpbase + numecs < |tnxt|
      modifies protos
      ensures Valid() && protos.firstprot in protos.queue && protos.prottbl[protos.firstprot] == Tmpl(t)
    {
      assert Tmpl(t) in tables.m && LinkOk(tables.m, numecs, eob, numtemps, last, Tmpl(t));
      var view := tnxt[tmpbase..tmpbase + numecs + 1];
      ViewIsRow(tnxt, tables.m, numecs, t, tmpbase, view);
      protos.MkProt(view, Tmpl(t), comstate, tables.m);
    }

    /** What bldtbl is called with: the transition array of a state newer than every one before. */
    ghost predicate Buildable(state: seq<int>, statenum: int, totaltrans: int, comstate: int, row: Row)
      reads this, tables
    {
      && RowOf(state, row, numecs, eob) && last < statenum < |tables.base| && statenum != eob
      && CountFits(state, JAMSTATE, numecs, totaltrans) && (totaltrans != CountKept(state, JAMSTATE, numecs) ==> 7 <= numecs)
      && (0 < totaltrans ==> 0 < comstate) && (numecs == 256 ==> state[256] == 0)
    }

    /** Enough transitions for another state's table to be of use. */
    predicate Compactible(totaltrans: int) {
      totaltrans * 100 >= numecs * PROTO_SIZE_PERCENTAGE
    }

    /** Makes a template from state and enters state as its difference from the template. */
    method MkTemplate(state: seq<int>, statenum: int, comstate: int, ghost totaltrans: int, ghost row: Row)
      requires Valid() && Buildable(state, statenum, totaltrans, comstate, row) && Compactible(totaltrans) && numtemps + 1 < -JAMSTATE
      modifies Repr()
      ensures Valid() && last == statenum && numtemps == old(numtemps) + 1
      ensures var m := old(tables.m);
        Tmpl(numtemps) !in m && tables.m == m[Tmpl(numtemps) := TemplateOf(state, comstate, numecs, eob)][statenum := row]
      ensures tables.bare == old(tables.bare)
      ensures tables.States() == old(tables.States()) + {statenum} && |tables.base| == |old(tables.base)|
    {
      TemplateNotEmpty(state, comstate, numecs, eob);
      var t := NewTemplate(state, comstate);
      var numdiff, tmp := protos.TblDiff(state, protos.firstprot, tables.m, row);
      EnterState(tmp, Tmpl(t), statenum, numdiff, row);
    }

    /** What a state differs from its template in, as tbldiff finds it, and in how many classes. */
    method DiffFromTemplate(state: seq<int>, comstate: int) returns (numdiff: nat, ext: seq<int>)
      requires |state| == numecs + 1 && forall i :: 1 <= i <= numecs ==> 0 <= state[i]
      ensures |ext| == numecs + 1 && TemplateDiff(ext, state, comstate, numecs, numecs + 1)
      ensures numdiff == CountKept(ext, JAMSTATE, numecs)
    {
      numdiff, ext := 0, state;
      for i := 1 to numecs + 1
        invariant TemplateDiff(ext, state, comstate, numecs, i) && numdiff == CountKept(ext, JAMSTATE, i - 1)
      {
        TemplateDiffStep(ext, state, comstate, numecs, i);
        if (if state[i] == 0 then 0 else comstate) == state[i] {
          ext := ext[i := SAME_TRANS];
        } else {
          numdiff := numdiff + 1;
        }
      }
    }

    /**
     Makes template 32766 from state.  Its link is the number that marks the jam state, so what the
     state shares with the template is taken to be what it shares with the jam row.
     */
    method MkTemplateAtLimit(state: seq<int>, statenum: int, comstate: int, ghost totaltrans: int, ghost row: Row)
      requires Valid() && Buildable(state, statenum, totaltrans, comstate, row) && Compactible(totaltrans) && numtemps + 1 == -JAMSTATE
      modifies tables
      ensures tables.Valid() && tables.m == old(tables.m)[statenum := Jammed(state, comstate, numecs, eob)]
      ensures tables.link == old(tables.link)[statenum := Tmpl(numtemps + 1)]
      ensures tables.States() == old(tables.States()) + {statenum} && |tables.base| == |old(tables.base)|
    {
      LinksAddState(tables.m, numecs, eob, numtemps, last, statenum, row);
      var numdiff, tmp := DiffFromTemplate(state, comstate);
      JammedIsRead(tmp, state, comstate, row, tables.m, numecs, eob);
      tables.MkEntry(tmp, numecs, statenum, Tmpl(numtemps + 1), numdiff, Jammed(state, comstate, numecs, eob));
    }

    /** Enters state as a full table of its own and makes it a proto. */
    method ProtoAndEnter(state: seq<int>, statenum: int, totaltrans: int, comstate: int, ghost row: Row)
      requires Valid() && RowOf(state, row, numecs, eob) && last < statenum < |tables.base| && statenum != eob
      requires CountFits(state, JAMSTATE, numecs, totaltrans) && 0 < totaltrans
      modifies tables, protos, this`last
      ensures Valid() && last == statenum && tables.m == old(tables.m)[statenum := row] && tables.bare == old(tables.bare)
      ensures tables.States() == old(tables.States()) + {statenum} && |tables.base| == |old(tables.base)|
    {
      ghost var m := tables.m;
      LinksAddState(m, numecs, eob, numtemps, last, statenum, row);
      ProtRowsGrow(protos.prottbl, protos.protsave, numecs, eob, m, |protos.queue|, statenum, row);
      protos.MkProt(state, statenum, comstate, m[statenum := row]);
      FullTableDiff(state, row, m, numecs, eob, numtemps, last);
      tables.MkEntry(state, numecs, statenum, JAMSTATE, totaltrans, row);
      last := statenum;
      TemplatesAdd(tnxt, m, numecs, numtemps, statenum, row);
      if usemecs {
        MetaAdd(part, m, numecs, numtemps, statenum, row);
      }
    }

    /** Builds a state that is too different from the protos: as a template, or as a full table and a proto. */
    method BldAnew(state: seq<int>, statenum: int, totaltrans: int, ghost comstate0: int, comstate: int, comfreq: int, ghost row: Row)
      returns (jammed: bool)
      requires Valid() && Buildable(state, statenum, totaltrans, comstate0, row) && Compactible(totaltrans) && 0 < totaltrans
      requires comstate == if comfreq * 100 > totaltrans * CHECK_COM_PERCENTAGE then comstate0 else 0
      modifies Repr()
      ensures jammed ==> old(numtemps) + 1 == -JAMSTATE && MakesTemplate(totaltrans, comstate0, comfreq)
      ensures jammed ==> tables.Valid() && tables.m == old(tables.m)[statenum := Jammed(state, comstate0, numecs, eob)]
      ensures !jammed ==> Valid() && last == statenum && GainsState(old(tables.m), tables.m, statenum, row)
      ensures !jammed ==> numtemps <= old(numtemps) + (if MakesTemplate(totaltrans, comstate0, comfreq) then 1 else 0)
      ensures !jammed ==> tables.bare == old(tables.bare)
      ensures tables.States() == old(tables.States()) + {statenum} && |tables.base| == |old(tables.base)|
    {
      jammed := false;
      if comfreq * 100 >= totaltrans * TEMPLATE_SAME_PERCENTAGE {
        if numtemps + 1 == -JAMSTATE {
          MkTemplateAtLimit(state, statenum, comstate, totaltrans, row);
          jammed := true;
        } else {
          MkTemplate(state, statenum, comstate, totaltrans, row);
        }
      } else {
        ProtoAndEnter(state, statenum, totaltrans, comstate, row);
      }
    }

    /**
     Builds the table entries for a DFA state: `state` gives the state to enter for each class,
     totaltrans how many there are, comstate the most common one and comfreq how common it is.
     The state gets its row, unless it needs template number 32766.
     */
    method BldTbl(state: seq<int>, statenum: int, totaltrans: int, comstate0: int, comfreq: int, ghost row: Row)
      returns (jammed: bool)
      requires Valid() && Buildable(state, statenum, totaltrans, comstate0, row)
      modifies Repr()
      ensures jammed ==> old(numtemps) + 1 == -JAMSTATE && MakesTemplate(totaltrans, comstate0, comfreq) && Compactible(totaltrans)
      ensures jammed ==> tables.Valid() && tables.m == old(tables.m)[statenum := Jammed(state, comstate0, numecs, eob)]
      ensures !jammed ==> Valid() && last == statenum && GainsState(old(tables.m), tables.m, statenum, row)
      ensures !jammed ==> numtemps <= old(numtemps) + (if MakesTemplate(totaltrans, comstate0, comfreq) then 1 else 0)
      ensures !jammed ==> tables.bare == old(tables.bare) + if totaltrans == 0 then {statenum} else {}
      ensures tables.States() == old(tables.States()) + {statenum} && |tables.base| == |old(tables.base)|
    {
      jammed := false;
      if !Compactible(totaltrans) {
        FullTableDiff(state, row, tables.m, numecs, eob, numtemps, last);
        EnterState(state, JAMSTATE, statenum, totaltrans, row);
        return;
      }
      var checkcom := comfreq * 100 > totaltrans * CHECK_COM_PERCENTAGE;
      var comstate := if checkcom then comstate0 else 0;
      var minprot, mindiff, ext;
      minprot, mindiff, ext := FindProto(state, totaltrans, comstate, checkcom, row);
      if mindiff * 100 > totaltrans * ACCEPTABLE_DIFF_PERCENTAGE {
        jammed := BldAnew(state, statenum, totaltrans, comstate0, comstate, comfreq, row);
      } else {
        UseProto(state, statenum, totaltrans, comstate, minprot, mindiff, ext, row);
      }
    }

    /** Enters the end-of-buffer state, which jams on every class, end of buffer included. */
    method EnterEob(ghost row: Row)
      requires Valid() && last < eob < |tables.base| && row == seq(numecs + 1, i => 0)
      modifies tables, this`last
      ensures Valid() && last == eob && tables.m == old(tables.m)[eob := row] && eob !in old(tables.m) && tables.bare == old(tables.bare)
      ensures tables.States() == old(tables.States()) + {eob} && |tables.base| == |old(tables.base)|
    {
      ghost var m := tables.m;
      LinksAddState(m, numecs, eob, numtemps, last, eob, row);
      tables.Stack1(eob, 0, 0, JAMSTATE, row);
      last := eob;
      ProtRowsGrow(protos.prottbl, protos.protsave, numecs, eob, m, |protos.queue|, eob, row);
      TemplatesAdd(tnxt, m, numecs, numtemps, eob, row);
      if usemecs {
        MetaAdd(part, m, numecs, numtemps, eob, row);
      }
    }

    /** Enters state as its difference ext from proto minprot. */
    method UseProto(state: seq<int>, statenum: int, totaltrans: int, comstate: int, minprot: int, mindiff: int, ext: seq<int>, ghost row: Row)
      requires Valid() && RowOf(state, row, numecs, eob) && last < statenum < |tables.base| && statenum != eob
      requires minprot in protos.queue && IsDiff(ext, mindiff, row, tables.m, protos.prottbl[minprot], numecs)
      modifies tables, protos, this`last
      ensures Valid() && last == statenum && tables.m == old(tables.m)[statenum := row] && tables.bare == old(tables.bare)
      ensures tables.States() == old(tables.States()) + {statenum} && |tables.base| == |old(tables.base)|
    {
      assert ProtRow(protos.prottbl, protos.protsave, numecs, eob, tables.m, minprot);
      EnterState(ext, protos.prottbl[minprot], statenum, mindiff, row);
      // the slot of minprot may be reused here: MkProt keeps it on the queue, for another row perhaps
      if mindiff * 100 >= totaltrans * NEW_PROTO_DIFF_PERCENTAGE {
        MakeProto(state, statenum, comstate);
      }
      protos.Mv2Front(minprot, tables.m);
    }
  }

  /** m1 is m0 with a row for state s, and perhaps a new template. */
  ghost predicate GainsState(m0: Meaning, m1: Meaning, s: int, row: Row) {
    && s !in m0 && s in m1 && m1[s] == row
    && (forall l :: l in m0 ==> l in m1 && m1[l] == m0[l])
    && (forall l :: l in m1 ==> l in m0 || l == s || l < 0)
  }

  /** A transition array without SAME_TRANS is its own difference from the jam row. */
  lemma FullTableDiff(state: seq<int>, row: Row, m: Meaning, numecs: nat, eob: int, numtemps: nat, last: int)
    requires RowOf(state, row, numecs, eob) && Links(m, numecs, eob, numtemps, last)
    ensures |state| == numecs + 1 && Represents(state, row, m, JAMSTATE)
  {
  }

  // ---- template number 32766 ----

  /** Enough of a state's transitions go to one state for it to become a template. */
  predicate MakesTemplate(totaltrans: int, comstate: int, comfreq: int) {
    0 < totaltrans && 0 < comstate && comfreq * 100 >= totaltrans * TEMPLATE_SAME_PERCENTAGE
  }

  /** state without its transitions to comstate, which are the ones its template has too. */
  ghost function Jammed(state: seq<int>, comstate: int, numecs: nat, eob: int): (r: Row)
    requires |state| == numecs + 1
    ensures |r| == numecs + 1 && r[0] == eob
    ensures forall i :: 1 <= i <= numecs ==> r[i] == if state[i] == comstate then 0 else state[i]
  {
    seq(numecs + 1, i requires 0 <= i <= numecs => if i == 0 then eob else if state[i] == comstate then 0 else state[i])
  }

  /** ext is state with SAME_TRANS on the classes below i where its template agrees. */
  ghost predicate TemplateDiff(ext: seq<int>, state: seq<int>, comstate: int, numecs: nat, i: int) {
    && |ext| == |state| == numecs + 1
    && forall c :: 1 <= c <= numecs ==>
         ext[c] == if c < i && (state[c] == 0 || state[c] == comstate) then SAME_TRANS else state[c]
  }

  lemma TemplateDiffStep(ext: seq<int>, state: seq<int>, comstate: int, numecs: nat, i: int)
    requires TemplateDiff(ext, state, comstate, numecs, i) && 1 <= i <= numecs && 0 <= state[i]
    ensures state[i] == 0 || state[i] == comstate ==>
      TemplateDiff(ext[i := SAME_TRANS], state, comstate, numecs, i + 1) &&
      CountKept(ext[i := SAME_TRANS], JAMSTATE, i) == CountKept(ext, JAMSTATE, i - 1)
    ensures state[i] != 0 && state[i] != comstate ==>
      TemplateDiff(ext, state, comstate, numecs, i + 1) && CountKept(ext, JAMSTATE, i) == CountKept(ext, JAMSTATE, i - 1) + 1
  {
    CountPrefix(ext, ext[i := SAME_TRANS], JAMSTATE, i - 1);
  }

  /** Linked to the jam row, the difference from a template stands for the state without comstate. */
  lemma JammedIsRead(ext: seq<int>, state: seq<int>, comstate: int, row: Row, m: Meaning, numecs: nat, eob: int)
    requires RowOf(state, row, numecs, eob) && TemplateDiff(ext, state, comstate, numecs, numecs + 1)
    requires JAMSTATE in m && m[JAMSTATE] == JamRow(numecs, eob)
    ensures Represents(ext, Jammed(state, comstate, numecs, eob), m, JAMSTATE)
  {
  }

  /**
   What template 32766 costs: a transition is lost exactly where the state shares one with the
   template, and there is such a transition if the state goes to comstate at all.
   */
  lemma LimitLoses(state: seq<int>, row: Row, numecs: nat, eob: int, totaltrans: int, comstate: int, comfreq: int)
    requires RowOf(state, row, numecs, eob) && MakesTemplate(totaltrans, comstate, comfreq)
    ensures forall i :: 1 <= i <= numecs ==>
      (Jammed(state, comstate, numecs, eob)[i] != row[i] <==> row[i] == comstate == TemplateOf(state, comstate, numecs, eob)[i])
    ensures Jammed(state, comstate, numecs, eob) != row <==> 0 < CountTo(state, comstate, numecs)
  {
    CountedIsThere(state, comstate, numecs);
  }

  /** As ntod counts, it does: a candidate for a template goes to comstate on more classes than NUL's. */
  lemma CandidateGoes(r: DfaRow, numecs: nat)
    requires GoodRow(r, numecs) && MakesTemplate(r.totaltrans, r.comstate, r.comfreq)
    requires r.totaltrans * 100 >= numecs * PROTO_SIZE_PERCENTAGE
    ensures 0 < CountTo(r.state, r.comstate, numecs)
  {
  }

  /** Three of four transitions go to state 5: as template 32766 they are all read as no transition. */
  lemma LimitLosesFives(state: seq<int>)
    requires state == [9, 5, 5, 7, 5]
    ensures Tmpl(32766) == JAMSTATE && MakesTemplate(4, 5, CountTo(state, 5, 4))
    ensures TemplateOf(state, 5, 4, 9) == [9, 5, 5, 5, 5] && Jammed(state, 5, 4, 9) == [9, 0, 0, 7, 0]
  {
    assert CountTo(state, 5, 4) == CountTo(state, 5, 2) + 1;
  }

  lemma TemplateNotEmpty(state: seq<int>, comstate: int, numecs: nat, eob: int)
    requires |state| == numecs + 1 && 0 < CountKept(state, JAMSTATE, numecs) && 0 < comstate
    ensures TemplateRow(TemplateOf(state, comstate, numecs, eob), numecs, comstate)
  {
    CountNone(state, JAMSTATE, numecs);
  }
}
