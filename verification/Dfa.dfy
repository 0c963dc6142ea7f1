/** The subset construction (`ntod`, `snstods` in `ext/flex/dfa.c`). */
module Dfa {
  import Ecs
  import opened NxtChk
  import MkEntry
  import opened NfaLang
  import opened NfaSteps
  import opened Closure
  import opened Finite
  import opened Follow
  import opened Sorting
  import opened Subset
  import opened DfaRows

  /** The DFA states made so far. */
  class DfaStates {
    const nfa: NfaArrays
    const numRules: int
    /** REJECT is used: every accepting number is kept. */
    const reject: bool

    var lastdfa: int
    var dss: seq<seq<int>>
    var dfasiz: seq<int>
    var dhash: seq<int>
    var dfaacc: seq<Acceptance>

    constructor (nfa: NfaArrays, numRules: int, reject: bool)
      requires nfa.Valid()
      ensures Valid() && lastdfa == 0 && this.nfa == nfa && this.numRules == numRules && this.reject == reject
    {
      this.nfa, this.numRules, this.reject := nfa, numRules, reject;
      lastdfa, dss, dfasiz, dhash, dfaacc := 0, [[]], [0], [0], [Lowest(NIL)];
    }

    /** The stored lists are distinct, ordered and bounded, with their hashes, sizes and acceptance. */
    ghost predicate Valid()
      reads this
    {
      && 0 <= lastdfa && |dss| == |dfasiz| == |dfaacc| == lastdfa + 1 && Interned(nfa.net, nfa.accptnum, dss, dhash, dfaacc)
      && forall i :: 1 <= i <= lastdfa ==> dfasiz[i] == |dss[i]| && dfaacc[i].Every? == reject
    }

    /** Position of the first difference between two lists of the same length, or their length. */
    static method FirstDifference(a: seq<int>, b: seq<int>) returns (j: nat)
      requires |a| == |b|
      ensures j <= |a| && (j == |a| <==> a == b)
    {
      j := 0;
      while j < |a| && a[j] == b[j]
        invariant j <= |a| && forall k :: 0 <= k < j ==> a[k] == b[k]
      {
        j := j + 1;
      }
    }

    /** The state that holds the given list, if there is one; the list in order. */
    method FindState(sns: seq<int>, hashval: int) returns (found: int, sorted: seq<int>)
      requires Valid() && hashval == HashOf(sns, |nfa.net.sym| - 1)
      ensures SortOf(sns, sorted)
      ensures found == NIL ==> forall k :: 1 <= k <= lastdfa ==> dss[k] != sorted
      ensures found != NIL ==> 1 <= found <= lastdfa && dss[found] == sorted
    {
      var didsort := false;
      sorted := sns;
      var i := 1;
      while i <= lastdfa
        invariant 1 <= i <= lastdfa + 1 && if didsort then SortOf(sns, sorted) else sorted == sns
        invariant forall k :: 1 <= k < i ==> !SortOf(sns, dss[k])
      {
        assert InternedAt(nfa.net, nfa.accptnum, dss[i], dhash[i], dfaacc[i]);
        if hashval == dhash[i] && |sns| == dfasiz[i] {
          if !didsort {
            sorted := SortList(sns);
            didsort := true;
          }
          SortKeepsMembers(sns, sorted);
          var j := FirstDifference(sorted, dss[i]);
          if j == |sorted| {
            found := i;
            return;
          }
          if SortOf(sns, dss[i]) {
            SortIsUnique(sns, sorted, dss[i]);
          }
        } else if SortOf(sns, dss[i]) {
          HashMeets(nfa.net, nfa.accptnum, dss[i], dhash[i], dfaacc[i], sns);
        }
        i := i + 1;
      }
      found := NIL;
      if !didsort {
        sorted := SortList(sns);
      }
    }

    /** The lowest of the accepting numbers. */
    method LowestRule(accset: seq<int>) returns (j: int)
      requires accset != [] && forall r :: r in accset ==> r <= numRules
      ensures j in accset && forall r :: r in accset ==> j <= r
    {
      j := numRules + 1;
      var i := 0;
      while i < |accset|
        invariant 0 <= i <= |accset| && (if i == 0 then j == numRules + 1 else j in accset)
        invariant forall k :: 0 <= k < i ==> j <= accset[k]
      {
        assert accset[i] in accset;
        if accset[i] < j {
          j := accset[i];
        }
        i := i + 1;
      }
    }

    /** What a new state accepts. */
    method Accept(accset: seq<int>, ghost list: seq<int>) returns (a: Acceptance)
      requires NumbersOf(nfa.accptnum, list, accset) && forall r :: r in accset ==> r <= numRules
      ensures AcceptanceOf(nfa.accptnum, list, a) && a.Every? == reject
    {
      if accset == [] {
        a := if reject then Every([]) else Lowest(NIL);
        assert forall r :: r !in accset;
      } else if reject {
        var sorted := SortList(accset);
        SortKeepsMembers(accset, sorted);
        a := Every(sorted);
      } else {
        var j := LowestRule(accset);
        assert NumberIn(nfa.accptnum, list, j);
        a := Lowest(j);
      }
    }

    /** The number of the DFA state with exactly the given NFA states; it is made if there is none. */
    method SnsToDs(sns: seq<int>, accset: seq<int>, hashval: int) returns (isNew: bool, newds: int)
      requires Valid() && Bounded(nfa.net, sns) && hashval == HashOf(sns, |nfa.net.sym| - 1)
      requires NumbersOf(nfa.accptnum, sns, accset) && forall r :: r in accset ==> r <= numRules
      modifies this
      ensures Valid() && 1 <= newds <= lastdfa && SortOf(sns, dss[newds])
      ensures isNew <==> forall k :: 1 <= k <= old(lastdfa) ==> !SortOf(sns, old(dss)[k])
      ensures isNew ==> newds == lastdfa == old(lastdfa) + 1
      ensures !isNew ==> dss == old(dss)
      ensures old(dss) <= dss
    {
      var found, sorted := FindState(sns, hashval);
      if found != NIL {
        return false, found;
      }
      var a := Accept(accset, sns);
      InternNew(nfa.net, nfa.accptnum, dss, dhash, dfaacc, sns, sorted, hashval, a);
      lastdfa := lastdfa + 1;
      dss, dfasiz, dhash, dfaacc := dss + [sorted], dfasiz + [|sorted|], dhash + [hashval], dfaacc + [a];
      assert forall k :: 1 <= k < lastdfa ==> dss[k] != sorted;
      NotStored(old(dss), sns, sorted);
      return true, lastdfa;
    }
  }

  lemma NotStored(dss: seq<seq<int>>, sns: seq<int>, sorted: seq<int>)
    requires SortOf(sns, sorted) && forall k :: 1 <= k < |dss| ==> dss[k] != sorted
    ensures forall k :: 1 <= k < |dss| ==> !SortOf(sns, dss[k])
  {
    forall k | 1 <= k < |dss|
      ensures !SortOf(sns, dss[k])
    {
      if SortOf(sns, dss[k]) {
        SortIsUnique(sns, sorted, dss[k]);
      }
    }
  }

  // ---- ntod ----

  /** The NFA is ready for the construction. */
  ghost predicate Ready(al: Alphabet, net: Net, acc: seq<int>, numRules: int) {
    && AlphabetOk(al) && SymbolsOk(al, net) && CompleteNet(net, acc) && Forward(net) && TargetsInNet(net)
    && forall s :: 0 < s < |acc| ==> acc[s] <= numRules
  }

  lemma NumbersSmall(acc: seq<int>, list: seq<int>, accset: seq<int>, numRules: int)
    requires NumbersOf(acc, list, accset) && forall s :: 0 < s < |acc| ==> acc[s] <= numRules
    requires forall s :: s in list ==> 0 < s
    ensures forall r :: r in accset ==> r <= numRules
  {
  }

  /** ntod's scratch arrays. */
  class Scratch {
    const symlist: array<bool>
    const duplist: array<int>
    const state: array<int>
    const cclflags: array<bool>

    constructor ()
      ensures Shaped() && fresh(symlist) && fresh(duplist) && fresh(state) && fresh(cclflags)
      ensures forall k :: 0 <= k < symlist.Length ==> !symlist[k]
      ensures forall k :: 0 <= k < cclflags.Length ==> !cclflags[k]
    {
      symlist := new bool[Ecs.CSIZE + 1](i => false);
      duplist := new int[Ecs.CSIZE + 1](i => NIL);
      state := new int[Ecs.CSIZE + 1](i => 0);
      cclflags := new bool[Ecs.CSIZE](i => false);
    }

    ghost predicate Shaped() {
      && symlist.Length == duplist.Length == state.Length == Ecs.CSIZE + 1 && cclflags.Length == Ecs.CSIZE
      && symlist != cclflags && duplist != state
    }

    /** No marks are left over. */
    ghost predicate Clear(n: nat)
      requires n <= Ecs.CSIZE && Shaped()
      reads symlist, cclflags
    {
      (forall k :: 1 <= k <= n ==> !symlist[k]) && (forall k :: 0 <= k < cclflags.Length ==> !cclflags[k])
    }
  }

  ghost predicate Separate(d: DfaStates, x: Scratch) {
    x.Shaped() && d.nfa.trans1 != x.duplist && d.nfa.trans1 != x.state
  }

  ghost predicate Working(d: DfaStates, al: Alphabet)
    reads d, d.nfa, d.nfa.trans1
  {
    d.Valid() && d.nfa.Valid() && Ready(al, d.nfa.net, d.nfa.accptnum, d.numRules)
  }

  /** Interns the closure of a list of NFA states. */
  method InternClosure(d: DfaStates, al: Alphabet, nset0: seq<int>) returns (newds: int, isNew: bool, ghost list: seq<int>)
    requires Working(d, al) && States(d.nfa.net, nset0)
    requires forall list :: States(d.nfa.net, list) && ClosureOf(d.nfa.net, d.nfa.accptnum, nset0, list) ==> Bounded(d.nfa.net, list)
    modifies d, d.nfa`fatal, d.nfa.trans1
    ensures Working(d, al) && old(d.dss) <= d.dss && 1 <= newds <= d.lastdfa
    ensures ClosureOf(d.nfa.net, d.nfa.accptnum, nset0, list) && SortOf(list, d.dss[newds])
    ensures isNew <==> forall k :: 1 <= k <= old(d.lastdfa) ==> !SortOf(list, old(d.dss)[k])
    ensures isNew ==> newds == d.lastdfa == old(d.lastdfa) + 1
    ensures !isNew ==> d.dss == old(d.dss)
  {
    hide Interned, ClosureOf, Bounded, NumbersOf;
    var nset, accset, hashval := d.nfa.EpsClosure(nset0);
    NumbersSmall(d.nfa.accptnum, nset, accset, d.numRules);
    isNew, newds := d.SnsToDs(nset, accset, hashval);
    list := nset;
  }

  /** DFA state i starts from NFA state starts[i]. */
  ghost predicate StartedAs(al: Alphabet, net: Net, acc: seq<int>, dss: seq<seq<int>>, starts: seq<int>, i: int) {
    && 1 <= i < |dss| && i < |starts| && starts[i] in dss[i] && (forall q :: q in dss[i] ==> q == starts[i] || Keep(net, acc, q))
    && StandsFor(al, net, acc, dss, starts[i], [], i)
  }

  /** The start states are distinct states that need not be listed. */
  ghost predicate StartsOk(net: Net, acc: seq<int>, starts: seq<int>) {
    && 1 <= |starts| && (forall i :: 1 <= i < |starts| ==> 0 < starts[i] < |net.sym| && !Keep(net, acc, starts[i]))
    && forall i, j :: 1 <= i < j < |starts| ==> starts[i] != starts[j]
  }

  lemma StartIsNew(al: Alphabet, net: Net, acc: seq<int>, dss: seq<seq<int>>, starts: seq<int>, i: int, list: seq<int>)
    requires StartsOk(net, acc, starts) && 1 <= i < |starts| && i == |dss| && starts[i] in list
    requires forall j :: 1 <= j < i ==> StartedAs(al, net, acc, dss, starts, j)
    ensures forall k :: 1 <= k < |dss| ==> !SortOf(list, dss[k])
  {
    forall k | 1 <= k < |dss|
      ensures !SortOf(list, dss[k])
    {
      assert StartedAs(al, net, acc, dss, starts, k);
      hide StandsFor;
      if SortOf(list, dss[k]) {
        SortKeepsMembers(list, dss[k]);
      }
    }
  }

  lemma StartStands(al: Alphabet, net: Net, acc: seq<int>, dss: seq<seq<int>>, starts: seq<int>, i: int, list: seq<int>)
    requires 1 <= i < |starts| && i < |dss| && ClosureOf(net, acc, [starts[i]], list) && SortOf(list, dss[i])
    ensures StartedAs(al, net, acc, dss, starts, i)
  {
    TracksStart(Sat(al), net, acc, starts[i], list);
    TracksSorted(Sat(al), net, acc, starts[i], [], list, dss[i]);
    SortKeepsMembers(list, dss[i]);
    assert list[0] == starts[i] && list[0] in list;
  }

  lemma StartedGrows(al: Alphabet, net: Net, acc: seq<int>, dss: seq<seq<int>>, dss1: seq<seq<int>>, starts: seq<int>, i: int)
    requires StartedAs(al, net, acc, dss, starts, i) && dss <= dss1
    ensures StartedAs(al, net, acc, dss1, starts, i)
  {
  }

  /** DFA states 1.. are made from the start states, in order. */
  method FirstStates(d: DfaStates, al: Alphabet, starts: seq<int>)
    requires Working(d, al) && d.lastdfa == 0 && StartsOk(d.nfa.net, d.nfa.accptnum, starts)
    modifies d, d.nfa`fatal, d.nfa.trans1
    ensures Working(d, al) && d.lastdfa == |starts| - 1
    ensures forall i :: 1 <= i < |starts| ==> StartedAs(al, d.nfa.net, d.nfa.accptnum, d.dss, starts, i)
  {
    ghost var net, acc := d.nfa.net, d.nfa.accptnum;
    var i := 1;
    hide Interned, States, Ready, Bounded;
    while i < |starts|
      invariant 1 <= i <= |starts| && Working(d, al) && d.lastdfa == i - 1
      invariant forall j :: 1 <= j < i ==> StartedAs(al, net, acc, d.dss, starts, j)
    {
      StartReady(net, acc, starts, i);
      ghost var dss := d.dss;
      var newds, isNew;
      ghost var list;
      newds, isNew, list := InternClosure(d, al, [starts[i]]);
      assert starts[i] in list by { assert list[0] == [starts[i]][0]; }
      StartIsNew(al, net, acc, dss, starts, i, list);
      StartStands(al, net, acc, d.dss, starts, i, list);
      forall j | 1 <= j < i
        ensures StartedAs(al, net, acc, d.dss, starts, j)
      {
        StartedGrows(al, net, acc, dss, d.dss, starts, j);
      }
      i := i + 1;
    }
  }

  lemma StartReady(net: Net, acc: seq<int>, starts: seq<int>, i: int)
    requires StartsOk(net, acc, starts) && 1 <= i < |starts|
    ensures States(net, [starts[i]])
    ensures forall list :: States(net, list) && ClosureOf(net, acc, [starts[i]], list) ==> Bounded(net, list)
  {
    forall list | States(net, list) && ClosureOf(net, acc, [starts[i]], list)
      ensures Bounded(net, list)
    {
      StartClosure(net, acc, starts[i], list);
    }
  }

  // ---- one DFA state ----

  /** Targets met so far, and how often: every entry of the row so far is among them. */
  datatype Targs = Targs(states: seq<int>, freqs: seq<int>, totaltrans: int)

  ghost predicate TargsOk(t: Targs, state: seq<int>, sym: int) {
    && |t.states| == |t.freqs| && (forall k :: 0 <= k < |t.states| ==> 0 < t.states[k] && 0 < t.freqs[k])
    && (forall c :: 1 <= c < sym && c < |state| && state[c] != 0 ==> state[c] in t.states)
    && 1 <= sym <= |state| && t.totaltrans == MkEntry.CountKept(state, JAMSTATE, sym - 1)
    && forall k :: 0 <= k < |t.states| ==> t.freqs[k] <= CountTo(state, t.states[k], sym - 1)
  }

  /** The row of list ds0 is complete below sym; sympartition's results are left above. */
  ghost predicate RowBelow(al: Alphabet, net: Net, acc: seq<int>, dss: seq<seq<int>>, ds: seq<int>, state: seq<int>,
                           symlist: seq<bool>, duplist: seq<int>, sym: int)
  {
    && Sized(net) && States(net, ds) && al.numecs < |state| && al.numecs < |symlist| && al.numecs < |duplist| && 1 <= sym <= al.numecs + 1
    && (forall c :: 1 <= c < sym ==> !symlist[c] && EntryOf(al, net, acc, dss, ds, c, state[c]))
    && (forall c :: sym <= c <= al.numecs ==> state[c] == 0 && symlist[c] == Consumed(al, net, ds, c))
    && (forall c :: sym <= c <= al.numecs && duplist[c] != NIL ==> 1 <= duplist[c] < c && SameConsumers(al, net, ds, c, duplist[c]))
  }

  lemma RowStep(al: Alphabet, net: Net, acc: seq<int>, dss: seq<seq<int>>, dss1: seq<seq<int>>, ds: seq<int>,
                state: seq<int>, symlist: seq<bool>, duplist: seq<int>, state1: seq<int>, symlist1: seq<bool>, duplist1: seq<int>,
                sym: int, e: int)
    requires RowBelow(al, net, acc, dss, ds, state, symlist, duplist, sym) && sym <= al.numecs && dss <= dss1
    requires EntryOf(al, net, acc, dss1, ds, sym, e)
    requires state1 == state[sym := e] && symlist1 == symlist[sym := false] && duplist1 == duplist[sym := NIL]
    ensures RowBelow(al, net, acc, dss1, ds, state1, symlist1, duplist1, sym + 1)
  {
    forall c | 1 <= c < sym + 1
      ensures EntryOf(al, net, acc, dss1, ds, c, state1[c])
    {
      if c < sym {
        EntryGrows(al, net, acc, dss, dss1, ds, c, state[c]);
      }
    }
  }

  /** A class without consumers. */
  lemma RowSkip(al: Alphabet, net: Net, acc: seq<int>, dss: seq<seq<int>>, ds: seq<int>,
                state: seq<int>, symlist: seq<bool>, duplist: seq<int>, sym: int)
    requires RowBelow(al, net, acc, dss, ds, state, symlist, duplist, sym) && sym <= al.numecs && !symlist[sym]
    ensures RowBelow(al, net, acc, dss, ds, state, symlist, duplist, sym + 1)
  {
  }

  /** Target e has been counted, or is new. */
  ghost predicate Counts(t: Targs, t1: Targs, e: int) {
    && |t.states| == |t.freqs| && |t1.states| == |t1.freqs| && t.states <= t1.states && e in t1.states && t1.totaltrans == t.totaltrans + 1
    && (forall k :: 0 <= k < |t1.states| ==> 0 < t1.states[k] && 0 < t1.freqs[k])
    && (forall k :: 0 <= k < |t.states| ==> t1.freqs[k] <= t.freqs[k] + if t.states[k] == e then 1 else 0)
    && forall k :: |t.states| <= k < |t1.states| ==> t1.states[k] == e && t1.freqs[k] == 1
  }

  lemma TargsStep(t: Targs, t1: Targs, state: seq<int>, state1: seq<int>, sym: int, e: int)
    requires TargsOk(t, state, sym) && 1 <= sym < |state| && state1 == state[sym := e] && 0 < e
    requires Counts(t, t1, e)
    ensures TargsOk(t1, state1, sym + 1)
  {
    MkEntry.CountPrefix(state, state1, JAMSTATE, sym - 1);
    forall k | 0 <= k < |t1.states|
      ensures t1.freqs[k] <= CountTo(state1, t1.states[k], sym)
    {
      CountToPrefix(state, state1, t1.states[k], sym - 1);
    }
    forall x | x in t.states
      ensures x in t1.states
    {
    }
  }

  /** The position of a target met before. */
  method FindTarget(t: Targs, targ: int) returns (i: nat)
    requires targ in t.states
    ensures i < |t.states| && t.states[i] == targ
  {
    i := 0;
    while t.states[i] != targ
      invariant i < |t.states| && targ in t.states[i..]
      decreases |t.states| - i
    {
      assert t.states[i..] == [t.states[i]] + t.states[i + 1..];
      i := i + 1;
    }
  }

  ghost predicate AtSymbol(d: DfaStates, al: Alphabet, x: Scratch, ds: seq<int>, sym: int)
    requires x.Shaped()
    reads d, d.nfa, d.nfa.trans1, x.symlist, x.duplist, x.state, x.cclflags
  {
    && Working(d, al) && Bounded(d.nfa.net, ds)
    && RowBelow(al, d.nfa.net, d.nfa.accptnum, d.dss, ds, x.state[..], x.symlist[..], x.duplist[..], sym)
  }

  /** A class with transitions of its own: its targets' closure becomes a DFA state, new or old. */
  method UniqueClass(d: DfaStates, al: Alphabet, ds: seq<int>, sym: int) returns (newds: int)
    requires Working(d, al) && Bounded(d.nfa.net, ds) && Consumed(al, d.nfa.net, ds, sym)
    modifies d, d.nfa`fatal, d.nfa.trans1
    ensures Working(d, al) && old(d.dss) <= d.dss && 1 <= newds <= d.lastdfa
    ensures Sized(d.nfa.net) && EntryOf(al, d.nfa.net, d.nfa.accptnum, d.dss, ds, sym, newds)
  {
    ghost var net, acc := d.nfa.net, d.nfa.accptnum;
    hide Interned, ClosureOf;
    var nset := SymFollowSet(d.nfa, al, ds, sym);
    TargetStates(al, net, acc, ds, sym);
    var isNew;
    ghost var list;
    newds, isNew, list := InternClosure(d, al, nset);
    EntryMade(al, net, acc, d.dss, ds, sym, list, newds);
  }

  /** A class with the transitions of an earlier one. */
  lemma CopiedClass(al: Alphabet, net: Net, acc: seq<int>, dss: seq<seq<int>>, ds: seq<int>,
                    state: seq<int>, symlist: seq<bool>, duplist: seq<int>, sym: int)
    requires RowBelow(al, net, acc, dss, ds, state, symlist, duplist, sym) && sym <= al.numecs && symlist[sym] && duplist[sym] != NIL
    ensures 1 <= duplist[sym] < sym && state[duplist[sym]] != 0
    ensures Sized(net) && EntryOf(al, net, acc, dss, ds, sym, state[duplist[sym]])
  {
    EntryCopied(al, net, acc, dss, ds, sym, duplist[sym], state[duplist[sym]]);
  }

  /** The target of a class that has consumers. */
  method ClassTarget(d: DfaStates, al: Alphabet, ds: seq<int>, sym: int, state: array<int>, duplist: array<int>, t: Targs,
                     ghost symlist: seq<bool>) returns (targ: int, t1: Targs)
    requires Working(d, al) && Bounded(d.nfa.net, ds) && 1 <= sym <= al.numecs && TargsOk(t, state[..], sym)
    requires d.nfa.trans1 != duplist && d.nfa.trans1 != state
    requires RowBelow(al, d.nfa.net, d.nfa.accptnum, d.dss, ds, state[..], symlist, duplist[..], sym) && symlist[sym]
    modifies d, d.nfa`fatal, d.nfa.trans1
    ensures Working(d, al) && old(d.dss) <= d.dss && 0 < targ
    ensures Sized(d.nfa.net) && EntryOf(al, d.nfa.net, d.nfa.accptnum, d.dss, ds, sym, targ)
    ensures Counts(t, t1, targ)
  {
    hide Counts, Interned, Ready;
    ghost var net, acc := d.nfa.net, d.nfa.accptnum;
    if duplist[sym] == NIL {
      targ := UniqueClass(d, al, ds, sym);
      t1 := Targs(t.states + [targ], t.freqs + [1], t.totaltrans + 1);
      CountsNew(t, t1, state[..], sym, targ);
    } else {
      CopiedClass(al, net, acc, d.dss, ds, state[..], symlist, duplist[..], sym);
      hide RowBelow;
      targ := state[duplist[sym]];
      var i := FindTarget(t, targ);
      t1 := Targs(t.states, t.freqs[i := t.freqs[i] + 1], t.totaltrans + 1);
      CountsAgain(t, t1, state[..], sym, targ, i);
    }
  }

  lemma CountsNew(t: Targs, t1: Targs, state: seq<int>, sym: int, e: int)
    requires TargsOk(t, state, sym) && 0 < e && t1 == Targs(t.states + [e], t.freqs + [1], t.totaltrans + 1)
    ensures Counts(t, t1, e)
  {
    assert t1.states[|t.states|] == e;
  }

  lemma CountsAgain(t: Targs, t1: Targs, state: seq<int>, sym: int, e: int, i: nat)
    requires TargsOk(t, state, sym) && i < |t.states| && t.states[i] == e
    requires t1 == Targs(t.states, t.freqs[i := t.freqs[i] + 1], t.totaltrans + 1)
    ensures Counts(t, t1, e)
  {
  }

  /** ntod's loop body for one equivalence class. */
  method ProcessClass(d: DfaStates, al: Alphabet, x: Scratch, ds: seq<int>, sym: int, t: Targs) returns (t1: Targs)
    requires Separate(d, x) && 1 <= sym <= al.numecs <= Ecs.CSIZE && AtSymbol(d, al, x, ds, sym) && TargsOk(t, x.state[..], sym)
    modifies d, d.nfa`fatal, d.nfa.trans1, x.symlist, x.duplist, x.state
    ensures AtSymbol(d, al, x, ds, sym + 1) && TargsOk(t1, x.state[..], sym + 1) && old(d.dss) <= d.dss
  {
    ghost var net, acc, dss := d.nfa.net, d.nfa.accptnum, d.dss;
    ghost var state, symlist, duplist := x.state[..], x.symlist[..], x.duplist[..];
    hide Interned, Ready, Bounded;
    if x.symlist[sym] {
      x.symlist[sym] := false;
      var targ;
      targ, t1 := ClassTarget(d, al, ds, sym, x.state, x.duplist, t, symlist);
      x.state[sym] := targ;
      x.duplist[sym] := NIL;
      RowStep(al, net, acc, dss, d.dss, ds, state, symlist, duplist, x.state[..], x.symlist[..], x.duplist[..], sym, targ);
      TargsStep(t, t1, state, x.state[..], sym, targ);
    } else {
      t1 := t;
      RowSkip(al, net, acc, dss, ds, state, symlist, duplist, sym);
      assert x.state[..][sym] == 0;
    }
  }

  /** The target that was met most often, as the counts have it. */
  method CommonTarget(t: Targs, ghost state: seq<int>, ghost sym: int) returns (comstate: int, comfreq: int)
    requires TargsOk(t, state, sym)
    ensures 0 <= comstate && (if comstate == 0 then t.states == [] && comfreq == 0 else 0 < comfreq <= CountTo(state, comstate, sym - 1))
  {
    comfreq, comstate := 0, 0;
    var i := 0;
    while i < |t.states|
      invariant 0 <= i <= |t.states| && 0 <= comstate
      invariant if i == 0 then comfreq == 0 && comstate == 0 else 0 < comstate && 0 < comfreq <= CountTo(state, comstate, sym - 1)
    {
      if t.freqs[i] > comfreq {
        comfreq := t.freqs[i];
        comstate := t.states[i];
      }
      i := i + 1;
    }
  }

  lemma RowDone(al: Alphabet, net: Net, acc: seq<int>, dss: seq<seq<int>>, ds: seq<int>, state: seq<int>, symlist: seq<bool>,
                duplist: seq<int>, t: Targs, comstate: int, comfreq: int)
    requires RowBelow(al, net, acc, dss, ds, state, symlist, duplist, al.numecs + 1) && TargsOk(t, state, al.numecs + 1)
    requires 0 <= comstate && (if comstate == 0 then t.states == [] && comfreq == 0 else 0 < comfreq <= CountTo(state, comstate, al.numecs))
    ensures Sized(net) && RowOf(al, net, acc, dss, ds, state[..al.numecs + 1])
    ensures forall c :: 1 <= c <= al.numecs ==> 0 <= state[c] && !symlist[c]
    ensures t.totaltrans == MkEntry.CountKept(state[..al.numecs + 1], JAMSTATE, al.numecs) && (comstate == 0 ==> t.totaltrans == 0)
    ensures comfreq <= CountTo(state[..al.numecs + 1], comstate, al.numecs) && (0 < t.totaltrans ==> 0 < comfreq)
  {
    CountToPrefix(state, state[..al.numecs + 1], comstate, al.numecs);
    MkEntry.CountPrefix(state, state[..al.numecs + 1], JAMSTATE, al.numecs);
    MkEntry.CountNone(state, JAMSTATE, al.numecs);
    assert comstate == 0 ==> forall c :: 1 <= c <= al.numecs ==> state[c] !in t.states;
  }

  /** The transition array of a DFA state; the states it leads to are made as needed. */
  method ProcessState(d: DfaStates, al: Alphabet, x: Scratch, ds: seq<int>) returns (row: seq<int>, totaltrans: int, comstate: int, comfreq: int)
    requires Separate(d, x) && Working(d, al) && al.numecs <= Ecs.CSIZE && x.Clear(al.numecs) && Bounded(d.nfa.net, ds)
    modifies d, d.nfa`fatal, d.nfa.trans1, x.symlist, x.duplist, x.state, x.cclflags
    ensures Working(d, al) && x.Clear(al.numecs) && old(d.dss) <= d.dss
    ensures Sized(d.nfa.net) && RowOf(al, d.nfa.net, d.nfa.accptnum, d.dss, ds, row)
    ensures (forall c :: 1 <= c <= al.numecs ==> 0 <= row[c]) && 0 <= comstate && (comstate == 0 ==> totaltrans == 0)
    ensures totaltrans == MkEntry.CountKept(row, JAMSTATE, al.numecs)
    ensures comfreq <= CountTo(row, comstate, al.numecs) && (0 < totaltrans ==> 0 < comfreq)
  {
    ghost var net, acc := d.nfa.net, d.nfa.accptnum;
    hide Interned;
    forall i | 1 <= i <= al.numecs {
      x.state[i] := 0;
    }
    SymPartition(d.nfa, al, ds, x.symlist, x.duplist, x.cclflags);
    var t := Targs([], [], 0);
    assert RowBelow(al, net, acc, d.dss, ds, x.state[..], x.symlist[..], x.duplist[..], 1);
    hide RowBelow, Ready, Bounded;
    var sym := 1;
    while sym <= al.numecs
      invariant 1 <= sym <= al.numecs + 1 && AtSymbol(d, al, x, ds, sym) && TargsOk(t, x.state[..], sym) && old(d.dss) <= d.dss
      invariant forall k :: 0 <= k < x.cclflags.Length ==> !x.cclflags[k]
    {
      t := ProcessClass(d, al, x, ds, sym, t);
      sym := sym + 1;
    }
    comstate, comfreq := CommonTarget(t, x.state[..], sym);
    row, totaltrans := x.state[..al.numecs + 1], t.totaltrans;
    RowDone(al, net, acc, d.dss, ds, x.state[..], x.symlist[..], x.duplist[..], t, comstate, comfreq);
  }

  /** What bldtbl and the NUL table get of a transition array. */
  ghost predicate Passed(al: Alphabet, useNul: bool, tr: seq<int>, row: DfaRow, nul: int) {
    && 1 <= al.nul <= al.numecs && |tr| == |row.state| == al.numecs + 1 && nul == tr[al.nul]
    && row.state == (if useNul then tr[al.nul := 0] else tr)
    && (forall c :: 1 <= c <= al.numecs ==> 0 <= tr[c]) && 0 <= row.comstate && (row.comstate == 0 ==> row.totaltrans == 0)
    && row.totaltrans == MkEntry.CountKept(tr, JAMSTATE, al.numecs)
    && row.comfreq <= CountTo(tr, row.comstate, al.numecs) && (0 < row.totaltrans ==> 0 < row.comfreq)
  }

  ghost predicate AllPassed(al: Alphabet, useNul: bool, trans: seq<seq<int>>, rows: seq<DfaRow>, nultrans: seq<int>) {
    && |trans| == |nultrans| == |rows| + 1
    && forall i :: 1 <= i < |trans| ==> Passed(al, useNul, trans[i], rows[i - 1], nultrans[i])
  }

  lemma PassOne(al: Alphabet, useNul: bool, trans: seq<seq<int>>, rows: seq<DfaRow>, nultrans: seq<int>, tr: seq<int>, row: DfaRow, nul: int)
    requires AllPassed(al, useNul, trans, rows, nultrans) && Passed(al, useNul, tr, row, nul)
    ensures AllPassed(al, useNul, trans + [tr], rows + [row], nultrans + [nul])
  {
    var trans1, rows1, nultrans1 := trans + [tr], rows + [row], nultrans + [nul];
    forall i | 1 <= i < |trans1|
      ensures Passed(al, useNul, trans1[i], rows1[i - 1], nultrans1[i])
    {
      if i < |trans| {
        assert Passed(al, useNul, trans[i], rows[i - 1], nultrans[i]);
      }
    }
  }

  /** ntod's table so far: the transition arrays of states 1..todo_head, and what was passed on. */
  ghost predicate Tabled(d: DfaStates, al: Alphabet, useNul: bool, trans: seq<seq<int>>, rows: seq<DfaRow>, nultrans: seq<int>, todo_head: int)
    reads d, d.nfa, d.nfa.trans1
  {
    && Working(d, al) && |rows| == todo_head <= d.lastdfa
    && Processed(al, d.nfa.net, d.nfa.accptnum, d.dss, trans, todo_head)
    && AllPassed(al, useNul, trans, rows, nultrans)
  }

  lemma ProcessedGrows(al: Alphabet, net: Net, acc: seq<int>, dss: seq<seq<int>>, dss1: seq<seq<int>>, trans: seq<seq<int>>, row: seq<int>, k: int)
    requires Sized(net) && Processed(al, net, acc, dss, trans, k) && dss <= dss1 && 0 <= k < |dss| - 1
    requires forall i :: 1 <= i < |dss1| ==> States(net, dss1[i])
    requires RowOf(al, net, acc, dss1, dss[k + 1], row)
    ensures Processed(al, net, acc, dss1, trans + [row], k + 1)
  {
    forall i | 1 <= i <= k + 1
      ensures RowOf(al, net, acc, dss1, dss1[i], (trans + [row])[i])
    {
      if i <= k {
        RowGrows(al, net, acc, dss, dss1, dss[i], trans[i]);
      }
    }
  }

  /** ntod's loop body: the next unprocessed state. */
  method NtodStep(d: DfaStates, al: Alphabet, x: Scratch, useNul: bool, trans0: seq<seq<int>>, rows0: seq<DfaRow>, nultrans0: seq<int>,
                  todo_head: int) returns (trans: seq<seq<int>>, rows: seq<DfaRow>, nultrans: seq<int>)
    requires Separate(d, x) && al.numecs <= Ecs.CSIZE && x.Clear(al.numecs) && 0 <= todo_head < d.lastdfa
    requires Tabled(d, al, useNul, trans0, rows0, nultrans0, todo_head)
    modifies d, d.nfa`fatal, d.nfa.trans1, x.symlist, x.duplist, x.state, x.cclflags
    ensures Tabled(d, al, useNul, trans, rows, nultrans, todo_head + 1) && x.Clear(al.numecs) && old(d.dss) <= d.dss
  {
    var ds := todo_head + 1;
    ghost var net, acc, dss := d.nfa.net, d.nfa.accptnum, d.dss;
    assert 1 <= al.nul <= al.numecs;
    hide Interned, Ready, Processed, AllPassed;
    InternedLists(net, acc, d.dss, d.dhash, d.dfaacc);
    var row, totaltrans, comstate, comfreq := ProcessState(d, al, x, d.dss[ds]);
    InternedLists(net, acc, d.dss, d.dhash, d.dfaacc);
    ProcessedGrows(al, net, acc, dss, d.dss, trans0, row, todo_head);
    assert |row| == al.numecs + 1;
    var dfaRow := DfaRow(if useNul then row[al.nul := 0] else row, totaltrans, comstate, comfreq);
    PassOne(al, useNul, trans0, rows0, nultrans0, row, dfaRow, row[al.nul]);
    trans, rows, nultrans := trans0 + [row], rows0 + [dfaRow], nultrans0 + [row[al.nul]];
  }

  /** NUL's class, which is the last one when every character has its own.  Scanners have 7-bit or 8-bit characters. */
  ghost predicate NulOk(al: Alphabet, csize: nat) {
    && 1 <= al.numecs <= csize && (csize == 128 || csize == Ecs.CSIZE) && 0 < |al.ecgroup| && al.nul == Abs(al.ecgroup[0])
    && (al.numecs == csize ==> al.ecgroup[0] == al.numecs)
  }

  /** The end-of-buffer state holds no NFA state; it is always new. */
  method MakeEob(d: DfaStates, al: Alphabet, starts: seq<int>) returns (eob: int)
    requires Working(d, al) && d.lastdfa == |starts| - 1
    requires forall i :: 1 <= i < |starts| ==> StartedAs(al, d.nfa.net, d.nfa.accptnum, d.dss, starts, i)
    modifies d, d.nfa`fatal
    ensures Working(d, al) && eob == d.lastdfa == |starts| && old(d.dss) <= d.dss && d.dss[eob] == []
    ensures d.nfa.fatal == old(d.nfa.fatal)
  {
    HashNone(|d.nfa.net.sym| - 1);
    forall k | 1 <= k <= d.lastdfa
      ensures !SortOf([], d.dss[k])
    {
      assert StartedAs(al, d.nfa.net, d.nfa.accptnum, d.dss, starts, k);
      hide StandsFor;
      if SortOf([], d.dss[k]) {
        SortKeepsMembers([], d.dss[k]);
        assert false;
      }
    }
    assert Bounded(d.nfa.net, []) && NumbersOf(d.nfa.accptnum, [], []);
    hide Interned, Ready, StartedAs;
    var isNew;
    isNew, eob := d.SnsToDs([], [], 0);
    d.nfa.fatal := d.nfa.fatal || !isNew;
    SortKeepsMembers([], d.dss[eob]);
  }

  /**
   The subset construction.  DFA state i < |starts| starts from NFA state starts[i], the next one is
   the end-of-buffer state, and trans holds the transition arrays of all states.
   */
  method Ntod(d: DfaStates, al: Alphabet, starts: seq<int>, csize: nat)
    returns (eob: int, useNul: bool, trans: seq<seq<int>>, rows: seq<DfaRow>, nultrans: seq<int>)
    requires Working(d, al) && d.lastdfa == 0 && StartsOk(d.nfa.net, d.nfa.accptnum, starts) && NulOk(al, csize)
    modifies d, d.nfa`fatal, d.nfa.trans1
    ensures Tabled(d, al, useNul, trans, rows, nultrans, d.lastdfa) && useNul == (al.numecs == csize)
    ensures eob == |starts| <= d.lastdfa && d.dss[eob] == []
    ensures forall i :: 1 <= i < |starts| ==> StartedAs(al, d.nfa.net, d.nfa.accptnum, d.dss, starts, i)
  {
    var x := new Scratch();
    useNul := al.ecgroup[0] == al.numecs && al.numecs == csize;
    ghost var net, acc := d.nfa.net, d.nfa.accptnum;
    FirstStates(d, al, starts);
    ghost var dss := d.dss;
    eob := MakeEob(d, al, starts);
    forall i | 1 <= i < |starts|
      ensures StartedAs(al, net, acc, d.dss, starts, i)
    {
      StartedGrows(al, net, acc, dss, d.dss, starts, i);
    }
    dss := d.dss;
    trans, rows, nultrans := [[]], [], [0];
    var todo_head := 0;
    InternedLists(net, acc, d.dss, d.dhash, d.dfaacc);
    hide Interned, Ready, StartedAs;
    assert Tabled(d, al, useNul, trans, rows, nultrans, 0);
    while todo_head < d.lastdfa
      invariant 0 <= todo_head <= d.lastdfa && x.Clear(al.numecs) && Separate(d, x) && dss <= d.dss
      invariant Tabled(d, al, useNul, trans, rows, nultrans, todo_head)
      decreases MaxLists(net) - todo_head
    {
      InternedLists(net, acc, d.dss, d.dhash, d.dfaacc);
      trans, rows, nultrans := NtodStep(d, al, x, useNul, trans, rows, nultrans, todo_head);
      todo_head := todo_head + 1;
    }
    forall i | 1 <= i < |starts|
      ensures StartedAs(al, net, acc, d.dss, starts, i)
    {
      StartedGrows(al, net, acc, dss, d.dss, starts, i);
    }
  }
}
