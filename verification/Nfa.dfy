/**
 The machine builder of `ext/flex/nfa.c`: states are appended to parallel arrays and machines are
 combined by adding transitions in place.

 The global arrays, which the source enlarges by reallocation, are sequences.  A machine is named
 by its start state; firstst, lastst and finalst hold its range of states and its final state.
 */
module NfaMachines {
  import opened Words
  import opened NfaLang
  import opened NfaOps
  import opened NfaSteps

  const INFINITE_REPEAT := -1

  class NfaBuilder {
    /** What the symbols (characters and character classes) stand for. */
    ghost const sat: Match
    /** Which symbols patterns may use. */
    ghost const legal: int -> bool

    var lastnfa: int
    var transchar: seq<int>
    var trans1: seq<int>
    var trans2: seq<int>
    var firstst: seq<int>
    var lastst: seq<int>
    var finalst: seq<int>
    var accptnum: seq<int>
    /** A fatal error ("too many transitions", "empty machine") was reported. */
    var fatal: bool

    constructor (ghost sat: Match, ghost legal: int -> bool)
      ensures Valid() && lastnfa == 0 && this.sat == sat && this.legal == legal
    {
      this.sat, this.legal := sat, legal;
      lastnfa, fatal := 0, false;
      transchar, trans1, trans2 := [SYM_EPSILON], [NO_TRANSITION], [NO_TRANSITION];
      firstst, lastst, finalst, accptnum := [0], [0], [0], [NIL];
    }

    ghost function All(): Nfa
      reads this
    {
      Nfa(Net(transchar, trans1, trans2), firstst, lastst, finalst, accptnum)
    }

    ghost predicate Valid()
      reads this
    {
      !fatal && |transchar| == lastnfa + 1 && Good(All()) && AllLegal()
    }

    ghost predicate IsLegal(sym: int) {
      sym == SYM_EPSILON || legal(sym)
    }

    ghost predicate AllLegal()
      reads this
    {
      forall s :: 0 < s < |transchar| ==> IsLegal(transchar[s])
    }

    ghost predicate IsMachine(mach: int)
      reads this
    {
      Machine(All(), mach)
    }

    /** The words mach matches. */
    ghost function Means(mach: int): Language
      requires IsMachine(mach)
      reads this
    {
      Meaning(sat, All(), mach)
    }

    /** The machine's states are first..lastnfa. */
    ghost predicate Spans(mach: int, first: int)
      reads this
    {
      IsMachine(mach) && firstst[mach] == first && lastst[mach] == lastnfa
    }

    method MkState(sym: int) returns (s: int)
      requires Valid() && IsLegal(sym)
      modifies this
      ensures Valid() && s == lastnfa == old(lastnfa) + 1 && AddState(old(All()), All(), sym)
      ensures Spans(s, s) && Means(s) == Single(sat, sym) && Below(old(All()), All(), s)
    {
      ghost var n := All();
      lastnfa := lastnfa + 1;
      firstst, finalst, lastst := firstst + [lastnfa], finalst + [lastnfa], lastst + [lastnfa];
      transchar := transchar + [sym];
      trans1, trans2 := trans1 + [NO_TRANSITION], trans2 + [NO_TRANSITION];
      accptnum := accptnum + [NIL];
      s := lastnfa;
      AddStateGood(n, All(), sym);
      NewMachine(sat, n, All(), sym);
    }

    /** Adds a transition; reports an error if the state has no free slot. */
    method MkXtion(statefrom: int, stateto: int)
      requires |transchar| == lastnfa + 1 && Good(All()) && 0 < statefrom <= lastnfa && stateto != NO_TRANSITION
      modifies `trans1, `trans2, `fatal
      ensures old(FreeSlot(All().net, statefrom)) ==> fatal == old(fatal) && AddLink(old(All()), All(), statefrom, stateto)
      ensures !old(FreeSlot(All().net, statefrom)) ==> fatal && All() == old(All())
    {
      if trans1[statefrom] == NO_TRANSITION {
        trans1 := trans1[statefrom := stateto];
      } else if transchar[statefrom] != SYM_EPSILON || trans2[statefrom] != NO_TRANSITION {
        fatal := true;
      } else {
        trans2 := trans2[statefrom := stateto];
      }
    }

    /** Connects first's final state to last; either may be NIL. */
    method LinkMachines(first: int, last: int) returns (m: int)
      requires Valid()
      requires first != NIL && last != NIL ==>
        && 0 < first <= lastnfa && 0 < last <= lastnfa && FreeSlot(All().net, finalst[first])
        && (transchar[finalst[first]] == SYM_EPSILON || transchar[last] == SYM_EPSILON || finalst[first] < last)
      modifies `trans1, `trans2, `fatal, `firstst, `lastst, `finalst
      ensures Valid() && lastnfa == old(lastnfa)
      ensures first == NIL ==> m == last
      ensures first != NIL && last == NIL ==> m == first
      ensures first == NIL || last == NIL ==> All() == old(All())
      ensures first != NIL && last != NIL ==> m == first && LinkPair(old(All()), All(), first, last)
      ensures first != NIL && last != NIL && old(IsMachine(first) && IsMachine(last) && Adjacent(All(), first, last)) ==>
        && IsMachine(first) && Means(first) == Cat(old(Means(first)), old(Means(last)))
        && Below(old(All()), All(), firstst[first]) && finalst[first] == old(finalst[last])
        && firstst[first] == (if old(firstst[first] < firstst[last]) then old(firstst[first]) else old(firstst[last]))
        && lastst[first] == (if old(lastst[first] < lastst[last]) then old(lastst[last]) else old(lastst[first]))
    {
      hide Part, Unnumbered, Alive, Below, Cat, LangOf;
      if first == NIL {
        return last;
      } else if last == NIL {
        return first;
      } else {
        ghost var n := All();
        MkXtion(finalst[first], last);
        LinkedGood(n.net, All().net, n.fin[first], last);
        finalst := finalst[first := finalst[last]];
        lastst := lastst[first := if lastst[first] < lastst[last] then lastst[last] else lastst[first]];
        firstst := firstst[first := if firstst[first] < firstst[last] then firstst[first] else firstst[last]];
        if Machine(n, first) && Machine(n, last) && Adjacent(n, first, last) {
          PairJoins(sat, n, All(), first, last);
        }
        return first;
      }
    }

    /** link_machines of two adjacent machines: first's words followed by last's. */
    method Concatenate(first: int, last: int) returns (m: int)
      requires Valid() && IsMachine(first) && IsMachine(last) && Adjacent(All(), first, last)
      requires firstst[first] < firstst[last] || transchar[last] == SYM_EPSILON
      requires lastst[first] == lastnfa || lastst[last] == lastnfa
      modifies `trans1, `trans2, `fatal, `firstst, `lastst, `finalst
      ensures Valid() && m == first
      ensures Spans(m, if old(firstst[first] < firstst[last]) then old(firstst[first]) else old(firstst[last]))
      ensures Means(m) == Cat(old(Means(first)), old(Means(last)))
      ensures Below(old(All()), All(), firstst[m]) && finalst[m] == old(finalst[last])
    {
      m := LinkMachines(first, last);
    }

    /** One or more repetitions. */
    method MkPosCl(state: int) returns (m: int)
      requires Valid() && IsMachine(state) && lastst[state] == lastnfa
      modifies this
      ensures Valid() && m == state && Spans(m, old(firstst[state])) && Means(m) == AtLeast(old(Means(state)), 1)
      ensures Below(old(All()), All(), old(firstst[state]))
    {
      ghost var n := All();
      if transchar[finalst[state]] == SYM_EPSILON && trans1[finalst[state]] == NO_TRANSITION {
        MkXtion(finalst[state], state);
        LinkedGood(n.net, All().net, n.fin[state], state);
        PlusShort(sat, n, All(), state);
        return state;
      } else {
        var eps := MkState(SYM_EPSILON);
        ghost var nA := All();
        MkXtion(eps, state);
        ghost var nB := All();
        LinkedGood(nA.net, nB.net, eps, state);
        m := LinkMachines(state, eps);
        PlusLong(sat, n, nA, nB, All(), state);
        PlusLongMachine(n, nA, nB, All(), state);
      }
    }

    /** mkopt's first step: a final state without transitions. */
    method EndFree(mach: int) returns (m: int)
      requires Valid() && IsMachine(mach) && lastst[mach] == lastnfa
      modifies this
      ensures Valid() && m == mach && Spans(m, old(firstst[mach])) && Means(m) == old(Means(mach))
      ensures Below(old(All()), All(), old(firstst[mach])) && SuperFree(All().net, finalst[m])
    {
      m := mach;
      if !(transchar[finalst[mach]] == SYM_EPSILON && trans1[finalst[mach]] == NO_TRANSITION) {
        ghost var n := All();
        var eps := MkState(SYM_EPSILON);
        ghost var nA := All();
        BelowKeeps(sat, n, nA, eps, mach);
        hide Good, Unnumbered, LangOf, FreeSlot, Below, Cat;
        assert FreeSlot(nA.net, finalst[mach]);
        m := LinkMachines(mach, eps);
        CatEmptyRight(Meaning(sat, n, mach));
        BelowTrans(n, nA, All(), eps, firstst[mach], n.lo[mach]);
        assert SuperFree(All().net, eps);
      }
    }

    /** The machine or nothing. */
    method MkOpt(mach: int) returns (m: int)
      requires Valid() && IsMachine(mach) && lastst[mach] == lastnfa
      modifies this
      ensures Valid() && Spans(m, old(firstst[mach])) && Means(m) == old(Means(mach)) + Empty()
      ensures Below(old(All()), All(), old(firstst[mach])) && transchar[m] == SYM_EPSILON
    {
      ghost var n0 := All();
      m := EndFree(mach);
      ghost var n := All();
      var eps := MkState(SYM_EPSILON);
      ghost var nA := All();
      hide Unnumbered, Closed, LangOf, Cat;
      m := LinkMachines(eps, m);
      ghost var nB := All();
      MkXtion(m, finalst[m]);
      LinkedGood(nB.net, All().net, m, nB.fin[m]);
      hide Linked, Grown, Good;
      assert OptSteps(n, nA, nB, All(), mach);
      OptMeaning(sat, n, nA, nB, All(), mach);
      OptMachine(n, nA, nB, All(), mach);
      hide OptSteps, AddState, LinkPair, AddLink;
      assert Below(n0, All(), n0.lo[mach]);
    }

    /** Zero or more repetitions. */
    method MkClos(state: int) returns (m: int)
      requires Valid() && IsMachine(state) && lastst[state] == lastnfa
      modifies this
      ensures Valid() && Spans(m, old(firstst[state])) && Means(m) == AtLeast(old(Means(state)), 0)
      ensures Below(old(All()), All(), old(firstst[state])) && transchar[m] == SYM_EPSILON
    {
      ghost var n := All();
      ghost var lo := firstst[state];
      hide Machine, Below, Good, AtLeast;
      m := MkPosCl(state);
      ghost var nA := All();
      m := MkOpt(m);
      StarIsPlusOrEmpty(Meaning(sat, n, state));
      BelowTrans(n, nA, All(), lo, lo, lo);
    }

    /** Either machine; either may be NIL.  first's states come directly before second's. */
    method MkOr(first: int, second: int) returns (m: int)
      requires Valid()
      requires first != NIL && second != NIL ==>
        IsMachine(first) && IsMachine(second) && lastst[first] + 1 == firstst[second] && lastst[second] == lastnfa
      modifies this
      ensures Valid()
      ensures first == NIL ==> m == second
      ensures first != NIL && second == NIL ==> m == first
      ensures first == NIL || second == NIL ==> All() == old(All())
      ensures first != NIL && second != NIL ==>
        && Spans(m, old(firstst[first])) && Means(m) == old(Means(first)) + old(Means(second))
        && Below(old(All()), All(), old(firstst[first])) && transchar[m] == SYM_EPSILON
    {
      if first == NIL {
        return second;
      } else if second == NIL {
        return first;
      }
      m := Fork(first, second);
    }

    /** mkor's work on two machines. */
    method Fork(first: int, second: int) returns (m: int)
      requires Valid() && IsMachine(first) && IsMachine(second)
      requires lastst[first] + 1 == firstst[second] && lastst[second] == lastnfa
      modifies this
      ensures Valid() && Spans(m, old(firstst[first])) && Means(m) == old(Means(first)) + old(Means(second))
      ensures Below(old(All()), All(), old(firstst[first])) && transchar[m] == SYM_EPSILON
    {
      ghost var n := All();
      var eps := MkState(SYM_EPSILON);
      ghost var nA := All();
      assert FreeSlot(nA.net, eps);
      hide Unnumbered, Closed, LangOf, Below, Cat, Part;
      m := LinkMachines(eps, first);
      ghost var nB := All();
      MkXtion(m, second);
      ghost var nC := All();
      LinkedGood(nB.net, nC.net, m, second);
      assert ForkSteps(n, nA, nB, nC, first, second);
      ForkShape(n, nA, nB, nC, first, second);
      ForkParts(sat, n, nA, nB, nC, first, second);
      hide ForkSteps, Linked, Grown, LinkPair, AddLink, AddState, FreeSlot;
      JoinEnds(n, nA, nB, first, second, m);
    }

    /** mkor's last part: both machines end in the same state. */
    method JoinEnds(ghost n: Nfa, ghost nA: Nfa, ghost nB: Nfa, first0: int, second: int, first: int)
      requires Valid() && ForkSteps(n, nA, nB, All(), first0, second) && first == lastnfa == |n.net.sym|
      requires finalst[first] == n.fin[first0] && finalst[second] == n.fin[second] && transchar[first] == SYM_EPSILON
      requires 0 < second < first && 0 < finalst[first] < first && 0 < finalst[second] < first
      requires finalst[first] != finalst[second]
      requires FreeSlot(All().net, finalst[first]) && FreeSlot(All().net, finalst[second])
      modifies this
      ensures Valid() && Spans(first, n.lo[first0]) && Means(first) == Meaning(sat, n, first0) + Meaning(sat, n, second)
      ensures Below(n, All(), n.lo[first0]) && transchar[first] == SYM_EPSILON
    {
      if transchar[finalst[first]] == SYM_EPSILON && trans1[finalst[first]] == NO_TRANSITION && accptnum[finalst[first]] == NIL {
        JoinAt(n, nA, nB, first0, second, first, finalst[second], finalst[first]);
      } else if transchar[finalst[second]] == SYM_EPSILON && trans1[finalst[second]] == NO_TRANSITION && accptnum[finalst[second]] == NIL {
        JoinAt(n, nA, nB, first0, second, first, finalst[first], finalst[second]);
      } else {
        JoinAtNew(n, nA, nB, first0, second, first);
      }
    }

    /** orend is one of the two final states; the other one, from, is linked to it. */
    method JoinAt(ghost n: Nfa, ghost nA: Nfa, ghost nB: Nfa, first0: int, second: int, first: int, from: int, orend: int)
      requires Valid() && ForkSteps(n, nA, nB, All(), first0, second) && first == lastnfa == |n.net.sym|
      requires (from == n.fin[second] && orend == n.fin[first0]) || (from == n.fin[first0] && orend == n.fin[second])
      requires 0 < from < first && 0 < orend < first && FreeSlot(All().net, from) && SuperFree(All().net, orend)
      requires transchar[first] == SYM_EPSILON
      modifies this
      ensures Valid() && Spans(first, n.lo[first0]) && Means(first) == Meaning(sat, n, first0) + Meaning(sat, n, second)
      ensures Below(n, All(), n.lo[first0]) && transchar[first] == SYM_EPSILON
    {
      ghost var nC := All();
      hide ForkSteps, LangOf, Below, Closed, Unnumbered;
      MkXtion(from, orend);
      ghost var nD := All();
      LinkedGood(nC.net, nD.net, from, orend);
      finalst := finalst[first := orend];
      hide Good, Linked;
      OrIntoMeaning(sat, n, nA, nB, nC, nD, first0, second, from, orend);
      OrIntoMachine(sat, n, nA, nB, nC, nD, All(), first0, second, from, orend);
    }

    /** orend is a new state. */
    method JoinAtNew(ghost n: Nfa, ghost nA: Nfa, ghost nB: Nfa, first0: int, second: int, first: int)
      requires Valid() && ForkSteps(n, nA, nB, All(), first0, second) && first == lastnfa == |n.net.sym|
      requires finalst[first] == n.fin[first0] && finalst[second] == n.fin[second] && transchar[first] == SYM_EPSILON
      requires 0 < second < first && 0 < finalst[first] < first && 0 < finalst[second] < first
      requires finalst[first] != finalst[second]
      requires FreeSlot(All().net, finalst[first]) && FreeSlot(All().net, finalst[second])
      modifies this
      ensures Valid() && Spans(first, n.lo[first0]) && Means(first) == Meaning(sat, n, first0) + Meaning(sat, n, second)
      ensures Below(n, All(), n.lo[first0]) && transchar[first] == SYM_EPSILON
    {
      ghost var nC := All();
      hide ForkSteps, LangOf, Below, Closed, Unnumbered, Cat, Part;
      var eps := MkState(SYM_EPSILON);
      ghost var nD := All();
      var m := LinkMachines(first, eps);
      ghost var nE := All();
      MkXtion(finalst[second], eps);
      ghost var nF := All();
      LinkedGood(nE.net, nF.net, nE.fin[second], eps);
      hide Good, Linked, Grown;
      OrBothMeaning(sat, n, nA, nB, nC, nD, nE, nF, first0, second);
      OrBothMachine(sat, n, nA, nB, nC, nD, nE, nF, first0, second);
    }

    /** dupmachine's loop body: the new state gets the transitions of state i, moved by as much as i itself. */
    method CopyLinks(i: int, state: int, ghost n0: Nfa, ghost n: Nfa, ghost a: int, ghost b: int)
      requires Valid() && CopiedTo(n0, n, a, i) && 1 <= a <= i <= b < |n0.lo| && Closed(n0.net, a, b) && Good(n)
      requires state == lastnfa == |n.lo| && i < state && i < |n0.net.t1| && i < |n0.net.t2|
      requires AddState(n, All(), n0.net.sym[i]) && FreeSlot(All().net, state) && finalst[state] == state
      requires n.net.sym[i] == n0.net.sym[i] && n.net.t1[i] == n0.net.t1[i] && n.net.t2[i] == n0.net.t2[i]
      requires Inside(a, b, n0.net.t1[i]) && Inside(a, b, n0.net.t2[i]) && state - i == |n0.lo| - a > 0
      requires n0.net.t1[i] == NO_TRANSITION ==> n0.net.t2[i] == NO_TRANSITION
      requires n0.net.sym[i] != SYM_EPSILON ==> n0.net.t2[i] == NO_TRANSITION
      modifies `trans1, `trans2, `fatal
      ensures Valid() && Cloned(n, All().(acc := n.acc + [n.acc[i]]), i)
    {
      ghost var nA, nB := All(), All();
      hide CopiedTo, Good, Closed;
      if trans1[i] != NO_TRANSITION {
        MkXtion(finalst[state], trans1[i] + state - i);
        nB := All();
        CloneLinkGood(n0, n, nA, nB, a, b, i, n0.net.t1[i]);
        if transchar[i] == SYM_EPSILON && trans2[i] != NO_TRANSITION {
          MkXtion(finalst[state], trans2[i] + state - i);
          CloneLinkGood(n0, n, nB, All(), a, b, i, n0.net.t2[i]);
        }
      }
      CloneNet(n, nA, nB, All(), i);
    }

    /** dupmachine's loop body: appends a copy of state i. */
    method CopyState(i: int, ghost n0: Nfa, ghost a: int, ghost b: int) returns (state: int)
      requires Valid() && CopiedTo(n0, All(), a, i) && i <= b < |n0.lo| && Closed(n0.net, a, b)
      modifies this
      ensures Valid() && CopiedTo(n0, All(), a, i + 1) && state == lastnfa == old(lastnfa) + 1
    {
      hide CopiedTo, Machine, Meaning, LangOf, Closed;
      ghost var n := All();
      CopiedState(n0, n, a, b, i);
      state := MkState(transchar[i]);
      CopyLinks(i, state, n0, n, a, b);
      hide Good;
      accptnum := accptnum[state := accptnum[i]];
      assert accptnum == n.acc + [n.acc[i]];
      CloneKeepsCopied(n0, n, All(), a, i);
    }

    /** dupmachine's loop: all states first..last are copied; returns the last copy. */
    method CopyStates(first: int, last: int) returns (state: int)
      requires Valid() && 1 <= first <= last <= lastnfa && Closed(All().net, first, last)
      modifies this
      ensures Valid() && CopiedTo(old(All()), All(), first, last + 1) && state == lastnfa
    {
      ghost var n0 := All();
      hide Closed;
      state := 0;
      var i := first;
      assert CopiedTo(n0, All(), first, i) && |n0.lo| == lastnfa + 1;
      hide CopiedTo;
      while i <= last
        invariant first <= i <= last + 1 && Valid() && CopiedTo(n0, All(), first, i)
        invariant state == if i == first then 0 else lastnfa
      {
        state := CopyState(i, n0, first, last);
        i := i + 1;
      }
      fatal := fatal || state == 0;
    }

    /** A disjoint copy of a machine; the original is untouched. */
    method DupMachine(mach: int) returns (init: int)
      requires Valid() && IsMachine(mach)
      modifies this
      ensures Valid() && Spans(init, old(lastnfa) + 1) && Means(init) == old(Means(mach))
      ensures Below(old(All()), All(), old(lastnfa) + 1) && transchar[init] == old(transchar[mach])
    {
      hide Good, Copied, Below, Unnumbered, Part, CopiedTo, LangOf, Alive, Closed;
      MachineHas(All(), mach);
      ghost var n0 := All();
      var first, last := firstst[mach], lastst[mach];
      var state := CopyStates(first, last);
      ghost var n := All();
      CopiedHas(n0, n, first, last, mach);
      var off := state - (last + 1) + 1;
      init := mach + off;
      firstst := firstst[init := firstst[mach] + off];
      finalst := finalst[init := finalst[mach] + off];
      lastst := lastst[init := lastst[mach] + off];
      CopyIsMachine(sat, n0, n, All(), mach);
    }

    /** num copies of a machine in a row. */
    method CopySingl(singl: int, num: int) returns (copy: int)
      requires Valid() && IsMachine(singl) && 0 <= num
      modifies this
      ensures Valid() && Spans(copy, old(lastnfa) + 1) && Means(copy) == Power(old(Means(singl)), num)
      ensures Below(old(All()), All(), old(lastnfa) + 1) && transchar[copy] == SYM_EPSILON
    {
      hide Power, Good, Unnumbered, Below, Closed, Alive, Part, LangOf;
      MachineHas(All(), singl);
      ghost var n0, N, A := All(), lastnfa + 1, Means(singl);
      copy := MkState(SYM_EPSILON);
      PowerNone(A);
      var i := 1;
      while i <= num
        invariant 1 <= i <= num + 1 && Valid() && Spans(copy, N) && Means(copy) == Power(A, i - 1)
        invariant Below(n0, All(), N) && transchar[copy] == SYM_EPSILON && n0 == old(All()) && N <= copy
      {
        copy := AppendCopy(singl, copy, n0, A, i - 1);
        i := i + 1;
      }
    }

    /** copysingl's loop body. */
    method AppendCopy(singl: int, copy0: int, ghost n0: Nfa, ghost A: Language, ghost k: nat) returns (copy: int)
      requires Valid() && Machine(n0, singl) && Meaning(sat, n0, singl) == A && n0.hi[singl] < |n0.lo|
      requires Below(n0, All(), |n0.lo|) && Spans(copy0, |n0.lo|) && Means(copy0) == Power(A, k)
      requires |n0.lo| <= copy0 && transchar[copy0] == SYM_EPSILON
      modifies this
      ensures Valid() && copy == copy0 && Spans(copy, |n0.lo|) && Means(copy) == Power(A, k + 1)
      ensures Below(n0, All(), |n0.lo|) && transchar[copy] == SYM_EPSILON
    {
      ghost var n := All();
      ghost var N := |n0.lo|;
      BelowKeeps(sat, n0, n, N, singl);
      var dup := DupMachine(singl);
      ghost var nA := All();
      BelowKeeps(sat, n, nA, |n.lo|, copy0);
      assert nA.net.sym[copy0] == SYM_EPSILON;
      hide Power, Cat, LangOf, Good, Unnumbered, Below;
      PowerNext(A, k);
      copy := Concatenate(copy0, dup);
      BelowTrans(n0, n, nA, N, |n.lo|, N);
      BelowTrans(n0, nA, All(), N, N, N);
    }

    /** mkrep's loop body: one more optional copy before tail. */
    method PrependOptional(mach: int, tail0: int, ghost n0: Nfa, ghost T: int, ghost A: Language, ghost d: nat) returns (tail: int)
      requires Valid() && Machine(n0, mach) && Meaning(sat, n0, mach) == A && n0.hi[mach] < T <= |n0.lo|
      requires Below(n0, All(), T) && Spans(tail0, T) && Means(tail0) == Repeat(A, 0, d)
      requires transchar[tail0] == SYM_EPSILON && T <= tail0
      modifies this
      ensures Valid() && Spans(tail, T) && Means(tail) == Repeat(A, 0, d + 1)
      ensures Below(n0, All(), T) && transchar[tail] == SYM_EPSILON && T <= tail
    {
      ghost var n := All();
      BelowKeeps(sat, n0, n, T, mach);
      var copy := DupMachine(mach);
      ghost var nA := All();
      BelowKeeps(sat, n, nA, |n.lo|, tail0);
      assert nA.net.sym[tail0] == SYM_EPSILON;
      hide Repeat, Cat, LangOf, Good, Unnumbered, Below;
      tail := Concatenate(copy, tail0);
      ghost var nB := All();
      tail := MkOpt(tail);
      RepeatStep(A, d);
      BelowTrans(n0, n, nA, T, |n.lo|, T);
      BelowTrans(n0, nA, nB, T, T, T);
      BelowTrans(n0, nB, All(), T, T, T);
    }

    /** Up to num optional copies of a machine in a row. */
    method OptionalCopies(mach: int, num: int) returns (tail: int)
      requires Valid() && IsMachine(mach) && 0 <= num
      modifies this
      ensures Valid() && Spans(tail, old(lastnfa) + 1) && Means(tail) == Repeat(old(Means(mach)), 0, num)
      ensures Below(old(All()), All(), old(lastnfa) + 1) && transchar[tail] == SYM_EPSILON
    {
      ghost var n0, T, A := All(), lastnfa + 1, Means(mach);
      assert lastst[mach] < T;
      tail := MkState(SYM_EPSILON);
      RepeatNone(A);
      var i := 0;
      hide Repeat, Cat, LangOf, Good, Unnumbered, Below;
      while i < num
        invariant 0 <= i <= num && Valid() && Spans(tail, T) && Means(tail) == Repeat(A, 0, i)
        invariant Below(n0, All(), T) && transchar[tail] == SYM_EPSILON && T <= tail
      {
        tail := PrependOptional(mach, tail, n0, T, A, i);
        i := i + 1;
      }
    }

    /** mkrep's repetitions beyond the first lb. */
    method RepTail(mach: int, lb: int, ub: int) returns (tail: int)
      requires Valid() && IsMachine(mach) && 1 <= lb && (ub == INFINITE_REPEAT || lb <= ub)
      modifies this
      ensures Valid() && Spans(tail, old(lastnfa) + 1) && Means(tail) == MoreTimes(old(Means(mach)), lb, ub)
      ensures Below(old(All()), All(), old(lastnfa) + 1) && transchar[tail] == SYM_EPSILON && old(lastnfa) < lastnfa
    {
      ghost var n := All();
      if ub == INFINITE_REPEAT {
        var copy := DupMachine(mach);
        ghost var nA := All();
        hide AtLeast, Cat, LangOf, Good, Unnumbered, Below;
        tail := MkClos(copy);
        BelowTrans(n, nA, All(), |n.lo|, |n.lo|, |n.lo|);
      } else {
        tail := OptionalCopies(mach, ub - lb);
      }
    }

    /** mkrep's parts: the machine's states are followed by those of base and then those of tail. */
    method RepParts(mach: int, lb: int, ub: int) returns (base: int, tail: int)
      requires Valid() && IsMachine(mach) && 1 <= lb && (ub == INFINITE_REPEAT || lb <= ub)
      modifies this
      ensures Valid() && Below(old(All()), All(), old(lastnfa) + 1)
      ensures IsMachine(base) && Means(base) == Power(old(Means(mach)), lb - 1)
      ensures firstst[base] == old(lastnfa) + 1 && lastst[base] < lastnfa && transchar[base] == SYM_EPSILON
      ensures Spans(tail, lastst[base] + 1) && Means(tail) == MoreTimes(old(Means(mach)), lb, ub) && transchar[tail] == SYM_EPSILON
    {
      ghost var n0 := All();
      assert |n0.lo| == lastnfa + 1 && 0 < mach <= lastnfa;
      hide Repeat, AtLeast, Cat, LangOf, Unnumbered, Power, MoreTimes, Below, Meaning, AllLegal;
      base := CopySingl(mach, lb - 1);
      ghost var n1 := All();
      BelowKeeps(sat, n0, n1, |n0.lo|, mach);
      assert |n1.lo| == lastnfa + 1 && 0 < base <= lastnfa;
      tail := RepTail(mach, lb, ub);
      BelowTrans(n0, n1, All(), |n0.lo|, |n1.lo|, |n0.lo|);
      BelowKeeps(sat, n1, All(), |n1.lo|, base);
    }

    /** lb to ub repetitions, or at least lb if ub is INFINITE_REPEAT. */
    method MkRep(mach: int, lb: int, ub: int) returns (m: int)
      requires Valid() && IsMachine(mach) && lastst[mach] == lastnfa
      requires 1 <= lb && (ub == INFINITE_REPEAT || lb <= ub)
      modifies this
      ensures Valid() && m == mach && Spans(m, old(firstst[mach])) && Means(m) == Times(old(Means(mach)), lb, ub)
      ensures Below(old(All()), All(), old(firstst[mach]))
    {
      ghost var n0, A := All(), Means(mach);
      assert |n0.lo| == lastnfa + 1 && 0 < mach <= lastnfa;
      hide Repeat, AtLeast, Cat, LangOf, Good, Unnumbered, Power, Times, MoreTimes, Below, Meaning, Machine, Sizes, AllLegal;
      var base, tail := RepParts(mach, lb, ub);
      m := LinkThree(mach, base, tail, n0);
      TimesParts(A, lb, ub);
    }

    /** Links three adjacent machines; mach has been there since n0. */
    method LinkThree(mach: int, base: int, tail: int, ghost n0: Nfa) returns (m: int)
      requires Valid() && Machine(n0, mach) && n0.hi[mach] + 1 == |n0.lo| && Below(n0, All(), |n0.lo|)
      requires IsMachine(base) && firstst[base] == |n0.lo| && lastst[base] < lastnfa && Spans(tail, lastst[base] + 1)
      requires transchar[base] == SYM_EPSILON && transchar[tail] == SYM_EPSILON
      modifies this
      ensures Valid() && m == mach && Spans(m, n0.lo[mach]) && Below(n0, All(), n0.lo[mach])
      ensures Means(m) == Cat(Meaning(sat, n0, mach), Cat(old(Means(base)), old(Means(tail))))
    {
      ghost var n := All();
      assert firstst[base] <= lastst[base] && n0.lo[mach] <= n0.hi[mach];
      hide Cat, LangOf, Good, Unnumbered, Below, Meaning, Part, Sizes;
      var rest := Concatenate(base, tail);
      ghost var n1 := All();
      BelowTrans(n0, n, n1, |n0.lo|, |n0.lo|, |n0.lo|);
      BelowKeeps(sat, n0, n1, |n0.lo|, mach);
      m := Concatenate(mach, rest);
      BelowTrans(n0, n1, All(), |n0.lo|, n0.lo[mach], n0.lo[mach]);
    }

    /** Makes mach the machine of a rule. */
    method AddAccept(mach: int, acceptingNumber: int)
      requires Valid() && IsMachine(mach) && lastst[mach] == lastnfa
      modifies this
      ensures Valid() && Ruled(All(), mach, acceptingNumber) && Below(old(All()), All(), old(firstst[mach]))
      ensures firstst[mach] == old(firstst[mach]) && lastst[mach] == lastnfa
      ensures LangOf(sat, All().net, mach, finalst[mach]) == old(Means(mach))
    {
      ghost var n := All();
      if transchar[finalst[mach]] == SYM_EPSILON {
        accptnum := accptnum[finalst[mach] := acceptingNumber];
        NumberEnd(n, All(), mach, acceptingNumber);
      } else {
        var astate := MkState(SYM_EPSILON);
        ghost var nA := All();
        BelowKeeps(sat, n, nA, astate, mach);
        hide Below, Closed, LangOf, Linked, Unnumbered;
        accptnum := accptnum[astate := acceptingNumber];
        ghost var nB := All();
        var m := LinkMachines(mach, astate);
        NumberNewEnd(sat, n, nA, nB, All(), mach, acceptingNumber);
      }
    }

    /** A state that leads to both of two states; either may be NO_TRANSITION. */
    method MkBranch(first: int, second: int) returns (m: int)
      requires Valid() && Total(All()) && 0 <= first <= lastnfa && 0 <= second <= lastnfa
      modifies this
      ensures Valid() && Total(All()) && Below(old(All()), All(), old(lastnfa) + 1)
      ensures first == NO_TRANSITION ==> m == second && All() == old(All())
      ensures first != NO_TRANSITION && second == NO_TRANSITION ==> m == first && All() == old(All())
      ensures first != NO_TRANSITION && second != NO_TRANSITION ==>
        && m == lastnfa == old(lastnfa) + 1 && transchar[m] == SYM_EPSILON && accptnum[m] == NIL
        && forall rule :: rule != NIL ==> Matched(sat, All(), m, rule) == old(Matched(sat, All(), first, rule)) + old(Matched(sat, All(), second, rule))
    {
      ghost var n := All();
      if first == NO_TRANSITION {
        return second;
      } else if second == NO_TRANSITION {
        return first;
      }
      m := MkState(SYM_EPSILON);
      ghost var nA := All();
      hide Total, Below, Matched, LangOf;
      MkXtion(m, first);
      ghost var nB := All();
      LinkedGood(nA.net, nB.net, m, first);
      MkXtion(m, second);
      LinkedGood(nB.net, All().net, m, second);
      BranchResult(sat, n, nA, nB, All(), first, second);
      assert Good(All());
    }
  }

  /** lb..ub repetitions, without an upper bound if ub is INFINITE_REPEAT. */
  ghost function Times(A: Language, lb: int, ub: int): Language
    requires 0 <= lb && (ub == INFINITE_REPEAT || lb <= ub)
  {
    if ub == INFINITE_REPEAT then AtLeast(A, lb) else Repeat(A, lb, ub)
  }

  ghost function MoreTimes(A: Language, lb: int, ub: int): Language
    requires ub == INFINITE_REPEAT || lb <= ub
  {
    if ub == INFINITE_REPEAT then AtLeast(A, 0) else Repeat(A, 0, ub - lb)
  }

  lemma TimesParts(A: Language, lb: int, ub: int)
    requires 1 <= lb && (ub == INFINITE_REPEAT || lb <= ub)
    ensures Cat(A, Cat(Power(A, lb - 1), MoreTimes(A, lb, ub))) == Times(A, lb, ub)
  {
    if ub == INFINITE_REPEAT {
      AtLeastParts(A, lb);
    } else {
      RepeatParts(A, lb, ub - lb);
    }
  }
}