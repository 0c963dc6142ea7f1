/**
 The full-speed table format: states overlaid in one array of (verify, next) pairs
 (`find_table_space`, `place_state` in `ext/flex/tblcmp.c`, `genctbl` in `ext/flex/gen.c`).

 A state occupies the slot before its base (its action), the slot at its base (end of buffer) and
 one slot for every class it has a transition on.
 */
module FullSpeed {

  const MAX_XTIONS_FULL_INTERIOR_FIT := 4
  const INITIAL_MAX_XPAIRS := 2000
  const MAX_XPAIRS_INCREMENT := 2000
  const EOB_POSITION := -1
  const ACTION_POSITION := -2

  /** What a slot is used for. */
  datatype Slot = Free | Action(state: int) | Eob(state: int) | Trans(state: int)

  /** base, nxt, chk and tblend, with the use of every slot and the rows of the placed states. */
  datatype Table = Table(base: seq<int>, nxt: seq<int>, chk: seq<int>, tblend: int, numecs: nat, own: seq<Slot>, rows: map<int, seq<int>>)

  predicate InTable(t: Table, s: int) {
    s in t.rows && 0 <= s < |t.base| && |t.rows[s]| == t.numecs + 1
  }

  /** What the arrays hold in a slot follows from its use. */
  ghost predicate SlotOk(t: Table, k: int)
    requires 0 <= k < |t.own| && |t.own| == |t.chk| == |t.nxt|
  {
    match t.own[k]
    case Free => t.chk[k] == 0
    case Action(s) => InTable(t, s) && k == t.base[s] - 1 && t.chk[k] == 1
    case Eob(s) => InTable(t, s) && k == t.base[s] && t.chk[k] == 1
    case Trans(s) => InTable(t, s) && 1 <= k - t.base[s] <= t.numecs && t.rows[s][k - t.base[s]] != 0
                     && t.chk[k] == k - t.base[s] && t.nxt[k] == t.rows[s][k - t.base[s]]
  }

  /** A placed state has its slots. */
  ghost predicate StateOk(t: Table, s: int) {
    && InTable(t, s) && 1 <= t.base[s] && t.base[s] + t.numecs <= t.tblend < |t.own|
    && t.own[t.base[s] - 1] == Action(s) && t.own[t.base[s]] == Eob(s)
    && forall c :: 1 <= c <= t.numecs && t.rows[s][c] != 0 ==> t.own[t.base[s] + c] == Trans(s)
  }

  ghost predicate Inv(t: Table) {
    && 1 <= t.numecs <= 256 && |t.own| == |t.chk| == |t.nxt| && 1000 < |t.chk| && 0 <= t.tblend && t.tblend < |t.chk|
    && (forall k :: 0 <= k < |t.own| ==> SlotOk(t, k))
    && (forall s :: s in t.rows ==> StateOk(t, s))
    && (forall k :: t.tblend < k < |t.chk| ==> t.chk[k] == 0)
    && (t.rows == map[] ==> t.tblend == 0 && forall k :: 0 <= k < |t.chk| ==> t.chk[k] == 0)
    && (t.rows != map[] ==> t.numecs < t.tblend)
  }

  /** The slots a state needs at position i are free. */
  ghost predicate Fits(t: Table, row: seq<int>, i: int) {
    && 1 <= i && i + t.numecs < |t.chk| && |row| == t.numecs + 1
    && t.chk[i - 1] == 0 && t.chk[i] == 0 && forall k :: i < k <= i + t.numecs && row[k - i] != 0 ==> t.chk[k] == 0
  }

  /** Growing the arrays. */
  lemma GrowKeeps(t: Table, nxt: seq<int>, more: nat)
    requires Inv(t) && |nxt| == |t.nxt| + more && forall k :: 0 <= k < |t.nxt| ==> nxt[k] == t.nxt[k]
    ensures Inv(t.(nxt := nxt, chk := t.chk + seq(more, i => 0), own := t.own + seq(more, i => Free)))
  {
    var t1 := t.(nxt := nxt, chk := t.chk + seq(more, i => 0), own := t.own + seq(more, i => Free));
    forall k | 0 <= k < |t1.own|
      ensures SlotOk(t1, k)
    {
      if k < |t.own| {
        assert SlotOk(t, k);
      }
    }
    forall s | s in t1.rows
      ensures StateOk(t1, s)
    {
      assert StateOk(t, s);
    }
  }

  /** The uses of slots once state s is placed at position p. */
  ghost function Claim(t: Table, s: int, row: seq<int>, p: int): (own: seq<Slot>)
    requires Fits(t, row, p) && |t.own| == |t.chk|
    ensures |own| == |t.own|
    ensures forall k :: 0 <= k < |own| ==> own[k] == ClaimAt(t, s, row, p, k)
  {
    seq(|t.own|, k requires 0 <= k < |t.own| => ClaimAt(t, s, row, p, k))
  }

  ghost function ClaimAt(t: Table, s: int, row: seq<int>, p: int, k: int): Slot
    requires |row| == t.numecs + 1 && 0 <= k < |t.own|
  {
    if k == p - 1 then Action(s) else if k == p then Eob(s)
    else if p < k <= p + t.numecs && row[k - p] != 0 then Trans(s) else t.own[k]
  }

  /** place_state's effect on the arrays. */
  ghost predicate Placed(t: Table, t1: Table, s: int, row: seq<int>, p: int) {
    && Fits(t, row, p) && 0 <= s < |t.base| && |t.own| == |t.chk| == |t.nxt| == |t1.chk| == |t1.nxt|
    && t1.base == t.base[s := p] && t1.numecs == t.numecs && t1.rows == t.rows[s := row] && t1.own == Claim(t, s, row, p)
    && t1.tblend == (if p + t.numecs > t.tblend then p + t.numecs else t.tblend)
    && forall k :: 0 <= k < |t1.chk| ==>
      if k == p - 1 || k == p then t1.chk[k] == 1
      else if p < k <= p + t.numecs && row[k - p] != 0 then t1.chk[k] == k - p && t1.nxt[k] == row[k - p]
      else t1.chk[k] == t.chk[k] && t1.nxt[k] == t.nxt[k]
  }

  lemma PlaceSlot(t: Table, t1: Table, s: int, row: seq<int>, p: int, k: int)
    requires Placed(t, t1, s, row, p) && s !in t.rows && 0 <= k < |t.own| && SlotOk(t, k)
    ensures SlotOk(t1, k)
  {
    assert t1.own[k] == ClaimAt(t, s, row, p, k);
  }

  /** A slot in use is not claimed. */
  lemma UsedSlotStays(t: Table, s: int, row: seq<int>, p: int, k: int)
    requires Fits(t, row, p) && |t.own| == |t.chk| == |t.nxt| && 0 <= k < |t.own| && SlotOk(t, k) && t.own[k] != Free
    ensures Claim(t, s, row, p)[k] == t.own[k]
  {
  }

  lemma OtherState(t: Table, t1: Table, s: int, row: seq<int>, p: int, x: int)
    requires Inv(t) && Placed(t, t1, s, row, p) && s !in t.rows && x in t.rows
    ensures StateOk(t1, x)
  {
    assert StateOk(t, x);
    var b := t.base[x];
    UsedSlotStays(t, s, row, p, b - 1);
    UsedSlotStays(t, s, row, p, b);
    forall c | 1 <= c <= t.numecs && t.rows[x][c] != 0
      ensures t1.own[b + c] == Trans(x)
    {
      UsedSlotStays(t, s, row, p, b + c);
    }
  }

  lemma PlaceSelf(t: Table, t1: Table, s: int, row: seq<int>, p: int)
    requires Inv(t) && Placed(t, t1, s, row, p)
    ensures StateOk(t1, s)
  {
    forall k | 0 <= k < |t1.own|
      ensures t1.own[k] == ClaimAt(t, s, row, p, k)
    {
    }
  }

  /** Placing a state keeps all others. */
  lemma PlaceKeeps(t: Table, t1: Table, s: int, row: seq<int>, p: int)
    requires Inv(t) && s !in t.rows && Placed(t, t1, s, row, p)
    ensures Inv(t1)
  {
    hide SlotOk, StateOk, Claim;
    forall k | 0 <= k < |t1.own|
      ensures SlotOk(t1, k)
    {
      PlaceSlot(t, t1, s, row, p, k);
    }
    forall x | x in t1.rows
      ensures StateOk(t1, x)
    {
      if x != s {
        OtherState(t, t1, s, row, p, x);
      } else {
        PlaceSelf(t, t1, s, row, p);
      }
    }
  }

  /** Two states never have the same base. */
  lemma BasesDiffer(t: Table, s: int, x: int)
    requires Inv(t) && s in t.rows && x in t.rows && t.base[s] == t.base[x]
    ensures s == x
  {
    assert StateOk(t, s) && StateOk(t, x);
  }

  /** The arrays of the full-speed table. */
  class FullTable {
    const numecs: nat
    var base: seq<int>
    var nxt: seq<int>
    var chk: seq<int>
    var tblend: int
    var firstfree: int
    ghost var own: seq<Slot>
    ghost var rows: map<int, seq<int>>

    /** inittbl, with room for the given number of states. */
    constructor (numecs: nat, states: nat)
      requires 1 <= numecs <= 256
      ensures Valid() && rows == map[] && |base| == states && this.numecs == numecs
    {
      this.numecs := numecs;
      base := seq(states, i => 0);
      nxt, chk, own := seq(INITIAL_MAX_XPAIRS, i => 0), seq(INITIAL_MAX_XPAIRS, i => 0), seq(INITIAL_MAX_XPAIRS, i => Free);
      tblend, firstfree, rows := 0, 1, map[];
    }

    ghost function T(): Table
      reads this
    {
      Table(base, nxt, chk, tblend, numecs, own, rows)
    }

    ghost predicate Valid()
      reads this
    {
      Inv(T()) && 1 <= firstfree <= tblend + 1
    }

    /** Enlarges nxt and chk; what the new nxt entries hold is not known. */
    method ExpandNxtChk()
      requires Inv(T())
      modifies `nxt, `chk, `own
      ensures Inv(T()) && |chk| == |old(chk)| + MAX_XPAIRS_INCREMENT
      ensures chk == old(chk) + seq(MAX_XPAIRS_INCREMENT, i => 0)
    {
      ghost var t := T();
      assert |seq(MAX_XPAIRS_INCREMENT, i => 0)| == MAX_XPAIRS_INCREMENT;
      var more: seq<int> :| |more| == MAX_XPAIRS_INCREMENT;
      nxt := nxt + more;
      chk := chk + seq(MAX_XPAIRS_INCREMENT, i => 0);
      own := own + seq(MAX_XPAIRS_INCREMENT, i => Free);
      GrowKeeps(t, nxt, MAX_XPAIRS_INCREMENT);
    }

    /** Grows the arrays until position last exists. */
    method EnsureRoom(last: int)
      requires Inv(T())
      modifies `nxt, `chk, `own
      ensures Inv(T()) && last < |chk| && |old(chk)| <= |chk|
    {
      while last >= |chk|
        invariant Inv(T()) && |old(chk)| <= |chk|
        decreases last - |chk|
      {
        ExpandNxtChk();
      }
    }

    /** The first position from i on with two free slots, for the action and the end of buffer. */
    method FindPair(i0: int) returns (i: int)
      requires Inv(T()) && 1 <= i0 <= tblend + 3
      modifies `nxt, `chk, `own
      ensures Inv(T()) && i0 <= i <= tblend + 3 && i + numecs < |chk| && chk[i - 1] == 0 && chk[i] == 0
    {
      i := i0;
      EnsureRoom(i + numecs);
      while !(chk[i - 1] == 0 && chk[i] == 0)
        invariant Inv(T()) && i0 <= i <= tblend + 3 && i + numecs < |chk|
        decreases tblend + 3 - i
      {
        if chk[i - 1] == 0 {
          i := i + 2;
        } else {
          i := i + 1;
        }
        EnsureRoom(i + numecs);
      }
    }

    /** Whether the classes with transitions have free slots at position i. */
    method ClassesFit(state: seq<int>, i: int) returns (fits: bool)
      requires Inv(T()) && |state| == numecs + 1 && 1 <= i && i + numecs < |chk| && chk[i - 1] == 0 && chk[i] == 0
      ensures fits <==> Fits(T(), state, i)
      ensures i > tblend ==> fits
    {
      var k := i + 1;
      while k != i + numecs + 1
        invariant i < k <= i + numecs + 1
        invariant forall j :: i < j < k && state[j - i] != 0 ==> chk[j] == 0
        decreases i + numecs + 1 - k
      {
        if state[k - i] != 0 && chk[k] != 0 {
          return false;
        }
        k := k + 1;
      }
      fits := true;
    }

    /** A position where the state's slots are free. */
    method FindTableSpace(state: seq<int>, numtrans: int) returns (i: int)
      requires Valid() && |state| == numecs + 1
      modifies `nxt, `chk, `own, `firstfree
      ensures Inv(T()) && Fits(T(), state, i) && 1 <= firstfree && (firstfree <= tblend + 1 || firstfree == i + 1)
    {
      if numtrans > MAX_XTIONS_FULL_INTERIOR_FIT {
        if tblend < 2 {
          assert rows == map[];
          return 1;
        }
        i := tblend - numecs;
      } else {
        i := firstfree;
      }
      while true
        invariant Inv(T()) && 1 <= i <= tblend + 3 && 1 <= firstfree && (firstfree <= tblend + 1 || numtrans <= MAX_XTIONS_FULL_INTERIOR_FIT)
        decreases tblend + 3 - i
      {
        i := FindPair(i);
        if numtrans <= MAX_XTIONS_FULL_INTERIOR_FIT {
          firstfree := i + 1;
        }
        var fits := ClassesFit(state, i);
        if fits {
          return;
        }
        i := i + 1;
      }
    }

    /** Writes a state's markers and transitions at its position. */
    method WriteState(state: seq<int>, position: int)
      requires |state| == numecs + 1 && 1 <= position && position + numecs < |chk| == |nxt|
      modifies `nxt, `chk
      ensures |chk| == |old(chk)| && |nxt| == |old(nxt)|
      ensures forall k :: 0 <= k < |chk| ==>
        if k == position - 1 || k == position then chk[k] == 1
        else if position < k <= position + numecs && state[k - position] != 0 then chk[k] == k - position && nxt[k] == state[k - position]
        else chk[k] == old(chk)[k] && nxt[k] == old(nxt)[k]
    {
      chk := chk[position - 1 := 1];
      chk := chk[position := 1];
      var i := 1;
      while i <= numecs
        invariant 1 <= i <= numecs + 1 && |chk| == |old(chk)| && |nxt| == |old(nxt)|
        invariant forall k :: 0 <= k < |chk| ==>
          if k == position - 1 || k == position then chk[k] == 1
          else if position < k < position + i && state[k - position] != 0 then chk[k] == k - position && nxt[k] == state[k - position]
          else chk[k] == old(chk)[k] && nxt[k] == old(nxt)[k]
      {
        if state[i] != 0 {
          chk := chk[position + i := i];
          nxt := nxt[position + i := state[i]];
        }
        i := i + 1;
      }
    }

    /** Adds a state to the table. */
    method PlaceState(state: seq<int>, statenum: int, transnum: int)
      requires Valid() && |state| == numecs + 1 && 0 <= statenum < |base| && statenum !in rows
      modifies this
      ensures Valid() && rows == old(rows)[statenum := state] && |base| == |old(base)|
      ensures forall s :: s in old(rows) ==> base[s] == old(base)[s]
    {
      hide SlotOk, StateOk;
      var position := FindTableSpace(state, transnum);
      ghost var t := T();
      base := base[statenum := position];
      WriteState(state, position);
      own := Claim(t, statenum, state, position);
      rows := rows[statenum := state];
      if position + numecs > tblend {
        tblend := position + numecs;
      }
      PlaceKeeps(t, T(), statenum, state, position);
      forall s | s in old(rows)
        ensures s != statenum && 0 <= s < |base|
      {
        PlacedInRange(t, s);
      }
    }

    /** genctbl's second loop: marks and action numbers of all states. */
    method MarkStates(lastdfa: nat, acc: seq<int>, ghost base0: seq<int>)
      requires Inv(T().(base := base0)) && (forall s :: s in rows <==> 0 <= s <= lastdfa) && |acc| == lastdfa + 1
      requires |base| == |base0| && forall s :: 0 <= s <= lastdfa && s < |base| ==> base[s] == base0[s]
      modifies `nxt, `chk
      ensures |chk| == |old(chk)| && |nxt| == |old(nxt)| && MarkedBelow(old(T()).(base := base0), chk, nxt, acc, lastdfa + 1)
    {
      ghost var t := T().(base := base0);
      MarkNone(t, acc);
      var i := 0;
      while i <= lastdfa
        invariant 0 <= i <= lastdfa + 1 && |chk| == |t.chk| && |nxt| == |t.nxt| && MarkedBelow(t, chk, nxt, acc, i)
      {
        assert i in rows && StateOk(t, i);
        var anum := acc[i];
        var offset := base[i];
        ghost var chk0, nxt0 := chk, nxt;
        chk := chk[offset := EOB_POSITION];
        chk := chk[offset - 1 := ACTION_POSITION];
        nxt := nxt[offset - 1 := anum];
        MarkStep(t, chk0, nxt0, acc, i, chk, nxt);
        i := i + 1;
      }
    }

    /** The generated table: verify and next for every slot up to the end-of-buffer state. */
    method GenCtbl(lastdfa: nat, acc: seq<int>, endAction: int) returns (out: seq<Info>)
      requires Valid() && (forall s :: s in rows <==> 0 <= s <= lastdfa) && |acc| == lastdfa + 1 && lastdfa + 1 < |base|
      requires forall s, c :: 0 <= s <= lastdfa && s in rows && 1 <= c < |rows[s]| ==> 0 <= rows[s][c] <= lastdfa
      modifies this
      ensures rows == old(rows) && Exact(out, base, rows, numecs, lastdfa, acc, endAction)
    {
      hide SlotOk, StateOk, Exact, MarkedBelow, EmitAt, Emittable;
      EnsureRoom(tblend + 2);
      ghost var t0 := T();
      base := base[lastdfa + 1 := tblend + 2];
      MarkStates(lastdfa, acc, t0.base);
      ghost var chk1, nxt1 := chk, nxt;
      nxt := nxt[tblend + 1 := endAction];
      chk := chk[tblend + 1 := numecs + 1];
      chk := chk[tblend + 2 := 1];
      nxt := nxt[tblend + 2 := 0];
      AllEmittable(t0, chk1, nxt1, base, lastdfa, acc);
      forall i | 0 <= i <= tblend
        ensures Emittable(chk, nxt, base, numecs, i)
      {
        EmitDepends(chk1, nxt1, chk, nxt, base, numecs, base[lastdfa + 1], i);
      }
      out := EmitTable(chk, nxt, base, numecs, tblend, base[lastdfa + 1]);
      out := out + [Info(chk[tblend + 1], nxt[tblend + 1]), Info(chk[tblend + 2], nxt[tblend + 2])];
      forall i | 0 <= i <= tblend
        ensures out[i] == EmitAt(chk1, nxt1, base, numecs, base[lastdfa + 1], i)
      {
        EmitDepends(chk1, nxt1, chk, nxt, base, numecs, base[lastdfa + 1], i);
      }
      TableIsExact(t0, chk1, nxt1, base, out, lastdfa, acc, endAction);
    }
  }

  /** struct yy_trans_info. */
  datatype Info = Info(verify: int, next: int)

  /** The states below i have their marks and action numbers. */
  ghost predicate MarkedBelow(t: Table, chk: seq<int>, nxt: seq<int>, acc: seq<int>, i: int)
    requires |t.own| == |t.chk| == |t.nxt| == |chk| == |nxt| && i <= |acc|
  {
    forall k :: 0 <= k < |chk| ==> MarkedAt(t, chk, nxt, acc, i, k)
  }

  ghost predicate MarkedAt(t: Table, chk: seq<int>, nxt: seq<int>, acc: seq<int>, i: int, k: int)
    requires 0 <= k < |t.own| == |t.chk| == |t.nxt| == |chk| == |nxt| && i <= |acc|
  {
    match t.own[k]
    case Eob(s) => chk[k] == (if s < i then EOB_POSITION else t.chk[k])
    case Action(s) => if 0 <= s < i then chk[k] == ACTION_POSITION && nxt[k] == acc[s] else chk[k] == t.chk[k]
    case _ => chk[k] == t.chk[k] && nxt[k] == t.nxt[k]
  }

  lemma MarkNone(t: Table, acc: seq<int>)
    requires Inv(t)
    ensures MarkedBelow(t, t.chk, t.nxt, acc, 0)
  {
    forall k | 0 <= k < |t.chk|
      ensures MarkedAt(t, t.chk, t.nxt, acc, 0, k)
    {
      assert SlotOk(t, k);
    }
  }

  lemma MarkStep(t: Table, chk: seq<int>, nxt: seq<int>, acc: seq<int>, i: int, chk1: seq<int>, nxt1: seq<int>)
    requires Inv(t) && |chk| == |nxt| == |t.chk| && 0 <= i < |acc| && i in t.rows && MarkedBelow(t, chk, nxt, acc, i)
    requires 1 <= t.base[i] < |chk| && nxt1 == nxt[t.base[i] - 1 := acc[i]]
    requires chk1 == chk[t.base[i] := EOB_POSITION][t.base[i] - 1 := ACTION_POSITION]
    ensures MarkedBelow(t, chk1, nxt1, acc, i + 1)
  {
    assert StateOk(t, i);
    var i1 := i + 1;
    forall k | 0 <= k < |chk|
      ensures MarkedAt(t, chk1, nxt1, acc, i1, k)
    {
      assert MarkedAt(t, chk, nxt, acc, i, k) && SlotOk(t, k);
    }
  }

  /** Slot i is a mark, is unused, or leads to a state that has a base. */
  predicate Emittable(chk: seq<int>, nxt: seq<int>, base: seq<int>, numecs: nat, i: int) {
    && 0 <= i < |chk| == |nxt|
    && (chk[i] == EOB_POSITION || chk[i] == ACTION_POSITION || chk[i] > numecs || chk[i] == 0 || 0 <= nxt[i] < |base|)
  }

  /** Placement keeps all slots so. */
  lemma AllEmittable(t: Table, chk: seq<int>, nxt: seq<int>, base: seq<int>, lastdfa: nat, acc: seq<int>)
    requires Inv(t) && |chk| == |nxt| == |t.chk| && |acc| == lastdfa + 1 && (forall x :: x in t.rows <==> 0 <= x <= lastdfa)
    requires MarkedBelow(t, chk, nxt, acc, lastdfa + 1) && lastdfa + 1 < |base|
    requires forall s, c :: 0 <= s <= lastdfa && s in t.rows && 1 <= c < |t.rows[s]| ==> 0 <= t.rows[s][c] <= lastdfa
    ensures forall i :: 0 <= i < |chk| ==> Emittable(chk, nxt, base, t.numecs, i)
  {
    forall i | 0 <= i < |chk|
      ensures Emittable(chk, nxt, base, t.numecs, i)
    {
      assert SlotOk(t, i) && MarkedAt(t, chk, nxt, acc, lastdfa + 1, i);
    }
  }

  /** What genctbl emits for slot i. */
  function EmitAt(chk: seq<int>, nxt: seq<int>, base: seq<int>, numecs: nat, eobBase: int, i: int): Info
    requires Emittable(chk, nxt, base, numecs, i)
  {
    if chk[i] == EOB_POSITION then Info(0, eobBase - i)
    else if chk[i] == ACTION_POSITION then Info(0, nxt[i])
    else if chk[i] > numecs || chk[i] == 0 then Info(0, 0)
    else Info(chk[i], base[nxt[i]] - (i - chk[i]))
  }

  lemma EmitDepends(chk: seq<int>, nxt: seq<int>, chk1: seq<int>, nxt1: seq<int>, base: seq<int>, numecs: nat, eobBase: int, i: int)
    requires Emittable(chk, nxt, base, numecs, i) && i < |chk1| == |nxt1| && chk[i] == chk1[i] && nxt[i] == nxt1[i]
    ensures Emittable(chk1, nxt1, base, numecs, i)
    ensures EmitAt(chk, nxt, base, numecs, eobBase, i) == EmitAt(chk1, nxt1, base, numecs, eobBase, i)
  {
  }

  method EmitTable(chk: seq<int>, nxt: seq<int>, base: seq<int>, numecs: nat, tblend: int, eobBase: int) returns (out: seq<Info>)
    requires 0 <= tblend < |chk| == |nxt| && forall i :: 0 <= i <= tblend ==> Emittable(chk, nxt, base, numecs, i)
    ensures |out| == tblend + 1 && forall i :: 0 <= i <= tblend ==> out[i] == EmitAt(chk, nxt, base, numecs, eobBase, i)
  {
    out := [];
    var i := 0;
    while i <= tblend
      invariant 0 <= i <= tblend + 1 && |out| == i && forall k :: 0 <= k < i ==> out[k] == EmitAt(chk, nxt, base, numecs, eobBase, k)
    {
      out := out + [EmitAt(chk, nxt, base, numecs, eobBase, i)];
      i := i + 1;
    }
  }

  /** State s of the table: its action, its end-of-buffer transition, and a transition exactly where its row has one. */
  ghost predicate ExactState(out: seq<Info>, base: seq<int>, row: seq<int>, numecs: nat, eobBase: int, anum: int, s: int) {
    && 0 <= s < |base| && |row| == numecs + 1 && 1 <= base[s] && base[s] + numecs < |out|
    && out[base[s] - 1] == Info(0, anum) && out[base[s]] == Info(0, eobBase - base[s])
    && forall c :: 1 <= c <= numecs ==> ExactEntry(out, base, row, s, c)
  }

  ghost predicate ExactEntry(out: seq<Info>, base: seq<int>, row: seq<int>, s: int, c: int) {
    && 0 <= s < |base| && 0 <= base[s] + c < |out| && 0 <= c < |row|
    && (out[base[s] + c].verify == c <==> row[c] != 0)
    && (row[c] != 0 ==> 0 <= row[c] < |base| && base[s] + out[base[s] + c].next == base[row[c]])
  }

  /** The generated table stands for the rows; no two states have the same base. */
  ghost predicate Exact(out: seq<Info>, base: seq<int>, rows: map<int, seq<int>>, numecs: nat, lastdfa: nat, acc: seq<int>, endAction: int) {
    && lastdfa + 1 < |base| && |acc| == lastdfa + 1
    && (forall s :: 0 <= s <= lastdfa ==> s in rows && ExactState(out, base, rows[s], numecs, base[lastdfa + 1], acc[s], s))
    && (forall s, x :: 0 <= s < x <= lastdfa + 1 ==> base[s] != base[x])
    && |out| == base[lastdfa + 1] + 1 && 1 <= base[lastdfa + 1]
    && out[base[lastdfa + 1]].verify != 0 && out[base[lastdfa + 1] - 1].next == endAction
  }


  lemma PlacedInRange(t: Table, s: int)
    requires Inv(t) && s in t.rows
    ensures 0 <= s < |t.base| && |t.rows[s]| == t.numecs + 1
  {
    assert StateOk(t, s);
  }

  lemma EntryIsExact(t: Table, chk: seq<int>, nxt: seq<int>, base: seq<int>, out: seq<Info>, lastdfa: nat, acc: seq<int>, s: int, c: int)
    requires Inv(t) && |chk| == |nxt| == |t.chk| && |acc| == lastdfa + 1 && (forall x :: x in t.rows <==> 0 <= x <= lastdfa)
    requires MarkedBelow(t, chk, nxt, acc, lastdfa + 1)
    requires lastdfa + 1 < |base| == |t.base| && forall x :: 0 <= x <= lastdfa ==> base[x] == t.base[x]
    requires t.tblend < |out| && forall i :: 0 <= i <= t.tblend ==> Emittable(chk, nxt, base, t.numecs, i) && out[i] == EmitAt(chk, nxt, base, t.numecs, base[lastdfa + 1], i)
    requires s in t.rows && 1 <= c <= t.numecs && |t.rows[s]| == t.numecs + 1 && 0 <= t.rows[s][c] <= lastdfa
    ensures ExactEntry(out, base, t.rows[s], s, c)
  {
    assert StateOk(t, s);
    var k := t.base[s] + c;
    assert SlotOk(t, k) && MarkedAt(t, chk, nxt, acc, lastdfa + 1, k);
    assert out[k] == EmitAt(chk, nxt, base, t.numecs, base[lastdfa + 1], k);
    if t.own[k].Trans? && t.chk[k] == c {
      BasesDiffer(t, s, t.own[k].state);
    }
  }

  lemma StateIsExact(t: Table, chk: seq<int>, nxt: seq<int>, base: seq<int>, out: seq<Info>, lastdfa: nat, acc: seq<int>, s: int)
    requires Inv(t) && |chk| == |nxt| == |t.chk| && |acc| == lastdfa + 1 && (forall x :: x in t.rows <==> 0 <= x <= lastdfa)
    requires MarkedBelow(t, chk, nxt, acc, lastdfa + 1)
    requires lastdfa + 1 < |base| == |t.base| && forall x :: 0 <= x <= lastdfa ==> base[x] == t.base[x]
    requires t.tblend < |out| && forall i :: 0 <= i <= t.tblend ==> Emittable(chk, nxt, base, t.numecs, i) && out[i] == EmitAt(chk, nxt, base, t.numecs, base[lastdfa + 1], i)
    requires s in t.rows && |t.rows[s]| == t.numecs + 1 && forall c :: 1 <= c <= t.numecs ==> 0 <= t.rows[s][c] <= lastdfa
    ensures ExactState(out, base, t.rows[s], t.numecs, base[lastdfa + 1], acc[s], s)
  {
    assert StateOk(t, s);
    var b := t.base[s];
    assert MarkedAt(t, chk, nxt, acc, lastdfa + 1, b) && MarkedAt(t, chk, nxt, acc, lastdfa + 1, b - 1);
    forall c | 1 <= c <= t.numecs
      ensures ExactEntry(out, base, t.rows[s], s, c)
    {
      EntryIsExact(t, chk, nxt, base, out, lastdfa, acc, s, c);
    }
  }

  lemma TableIsExact(t: Table, chk: seq<int>, nxt: seq<int>, base: seq<int>, out: seq<Info>, lastdfa: nat, acc: seq<int>, endAction: int)
    requires Inv(t) && |chk| == |nxt| == |t.chk| && |acc| == lastdfa + 1 && (forall x :: x in t.rows <==> 0 <= x <= lastdfa)
    requires MarkedBelow(t, chk, nxt, acc, lastdfa + 1) && lastdfa + 1 < |t.base| && base == t.base[lastdfa + 1 := t.tblend + 2]
    requires |out| == t.tblend + 3 && out[t.tblend + 1] == Info(t.numecs + 1, endAction) && out[t.tblend + 2] == Info(1, 0)
    requires forall i :: 0 <= i <= t.tblend ==> Emittable(chk, nxt, base, t.numecs, i) && out[i] == EmitAt(chk, nxt, base, t.numecs, base[lastdfa + 1], i)
    requires forall s, c :: 0 <= s <= lastdfa && s in t.rows && 1 <= c < |t.rows[s]| ==> 0 <= t.rows[s][c] <= lastdfa
    ensures Exact(out, base, t.rows, t.numecs, lastdfa, acc, endAction)
  {
    hide SlotOk, StateOk, MarkedBelow, EmitAt, Emittable, ExactState;
    forall s | 0 <= s <= lastdfa
      ensures ExactState(out, base, t.rows[s], t.numecs, base[lastdfa + 1], acc[s], s)
    {
      PlacedInRange(t, s);
      StateIsExact(t, chk, nxt, base, out, lastdfa, acc, s);
    }
    forall s, x | 0 <= s < x <= lastdfa + 1
      ensures base[s] != base[x]
    {
      BaseInTable(t, s);
      if x <= lastdfa && t.base[s] == t.base[x] {
        BasesDiffer(t, s, x);
      }
    }
  }

  lemma BaseInTable(t: Table, s: int)
    requires Inv(t) && s in t.rows
    ensures 0 <= s < |t.base| && 1 <= t.base[s] <= t.tblend
  {
    assert StateOk(t, s);
  }

  // ---- the scanner's loop over the table ----

  /** The state after a word of classes, 0 once there is no transition. */
  function Follow(rows: map<int, seq<int>>, s: int, w: seq<int>): int {
    if w == [] then s
    else
      var e, c := Follow(rows, s, w[..|w| - 1]), w[|w| - 1];
      if e in rows && 0 <= c < |rows[e]| then rows[e][c] else 0
  }

  lemma FollowLast(rows: map<int, seq<int>>, s: int, w: seq<int>, k: nat)
    requires k < |w|
    ensures var e := Follow(rows, s, w[..k]);
      Follow(rows, s, w[..k + 1]) == if e in rows && 0 <= w[k] < |rows[e]| then rows[e][w[k]] else 0
  {
    assert w[..k + 1][..k] == w[..k];
  }

  /** The pointer is at state s, whose action lies before its base. */
  ghost predicate StoppedIn(out: seq<Info>, base: seq<int>, lastdfa: nat, acc: seq<int>, state: int, s: int) {
    && 1 <= s <= lastdfa && s < |base| && s < |acc| && state == base[s] && 1 <= state <= |out| && out[state - 1].next == acc[s]
  }

  /** What the loop needs to know about state s and class c. */
  lemma EntryAt(out: seq<Info>, base: seq<int>, rows: map<int, seq<int>>, numecs: nat, lastdfa: nat, acc: seq<int>, endAction: int, s: int, c: int)
    requires Exact(out, base, rows, numecs, lastdfa, acc, endAction) && 0 <= s <= lastdfa && 0 <= c <= numecs
    ensures s in rows && |rows[s]| == numecs + 1 && 1 <= base[s] && base[s] + c < |out| && out[base[s] - 1].next == acc[s]
    ensures c == 0 ==> out[base[s]] == Info(0, base[lastdfa + 1] - base[s])
    ensures c > 0 ==> (out[base[s] + c].verify == c <==> rows[s][c] != 0)
    ensures c > 0 && rows[s][c] != 0 ==> 0 <= rows[s][c] < |base| && base[s] + out[base[s] + c].next == base[rows[s][c]]
  {
    assert ExactState(out, base, rows[s], numecs, base[lastdfa + 1], acc[s], s);
    if c > 0 {
      assert ExactEntry(out, base, rows[s], s, c);
    }
  }

  /** The last prefix up to cp characters whose state has an action, as gen_backing_up notes it: its last character and its state. */
  ghost predicate Noted(out: seq<Info>, base: seq<int>, rows: map<int, seq<int>>, lastdfa: nat, acc: seq<int>, start: int, buf: seq<int>,
                        cp: nat, lastCpos: int, lastState: int)
  {
    && -1 <= lastCpos < cp <= |buf| && |acc| == lastdfa + 1
    && (forall i :: lastCpos + 1 < i <= cp ==> 1 <= Follow(rows, start, buf[..i]) <= lastdfa && acc[Follow(rows, start, buf[..i])] == 0)
    && (0 <= lastCpos ==> StoppedIn(out, base, lastdfa, acc, lastState, Follow(rows, start, buf[..lastCpos + 1]))
                          && acc[Follow(rows, start, buf[..lastCpos + 1])] != 0)
  }

  lemma NoteStep(out: seq<Info>, base: seq<int>, rows: map<int, seq<int>>, lastdfa: nat, acc: seq<int>, start: int, buf: seq<int>,
                 cp: nat, lastCpos: int, lastState: int, state: int)
    requires Noted(out, base, rows, lastdfa, acc, start, buf, cp, lastCpos, lastState) && cp < |buf|
    requires StoppedIn(out, base, lastdfa, acc, state, Follow(rows, start, buf[..cp + 1]))
    ensures if acc[Follow(rows, start, buf[..cp + 1])] != 0
            then Noted(out, base, rows, lastdfa, acc, start, buf, cp + 1, cp, state)
            else Noted(out, base, rows, lastdfa, acc, start, buf, cp + 1, lastCpos, lastState)
  {
    hide Follow;
  }

  /**
   The match loop on the generated table: it goes from base to base as the rows say, stops at the first
   class without a transition, and at the end of the buffer is in the end-of-buffer state.  On the way it
   notes the last state that has an action.
   */
  method FullMatch(out: seq<Info>, ghost base: seq<int>, ghost rows: map<int, seq<int>>, ghost numecs: nat, ghost lastdfa: nat,
                   ghost acc: seq<int>, ghost endAction: int, ghost start: int, startBase: int, buf: seq<int>)
    returns (cp: nat, state: int, lastCpos: int, lastState: int)
    requires Exact(out, base, rows, numecs, lastdfa, acc, endAction) && 1 <= start <= lastdfa && startBase == base[start]
    requires forall s, c :: 0 <= s <= lastdfa && s in rows && 1 <= c < |rows[s]| ==> 0 <= rows[s][c] <= lastdfa
    requires |buf| >= 2 && buf[|buf| - 2] == 0 && buf[|buf| - 1] == 0 && forall i :: 0 <= i < |buf| - 2 ==> 1 <= buf[i] <= numecs
    ensures cp <= |buf| - 1 && forall i :: 1 <= i <= cp && i <= |buf| - 2 ==> Follow(rows, start, buf[..i]) != 0
    ensures cp < |buf| - 2 ==> Follow(rows, start, buf[..cp + 1]) == 0 && StoppedIn(out, base, lastdfa, acc, state, Follow(rows, start, buf[..cp]))
    ensures cp < |buf| - 2 ==> Noted(out, base, rows, lastdfa, acc, start, buf, cp, lastCpos, lastState)
    ensures cp >= |buf| - 2 ==> cp == |buf| - 1 && state == base[lastdfa + 1] && 1 <= state <= |out| && out[state - 1].next == endAction
  {
    hide Noted, Exact;
    cp, state, lastCpos, lastState := 0, startBase, -1, 0;
    assert buf[..0] == [];
    ghost var s := start;
    EntryAt(out, base, rows, numecs, lastdfa, acc, endAction, s, buf[cp]);
    EndAt(out, base, rows, numecs, lastdfa, acc, endAction);
    NoteNone(out, base, rows, lastdfa, acc, start, buf);
    while cp < |buf| - 1 && out[state + buf[cp]].verify == buf[cp]
      invariant cp <= |buf| - 1
      invariant cp <= |buf| - 2 ==> 1 <= s <= lastdfa && s == Follow(rows, start, buf[..cp]) && state == base[s] && 0 <= state + buf[cp] < |out|
      invariant cp <= |buf| - 2 ==> Noted(out, base, rows, lastdfa, acc, start, buf, cp, lastCpos, lastState)
      invariant cp == |buf| - 1 ==> state == base[lastdfa + 1]
      invariant forall i :: 1 <= i <= cp && i <= |buf| - 2 ==> Follow(rows, start, buf[..i]) != 0
    {
      EntryAt(out, base, rows, numecs, lastdfa, acc, endAction, s, buf[cp]);
      FollowLast(rows, start, buf, cp);
      state := state + out[state + buf[cp]].next;
      if cp < |buf| - 2 {
        s := rows[s][buf[cp]];
        EntryAt(out, base, rows, numecs, lastdfa, acc, endAction, s, buf[cp + 1]);
        NoteStep(out, base, rows, lastdfa, acc, start, buf, cp, lastCpos, lastState, state);
      }
      if out[state - 1].next != 0 {
        lastState, lastCpos := state, cp;
      }
      cp := cp + 1;
    }
    if cp < |buf| - 1 {
      EntryAt(out, base, rows, numecs, lastdfa, acc, endAction, s, buf[cp]);
      FollowLast(rows, start, buf, cp);
    }
  }

  lemma NoteNone(out: seq<Info>, base: seq<int>, rows: map<int, seq<int>>, lastdfa: nat, acc: seq<int>, start: int, buf: seq<int>)
    requires |acc| == lastdfa + 1
    ensures Noted(out, base, rows, lastdfa, acc, start, buf, 0, -1, 0)
  {
  }

  /** The end-of-buffer state. */
  lemma EndAt(out: seq<Info>, base: seq<int>, rows: map<int, seq<int>>, numecs: nat, lastdfa: nat, acc: seq<int>, endAction: int)
    requires Exact(out, base, rows, numecs, lastdfa, acc, endAction)
    ensures lastdfa + 1 < |base| && |acc| == lastdfa + 1 && 1 <= base[lastdfa + 1] == |out| - 1
    ensures out[base[lastdfa + 1]].verify != 0 && out[base[lastdfa + 1] - 1].next == endAction
  {
  }

  /** Places the rows of states 0..lastdfa in order, the jam state 0 first, and generates the table. */
  method BuildFullTable(trans: seq<seq<int>>, numecs: nat, acc: seq<int>, endAction: int) returns (out: seq<Info>, base: seq<int>)
    requires 1 <= numecs <= 256 && 1 <= |trans| == |acc| && forall s :: 0 <= s < |trans| ==> |trans[s]| == numecs + 1
    requires forall s, c :: 0 <= s < |trans| && 1 <= c <= numecs ==> 0 <= trans[s][c] < |trans|
    ensures Exact(out, base, RowMap(trans), numecs, |trans| - 1, acc, endAction)
  {
    hide Inv, Exact;
    var t := new FullTable(numecs, |trans| + 1);
    var ds := 0;
    while ds < |trans|
      invariant 0 <= ds <= |trans| && t.Valid() && fresh(t) && |t.base| == |trans| + 1 && t.numecs == numecs
      invariant t.rows == RowMap(trans[..ds])
    {
      var totaltrans := CountTransitions(trans[ds], numecs);
      t.PlaceState(trans[ds], ds, totaltrans);
      assert trans[..ds + 1] == trans[..ds] + [trans[ds]];
      ds := ds + 1;
    }
    assert trans[..ds] == trans;
    out := t.GenCtbl(|trans| - 1, acc, endAction);
    base := t.base;
  }

  function RowMap(trans: seq<seq<int>>): map<int, seq<int>> {
    map s | 0 <= s < |trans| :: trans[s]
  }

  method CountTransitions(state: seq<int>, numecs: nat) returns (totaltrans: nat)
    requires |state| == numecs + 1
    ensures totaltrans == 0 <==> forall c :: 1 <= c <= numecs ==> state[c] == 0
  {
    totaltrans := 0;
    for i := 1 to numecs + 1
      invariant totaltrans == 0 <==> forall c :: 1 <= c < i ==> state[c] == 0
    {
      if state[i] != 0 {
        totaltrans := totaltrans + 1;
      }
    }
  }
}
