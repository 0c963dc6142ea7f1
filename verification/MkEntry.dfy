/**
 Entering transition arrays into nxt/chk: `mkentry`, `stack1`, `mk1tbl` and `expand_nxt_chk`
 (`ext/flex/tblcmp.c`).
 */
module MkEntry {
  import opened NxtChk

  const INITIAL_MAX_XPAIRS := 2000
  const MAX_XPAIRS_INCREMENT := 2000
  const INITIAL_MAX_DFAS := 1000
  const MAX_DFAS_INCREMENT := 1000
  const ONE_STACK_SIZE := 500
  const INTERIOR_FIT_PERCENTAGE := 15

  /** Entry c of a transition array needs a slot when the state links to d. */
  predicate Kept(ext: seq<int>, d: int, c: int)
    requires 0 <= c < |ext|
  {
    ext[c] != SAME_TRANS && (ext[c] != 0 || d != JAMSTATE)
  }

  function CountKept(ext: seq<int>, d: int, n: nat): (r: nat)
    requires n < |ext|
    ensures r <= n
  {
    if n == 0 then 0 else CountKept(ext, d, n - 1) + (if Kept(ext, d, n) then 1 else 0)
  }

  /** What mkentry may be told of how many entries there are: ntod counts one more if it has taken NUL's out. */
  predicate CountFits(ext: seq<int>, d: int, n: nat, totaltrans: int)
    requires n < |ext|
  {
    CountKept(ext, d, n) <= totaltrans <= CountKept(ext, d, n) + 1
  }

  /** No entry of a..b (inclusive) needs a slot. */
  ghost predicate NoneKept(ext: seq<int>, d: int, a: int, b: int) {
    1 <= a && b < |ext| && forall c :: a <= c <= b ==> !Kept(ext, d, c)
  }

  lemma {:induction false} CountAt(ext: seq<int>, d: int, n: nat, c: nat)
    requires 1 <= c <= n < |ext| && Kept(ext, d, c)
    ensures CountKept(ext, d, n) >= 1
    ensures forall x :: 1 <= x <= n && x != c && Kept(ext, d, x) ==> CountKept(ext, d, n) >= 2
  {
    if c < n {
      CountAt(ext, d, n - 1, c);
    } else {
      forall x | 1 <= x < n && Kept(ext, d, x) ensures CountKept(ext, d, n) >= 2 {
        CountAt(ext, d, n - 1, x);
      }
    }
  }

  lemma {:induction false} CountNone(ext: seq<int>, d: int, n: nat)
    requires n < |ext|
    ensures CountKept(ext, d, n) == 0 <==> NoneKept(ext, d, 1, n)
  {
    if n > 0 {
      CountNone(ext, d, n - 1);
    }
  }

  lemma {:induction false} CountPrefix(ext: seq<int>, ext1: seq<int>, l: int, n: nat)
    requires n < |ext| && n < |ext1| && forall c :: 1 <= c <= n ==> ext[c] == ext1[c]
    ensures CountKept(ext, l, n) == CountKept(ext1, l, n)
  {
    if n > 0 {
      CountPrefix(ext, ext1, l, n - 1);
    }
  }

  /** Taking one entry out of a full array. */
  lemma {:induction false} CountWithout(ext: seq<int>, ext1: seq<int>, n: nat, c: nat)
    requires c <= n < |ext| && 1 <= c && ext1 == ext[c := 0] && 0 <= ext[c]
    ensures CountKept(ext, JAMSTATE, n) == CountKept(ext1, JAMSTATE, n) + if ext[c] != 0 then 1 else 0
  {
    if c < n {
      CountWithout(ext, ext1, n - 1, c);
    } else {
      CountPrefix(ext, ext1, JAMSTATE, n - 1);
    }
  }

  /** ext, linked to d, stands for row: it says SAME_TRANS only where d's row agrees. */
  ghost predicate Represents(ext: seq<int>, row: Row, m: Meaning, d: int) {
    && d in m && 1 <= |ext| == |row| <= |m[d]|
    && row[0] == m[d][0]
    && (forall c :: 1 <= c < |row| ==> if ext[c] == SAME_TRANS then row[c] == m[d][c] else ext[c] == row[c])
    && (d == JAMSTATE ==> forall c :: 1 <= c < |row| ==> m[d][c] == 0)
  }

  lemma OnlyKeptDiffer(ext: seq<int>, row: Row, m: Meaning, d: int, c: int)
    requires Represents(ext, row, m, d) && 0 <= c < |row| && row[c] != m[d][c]
    ensures 1 <= c && Kept(ext, d, c) && ext[c] == row[c]
  {
  }

  /** A state with a single slot of its own, waiting to fill a hole in the tables. */
  datatype One = One(state: int, sym: int, next: int, def: int)

  /** A waiting state differs from its link in class sym only; sym may be past the last class, and next anything then. */
  ghost predicate OneOk(o: One, m: Meaning) {
    && 0 < o.state && o.state in m && o.def in m && o.def < o.state && |m[o.state]| <= |m[o.def]|
    && 0 <= o.sym && (o.sym < |m[o.state]| ==> m[o.state][o.sym] == o.next)
    && forall c :: 0 <= c < |m[o.state]| && c != o.sym ==> m[o.state][c] == m[o.def][c]
  }

  /** The states of the one-transition stack are known, distinct and not placed. */
  ghost predicate StackOk(one: seq<One>, m: Meaning, placed: set<int>, size: nat) {
    && |one| < ONE_STACK_SIZE
    && (forall i :: 0 <= i < |one| ==> OneOk(one[i], m) && one[i].state !in placed && one[i].state < size)
    && (forall i, j :: 0 <= i < j < |one| ==> one[i].state != one[j].state)
  }

  lemma NoneWaiting(one: seq<One>)
    ensures |one| == 0 ==> Waiting(one) == {}
  {
  }

  lemma StackPush(one: seq<One>, m: Meaning, placed: set<int>, size: nat, o: One)
    requires StackOk(one, m, placed + {o.state}, size) && OneOk(o, m) && o.state !in placed && o.state !in Waiting(one)
    requires o.state < size && |one| + 1 < ONE_STACK_SIZE
    ensures StackOk(one + [o], m, placed, size)
  {
    hide OneOk;
  }

  /** link gives the def entry each state has, or will have. */
  ghost predicate LinkRec(def: seq<int>, one: seq<One>, placed: set<int>, link: map<int, int>) {
    && (forall s :: s in placed ==> 0 <= s < |def| && s in link && def[s] == link[s])
    && (forall i :: 0 <= i < |one| ==> one[i].state in link && link[one[i].state] == one[i].def)
  }

  lemma LinkRecKept(def: seq<int>, one: seq<One>, placed: set<int>, link: map<int, int>, s: int, d: int)
    requires LinkRec(def, one, placed, link) && s !in placed && s !in Waiting(one)
    ensures LinkRec(def, one, placed, link[s := d])
  {
    forall i | 0 <= i < |one| ensures one[i].state != s {
      assert one[i] in one;
    }
  }

  lemma LinkRecPush(def: seq<int>, one: seq<One>, placed: set<int>, link: map<int, int>, o: One)
    requires LinkRec(def, one, placed, link) && o.state in link && link[o.state] == o.def
    ensures LinkRec(def, one + [o], placed, link) && Waiting(one + [o]) == Waiting(one) + {o.state}
  {
    assert forall x :: x in one + [o] <==> x in one || x == o;
  }

  lemma LinkRecPlaced(def: seq<int>, def1: seq<int>, one: seq<One>, placed: set<int>, link: map<int, int>, s: int)
    requires LinkRec(def, one, placed, link) && 0 <= s < |def| && s in link && def1 == def[s := link[s]] && s !in placed
    ensures LinkRec(def1, one, placed + {s}, link)
  {
  }

  lemma StackKept(one: seq<One>, m: Meaning, placed: set<int>, size: nat, s: int, row: Row)
    requires StackOk(one, m, placed, size) && s !in m
    ensures StackOk(one, m[s := row], placed, size) && StackOk(one, m[s := row], placed + {s}, size)
  {
    forall i | 0 <= i < |one| ensures OneOk(one[i], m[s := row]) && one[i].state != s {
      assert OneOk(one[i], m);
    }
  }

  /** The bare states are those that have the jam state's base. */
  ghost predicate BareOk(base: seq<int>, placed: set<int>, bare: set<int>) {
    bare <= placed && forall s :: s in placed ==> 0 <= s < |base| && (base[s] == JAMSTATE <==> s in bare)
  }

  lemma BarePlaced(base: seq<int>, base1: seq<int>, placed: set<int>, bare: set<int>, bare1: set<int>, s: int)
    requires BareOk(base, placed, bare) && 0 <= s < |base| == |base1| && base1 == base[s := base1[s]]
    requires s !in placed && bare1 == bare + if base1[s] == JAMSTATE then {s} else {}
    ensures BareOk(base1, placed + {s}, bare1)
  {
  }

  // ---- growth ----

  /** t1 is t with more (free) room in nxt and chk. */
  ghost predicate Grown(t: Tab, t1: Tab) {
    && t1.base == t.base && t1.def == t.def && t1.tblend == t.tblend
    && |t.nxt| == |t.chk| <= |t1.chk| == |t1.nxt|
    && (forall k :: 0 <= k < |t.chk| ==> t1.chk[k] == t.chk[k] && t1.nxt[k] == t.nxt[k])
    && (forall k :: |t.chk| <= k < |t1.chk| ==> t1.chk[k] == 0)
  }

  lemma GrownKeepsInv(t: Tab, t1: Tab, m: Meaning, placed: set<int>)
    requires Inv(t, m, placed) && Grown(t, t1)
    ensures Inv(t1, m, placed)
  {
    forall k | 0 <= k < |t1.chk| ensures OwnedSlot(t1, m, placed, k) {
      if k < |t.chk| {
        assert OwnedSlot(t, m, placed, k);
      }
    }
    forall s | s in placed ensures Covered(t1, m, s) {
      assert Covered(t, m, s);
      forall c | 0 <= c < |m[s]| && m[s][c] != m[t1.def[s]][c] ensures HasSlot(t1, s, c) {
        assert HasSlot(t, s, c);
      }
    }
  }

  lemma GrownTransitive(t: Tab, t1: Tab, t2: Tab)
    requires Grown(t, t1) && Grown(t1, t2)
    ensures Grown(t, t2)
  {
  }

  lemma GrownKeepsShape(t: Tab, t1: Tab)
    requires Shape(t) && Grown(t, t1)
    ensures Shape(t1)
  {
  }

  /** More room for states changes nothing for those entered. */
  lemma MoreStatesKeepsInv(t: Tab, t1: Tab, m: Meaning, placed: set<int>)
    requires Inv(t, m, placed) && t.base <= t1.base && t.def <= t1.def && |t1.base| == |t1.def|
    requires t1 == t.(base := t1.base, def := t1.def)
    ensures Inv(t1, m, placed)
  {
    forall k | 0 <= k < |t1.chk| ensures OwnedSlot(t1, m, placed, k) {
      assert OwnedSlot(t, m, placed, k);
    }
    forall s | s in placed ensures Covered(t1, m, s) {
      assert Covered(t, m, s);
      forall c | 0 <= c < |m[s]| && m[s][c] != m[t1.def[s]][c] ensures HasSlot(t1, s, c) {
        assert HasSlot(t, s, c);
      }
    }
  }

  // ---- writing the slots of one state ----

  /** Entries a..i-1 that need a slot are written for state s at base b, nothing else is changed. */
  ghost predicate Wrote(nxt: seq<int>, chk: seq<int>, t: Tab, ext: seq<int>, d: int, b: int, s: int, a: int, i: int)
    requires 0 <= a && i <= |ext|
  {
    && |nxt| == |chk| == |t.chk| == |t.nxt|
    && (forall k :: 0 <= k < |chk| ==>
        if a <= k - b < i && Kept(ext, d, k - b) then chk[k] == s && nxt[k] == ext[k - b]
        else chk[k] == t.chk[k] && nxt[k] == t.nxt[k])
  }

  /** The slots the entries a..z of a state at base b need are free. */
  ghost predicate Fits(chk: seq<int>, ext: seq<int>, d: int, b: int, a: int, z: int)
    requires 0 <= a && z < |ext| && 0 <= b + a
  {
    b + z < |chk| && forall c :: a <= c <= z && Kept(ext, d, c) ==> chk[b + c] == 0
  }

  /** A fully written state is placed. */
  lemma WrotePlaces(t: Tab, t1: Tab, m: Meaning, placed: set<int>, ext: seq<int>, s: int, b: int, d: int, a: int, z: int)
    requires Inv(t, m, placed) && s !in placed && s in m && 0 < s < |t.base| && d < s && Represents(ext, m[s], m, d)
    requires 1 <= a <= z < |ext| && 0 <= b && NoneKept(ext, d, 1, a - 1) && NoneKept(ext, d, z + 1, |ext| - 1)
    requires Fits(t.chk, ext, d, b, a, z) && b + z + 1 < |t.chk|
    requires Wrote(t1.nxt, t1.chk, t, ext, d, b, s, a, z + 1)
    requires t1.base == t.base[s := b] && t1.def == t.def[s := d]
    requires t1.tblend == if t.tblend < b + z then b + z else t.tblend
    ensures Inv(t1, m, placed + {s})
  {
    NoSlotYet(t, m, placed, s);
    WroteIsPlaced(t, t1, m, ext, m[s], s, b, d, a, z);
    PlaceKeeps(t, t1, m, placed, s, b, d);
  }

  /** A state that only repeats its link is placed without a slot. */
  lemma EmptyPlaces(t: Tab, t1: Tab, m: Meaning, placed: set<int>, ext: seq<int>, s: int, b: int, d: int)
    requires Inv(t, m, placed) && s !in placed && s in m && 0 < s < |t.base| && d < s && Represents(ext, m[s], m, d)
    requires NoneKept(ext, d, 1, |ext| - 1) && (if b == JAMSTATE then d == JAMSTATE else b == 0)
    requires t1 == t.(base := t.base[s := b], def := t.def[s := d])
    ensures Inv(t1, m, placed + {s})
  {
    NoSlotYet(t, m, placed, s);
    forall c | 0 <= c < |m[s]| ensures m[s][c] == m[d][c] {
      if m[s][c] != m[d][c] {
        OnlyKeptDiffer(ext, m[s], m, d, c);
      }
    }
    PlaceKeeps(t, t1, m, placed, s, b, d);
  }

  /** A waiting state takes free slot k. */
  lemma OnePlaces(t: Tab, t1: Tab, m: Meaning, placed: set<int>, o: One, k: int)
    requires Inv(t, m, placed) && OneOk(o, m) && o.state !in placed && o.state < |t.base|
    requires 0 < k && o.sym <= k && k + 1 < |t.chk| && t.chk[k] == 0
    requires t1.base == t.base[o.state := k - o.sym] && t1.def == t.def[o.state := o.def]
    requires t1.chk == t.chk[k := o.state] && t1.nxt == t.nxt[k := o.next]
    requires t1.tblend == if t.tblend < k then k else t.tblend
    ensures Inv(t1, m, placed + {o.state})
  {
    NoSlotYet(t, m, placed, o.state);
    PlaceKeeps(t, t1, m, placed, o.state, k - o.sym, o.def);
  }

  lemma WroteIsPlaced(t: Tab, t1: Tab, m: Meaning, ext: seq<int>, row: Row, s: int, b: int, d: int, a: int, z: int)
    requires Shape(t) && 0 < s < |t.base| && d < s && Represents(ext, row, m, d)
    requires forall k :: 0 <= k < |t.chk| ==> t.chk[k] != s
    requires 1 <= a <= z < |ext| && 0 <= b && NoneKept(ext, d, 1, a - 1) && NoneKept(ext, d, z + 1, |ext| - 1)
    requires Fits(t.chk, ext, d, b, a, z) && b + z + 1 < |t.chk|
    requires Wrote(t1.nxt, t1.chk, t, ext, d, b, s, a, z + 1)
    requires t1.base == t.base[s := b] && t1.def == t.def[s := d]
    requires t1.tblend == if t.tblend < b + z then b + z else t.tblend
    ensures Placed(t, t1, s, b, d, row) && StoresDifference(t1, m, s, b, d, row)
  {
    forall c | 0 <= c < |row| && row[c] != m[d][c]
      ensures 0 <= b + c < |t1.chk| && t1.chk[b + c] == s
    {
      OnlyKeptDiffer(ext, row, m, d, c);
      assert a <= c <= z;
      assert (b + c) - b == c;
    }
    forall k | 0 <= k < |t1.chk| && t1.chk[k] == s
      ensures t.chk[k] == 0 && 0 <= k - b < |row| && t1.nxt[k] == row[k - b]
    {
      assert a <= k - b <= z && Kept(ext, d, k - b);
      assert b + (k - b) == k;
    }
  }

  /** The first entry that needs a slot, numchars + 1 if none does. */
  method FirstKept(state: seq<int>, numchars: nat, deflink: int) returns (minec: nat)
    requires 1 <= numchars < |state|
    ensures 1 <= minec <= numchars + 1 && NoneKept(state, deflink, 1, minec - 1)
    ensures minec <= numchars ==> Kept(state, deflink, minec)
  {
    minec := 1;
    while minec <= numchars && !Kept(state, deflink, minec)
      invariant 1 <= minec <= numchars + 1 && NoneKept(state, deflink, 1, minec - 1)
    {
      minec := minec + 1;
    }
  }

  /** The last entry that needs a slot, 0 if none does. */
  method LastKept(state: seq<int>, numchars: nat, deflink: int) returns (maxec: nat)
    requires 1 <= numchars < |state|
    ensures 0 <= maxec <= numchars && NoneKept(state, deflink, maxec + 1, numchars)
    ensures 0 < maxec ==> Kept(state, deflink, maxec)
  {
    maxec := numchars;
    while maxec > 0 && !Kept(state, deflink, maxec)
      invariant 0 <= maxec <= numchars && NoneKept(state, deflink, maxec + 1, numchars)
    {
      maxec := maxec - 1;
    }
  }

  class EntryTables {
    var nxt: seq<int>
    var chk: seq<int>
    var base: seq<int>
    var def: seq<int>
    var tblend: int
    var firstfree: int
    var one: seq<One>
    ghost var m: Meaning
    ghost var link: map<int, int>
    ghost var placed: set<int>
    /** The placed states that were given the jam state's base, since they have no transitions. */
    ghost var bare: set<int>
    const numecs: nat

    /** Empty tables: only the jam row is known. */
    constructor (numecs: nat, eob: int)
      requires 1 <= numecs <= 256
      ensures Valid() && this.numecs == numecs
      ensures m == map[JAMSTATE := JamRow(numecs, eob)] && one == [] && placed == {} && bare == {}
    {
      this.numecs := numecs;
      nxt, chk := seq(INITIAL_MAX_XPAIRS, _ => 0), seq(INITIAL_MAX_XPAIRS, _ => 0);
      base, def := seq(INITIAL_MAX_DFAS, _ => 0), seq(INITIAL_MAX_DFAS, _ => 0);
      tblend, firstfree, one := 0, 1, [];
      m, placed, bare, link := map[JAMSTATE := JamRow(numecs, eob)], {}, {}, map[];
    }

    ghost function T(): Tab
      reads this
    {
      Tab(nxt, chk, base, def, tblend)
    }

    ghost predicate Valid()
      reads this
    {
      && Inv(T(), m, placed) && StackOk(one, m, placed, |base|)
      && LinkRec(def, one, placed, link) && BareOk(base, placed, bare)
      && 1 <= firstfree <= tblend + 1 && numecs + 1 < |chk|
      && (forall i :: 0 <= i < |one| ==> one[i].sym <= numecs + 1)
    }

    /** More room in nxt and chk; the new chk entries are zero, the new nxt entries are anything. */
    method ExpandNxtChk()
      requires |nxt| == |chk|
      modifies this`nxt, this`chk
      ensures Grown(old(T()), T()) && |chk| == |old(chk)| + MAX_XPAIRS_INCREMENT
    {
      assert |seq(MAX_XPAIRS_INCREMENT, k => 0)| == MAX_XPAIRS_INCREMENT;
      var garbage: seq<int> :| |garbage| == MAX_XPAIRS_INCREMENT;
      nxt := nxt + garbage;
      chk := chk + seq(MAX_XPAIRS_INCREMENT, k => 0);
    }

    /** Makes slot `last` exist. */
    method EnsureRoom(last: int)
      requires |nxt| == |chk|
      modifies this`nxt, this`chk
      ensures Grown(old(T()), T()) && last < |chk|
    {
      while last >= |chk|
        invariant Grown(old(T()), T())
        decreases last - |chk|
      {
        ghost var t1 := T();
        ExpandNxtChk();
        GrownTransitive(old(T()), t1, T());
      }
    }

    /** Finds a base address below which entry minec falls on a free slot with room for all entries. */
    method FindInterior(state: seq<int>, deflink: int, minec: nat, maxec: nat) returns (baseaddr: int)
      requires Shape(T()) && 1 <= firstfree <= tblend + 1 && maxec + 1 < |chk|
      requires 1 <= minec <= maxec < |state|
      modifies this`nxt, this`chk
      ensures Grown(old(T()), T())
      ensures minec <= baseaddr && Fits(chk, state, deflink, baseaddr - minec, minec, maxec)
    {
      baseaddr := firstfree;
      while baseaddr < minec
        invariant 1 <= baseaddr && T() == old(T())
      {
        baseaddr := NextFree(baseaddr + 1);
      }
      EnsureRoom(baseaddr + maxec - minec + 1);
      var i := minec;
      while i <= maxec
        invariant minec <= i <= maxec + 1 && minec <= baseaddr
        invariant Grown(old(T()), T()) && Shape(T())
        invariant baseaddr + maxec - minec + 1 < |chk|
        invariant forall c :: minec <= c < i && Kept(state, deflink, c) ==> chk[baseaddr - minec + c] == 0
        decreases if baseaddr <= tblend then tblend + 1 - baseaddr else 0, maxec + 1 - i
      {
        if Kept(state, deflink, i) && chk[baseaddr + i - minec] != 0 {
          assert baseaddr + i - minec <= tblend;
          baseaddr := NextFree(baseaddr + 1);
          ghost var t1 := T();
          EnsureRoom(baseaddr + maxec - minec + 1);
          GrownTransitive(old(T()), t1, T());
          GrownKeepsShape(t1, T());
          i := minec;
        } else {
          i := i + 1;
        }
      }
    }

    /** The first free slot from k on. */
    method NextFree(k: int) returns (r: int)
      requires Shape(T()) && 0 <= k < |chk|
      ensures k <= r < |chk| && chk[r] == 0
      ensures k <= tblend + 1 ==> r <= tblend + 1
      ensures tblend < k ==> r == k
    {
      r := k;
      while chk[r] != 0
        invariant k <= r < |chk|
        invariant k <= tblend + 1 ==> r <= tblend + 1
        invariant tblend < k ==> r == k
        decreases |chk| - r
      {
        r := r + 1;
      }
    }

    /** Writes the entries minec..maxec that need a slot. */
    method StoreEntries(state: seq<int>, deflink: int, statenum: int, tblbase: int, minec: nat, maxec: nat)
      requires Shape(T()) && 1 <= minec <= maxec < |state| && 0 <= tblbase && tblbase + maxec < |chk|
      modifies this`nxt, this`chk
      ensures Wrote(nxt, chk, old(T()), state, deflink, tblbase, statenum, minec, maxec + 1)
    {
      ghost var t := T();
      var i := minec;
      while i <= maxec
        invariant minec <= i <= maxec + 1
        invariant Wrote(nxt, chk, t, state, deflink, tblbase, statenum, minec, i)
      {
        if Kept(state, deflink, i) {
          nxt := nxt[tblbase + i := state[i]];
          chk := chk[tblbase + i := statenum];
        }
        i := i + 1;
      }
    }

    /** Enters a transition array at base tblbase; its slots are known to be free. */
    method Enter(state: seq<int>, deflink: int, statenum: int, tblbase: int, minec: nat, maxec: nat)
      requires Inv(T(), m, placed) && statenum !in placed && statenum in m && 0 < statenum < |base| && deflink < statenum
      requires Represents(state, m[statenum], m, deflink)
      requires LinkRec(def, one, placed, link) && statenum in link && link[statenum] == deflink
      requires 1 <= minec <= maxec < |state| && 0 <= tblbase
      requires NoneKept(state, deflink, 1, minec - 1) && NoneKept(state, deflink, maxec + 1, |state| - 1)
      requires Fits(chk, state, deflink, tblbase, minec, maxec) && tblbase + maxec + 1 < |chk|
      requires BareOk(base, placed, bare)
      modifies this`nxt, this`chk, this`base, this`def, this`tblend, this`placed
      ensures placed == old(placed) + {statenum}
      ensures Inv(T(), m, placed) && LinkRec(def, one, placed, link) && BareOk(base, placed, bare)
      ensures |chk| == |old(chk)| && |base| == |old(base)|
      ensures tblend == if old(tblend) < tblbase + maxec then tblbase + maxec else old(tblend)
    {
      ghost var t := T();
      StoreEntries(state, deflink, statenum, tblbase, minec, maxec);
      base := base[statenum := tblbase];
      def := def[statenum := deflink];
      tblend := if tblend < tblbase + maxec then tblbase + maxec else tblend;
      WrotePlaces(t, T(), m, placed, state, statenum, tblbase, deflink, minec, maxec);
      LinkRecPlaced(t.def, def, one, placed, link, statenum);
      BarePlaced(t.base, base, placed, bare, bare, statenum);
      placed := placed + {statenum};
    }

    /** Gives the state on top of the stack, or one about to be pushed, a free slot for its transition. */
    method Mk1Tbl(state: int, sym: int, onenxt: int, onedef: int)
      requires Inv(T(), m, placed) && 1 <= firstfree <= tblend + 1 && numecs + 1 < |chk|
      requires OneOk(One(state, sym, onenxt, onedef), m) && state !in placed && state < |base| && sym <= numecs + 1
      requires LinkRec(def, one, placed, link) && state in link && link[state] == onedef && BareOk(base, placed, bare)
      modifies this`nxt, this`chk, this`base, this`def, this`tblend, this`firstfree, this`placed
      ensures placed == old(placed) + {state} && |base| == |old(base)|
      ensures Inv(T(), m, placed) && 1 <= firstfree <= tblend + 1 && numecs + 1 < |chk|
      ensures LinkRec(def, one, placed, link) && BareOk(base, placed, bare)
    {
      hide LinkRec, BareOk;
      if firstfree < sym {
        firstfree := sym;
      }
      firstfree := NextFree(firstfree);
      ghost var t0 := T();
      EnsureRoom(firstfree + 1);
      GrownKeepsInv(t0, T(), m, placed);
      hide Inv;
      ghost var def0, placed0 := def, placed;
      var past := firstfree > tblend;
      TakeSlot(state, sym, onenxt, onedef, firstfree);
      if past {
        firstfree := firstfree + 1;
      }
      LinkRecPlaced(def0, def, one, placed0, link, state);
    }

    /** Gives a state its only slot. */
    method TakeSlot(state: int, sym: int, onenxt: int, onedef: int, k: int)
      requires Inv(T(), m, placed) && OneOk(One(state, sym, onenxt, onedef), m) && state !in placed && state < |base|
      requires 0 < k && sym <= k && k + 1 < |chk| && chk[k] == 0 && BareOk(base, placed, bare)
      modifies this`nxt, this`chk, this`base, this`def, this`tblend, this`placed
      ensures placed == old(placed) + {state} && Inv(T(), m, placed) && BareOk(base, placed, bare)
      ensures |base| == |old(base)| && |chk| == |old(chk)| && def == old(def)[state := onedef]
      ensures tblend == if old(tblend) < k then k else old(tblend)
    {
      ghost var t := T();
      base := base[state := k - sym];
      def := def[state := onedef];
      chk := chk[k := state];
      nxt := nxt[k := onenxt];
      if k > tblend {
        tblend := k;
      }
      OnePlaces(t, T(), m, placed, One(state, sym, onenxt, onedef), k);
      BarePlaced(t.base, base, placed, bare, bare, state);
      placed := placed + {state};
    }

    /** Saves a state with one transition for later, or enters it now if the stack is full. */
    method Stack1(statenum: int, sym: int, nextstate: int, deflink: int, ghost row: Row)
      requires Valid() && statenum !in m && 0 < statenum < |base| && sym <= numecs + 1
      requires OneOk(One(statenum, sym, nextstate, deflink), m[statenum := row])
      modifies this
      ensures Valid() && m == old(m)[statenum := row] && |base| == |old(base)|
      ensures link == old(link)[statenum := deflink] && bare == old(bare)
      ensures States() == old(States()) + {statenum}
    {
      hide Inv, LinkRec, OneOk, StackOk, Waiting, BareOk;
      Learn(statenum, row);
      LinkState(statenum, deflink);
      var o := One(statenum, sym, nextstate, deflink);
      LinkRecPush(def, one, placed, link, o);
      if |one| >= ONE_STACK_SIZE - 1 {
        Mk1Tbl(statenum, sym, nextstate, deflink);
      } else {
        StackPush(one, m, placed, |base|, o);
        one := one + [o];
      }
    }

    /** Makes table entries for a transition array that stands for `row` when linked to deflink. */
    method MkEntry(state: seq<int>, numchars: nat, statenum: int, deflink: int, totaltrans: int, ghost row: Row)
      requires Valid() && 1 <= numchars <= numecs && |state| == numchars + 1
      requires statenum !in m && 0 < statenum < |base| && deflink < statenum
      requires Represents(state, row, m, deflink)
      requires CountFits(state, deflink, numchars, totaltrans)
      modifies this
      ensures Valid() && m == old(m)[statenum := row] && |base| == |old(base)|
      ensures link == old(link)[statenum := deflink]
      ensures bare == old(bare) + if totaltrans == 0 && deflink == JAMSTATE then {statenum} else {}
      ensures States() == old(States()) + {statenum}
    {
      hide LinkRec, OneOk, Covered, OwnedSlot, BareOk;
      CountNone(state, deflink, numchars);
      if totaltrans == 0 {
        EnterEmpty(state, statenum, deflink, row);
        return;
      }
      var minec := FirstKept(state, numchars, deflink);
      if totaltrans == 1 {
        // without an entry to store, whatever lies past the last one is taken for it
        var next: int := *;
        if minec <= numchars {
          next := state[minec];
        }
        OnlyOne(state, row, m, statenum, deflink, minec, next);
        Stack1(statenum, minec, next, deflink, row);
        return;
      }
      EnterMany(state, numchars, statenum, deflink, totaltrans, minec, row);
    }

    /** Enters a transition array with more than one entry to store, the first at minec. */
    method EnterMany(state: seq<int>, numchars: nat, statenum: int, deflink: int, totaltrans: int, minec: nat, ghost row: Row)
      requires Valid() && 1 <= numchars <= numecs && |state| == numchars + 1
      requires statenum !in m && 0 < statenum < |base| && deflink < statenum
      requires Represents(state, row, m, deflink)
      requires CountKept(state, deflink, numchars) != 0
      requires 1 <= minec <= numchars + 1 && NoneKept(state, deflink, 1, minec - 1)
      modifies this
      ensures Valid() && m == old(m)[statenum := row] && |base| == |old(base)|
      ensures link == old(link)[statenum := deflink] && bare == old(bare)
      ensures placed == old(placed) + {statenum} && one == old(one)
    {
      hide LinkRec, OneOk, Covered, OwnedSlot, StackOk, Waiting, Fits, BareOk;
      var maxec := LastKept(state, numchars, deflink);
      SomeKept(state, deflink, numchars, minec, maxec);
      Learn(statenum, row);
      LinkState(statenum, deflink);
      ghost var t := T();
      var baseaddr;
      if totaltrans * 100 <= numchars * INTERIOR_FIT_PERCENTAGE {
        baseaddr := FindInterior(state, deflink, minec, maxec);
        GrownKeepsInv(t, T(), m, placed);
      } else {
        // past tblend every slot is free, so Fits needs no search
        baseaddr := if tblend + 1 > minec then tblend + 1 else minec;
      }
      EnterAt(state, deflink, statenum, baseaddr, minec, maxec);
    }

    /** From now on statenum has a row. */
    ghost method Learn(statenum: int, row: Row)
      requires Valid() && statenum !in m
      modifies this`m
      ensures Valid() && m == old(m)[statenum := row]
      ensures statenum !in placed && statenum !in Waiting(one) && StackOk(one, m, placed + {statenum}, |base|)
    {
      MeaningGrows(T(), m, placed, statenum, row);
      StackKept(one, m, placed, |base|, statenum, row);
      NotKnown(T(), m, placed, one, statenum);
      m := m[statenum := row];
    }

    ghost method LinkState(statenum: int, deflink: int)
      requires Valid() && statenum !in placed && statenum !in Waiting(one)
      modifies this`link
      ensures Valid() && link == old(link)[statenum := deflink]
    {
      LinkRecKept(def, one, placed, link, statenum, deflink);
      link := link[statenum := deflink];
    }

    /** Enters a state all of whose transitions are those of its link. */
    method EnterEmpty(state: seq<int>, statenum: int, deflink: int, ghost row: Row)
      requires Valid() && statenum !in m && 0 < statenum < |base| && deflink < statenum
      requires Represents(state, row, m, deflink) && NoneKept(state, deflink, 1, |state| - 1)
      modifies this
      ensures Valid() && m == old(m)[statenum := row] && |base| == |old(base)|
      ensures placed == old(placed) + {statenum} && one == old(one) && link == old(link)[statenum := deflink]
      ensures bare == old(bare) + if deflink == JAMSTATE then {statenum} else {}
    {
      hide LinkRec, OneOk, StackOk, Waiting, NoneKept, BareOk;
      Learn(statenum, row);
      LinkState(statenum, deflink);
      ghost var t := T();
      base := base[statenum := if deflink == JAMSTATE then JAMSTATE else 0];
      def := def[statenum := deflink];
      EmptyPlaces(t, T(), m, placed, state, statenum, base[statenum], deflink);
      LinkRecPlaced(t.def, def, one, placed, link, statenum);
      if deflink == JAMSTATE {
        bare := bare + {statenum};
      }
      BarePlaced(t.base, base, placed, old(bare), bare, statenum);
      placed := placed + {statenum};
    }

    /** Enters a transition array with its entry minec at baseaddr, growing the tables as needed. */
    method EnterAt(state: seq<int>, deflink: int, statenum: int, baseaddr: int, minec: nat, maxec: nat)
      requires Inv(T(), m, placed) && statenum !in placed && statenum in m && 0 < statenum < |base| && deflink < statenum
      requires 1 <= firstfree <= tblend + 1 && numecs + 1 < |chk|
      requires Represents(state, m[statenum], m, deflink)
      requires LinkRec(def, one, placed, link) && statenum in link && link[statenum] == deflink
      requires 1 <= minec <= maxec < |state| && minec <= baseaddr
      requires NoneKept(state, deflink, 1, minec - 1) && NoneKept(state, deflink, maxec + 1, |state| - 1)
      requires tblend < baseaddr || Fits(chk, state, deflink, baseaddr - minec, minec, maxec)
      requires BareOk(base, placed, bare)
      modifies this`nxt, this`chk, this`base, this`def, this`tblend, this`firstfree, this`placed
      ensures placed == old(placed) + {statenum} && |base| == |old(base)|
      ensures Inv(T(), m, placed) && LinkRec(def, one, placed, link) && BareOk(base, placed, bare)
      ensures 1 <= firstfree <= tblend + 1 && numecs + 1 < |chk|
    {
      var tblbase := baseaddr - minec;
      ghost var t0 := T();
      EnsureRoom(tblbase + maxec + 1);
      GrownKeepsInv(t0, T(), m, placed);
      Enter(state, deflink, statenum, tblbase, minec, maxec);
      if baseaddr == firstfree {
        firstfree := NextFree(firstfree + 1);
      }
    }

    /** Room for more states; the new base and def entries are anything. */
    method IncreaseMaxDfas()
      requires Valid()
      modifies this`base, this`def
      ensures Valid() && |base| == |old(base)| + MAX_DFAS_INCREMENT
    {
      assert |seq(MAX_DFAS_INCREMENT, k => 0)| == MAX_DFAS_INCREMENT;
      var garbage1: seq<int> :| |garbage1| == MAX_DFAS_INCREMENT;
      var garbage2: seq<int> :| |garbage2| == MAX_DFAS_INCREMENT;
      ghost var t := T();
      base := base + garbage1;
      def := def + garbage2;
      MoreStatesKeepsInv(t, T(), m, placed);
    }

    /** Makes tables for all waiting states. */
    method DrainStack()
      requires Valid()
      modifies this
      ensures Valid() && one == [] && placed == old(States())
      ensures m == old(m) && link == old(link) && bare == old(bare) && |base| == |old(base)|
    {
      hide Inv, OneOk, LinkRec, StackOk, Waiting;
      ghost var all := States();
      while |one| > 0
        invariant Valid() && States() == all && m == old(m) && link == old(link) && bare == old(bare) && |base| == |old(base)|
        decreases |one|
      {
        var o := one[|one| - 1];
        StackTop(one, m, placed, def, link, |base|);
        Mk1Tbl(o.state, o.sym, o.next, o.def);
        StackPop(one, m, placed - {o.state}, def, link, |base|);
        one := one[..|one| - 1];
      }
      NoneWaiting(one);
    }

    /** The states entered so far, placed or waiting. */
    ghost function States(): set<int>
      reads this
    {
      placed + Waiting(one)
    }
  }

  lemma StackTop(one: seq<One>, m: Meaning, placed: set<int>, def: seq<int>, link: map<int, int>, size: nat)
    requires StackOk(one, m, placed, size) && |one| > 0 && LinkRec(def, one, placed, link)
    ensures var o := one[|one| - 1];
      OneOk(o, m) && o.state !in placed && o.state < size && o.state in link && link[o.state] == o.def
  {
  }

  lemma StackPop(one: seq<One>, m: Meaning, placed: set<int>, def: seq<int>, link: map<int, int>, size: nat)
    requires |one| > 0 && one[|one| - 1].state !in placed && StackOk(one, m, placed, size)
    requires LinkRec(def, one, placed + {one[|one| - 1].state}, link)
    ensures var o, rest := one[|one| - 1], one[..|one| - 1];
      && StackOk(rest, m, placed + {o.state}, size) && LinkRec(def, rest, placed + {o.state}, link)
      && Waiting(one) == Waiting(rest) + {o.state}
  {
    var o, rest := one[|one| - 1], one[..|one| - 1];
    assert one == rest + [o];
    assert forall x :: x in one <==> x in rest || x == o;
  }

  /** With one entry to store at most, every other entry agrees with the link. */
  lemma OnlyOne(ext: seq<int>, row: Row, m: Meaning, s: int, d: int, c: nat, next: int)
    requires Represents(ext, row, m, d) && s !in m && 0 < s && d < s
    requires CountKept(ext, d, |ext| - 1) <= 1 && 1 <= c <= |ext| && (c < |ext| ==> next == ext[c])
    requires NoneKept(ext, d, 1, c - 1) && (c < |ext| ==> Kept(ext, d, c))
    ensures OneOk(One(s, c, next, d), m[s := row])
  {
    if c < |ext| {
      CountAt(ext, d, |ext| - 1, c);
    }
    forall x | 0 <= x < |row| && x != c ensures row[x] == m[d][x] {
      if row[x] != m[d][x] {
        OnlyKeptDiffer(ext, row, m, d, x);
      }
    }
  }

  lemma SomeKept(ext: seq<int>, d: int, n: nat, minec: nat, maxec: nat)
    requires 1 <= n == |ext| - 1 && CountKept(ext, d, n) != 0
    requires 1 <= minec <= n + 1 && NoneKept(ext, d, 1, minec - 1)
    requires maxec <= n && NoneKept(ext, d, maxec + 1, n)
    ensures minec <= maxec
  {
    CountNone(ext, d, n);
  }

  ghost function Waiting(one: seq<One>): set<int> {
    set o | o in one :: o.state
  }

  lemma NotKnown(t: Tab, m: Meaning, placed: set<int>, one: seq<One>, s: int)
    requires Inv(t, m, placed) && StackOk(one, m, placed, |t.base|) && s !in m
    ensures s !in placed && s !in Waiting(one)
  {
    forall x | x in placed ensures x in m {
      assert Covered(t, m, x);
    }
    forall o | o in one ensures o.state in m {
      assert OneOk(o, m);
    }
  }
}
