/**
 What the arrays base, def, nxt and chk mean while the compressed table is built
 (`ext/flex/tblcmp.c`).

 A link is what a `def` entry may name: JAMSTATE, a template (negative) or a DFA state
 (positive).  Every link has a row: the transition it stands for, class by class.  Entry 0 of a
 row is the transition on class 0, the end of the buffer.
 */
module NxtChk {

  const JAMSTATE := -32766
  const SAME_TRANS := -1

  type Row = seq<int>
  type Meaning = map<int, Row>

  datatype Tab = Tab(nxt: seq<int>, chk: seq<int>, base: seq<int>, def: seq<int>, tblend: int)

  /** The row of the jam state: nothing but the end-of-buffer transition. */
  ghost function JamRow(numecs: nat, eob: int): (r: Row)
    ensures |r| == numecs + 1 && r[0] == eob && forall i :: 1 <= i <= numecs ==> r[i] == 0
  {
    seq(numecs + 1, i => if i == 0 then eob else 0)
  }

  /** Slot 0 is never used; the slots past tblend are free and there is at least one. */
  ghost predicate Shape(t: Tab) {
    && |t.nxt| == |t.chk| && |t.base| == |t.def|
    && 0 <= t.tblend && t.tblend + 1 < |t.chk|
    && t.chk[0] == 0
    && forall k :: t.tblend < k < |t.chk| ==> t.chk[k] == 0
  }

  /** A slot marked by a state holds that state's transition for the slot's class, if there is such a class. */
  ghost predicate OwnedSlot(t: Tab, m: Meaning, placed: set<int>, k: nat)
    requires k < |t.chk| == |t.nxt|
  {
    var s := t.chk[k];
    s != 0 ==>
      && s in placed && s in m && 0 < s < |t.base|
      && 0 <= k - t.base[s]
      && (k - t.base[s] < |m[s]| ==> t.nxt[k] == m[s][k - t.base[s]])
  }

  /** Class c of state s has a slot of its own. */
  ghost predicate HasSlot(t: Tab, s: int, c: int)
    requires 0 < s < |t.base|
  {
    0 <= t.base[s] + c < |t.chk| && t.chk[t.base[s] + c] == s
  }

  /** State s links to something older, and has a slot wherever it differs from what it links to. */
  ghost predicate Covered(t: Tab, m: Meaning, s: int) {
    && 0 < s < |t.base| && s < |t.def| && s in m
    && (if t.base[s] == JAMSTATE then t.def[s] == JAMSTATE else 0 <= t.base[s] <= t.tblend)
    && t.def[s] < s && t.def[s] in m && |m[s]| <= |m[t.def[s]]|
    && forall c :: 0 <= c < |m[s]| && m[s][c] != m[t.def[s]][c] ==> HasSlot(t, s, c)
  }

  ghost predicate Inv(t: Tab, m: Meaning, placed: set<int>) {
    && Shape(t)
    && (forall k :: 0 <= k < |t.chk| ==> OwnedSlot(t, m, placed, k))
    && (forall s :: s in placed ==> Covered(t, m, s))
  }

  /** t1 is t with state s placed at base b and link d; only free slots were taken. */
  ghost predicate Placed(t: Tab, t1: Tab, s: int, b: int, d: int, row: Row) {
    && Shape(t) && Shape(t1) && 0 < s < |t.base| && |t.chk| <= |t1.chk| && t.tblend <= t1.tblend
    && t1.base == t.base[s := b] && t1.def == t.def[s := d]
    && (forall k :: 0 <= k < |t1.chk| && t1.chk[k] == s ==>
          (k < |t.chk| ==> t.chk[k] == 0) && 0 <= k - b && (k - b < |row| ==> t1.nxt[k] == row[k - b]))
    && (forall k :: 0 <= k < |t.chk| && t1.chk[k] != s ==> t1.chk[k] == t.chk[k])
    && (forall k :: 0 <= k < |t.chk| && t.chk[k] != 0 ==> t1.chk[k] == t.chk[k] && t1.nxt[k] == t.nxt[k])
    && (forall k :: |t.chk| <= k < |t1.chk| && t1.chk[k] != s ==> t1.chk[k] == 0)
  }

  /** What a link d leaves for s to store is stored. */
  ghost predicate StoresDifference(t1: Tab, m: Meaning, s: int, b: int, d: int, row: Row) {
    && d < s && d in m && |row| <= |m[d]|
    && (if b == JAMSTATE then d == JAMSTATE else 0 <= b <= t1.tblend)
    && forall c :: 0 <= c < |row| && row[c] != m[d][c] ==> 0 <= b + c < |t1.chk| && t1.chk[b + c] == s
  }

  /** A row for a new link changes nothing for the states placed so far. */
  lemma MeaningGrows(t: Tab, m: Meaning, placed: set<int>, s: int, row: Row)
    requires Inv(t, m, placed) && s !in m
    ensures Inv(t, m[s := row], placed)
  {
    var m1 := m[s := row];
    forall k | 0 <= k < |t.chk| ensures OwnedSlot(t, m1, placed, k) {
      assert OwnedSlot(t, m, placed, k);
    }
    forall x | x in placed ensures Covered(t, m1, x) {
      assert Covered(t, m, x);
    }
  }

  /** Placing a state keeps every older state's transitions and adds its own. */
  lemma PlaceKeeps(t: Tab, t1: Tab, m: Meaning, placed: set<int>, s: int, b: int, d: int)
    requires Inv(t, m, placed) && s !in placed && s in m
    requires Placed(t, t1, s, b, d, m[s])
    requires StoresDifference(t1, m, s, b, d, m[s])
    ensures Inv(t1, m, placed + {s})
  {
    forall k | 0 <= k < |t1.chk| ensures OwnedSlot(t1, m, placed + {s}, k) {
      if k < |t.chk| {
        assert OwnedSlot(t, m, placed, k);
      }
    }
    forall x | x in placed ensures Covered(t1, m, x) {
      assert Covered(t, m, x);
      forall c | 0 <= c < |m[x]| && m[x][c] != m[t1.def[x]][c] ensures HasSlot(t1, x, c) {
        assert HasSlot(t, x, c);
      }
    }
  }

  lemma NoSlotYet(t: Tab, m: Meaning, placed: set<int>, s: int)
    requires Inv(t, m, placed) && s !in placed && s != 0
    ensures forall k :: 0 <= k < |t.chk| ==> t.chk[k] != s
  {
    forall k | 0 <= k < |t.chk| ensures t.chk[k] != s {
      assert OwnedSlot(t, m, placed, k);
    }
  }
}
