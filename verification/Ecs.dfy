/**
 Equivalence classes of characters, kept as ascending doubly linked lists in two arrays
 (`ext/flex/ecs.c`).

 A partition of 1..n is described by a sequence of labels: two elements are in one class
 exactly when their labels are equal.  `Linked` ties the two link arrays to such a labelling.
 */
module Ecs {

  const NIL := 0
  const CSIZE := 256

  // ---- partitions held as linked lists ----

  /** y is the element after x in the list of x's class (NIL when x is the last). */
  ghost predicate IsNext(part: seq<int>, n: nat, x: int, y: int)
    requires n < |part| && 1 <= x <= n
  {
    if y == NIL then forall z :: x < z <= n ==> part[z] != part[x]
    else x < y <= n && part[y] == part[x] && forall z :: x < z < y ==> part[z] != part[x]
  }

  /** y is the element before x in the list of x's class (NIL when x is the first). */
  ghost predicate IsPrev(part: seq<int>, n: nat, x: int, y: int)
    requires n < |part| && 1 <= x <= n
  {
    if y == NIL then forall z :: 1 <= z < x ==> part[z] != part[x]
    else 1 <= y < x && part[y] == part[x] && forall z :: y < z < x ==> part[z] != part[x]
  }

  /** fwd and bck are the ascending doubly linked lists of the partition `part` of 1..n. */
  ghost predicate Linked(fwd: seq<int>, bck: seq<int>, part: seq<int>, n: nat)
  {
    && n < |fwd| && n < |bck| && n < |part|
    && (forall x :: 1 <= x <= n ==> IsNext(part, n, x, fwd[x]))
    && (forall x :: 1 <= x <= n ==> IsPrev(part, n, x, bck[x]))
  }

  /** Splits every class of `part` into its members inside and outside `s`. */
  ghost function Refine(part: seq<int>, s: set<int>): (r: seq<int>)
    ensures |r| == |part|
    ensures forall x :: 0 <= x < |part| ==> r[x] == 2 * part[x] + (if x in s then 1 else 0)
  {
    seq(|part|, x requires 0 <= x < |part| => 2 * part[x] + (if x in s then 1 else 0))
  }

  lemma RefineIsExact(part: seq<int>, s: set<int>, x: nat, y: nat)
    requires x < |part| && y < |part|
    ensures Refine(part, s)[x] == Refine(part, s)[y] <==> part[x] == part[y] && (x in s <==> y in s)
  {
    assert forall a: int, b: int :: 2 * a + 1 != 2 * b;
  }

  // ---- mkechar ----

  lemma UnlinkNeighbours(fwd: seq<int>, bck: seq<int>, part: seq<int>, n: nat, tch: int, fwd1: seq<int>, bck1: seq<int>, x: int)
    requires Linked(fwd, bck, part, n) && 1 <= tch <= n && 1 <= x <= n
    requires fwd1 == (if bck[tch] != NIL then fwd[bck[tch] := fwd[tch]] else fwd)[tch := NIL]
    requires bck1 == (if fwd[tch] != NIL then bck[fwd[tch] := bck[tch]] else bck)[tch := NIL]
    ensures IsNext(Refine(part, {tch}), n, x, fwd1[x]) && IsPrev(Refine(part, {tch}), n, x, bck1[x])
  {
    assert IsNext(part, n, tch, fwd[tch]) && IsPrev(part, n, tch, bck[tch]);
    assert IsNext(part, n, x, fwd[x]) && IsPrev(part, n, x, bck[x]);
    hide Linked;
  }

  /** Gives character tch a class of its own. */
  method MkEChar(tch: int, fwd: array<int>, bck: array<int>, ghost part: seq<int>, ghost n: nat)
    requires fwd != bck
    requires Linked(fwd[..], bck[..], part, n) && 1 <= tch <= n
    modifies fwd, bck
    ensures Linked(fwd[..], bck[..], Refine(part, {tch}), n)
  {
    ghost var f, b := fwd[..], bck[..];
    assert IsNext(part, n, tch, f[tch]) && IsPrev(part, n, tch, b[tch]);
    if fwd[tch] != NIL {
      bck[fwd[tch]] := bck[tch];
    }
    if bck[tch] != NIL {
      fwd[bck[tch]] := fwd[tch];
    }
    fwd[tch] := NIL;
    bck[tch] := NIL;
    forall x | 1 <= x <= n
      ensures IsNext(Refine(part, {tch}), n, x, fwd[..][x]) && IsPrev(Refine(part, {tch}), n, x, bck[..][x])
    {
      UnlinkNeighbours(f, b, part, n, tch, fwd[..], bck[..], x);
    }
  }

  // ---- mkeccl ----

  /** The symbol a class entry stands for: NUL entries are mapped when a mapping is given. */
  function Mapped(ch: int, nulMapping: int): int {
    if nulMapping != 0 && ch == 0 then nulMapping else ch
  }

  /** The entries of a class as list symbols. */
  function Symbols(ccls: seq<int>, nulMapping: int): (ms: seq<int>)
    ensures |ms| == |ccls|
    ensures forall k :: 0 <= k < |ccls| ==> ms[k] == Mapped(ccls[k], nulMapping)
  {
    seq(|ccls|, k requires 0 <= k < |ccls| => Mapped(ccls[k], nulMapping))
  }

  function Members(ms: seq<int>): (s: set<int>)
    ensures forall x :: x in s <==> x in ms
  {
    set x | x in ms
  }

  ghost predicate StrictlyAscending(ms: seq<int>) {
    forall a, b :: 0 <= a < b < |ms| ==> ms[a] < ms[b]
  }

  /** What every caller passes: distinct symbols of 1..n in order, NUL (if mapped) last. */
  ghost predicate ClassEntries(ms: seq<int>, n: nat) {
    StrictlyAscending(ms) && forall k :: 0 <= k < |ms| ==> 1 <= ms[k] <= n
  }

  // -- splitting the list of one class --

  /** Gives the members of class l that are in s the label `unused`. */
  ghost function Carve(part: seq<int>, l: int, s: set<int>, unused: int): (r: seq<int>)
    ensures |r| == |part|
    ensures forall x :: 0 <= x < |part| ==> r[x] == if part[x] == l && x in s then unused else part[x]
  {
    seq(|part|, x requires 0 <= x < |part| => if part[x] == l && x in s then unused else part[x])
  }

  ghost predicate SameSide(part: seq<int>, s: set<int>, x: int, z: int)
    requires 0 <= x < |part| && 0 <= z < |part|
  {
    part[z] == part[x] && (z in s <==> x in s)
  }

  /** y is the neighbour of x below it (NIL if none) on x's side of its class. */
  ghost predicate PrevOnSide(part: seq<int>, s: set<int>, x: int, y: int)
    requires 0 <= x < |part|
  {
    0 <= y < x && (y != NIL ==> SameSide(part, s, x, y)) && forall z :: y < z < x ==> !SameSide(part, s, x, z)
  }

  /** y is the neighbour of x above it (NIL if none) on x's side of its class. */
  ghost predicate NextOnSide(part: seq<int>, s: set<int>, n: nat, x: int, y: int)
    requires n < |part| && 0 <= x < |part|
  {
    var top := if y == NIL then n + 1 else y;
    x < top <= n + 1 && (y != NIL ==> y <= n && SameSide(part, s, x, y)) && forall z :: x < z < top ==> !SameSide(part, s, x, z)
  }

  /** Where the walk along the list of cclm stands: its members below f have been relinked on
      their side; oldec and newec are the last of each side so far (oldec may be NIL). */
  ghost predicate Walked(fwd: seq<int>, bck: seq<int>, fwd0: seq<int>, bck0: seq<int>, part: seq<int>, s: set<int>,
                         n: nat, cclm: int, f: int, oldec: int, newec: int)
    requires n < |fwd| == |fwd0| && n < |bck| == |bck0| && n < |part|
    requires 1 <= cclm <= n
  {
    var l := part[cclm];
    && cclm <= newec < f <= n + 1 && part[newec] == l && newec in s
    && (forall x :: 1 <= x <= n && part[x] != l ==> fwd[x] == fwd0[x] && bck[x] == bck0[x])
    && bck[cclm] == bck0[cclm]
    && (forall x :: 1 <= x < f && part[x] == l && x != cclm ==> PrevOnSide(part, s, x, bck[x]))
    && (forall x :: 1 <= x < f && part[x] == l && x != oldec && x != newec ==> NextOnSide(part, s, n, x, fwd[x]))
    && (forall x :: f <= x <= n && part[x] == l ==> fwd[x] == fwd0[x])
    && (forall z :: newec < z < f && part[z] == l ==> z !in s)
    && 0 <= oldec < f && (oldec != NIL ==> part[oldec] == l && oldec !in s)
    && (forall z :: oldec < z < f && part[z] == l ==> z in s)
  }

  function Frontier(i: int, n: nat): (f: int) {
    if i == NIL then n + 1 else i
  }

  /** Everything the walk relies on about the lists it starts from. */
  ghost predicate WalkPre(fwd: seq<int>, bck: seq<int>, part: seq<int>, s: set<int>, n: nat, cclm: int) {
    && Linked(fwd, bck, part, n)
    && 1 <= cclm <= n && cclm in s
    && forall z :: 1 <= z < cclm && part[z] == part[cclm] ==> z !in s
  }

  lemma WalkStart(fwd: seq<int>, bck: seq<int>, part: seq<int>, s: set<int>, n: nat, cclm: int)
    requires WalkPre(fwd, bck, part, s, n, cclm)
    ensures Walked(fwd, bck, fwd, bck, part, s, n, cclm, Frontier(fwd[cclm], n), bck[cclm], cclm)
    ensures fwd[cclm] != NIL ==> cclm < fwd[cclm] <= n && part[fwd[cclm]] == part[cclm]
  {
    assert IsNext(part, n, cclm, fwd[cclm]) && IsPrev(part, n, cclm, bck[cclm]);
    var l := part[cclm];
    forall x | 1 <= x <= n && part[x] == l && x < cclm
      ensures PrevOnSide(part, s, x, bck[x])
      ensures x != bck[cclm] ==> NextOnSide(part, s, n, x, fwd[x])
    {
      assert IsPrev(part, n, x, bck[x]) && IsNext(part, n, x, fwd[x]);
    }
  }

  /** i is in the class: it goes to the end of the new list. */
  lemma WalkInside(fwd: seq<int>, bck: seq<int>, fwd0: seq<int>, bck0: seq<int>, part: seq<int>, s: set<int>,
                   n: nat, cclm: int, i: int, oldec: int, newec: int)
    requires WalkPre(fwd0, bck0, part, s, n, cclm) && |fwd| == |fwd0| && |bck| == |bck0|
    requires cclm < i <= n && part[i] == part[cclm] && i in s
    requires Walked(fwd, bck, fwd0, bck0, part, s, n, cclm, i, oldec, newec)
    ensures var i' := fwd[newec := i][i];
      (i' == NIL || (i < i' <= n && part[i'] == part[cclm])) &&
      Walked(fwd[newec := i], bck[i := newec], fwd0, bck0, part, s, n, cclm, Frontier(i', n), oldec, i)
  {
    assert IsNext(part, n, i, fwd0[i]);
    assert PrevOnSide(part, s, i, newec) && NextOnSide(part, s, n, newec, i);
    hide PrevOnSide, NextOnSide;
  }

  /** i is not in the class: it goes to the end of the old list. */
  lemma WalkOutside(fwd: seq<int>, bck: seq<int>, fwd0: seq<int>, bck0: seq<int>, part: seq<int>, s: set<int>,
                    n: nat, cclm: int, i: int, oldec: int, newec: int, fwd1: seq<int>)
    requires WalkPre(fwd0, bck0, part, s, n, cclm) && |fwd| == |fwd0| && |bck| == |bck0|
    requires cclm < i <= n && part[i] == part[cclm] && i !in s
    requires Walked(fwd, bck, fwd0, bck0, part, s, n, cclm, i, oldec, newec)
    requires fwd1 == if oldec != NIL then fwd[oldec := i] else fwd
    ensures var i' := fwd1[i];
      (i' == NIL || (i < i' <= n && part[i'] == part[cclm])) &&
      Walked(fwd1, bck[i := oldec], fwd0, bck0, part, s, n, cclm, Frontier(i', n), i, newec)
  {
    assert IsNext(part, n, i, fwd0[i]);
    assert PrevOnSide(part, s, i, oldec) && (oldec != NIL ==> NextOnSide(part, s, n, oldec, i));
    hide PrevOnSide, NextOnSide;
  }

  /** Neighbours on one side of class l are neighbours in the carved partition. */
  lemma SidesAreCarved(part: seq<int>, l: int, s: set<int>, unused: int, n: nat, x: int, y: int, z: int)
    requires n < |part| && 1 <= x <= n && part[x] == l && unused !in part
    requires PrevOnSide(part, s, x, y) && NextOnSide(part, s, n, x, z)
    ensures IsPrev(Carve(part, l, s, unused), n, x, y) && IsNext(Carve(part, l, s, unused), n, x, z)
  {
    var cur := Carve(part, l, s, unused);
    forall t | 0 <= t < |part| ensures cur[t] == cur[x] <==> SameSide(part, s, x, t) {
      assert part[t] in part;
    }
    hide SameSide;
  }

  /** Neighbours in another class stay neighbours in the carved partition. */
  lemma OthersStay(part: seq<int>, l: int, s: set<int>, unused: int, n: nat, x: int, y: int, z: int)
    requires n < |part| && 1 <= x <= n && part[x] != l && unused !in part
    requires IsPrev(part, n, x, y) && IsNext(part, n, x, z)
    ensures IsPrev(Carve(part, l, s, unused), n, x, y) && IsNext(Carve(part, l, s, unused), n, x, z)
  {
  }

  /** Closing the two loose ends leaves the lists of the carved partition. */
  lemma WalkEnd(fwd: seq<int>, bck: seq<int>, fwd0: seq<int>, bck0: seq<int>, part: seq<int>, s: set<int>,
                n: nat, cclm: int, oldec: int, newec: int, fwd1: seq<int>, bck1: seq<int>, unused: int)
    requires WalkPre(fwd0, bck0, part, s, n, cclm) && |fwd| == |fwd0| && |bck| == |bck0|
    requires Walked(fwd, bck, fwd0, bck0, part, s, n, cclm, n + 1, oldec, newec)
    requires bck1 == bck[cclm := NIL]
    requires fwd1 == if oldec != NIL then fwd[oldec := NIL][newec := NIL] else fwd[newec := NIL]
    requires unused !in part
    ensures Linked(fwd1, bck1, Carve(part, part[cclm], s, unused), n)
  {
    var l := part[cclm];
    assert PrevOnSide(part, s, cclm, NIL);
    assert oldec != NIL ==> NextOnSide(part, s, n, oldec, NIL);
    assert NextOnSide(part, s, n, newec, NIL);
    hide PrevOnSide, NextOnSide, IsNext, IsPrev;
    forall x | 1 <= x <= n
      ensures IsPrev(Carve(part, l, s, unused), n, x, bck1[x]) && IsNext(Carve(part, l, s, unused), n, x, fwd1[x])
    {
      if part[x] == l {
        SidesAreCarved(part, l, s, unused, n, x, bck1[x], fwd1[x]);
      } else {
        OthersStay(part, l, s, unused, n, x, bck0[x], fwd0[x]);
      }
    }
  }

  lemma WalkRange(fwd: seq<int>, bck: seq<int>, fwd0: seq<int>, bck0: seq<int>, part: seq<int>, s: set<int>,
                  n: nat, cclm: int, f: int, oldec: int, newec: int)
    requires n < |fwd| == |fwd0| && n < |bck| == |bck0| && n < |part| && 1 <= cclm <= n
    requires WalkPre(fwd0, bck0, part, s, n, cclm)
    requires Walked(fwd, bck, fwd0, bck0, part, s, n, cclm, f, oldec, newec)
    ensures cclm <= newec < f <= n + 1 && 0 <= oldec < f && oldec != newec && oldec != cclm
    ensures bck[cclm] != NIL ==> oldec != NIL
    ensures f <= n && part[f] == part[cclm] ==> fwd[f] == fwd0[f] && IsNext(part, n, f, fwd0[f])
  {
    assert IsPrev(part, n, cclm, bck0[cclm]);
  }

  /** Exactly the flags set at the start and those of later companions below f are set. */
  ghost predicate Flagged(flags: seq<bool>, flags0: seq<bool>, ms: seq<int>, part: seq<int>, cclp: nat, f: int)
    requires cclp < |ms| <= |flags| == |flags0| && forall k :: 0 <= k < |ms| ==> 0 <= ms[k] < |part|
  {
    forall k :: 0 <= k < |flags| ==> (flags[k] <==>
      (flags0[k] || (cclp < k < |ms| && part[ms[k]] == part[ms[cclp]] && ms[k] < f)))
  }

  /** Later entries of the class opened at cclp are not flagged when it is opened. */
  ghost predicate Unflagged(flags: seq<bool>, ms: seq<int>, part: seq<int>, cclp: nat)
    requires cclp < |ms| <= |flags| && forall k :: 0 <= k < |ms| ==> 0 <= ms[k] < |part|
  {
    forall k :: cclp < k < |ms| && part[ms[k]] == part[ms[cclp]] ==> !flags[k]
  }

  lemma FlaggedStart(flags: seq<bool>, ms: seq<int>, part: seq<int>, cclp: nat, n: nat, i: int)
    requires ClassEntries(ms, n) && n < |part| && cclp < |ms| <= |flags|
    requires IsNext(part, n, ms[cclp], i)
    ensures Flagged(flags, flags, ms, part, cclp, Frontier(i, n))
  {
  }

  lemma FlaggedStep(flags: seq<bool>, flags0: seq<bool>, ms: seq<int>, part: seq<int>, cclp: nat, n: nat,
                    i: int, i': int)
    requires ClassEntries(ms, n) && n < |part| && cclp < |ms| <= |flags| == |flags0|
    requires Flagged(flags, flags0, ms, part, cclp, i) && Unflagged(flags0, ms, part, cclp)
    requires ms[cclp] < i <= n && part[i] == part[ms[cclp]] && IsNext(part, n, i, i')
    ensures forall k :: 0 <= k < |ms| && ms[k] == i ==> cclp < k && !flags[k]
    ensures i !in ms ==> Flagged(flags, flags0, ms, part, cclp, Frontier(i', n))
    ensures forall j :: 0 <= j < |ms| && ms[j] == i ==> Flagged(flags[j := true], flags0, ms, part, cclp, Frontier(i', n))
  {
  }

  /** Makes i the list element after `last` (NIL: the first of its list). */
  method LinkAfter(fwd: array<int>, bck: array<int>, last: int, i: int)
    requires fwd != bck && 0 <= last < fwd.Length && 0 <= i < bck.Length
    modifies fwd, bck
    ensures bck[..] == old(bck[..])[i := last]
    ensures fwd[..] == if last != NIL then old(fwd[..])[last := i] else old(fwd[..])
  {
    bck[i] := last;
    if last != NIL {
      fwd[last] := i;
    }
  }

  /** Looks for symbol i among the entries from j0 on. */
  method FindEntry(ccls: seq<int>, nulMapping: int, cclflags: array<bool>, j0: nat, i: int, ghost n: nat)
    returns (j: nat, found: bool)
    requires ClassEntries(Symbols(ccls, nulMapping), n) && j0 <= |ccls| <= cclflags.Length
    requires forall k :: 0 <= k < j0 ==> Symbols(ccls, nulMapping)[k] < i
    requires forall k :: 0 <= k < |ccls| && Symbols(ccls, nulMapping)[k] == i ==> !cclflags[k]
    ensures j0 <= j <= |ccls| && forall k :: 0 <= k < j ==> Symbols(ccls, nulMapping)[k] < i
    ensures found <==> i in Symbols(ccls, nulMapping)
    ensures found ==> j < |ccls| && Symbols(ccls, nulMapping)[j] == i
  {
    ghost var ms := Symbols(ccls, nulMapping);
    j := j0;
    while j < |ccls|
      invariant j0 <= j <= |ccls|
      invariant forall k :: 0 <= k < j ==> ms[k] < i
    {
      var ccl_char := Mapped(ccls[j], nulMapping);
      if ccl_char > i {
        break;
      }
      if ccl_char == i && !cclflags[j] {
        return j, true;
      }
      j := j + 1;
    }
    found := false;
  }

  /** The whole state of the walk when list member i (NIL: the end) is to be looked at. */
  ghost predicate WalkInv(fwd: seq<int>, bck: seq<int>, flags: seq<bool>, fwd0: seq<int>, bck0: seq<int>, flags0: seq<bool>,
                          part: seq<int>, ms: seq<int>, n: nat, cclp: nat, i: int, j: nat, oldec: int, newec: int)
  {
    && ClassEntries(ms, n) && cclp < |ms| <= |flags| == |flags0|
    && WalkPre(fwd0, bck0, part, Members(ms), n, ms[cclp]) && Unflagged(flags0, ms, part, cclp)
    && |fwd| == |fwd0| && |bck| == |bck0|
    && (i == NIL || (ms[cclp] < i <= n && part[i] == part[ms[cclp]]))
    && Walked(fwd, bck, fwd0, bck0, part, Members(ms), n, ms[cclp], Frontier(i, n), oldec, newec)
    && Flagged(flags, flags0, ms, part, cclp, Frontier(i, n))
    && cclp < j <= |ms| && (forall k :: 0 <= k < j ==> ms[k] < Frontier(i, n))
  }

  lemma WalkInvStart(fwd: seq<int>, bck: seq<int>, flags: seq<bool>, part: seq<int>, ms: seq<int>, n: nat, cclp: nat)
    requires ClassEntries(ms, n) && cclp < |ms| <= |flags| && WalkPre(fwd, bck, part, Members(ms), n, ms[cclp])
    requires Unflagged(flags, ms, part, cclp)
    ensures WalkInv(fwd, bck, flags, fwd, bck, flags, part, ms, n, cclp, fwd[ms[cclp]], cclp + 1, bck[ms[cclp]], ms[cclp])
  {
    WalkStart(fwd, bck, part, Members(ms), n, ms[cclp]);
    FlaggedStart(flags, ms, part, cclp, n, fwd[ms[cclp]]);
    hide Walked, Flagged, Unflagged;
  }

  /** What the search for i may rely on. */
  lemma WalkInvSearch(fwd: seq<int>, bck: seq<int>, flags: seq<bool>, fwd0: seq<int>, bck0: seq<int>, flags0: seq<bool>,
                      part: seq<int>, ms: seq<int>, n: nat, cclp: nat, i: int, j: nat, oldec: int, newec: int)
    requires WalkInv(fwd, bck, flags, fwd0, bck0, flags0, part, ms, n, cclp, i, j, oldec, newec) && i != NIL
    ensures ClassEntries(ms, n) && j <= |ms| <= |flags| && 0 < i <= n && n < |fwd| && n < |bck|
    ensures forall k :: 0 <= k < j ==> ms[k] < i
    ensures forall k :: 0 <= k < |ms| && ms[k] == i ==> !flags[k]
    ensures 1 <= newec < i && 0 <= oldec < i
  {
    WalkRange(fwd, bck, fwd0, bck0, part, Members(ms), n, ms[cclp], i, oldec, newec);
    FlaggedStep(flags, flags0, ms, part, cclp, n, i, fwd0[i]);
  }

  lemma WalkInvInside(fwd: seq<int>, bck: seq<int>, flags: seq<bool>, fwd0: seq<int>, bck0: seq<int>, flags0: seq<bool>,
                      part: seq<int>, ms: seq<int>, n: nat, cclp: nat, i: int, j0: nat, oldec: int, newec: int,
                      fwd1: seq<int>, j: nat)
    requires WalkInv(fwd, bck, flags, fwd0, bck0, flags0, part, ms, n, cclp, i, j0, oldec, newec) && i != NIL
    requires 1 <= newec < |fwd| && i < |bck| && fwd1 == fwd[newec := i] && i < |fwd1|
    requires j0 <= j < |ms| <= |flags| && ms[j] == i
    ensures WalkInv(fwd1, bck[i := newec], flags[j := true], fwd0, bck0, flags0, part, ms, n, cclp, fwd1[i], j, oldec, i)
  {
    hide Flagged, Unflagged, Walked, IsNext;
    WalkRange(fwd, bck, fwd0, bck0, part, Members(ms), n, ms[cclp], i, oldec, newec);
    FlaggedStep(flags, flags0, ms, part, cclp, n, i, fwd0[i]);
    WalkInside(fwd, bck, fwd0, bck0, part, Members(ms), n, ms[cclp], i, oldec, newec);
  }

  lemma WalkInvOutside(fwd: seq<int>, bck: seq<int>, flags: seq<bool>, fwd0: seq<int>, bck0: seq<int>, flags0: seq<bool>,
                      part: seq<int>, ms: seq<int>, n: nat, cclp: nat, i: int, j0: nat, oldec: int, newec: int,
                      fwd1: seq<int>, j: nat)
    requires WalkInv(fwd, bck, flags, fwd0, bck0, flags0, part, ms, n, cclp, i, j0, oldec, newec) && i != NIL
    requires 0 <= oldec < |fwd| && i < |bck| && fwd1 == (if oldec != NIL then fwd[oldec := i] else fwd) && i < |fwd1|
    requires j0 <= j <= |ms| && i !in ms && forall k :: 0 <= k < j ==> ms[k] < i
    ensures WalkInv(fwd1, bck[i := oldec], flags, fwd0, bck0, flags0, part, ms, n, cclp, fwd1[i], j, i, newec)
  {
    hide Flagged, Unflagged, Walked, IsNext;
    WalkRange(fwd, bck, fwd0, bck0, part, Members(ms), n, ms[cclp], i, oldec, newec);
    FlaggedStep(flags, flags0, ms, part, cclp, n, i, fwd0[i]);
    WalkOutside(fwd, bck, fwd0, bck0, part, Members(ms), n, ms[cclp], i, oldec, newec, fwd1);
  }

  /** Puts list member i at the end of the new list if it is in the class, else of the old one. */
  method PlaceMember(ccls: seq<int>, fwd: array<int>, bck: array<int>, llsiz: nat, nulMapping: int, cclflags: array<bool>,
                     j0: nat, i0: int, oldec0: int, newec0: int, ghost fwd0: seq<int>, ghost bck0: seq<int>,
                     ghost flags0: seq<bool>, ghost part: seq<int>, ghost cclp: nat)
    returns (j: nat, i: int, oldec: int, newec: int)
    requires fwd != bck && i0 != NIL
    requires WalkInv(fwd[..], bck[..], cclflags[..], fwd0, bck0, flags0, part, Symbols(ccls, nulMapping), llsiz, cclp,
                     i0, j0, oldec0, newec0)
    modifies fwd, bck, cclflags
    ensures WalkInv(fwd[..], bck[..], cclflags[..], fwd0, bck0, flags0, part, Symbols(ccls, nulMapping), llsiz, cclp,
                    i, j, oldec, newec)
    ensures Frontier(i0, llsiz) < Frontier(i, llsiz) <= llsiz + 1
  {
    ghost var ms, n := Symbols(ccls, nulMapping), llsiz;
    ghost var f, b, fl := fwd[..], bck[..], cclflags[..];
    WalkInvSearch(f, b, fl, fwd0, bck0, flags0, part, ms, n, cclp, i0, j0, oldec0, newec0);
    hide WalkInv, ClassEntries, Symbols;
    var found;
    i, oldec, newec := i0, oldec0, newec0;
    j, found := FindEntry(ccls, nulMapping, cclflags, j0, i, n);
    if found {
      // entry j is i itself: newec gains i, and the outer loop will skip j
      LinkAfter(fwd, bck, newec, i);
      cclflags[j] := true;
      WalkInvInside(f, b, fl, fwd0, bck0, flags0, part, ms, n, cclp, i, j0, oldec, newec, fwd[..], j);
      newec := i;
    } else {
      // no entry is i: oldec gains i
      LinkAfter(fwd, bck, oldec, i);
      WalkInvOutside(f, b, fl, fwd0, bck0, flags0, part, ms, n, cclp, i, j0, oldec, newec, fwd[..], j);
      oldec := i;
    }
    i := fwd[i];
    WalkAdvance(fwd[..], bck[..], cclflags[..], fwd0, bck0, flags0, part, ms, n, cclp, i, j, oldec, newec);
  }

  lemma WalkAdvance(fwd: seq<int>, bck: seq<int>, flags: seq<bool>, fwd0: seq<int>, bck0: seq<int>, flags0: seq<bool>,
                    part: seq<int>, ms: seq<int>, n: nat, cclp: nat, i: int, j: nat, oldec: int, newec: int)
    requires WalkInv(fwd, bck, flags, fwd0, bck0, flags0, part, ms, n, cclp, i, j, oldec, newec)
    ensures oldec < Frontier(i, n) && newec < Frontier(i, n) <= n + 1
  {
  }

  /** Moves the members of the list of the entry at cclp that are in the class to a list of their own. */
  method WalkClass(ccls: seq<int>, fwd: array<int>, bck: array<int>, llsiz: nat, nulMapping: int,
                   cclflags: array<bool>, cclp: nat, ghost part: seq<int>, ghost unused: int)
    requires fwd != bck
    requires ClassEntries(Symbols(ccls, nulMapping), llsiz) && cclp < |ccls| <= cclflags.Length
    requires WalkPre(fwd[..], bck[..], part, Members(Symbols(ccls, nulMapping)), llsiz, Symbols(ccls, nulMapping)[cclp])
    requires Unflagged(cclflags[..], Symbols(ccls, nulMapping), part, cclp) && unused !in part
    modifies fwd, bck, cclflags
    ensures Linked(fwd[..], bck[..], Carve(part, part[Symbols(ccls, nulMapping)[cclp]], Members(Symbols(ccls, nulMapping)), unused), llsiz)
    ensures Flagged(cclflags[..], old(cclflags[..]), Symbols(ccls, nulMapping), part, cclp, llsiz + 1)
  {
    ghost var ms, n := Symbols(ccls, nulMapping), llsiz;
    ghost var fwd0, bck0, flags0 := fwd[..], bck[..], cclflags[..];
    WalkInvStart(fwd0, bck0, flags0, part, ms, n, cclp);
    hide ClassEntries, Flagged;
    var cclm := Mapped(ccls[cclp], nulMapping);
    var oldec, newec, j, i := bck[cclm], cclm, cclp + 1, fwd[cclm];
    while i != NIL && i <= llsiz
      invariant 0 <= j && WalkInv(fwd[..], bck[..], cclflags[..], fwd0, bck0, flags0, part, ms, n, cclp, i, j, oldec, newec)
      decreases n + 1 - Frontier(i, n)
    {
      j, i, oldec, newec := PlaceMember(ccls, fwd, bck, llsiz, nulMapping, cclflags, j, i, oldec, newec,
                                        fwd0, bck0, flags0, part, cclp);
    }
    ghost var f, b := fwd[..], bck[..];
    WalkRange(f, b, fwd0, bck0, part, Members(ms), n, cclm, n + 1, oldec, newec);
    if bck[cclm] != NIL || oldec != bck[cclm] {
      bck[cclm] := NIL;
      fwd[oldec] := NIL;
    }
    fwd[newec] := NIL;
    WalkEnd(f, b, fwd0, bck0, part, Members(ms), n, cclm, oldec, newec, fwd[..], bck[..], unused);
  }

  // -- all entries of a class --

  ghost predicate Entries(part: seq<int>, ms: seq<int>, n: nat) {
    n < |part| && ClassEntries(ms, n)
  }

  /** One of the first p entries belongs to class l. */
  ghost predicate Done(part: seq<int>, ms: seq<int>, n: nat, p: nat, l: int)
    requires Entries(part, ms, n) && p <= |ms|
  {
    exists k :: 0 <= k < p && part[ms[k]] == l
  }

  /** The partition after the classes of the first p entries have been split. */
  ghost function SplitUpTo(part: seq<int>, ms: seq<int>, n: nat, p: nat): (r: seq<int>)
    requires Entries(part, ms, n) && p <= |ms|
    ensures |r| == |part|
    ensures forall x :: 0 <= x < |part| ==>
      r[x] == 2 * part[x] + (if x in Members(ms) && Done(part, ms, n, p, part[x]) then 1 else 0)
  {
    seq(|part|, x requires 0 <= x < |part| => 2 * part[x] + (if x in Members(ms) && Done(part, ms, n, p, part[x]) then 1 else 0))
  }

  lemma SplitNothing(fwd: seq<int>, bck: seq<int>, part: seq<int>, ms: seq<int>, n: nat)
    requires Entries(part, ms, n) && Linked(fwd, bck, part, n)
    ensures Linked(fwd, bck, SplitUpTo(part, ms, n, 0), n)
  {
    var p0 := SplitUpTo(part, ms, n, 0);
    forall x | 1 <= x <= n
      ensures IsNext(p0, n, x, fwd[x]) && IsPrev(p0, n, x, bck[x])
    {
      assert IsNext(part, n, x, fwd[x]) && IsPrev(part, n, x, bck[x]);
    }
  }

  lemma SplitAll(part: seq<int>, ms: seq<int>, n: nat)
    requires Entries(part, ms, n)
    ensures SplitUpTo(part, ms, n, |ms|) == Refine(part, Members(ms))
  {
    forall x | 0 <= x < |part| && x in Members(ms)
      ensures Done(part, ms, n, |ms|, part[x])
    {
      var k :| 0 <= k < |ms| && ms[k] == x;
    }
  }

  /** Skipping entries whose classes are already split changes nothing. */
  lemma SplitSkip(part: seq<int>, ms: seq<int>, n: nat, p: nat, q: nat)
    requires Entries(part, ms, n) && p <= q <= |ms|
    requires forall k :: p <= k < q ==> Done(part, ms, n, p, part[ms[k]])
    ensures forall l :: Done(part, ms, n, p, l) <==> Done(part, ms, n, q, l)
    ensures SplitUpTo(part, ms, n, p) == SplitUpTo(part, ms, n, q)
  {
  }

  lemma DoneStep(part: seq<int>, ms: seq<int>, n: nat, p: nat, l: int)
    requires Entries(part, ms, n) && p < |ms|
    ensures Done(part, ms, n, p + 1, l) <==> Done(part, ms, n, p, l) || part[ms[p]] == l
  {
  }

  /** No member of a class with a fresh entry comes before that entry. */
  lemma NoneBefore(part: seq<int>, ms: seq<int>, n: nat, p: nat, z: int)
    requires Entries(part, ms, n) && p < |ms| && !Done(part, ms, n, p, part[ms[p]])
    requires 0 <= z < ms[p] && part[z] == part[ms[p]]
    ensures z !in Members(ms)
  {
    forall k | 0 <= k < |ms| && ms[k] < ms[p] ensures part[ms[k]] != part[ms[p]] {
      assert k < p;
    }
  }

  /** Carving the class of a fresh entry is the next step of the split. */
  lemma SplitStep(fwd: seq<int>, bck: seq<int>, part: seq<int>, ms: seq<int>, n: nat, p: nat)
    requires Entries(part, ms, n) && p < |ms| && !Done(part, ms, n, p, part[ms[p]])
    requires Linked(fwd, bck, SplitUpTo(part, ms, n, p), n)
    ensures var cur, l := SplitUpTo(part, ms, n, p), part[ms[p]];
      && 2 * l + 1 !in cur
      && WalkPre(fwd, bck, cur, Members(ms), n, ms[p])
      && Carve(cur, cur[ms[p]], Members(ms), 2 * l + 1) == SplitUpTo(part, ms, n, p + 1)
  {
    hide Linked, Done;
    var cur, l := SplitUpTo(part, ms, n, p), part[ms[p]];
    forall z | 1 <= z < ms[p] && cur[z] == cur[ms[p]] ensures z !in Members(ms) {
      NoneBefore(part, ms, n, p, z);
    }
    forall m: int ensures Done(part, ms, n, p + 1, m) <==> Done(part, ms, n, p, m) || m == l {
      DoneStep(part, ms, n, p, m);
    }
  }

  /** Exactly the entries from cclp on whose class is already split are flagged. */
  ghost predicate Pending(flags: seq<bool>, part: seq<int>, ms: seq<int>, n: nat, p: nat, cclp: nat)
    requires Entries(part, ms, n) && p <= cclp <= |ms| <= |flags|
  {
    forall k :: 0 <= k < |flags| ==> (flags[k] <==> (cclp <= k < |ms| && Done(part, ms, n, p, part[ms[k]])))
  }

  lemma PendingOpens(flags: seq<bool>, part: seq<int>, ms: seq<int>, n: nat, p: nat)
    requires Entries(part, ms, n) && p < |ms| <= |flags|
    requires Pending(flags, part, ms, n, p, p) && !flags[p]
    ensures 0 <= ms[p] < |part| && !Done(part, ms, n, p, part[ms[p]])
    ensures Unflagged(flags, ms, SplitUpTo(part, ms, n, p), p)
  {
    hide Done;
  }

  lemma EntryOpens(fwd: seq<int>, bck: seq<int>, flags: seq<bool>, part: seq<int>, ms: seq<int>, n: nat, p: nat, cur: seq<int>)
    returns (unused: int)
    requires Entries(part, ms, n) && p < |ms| <= |flags|
    requires Pending(flags, part, ms, n, p, p) && !flags[p]
    requires cur == SplitUpTo(part, ms, n, p) && Linked(fwd, bck, cur, n)
    ensures WalkPre(fwd, bck, cur, Members(ms), n, ms[p]) && Unflagged(flags, ms, cur, p) && unused !in cur
    ensures Carve(cur, cur[ms[p]], Members(ms), unused) == SplitUpTo(part, ms, n, p + 1)
  {
    PendingOpens(flags, part, ms, n, p);
    SplitStep(fwd, bck, part, ms, n, p);
    unused := 2 * part[ms[p]] + 1;
  }

  lemma PendingAfterWalk(flags: seq<bool>, flags0: seq<bool>, part: seq<int>, ms: seq<int>, n: nat, p: nat)
    requires Entries(part, ms, n) && p < |ms| <= |flags0| == |flags|
    requires Pending(flags0, part, ms, n, p, p) && !flags0[p]
    requires Flagged(flags, flags0, ms, SplitUpTo(part, ms, n, p), p, n + 1)
    ensures Pending(flags, part, ms, n, p + 1, p + 1)
  {
    forall l: int ensures Done(part, ms, n, p + 1, l) <==> Done(part, ms, n, p, l) || part[ms[p]] == l {
      DoneStep(part, ms, n, p, l);
    }
    hide Done;
    forall k | p < k < |ms| && !Done(part, ms, n, p, part[ms[k]])
      ensures SplitUpTo(part, ms, n, p)[ms[k]] == 2 * part[ms[k]]
    {
    }
  }

  /** Finds the next entry to process, resetting the flags of those it passes. */
  method SkipProcessed(cclflags: array<bool>, lenccl: nat, start: nat, ghost part: seq<int>, ghost ms: seq<int>,
                       ghost n: nat, ghost p: nat)
    returns (cclp: nat)
    requires Entries(part, ms, n) && p <= start <= lenccl == |ms| <= cclflags.Length
    requires Pending(cclflags[..], part, ms, n, p, start)
    modifies cclflags
    ensures start <= cclp <= lenccl
    ensures forall k :: start <= k < cclp ==> Done(part, ms, n, p, part[ms[k]])
    ensures Pending(cclflags[..], part, ms, n, p, cclp)
    ensures cclp < lenccl ==> !cclflags[cclp]
  {
    hide Done;
    cclp := start;
    while cclp < lenccl && cclflags[cclp]
      invariant start <= cclp <= lenccl
      invariant forall k :: start <= k < cclp ==> Done(part, ms, n, p, part[ms[k]])
      invariant Pending(cclflags[..], part, ms, n, p, cclp)
    {
      cclflags[cclp] := false;
      cclp := cclp + 1;
    }
  }

  lemma PendingSkipped(flags: seq<bool>, part: seq<int>, ms: seq<int>, n: nat, p: nat, q: nat)
    requires Entries(part, ms, n) && p <= q <= |ms| <= |flags|
    requires Pending(flags, part, ms, n, p, q)
    requires forall k :: p <= k < q ==> Done(part, ms, n, p, part[ms[k]])
    ensures Pending(flags, part, ms, n, q, q)
    ensures SplitUpTo(part, ms, n, p) == SplitUpTo(part, ms, n, q)
  {
    SplitSkip(part, ms, n, p, q);
    hide Done;
  }

  /** Before the first entry is processed. */
  lemma SplittingStarts(flags: seq<bool>, fwd: seq<int>, bck: seq<int>, part: seq<int>, ms: seq<int>, n: nat)
    requires ClassEntries(ms, n) && Linked(fwd, bck, part, n) && |ms| <= |flags| && forall k :: 0 <= k < |flags| ==> !flags[k]
    ensures Entries(part, ms, n) && Linked(fwd, bck, SplitUpTo(part, ms, n, 0), n) && Pending(flags, part, ms, n, 0, 0)
    ensures SplitUpTo(part, ms, n, |ms|) == Refine(part, Members(ms))
  {
    hide Members, Refine, SplitUpTo, ClassEntries;
    LinkedFits(fwd, bck, part, n);
    SplitNothing(fwd, bck, part, ms, n);
    SplitAll(part, ms, n);
  }

  lemma LinkedFits(fwd: seq<int>, bck: seq<int>, part: seq<int>, n: nat)
    requires Linked(fwd, bck, part, n)
    ensures n < |part|
  {
  }

  lemma SymbolsLength(ccls: seq<int>, nulMapping: int)
    ensures |Symbols(ccls, nulMapping)| == |ccls|
  {
  }

  /** With every entry processed no flag is set. */
  lemma PendingDone(flags: seq<bool>, part: seq<int>, ms: seq<int>, n: nat)
    requires Entries(part, ms, n) && |ms| <= |flags|
    requires Pending(flags, part, ms, n, |ms|, |ms|)
    ensures forall k :: 0 <= k < |flags| ==> !flags[k]
  {
  }

  /** Splits the class of the entry at p and moves on to the next entry of a class not yet split. */
  method ProcessEntry(ccls: seq<int>, fwd: array<int>, bck: array<int>, llsiz: nat, nulMapping: int,
                      cclflags: array<bool>, p: nat, ghost part: seq<int>)
    returns (cclp: nat)
    requires fwd != bck
    requires Entries(part, Symbols(ccls, nulMapping), llsiz) && p < |ccls| <= cclflags.Length
    requires Linked(fwd[..], bck[..], SplitUpTo(part, Symbols(ccls, nulMapping), llsiz, p), llsiz)
    requires Pending(cclflags[..], part, Symbols(ccls, nulMapping), llsiz, p, p) && !cclflags[p]
    modifies fwd, bck, cclflags
    ensures p < cclp <= |ccls|
    ensures Linked(fwd[..], bck[..], SplitUpTo(part, Symbols(ccls, nulMapping), llsiz, cclp), llsiz)
    ensures Pending(cclflags[..], part, Symbols(ccls, nulMapping), llsiz, cclp, cclp)
    ensures cclp < |ccls| ==> !cclflags[cclp]
  {
    ghost var ms, n, flags0 := Symbols(ccls, nulMapping), llsiz, cclflags[..];
    hide *;
    ghost var cur := SplitUpTo(part, ms, n, p);
    ghost var unused := EntryOpens(fwd[..], bck[..], flags0, part, ms, n, p, cur);
    WalkClass(ccls, fwd, bck, llsiz, nulMapping, cclflags, p, cur, unused);
    PendingAfterWalk(cclflags[..], flags0, part, ms, n, p);
    cclp := SkipProcessed(cclflags, |ccls|, p + 1, part, ms, n, p + 1);
    PendingSkipped(cclflags[..], part, ms, n, p + 1, cclp);
  }

  /**
   Splits the classes of a partition by the members of a character class: afterwards two
   symbols share a list exactly when they did before and are both in or both out of the class.
   The flags used on the way are all clear again at the end.
   */
  method MkECcl(ccls: seq<int>, fwd: array<int>, bck: array<int>, llsiz: nat, nulMapping: int,
                cclflags: array<bool>, ghost part: seq<int>)
    requires fwd != bck
    requires Linked(fwd[..], bck[..], part, llsiz)
    requires ClassEntries(Symbols(ccls, nulMapping), llsiz)
    requires |ccls| <= cclflags.Length
    requires forall k :: 0 <= k < cclflags.Length ==> !cclflags[k]
    modifies fwd, bck, cclflags
    ensures Linked(fwd[..], bck[..], Refine(part, Members(Symbols(ccls, nulMapping))), llsiz)
    ensures forall k :: 0 <= k < cclflags.Length ==> !cclflags[k]
  {
    hide Linked, SplitUpTo, Done, Pending, ClassEntries, Members, Entries, Refine, Symbols;
    ghost var ms, n := Symbols(ccls, nulMapping), llsiz;
    SplittingStarts(cclflags[..], fwd[..], bck[..], part, ms, n);
    SymbolsLength(ccls, nulMapping);
    var lenccl := |ccls|;
    var cclp := 0;
    while cclp < lenccl
      invariant 0 <= cclp <= lenccl
      invariant Linked(fwd[..], bck[..], SplitUpTo(part, ms, n, cclp), n)
      invariant Pending(cclflags[..], part, ms, n, cclp, cclp)
      invariant cclp < lenccl ==> !cclflags[cclp]
    {
      cclp := ProcessEntry(ccls, fwd, bck, llsiz, nulMapping, cclflags, cclp, part);
    }
    PendingDone(cclflags[..], part, ms, n);
  }
}
