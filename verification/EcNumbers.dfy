/**
 Numbering the equivalence classes and translating character classes to class numbers
 (`ext/flex/ecs.c`, `cre8ecs` and `ccl2ecl`).
 */
module EcNumbers {
  import opened Ecs

  // ---- the numbers a partition calls for ----

  /** The least z >= from whose class is that of x. */
  ghost function LeastFrom(part: seq<int>, x: nat, from: nat): (r: nat)
    requires from <= x < |part|
    ensures from <= r <= x && part[r] == part[x]
    ensures forall z :: from <= z < r ==> part[z] != part[x]
    decreases x - from
  {
    if part[from] == part[x] then from else LeastFrom(part, x, from + 1)
  }

  /** The least member of x's class. */
  ghost function Least(part: seq<int>, x: nat): (r: nat)
    requires 1 <= x < |part|
    ensures 1 <= r <= x && part[r] == part[x]
    ensures forall z :: 1 <= z < r ==> part[z] != part[x]
  {
    LeastFrom(part, x, 1)
  }

  /** How many of 1..k are least in their class. */
  ghost function NumClasses(part: seq<int>, k: nat): nat
    requires k < |part|
  {
    if k == 0 then 0 else NumClasses(part, k - 1) + (if Least(part, k) == k then 1 else 0)
  }

  /** The number of x's class, counting classes in order of their least members. */
  ghost function ClassNumber(part: seq<int>, x: nat): nat
    requires 1 <= x < |part|
  {
    NumClasses(part, Least(part, x))
  }

  /** What cre8ecs leaves in bck: the class number, negative unless x is the representative. */
  ghost function Code(part: seq<int>, x: nat): int
    requires 1 <= x < |part|
  {
    if Least(part, x) == x then ClassNumber(part, x) else 0 - ClassNumber(part, x)
  }

  lemma {:induction false} NumClassesMonotone(part: seq<int>, j: nat, k: nat)
    requires j <= k < |part|
    ensures NumClasses(part, j) <= NumClasses(part, k) <= NumClasses(part, j) + (k - j)
    ensures j < k && Least(part, k) == k ==> NumClasses(part, j) < NumClasses(part, k)
    decreases k
  {
    if j < k {
      NumClassesMonotone(part, j, k - 1);
    }
  }

  /** Least members of different classes are numbered in their own order. */
  lemma NumbersFollowLeast(part: seq<int>, x: nat, y: nat)
    requires 1 <= x < |part| && 1 <= y < |part|
    ensures Least(part, x) < Least(part, y) <==> ClassNumber(part, x) < ClassNumber(part, y)
    ensures part[x] == part[y] <==> ClassNumber(part, x) == ClassNumber(part, y)
    ensures 1 <= ClassNumber(part, x) <= NumClasses(part, |part| - 1)
  {
    var a, b := Least(part, x), Least(part, y);
    assert Least(part, a) == a && Least(part, b) == b;
    if a < b { NumClassesMonotone(part, a, b); }
    if b < a { NumClassesMonotone(part, b, a); }
    NumClassesMonotone(part, 0, a);
    NumClassesMonotone(part, a, |part| - 1);
    assert part[x] == part[y] ==> a == b;
  }

  /** Every number up to the number of classes is the number of some class. */
  lemma {:induction false} EveryNumberUsed(part: seq<int>, k: nat, c: nat) returns (x: nat)
    requires k < |part| && 1 <= c <= NumClasses(part, k)
    ensures 1 <= x <= k && Least(part, x) == x && ClassNumber(part, x) == c
  {
    if Least(part, k) == k && NumClasses(part, k) == c {
      x := k;
    } else {
      x := EveryNumberUsed(part, k - 1, c);
    }
  }

  // ---- cre8ecs ----

  /** Classes whose least member is below i carry their numbers, the others their back links. */
  ghost predicate NumberedBelow(bck: seq<int>, bck0: seq<int>, part: seq<int>, n: nat, i: nat)
    requires |bck| == |bck0| && n < |bck| && n + 1 == |part|
  {
    forall x :: 1 <= x <= n ==> bck[x] == if Least(part, x) < i then Code(part, x) else bck0[x]
  }

  /** As NumberedBelow(i + 1), except that of i's class only the members below f are numbered. */
  ghost predicate NumberingClass(bck: seq<int>, bck0: seq<int>, part: seq<int>, n: nat, i: nat, f: int)
    requires |bck| == |bck0| && n < |bck| && n + 1 == |part|
  {
    forall x :: 1 <= x <= n ==>
      bck[x] == if Least(part, x) < i || (Least(part, x) == i && x < f) then Code(part, x) else bck0[x]
  }

  /** A back link is NIL at i exactly when i opens a class not numbered yet. */
  lemma UnnumberedAt(bck: seq<int>, bck0: seq<int>, part: seq<int>, n: nat, i: nat)
    requires |bck| == |bck0| && n < |bck| && n + 1 == |part| && 1 <= i <= n
    requires NumberedBelow(bck, bck0, part, n, i) && IsPrev(part, n, i, bck0[i])
    ensures bck[i] == NIL <==> Least(part, i) == i
    ensures NumClasses(part, i) == NumClasses(part, i - 1) + if bck[i] == NIL then 1 else 0
    ensures bck[i] != NIL ==> NumberedBelow(bck, bck0, part, n, i + 1)
    ensures bck[i] == NIL ==> NumberingClass(bck[i := NumClasses(part, i - 1) + 1], bck0, part, n, i, i + 1)
  {
    NumbersFollowLeast(part, i, i);
    forall x | 1 <= x <= n && Least(part, x) == i ensures Least(part, i) == i {
    }
  }

  lemma NumberMember(bck: seq<int>, bck0: seq<int>, part: seq<int>, n: nat, i: nat, j: nat, j': int)
    requires |bck| == |bck0| && n < |bck| && n + 1 == |part| && 1 <= i < j <= n
    requires Least(part, i) == i && part[j] == part[i] && IsNext(part, n, j, j')
    requires NumberingClass(bck, bck0, part, n, i, j)
    ensures NumberingClass(bck[j := 0 - NumClasses(part, i)], bck0, part, n, i, Frontier(j', n))
    ensures j' != NIL ==> j < j' <= n && part[j'] == part[i]
  {
    assert Least(part, j) == i;
    forall x | 1 <= x <= n && Least(part, x) == i && j < x ensures Frontier(j', n) <= x {
      assert part[x] == part[j];
    }
  }

  lemma NumberingStarts(bck: seq<int>, bck0: seq<int>, part: seq<int>, n: nat, i: nat, j: int)
    requires |bck| == |bck0| && n < |bck| && n + 1 == |part| && 1 <= i <= n && IsNext(part, n, i, j)
    requires NumberingClass(bck, bck0, part, n, i, i + 1) && Least(part, i) == i
    ensures NumberingClass(bck, bck0, part, n, i, Frontier(j, n))
    ensures j != NIL ==> i < j <= n && part[j] == part[i]
  {
    forall x | 1 <= x <= n && Least(part, x) == i && i < x ensures Frontier(j, n) <= x {
      assert part[x] == part[i];
    }
  }

  lemma AllNumbered(bck: seq<int>, bck0: seq<int>, part: seq<int>, n: nat)
    requires |bck| == |bck0| && n < |bck| && n + 1 == |part| && NumberedBelow(bck, bck0, part, n, n + 1)
    ensures forall x :: 1 <= x <= n ==> bck[x] == Code(part, x)
  {
  }

  lemma NumberingBegins(fwd: seq<int>, bck: seq<int>, part: seq<int>, n: nat)
    requires Linked(fwd, bck, part, n) && |part| == n + 1
    ensures NumberedBelow(bck, bck, part, n, 1) && NumClasses(part, 0) == 0
    ensures forall x :: 1 <= x <= n ==> IsNext(part, n, x, fwd[x]) && IsPrev(part, n, x, bck[x])
  {
    hide IsNext, IsPrev;
  }

  /** Numbers the classes held in fwd/bck; bck receives the numbers. */
  method Cre8Ecs(fwd: array<int>, bck: array<int>, num: nat, ghost part: seq<int>) returns (numcl: int)
    requires fwd != bck && |part| == num + 1 && num < fwd.Length && num < bck.Length
    requires Linked(fwd[..], bck[..], part, num)
    modifies bck
    ensures numcl == NumClasses(part, num)
    ensures forall x :: 1 <= x <= num ==> bck[x] == Code(part, x)
  {
    hide Linked, NumberedBelow, NumberingClass, IsNext, IsPrev, NumClasses, Least, Code;
    ghost var bck0 := bck[..];
    NumberingBegins(fwd[..], bck0, part, num);
    numcl := 0;
    var i := 1;
    while i <= num
      invariant 1 <= i <= num + 1
      invariant numcl == NumClasses(part, i - 1)
      invariant NumberedBelow(bck[..], bck0, part, num, i)
    {
      UnnumberedAt(bck[..], bck0, part, num, i);
      if bck[i] == NIL {
        numcl := numcl + 1;
        bck[i] := numcl;
        NumberRest(fwd, bck, num, i, numcl, part, bck0);
      }
      i := i + 1;
    }
    AllNumbered(bck[..], bck0, part, num);
  }

  /** Gives the members of i's class after i their number. */
  method NumberRest(fwd: array<int>, bck: array<int>, num: nat, i: nat, numcl: int, ghost part: seq<int>, ghost bck0: seq<int>)
    requires fwd != bck && num < bck.Length == |bck0| && num < fwd.Length && |part| == num + 1
    requires forall x :: 1 <= x <= num ==> IsNext(part, num, x, fwd[x])
    requires 1 <= i <= num && Least(part, i) == i && numcl == NumClasses(part, i)
    requires NumberingClass(bck[..], bck0, part, num, i, i + 1)
    modifies bck
    ensures NumberedBelow(bck[..], bck0, part, num, i + 1)
  {
    var j := fwd[i];
    NumberingStarts(bck[..], bck0, part, num, i, j);
    while j != NIL
      invariant j == NIL || (i < j <= num && part[j] == part[i])
      invariant NumberingClass(bck[..], bck0, part, num, i, Frontier(j, num))
      decreases num + 1 - Frontier(j, num)
    {
      NumberMember(bck[..], bck0, part, num, i, j, fwd[j]);
      bck[j] := -numcl;
      j := fwd[j];
    }
  }

  // ---- what a whole sequence of refinements means ----

  /** The partition after mkechar/mkeccl calls with these member sets, in order. */
  ghost function RefineAll(part: seq<int>, sets: seq<set<int>>): (r: seq<int>)
    ensures |r| == |part|
  {
    if sets == [] then part else Refine(RefineAll(part, sets[..|sets| - 1]), sets[|sets| - 1])
  }

  /** Two symbols end in one class exactly when no character or class of the input tells them apart. */
  lemma {:induction false} RefineAllIsExact(part: seq<int>, sets: seq<set<int>>, x: nat, y: nat)
    requires x < |part| && y < |part|
    ensures RefineAll(part, sets)[x] == RefineAll(part, sets)[y] <==>
      part[x] == part[y] && forall k :: 0 <= k < |sets| ==> (x in sets[k] <==> y in sets[k])
  {
    if sets != [] {
      var front := sets[..|sets| - 1];
      RefineAllIsExact(part, front, x, y);
      RefineIsExact(RefineAll(part, front), sets[|sets| - 1], x, y);
      assert forall k :: 0 <= k < |sets| ==> sets[k] == if k < |front| then front[k] else sets[|sets| - 1];
    }
  }

  /** s is a union of classes. */
  ghost predicate Respects(part: seq<int>, s: set<int>) {
    forall x, y :: 0 <= x < |part| && 0 <= y < |part| && part[x] == part[y] ==> (x in s <==> y in s)
  }

  lemma RefineAllRespects(part: seq<int>, sets: seq<set<int>>, k: nat)
    requires k < |sets|
    ensures Respects(RefineAll(part, sets), sets[k])
  {
    forall x: nat, y: nat | x < |part| && y < |part| && RefineAll(part, sets)[x] == RefineAll(part, sets)[y]
      ensures x in sets[k] <==> y in sets[k]
    {
      RefineAllIsExact(part, sets, x, y);
    }
  }

  // ---- ccl2ecl ----

  predicate InRange(entries: seq<int>, size: nat) {
    forall k :: 0 <= k < |entries| ==> 0 <= entries[k] < size
  }

  /** The class numbers of the representatives among the entries, in entry order. */
  function Translate(ecgroup: seq<int>, entries: seq<int>): (r: seq<int>)
    requires InRange(entries, |ecgroup|)
    ensures |r| <= |entries|
  {
    if entries == [] then [] else
      var last := entries[|entries| - 1];
      Translate(ecgroup, entries[..|entries| - 1]) + (if ecgroup[last] > 0 then [ecgroup[last]] else [])
  }

  /** ecgroup as cre8ecs and the NUL mapping leave it: entry 0 repeats the entry of symbol n. */
  ghost predicate Coded(ecgroup: seq<int>, part: seq<int>, n: nat) {
    && 1 <= n && |part| == n + 1 && n < |ecgroup|
    && (forall x :: 1 <= x <= n ==> ecgroup[x] == Code(part, x))
    && ecgroup[0] == ecgroup[n]
  }

  lemma CodeAt(ecgroup: seq<int>, part: seq<int>, n: nat, ch: nat, x: nat)
    requires Coded(ecgroup, part, n) && x == Mapped(ch, n) && 1 <= x <= n
    ensures ecgroup[ch] == Code(part, x)
    ensures ecgroup[ch] > 0 <==> Least(part, x) == x
    ensures ecgroup[ch] > 0 ==> ecgroup[ch] == ClassNumber(part, x) <= NumClasses(part, n)
  {
    NumbersFollowLeast(part, x, x);
  }

  /** x is the least member of its class and one of ms. */
  ghost predicate RepIn(part: seq<int>, n: nat, ms: seq<int>, x: nat)
    requires |part| == n + 1
  {
    1 <= x <= n && Least(part, x) == x && x in ms
  }

  /** t lists the numbers of the representatives among ms, ascending. */
  ghost predicate ListsReps(part: seq<int>, n: nat, ms: seq<int>, t: seq<int>)
    requires |part| == n + 1
  {
    && StrictlyAscending(t)
    && (forall c :: c in t ==> exists x :: RepIn(part, n, ms, x) && ClassNumber(part, x) == c)
    && (forall x :: RepIn(part, n, ms, x) ==> ClassNumber(part, x) in t)
  }

  /** One more entry, greater than the ones before. */
  lemma ListsRepsStep(part: seq<int>, n: nat, ms: seq<int>, last: nat, t: seq<int>)
    requires |part| == n + 1 && 1 <= last <= n && (forall m :: m in ms ==> m < last)
    requires ListsReps(part, n, ms, t)
    ensures Least(part, last) != last ==> ListsReps(part, n, ms + [last], t)
    ensures Least(part, last) == last ==> ListsReps(part, n, ms + [last], t + [ClassNumber(part, last)])
  {
    var ms', c := ms + [last], ClassNumber(part, last);
    forall x | RepIn(part, n, ms, x) ensures RepIn(part, n, ms', x) {
    }
    if Least(part, last) == last {
      assert RepIn(part, n, ms', last);
      forall k | 0 <= k < |t| ensures t[k] < c {
        assert t[k] in t;
        var x :| RepIn(part, n, ms, x) && ClassNumber(part, x) == t[k];
        NumbersFollowLeast(part, x, last);
      }
    }
    hide Least, ClassNumber;
  }

  lemma NothingListed(part: seq<int>, n: nat, ms: seq<int>)
    requires |part| == n + 1 && ms == []
    ensures ListsReps(part, n, ms, [])
  {
  }

  /** The last entry of a class is greater than the others. */
  lemma SymbolsSplit(ccls: seq<int>, n: nat, front: seq<int>, last: int)
    requires ccls != [] && ClassEntries(Symbols(ccls, n), n) && front == ccls[..|ccls| - 1] && last == Mapped(ccls[|ccls| - 1], n)
    ensures Symbols(ccls, n) == Symbols(front, n) + [last] && 1 <= last <= n
    ensures ClassEntries(Symbols(front, n), n) && forall m :: m in Symbols(front, n) ==> m < last
  {
    hide Mapped;
    assert Symbols(ccls, n) == Symbols(front, n) + [last];
  }

  lemma CodedFits(ecgroup: seq<int>, part: seq<int>, n: nat)
    requires Coded(ecgroup, part, n)
    ensures |part| == n + 1 && n < |ecgroup|
  {
  }

  /** The translated list is the ascending list of the numbers of the representatives in the class. */
  lemma {:induction false} TranslateLists(ecgroup: seq<int>, part: seq<int>, n: nat, ccls: seq<int>)
    requires Coded(ecgroup, part, n) && ClassEntries(Symbols(ccls, n), n)
    requires InRange(ccls, |ecgroup|)
    ensures ListsReps(part, n, Symbols(ccls, n), Translate(ecgroup, ccls))
  {
    hide Coded, ListsReps, Least, ClassNumber, Code, Mapped, RepIn, ClassEntries;
    CodedFits(ecgroup, part, n);
    if ccls == [] {
      NothingListed(part, n, Symbols(ccls, n));
    } else {
      var front, last := ccls[..|ccls| - 1], ccls[|ccls| - 1];
      SymbolsSplit(ccls, n, front, Mapped(last, n));
      CodeAt(ecgroup, part, n, last, Mapped(last, n));
      TranslateLists(ecgroup, part, n, front);
      ListsRepsStep(part, n, Symbols(front, n), Mapped(last, n), Translate(ecgroup, front));
      var t := Translate(ecgroup, front);
      if ecgroup[last] > 0 {
        assert Translate(ecgroup, ccls) == t + [ClassNumber(part, Mapped(last, n))];
      } else {
        assert Translate(ecgroup, ccls) == t;
      }
    }
  }

  lemma ListsRepsExact(part: seq<int>, n: nat, ms: seq<int>, t: seq<int>, x: nat)
    requires |part| == n + 1 && 1 <= x <= n && Respects(part, Members(ms))
    requires ListsReps(part, n, ms, t)
    ensures forall c :: c in t ==> 1 <= c <= NumClasses(part, n)
    ensures ClassNumber(part, x) in t <==> x in ms
  {
    forall c | c in t ensures 1 <= c <= NumClasses(part, n) {
      var y :| RepIn(part, n, ms, y) && ClassNumber(part, y) == c;
      NumbersFollowLeast(part, y, y);
    }
    if ClassNumber(part, x) in t {
      var y :| RepIn(part, n, ms, y) && ClassNumber(part, y) == ClassNumber(part, x);
      NumbersFollowLeast(part, x, y);
      assert y in Members(ms);
    }
    if x in Members(ms) {
      var l := Least(part, x);
      assert l in Members(ms);
      assert RepIn(part, n, ms, l);
      NumbersFollowLeast(part, x, l);
    }
  }

  /**
   Nothing is lost by keeping representatives only: a translated class has its numbers in
   strictly ascending order, and any symbol is in the class exactly when its number is listed.
   */
  lemma TranslateIsExact(ecgroup: seq<int>, part: seq<int>, n: nat, ccls: seq<int>, x: nat)
    requires Coded(ecgroup, part, n) && ClassEntries(Symbols(ccls, n), n)
    requires InRange(ccls, |ecgroup|)
    requires Respects(part, Members(Symbols(ccls, n)))
    requires 1 <= x <= n
    ensures var t := Translate(ecgroup, ccls);
      && StrictlyAscending(t)
      && (forall c :: c in t ==> 1 <= c <= NumClasses(part, n))
      && (ClassNumber(part, x) in t <==> x in Symbols(ccls, n))
  {
    TranslateLists(ecgroup, part, n, ccls);
    ListsRepsExact(part, n, Symbols(ccls, n), Translate(ecgroup, ccls), x);
    hide Translate, Respects, InRange, Symbols, Members;
  }

  /** Class numbers as the character table stores them, one byte each. */
  function Stored(t: seq<int>): (r: seq<int>)
    ensures |r| == |t| && forall k :: 0 <= k < |t| ==> r[k] == t[k] % CSIZE
  {
    seq(|t|, k requires 0 <= k < |t| => t[k] % CSIZE)
  }

  /**
   Storing class numbers in bytes loses nothing: the one number that does not fit is 256, it
   is then the class of NUL, and readers map a stored 0 to the class of NUL.
   */
  lemma StoredIsExact(part: seq<int>, n: nat, t: seq<int>)
    requires 1 <= n <= CSIZE && |part| == n + 1
    requires forall k :: 0 <= k < |t| ==> 1 <= t[k] <= NumClasses(part, n)
    ensures Symbols(Stored(t), ClassNumber(part, n)) == t
  {
    NumClassesMonotone(part, 0, n - 1);
    NumClassesMonotone(part, n - 1, n);
    NumbersFollowLeast(part, n, n);
    var nul := ClassNumber(part, n);
    assert NumClasses(part, n) == CSIZE ==> nul == CSIZE;
    forall k | 0 <= k < |t| ensures Mapped(t[k] % CSIZE, nul) == t[k] {
      if t[k] < CSIZE {
        assert t[k] % CSIZE == t[k];
      }
    }
  }

  /** The entries of one class in the class table. */
  function ClassAt(tbl: seq<int>, at: int, len: int): seq<int>
    requires 0 <= at && 0 <= len && at + len <= |tbl|
  {
    tbl[at..at + len]
  }

  lemma TranslateMore(ecgroup: seq<int>, entries: seq<int>, ich: int)
    requires InRange(entries, |ecgroup|) && 0 <= ich < |ecgroup|
    ensures InRange(entries + [ich], |ecgroup|)
    ensures Stored(Translate(ecgroup, entries + [ich])) ==
      Stored(Translate(ecgroup, entries)) + (if ecgroup[ich] > 0 then [ecgroup[ich] % CSIZE] else [])
  {
    assert (entries + [ich])[..|entries|] == entries;
  }

  /** The first `read` entries of the class at cclp are replaced by their `newlen` class numbers. */
  ghost predicate PartTranslated(tbl: seq<int>, tbl0: seq<int>, cclp: nat, len: nat, ecgroup: seq<int>, read: nat, newlen: nat)
    requires cclp + len <= |tbl0| && InRange(ClassAt(tbl0, cclp, len), |ecgroup|)
  {
    && |tbl| == |tbl0| && newlen <= read <= len
    && (forall k :: 0 <= k < |tbl| && (k < cclp || cclp + read <= k) ==> tbl[k] == tbl0[k])
    && ClassAt(tbl, cclp, newlen) == Stored(Translate(ecgroup, ClassAt(tbl0, cclp, len)[..read]))
  }

  lemma TranslateEntry(tbl: seq<int>, tbl0: seq<int>, cclp: nat, len: nat, ecgroup: seq<int>, read: nat, newlen: nat)
    requires cclp + len <= |tbl0| && InRange(ClassAt(tbl0, cclp, len), |ecgroup|) && read < len
    requires PartTranslated(tbl, tbl0, cclp, len, ecgroup, read, newlen)
    ensures 0 <= tbl[cclp + read] < |ecgroup|
    ensures var c := ecgroup[tbl[cclp + read]];
      if c > 0 then PartTranslated(tbl[cclp + newlen := c % CSIZE], tbl0, cclp, len, ecgroup, read + 1, newlen + 1)
      else PartTranslated(tbl, tbl0, cclp, len, ecgroup, read + 1, newlen)
  {
    var cls, ich := ClassAt(tbl0, cclp, len), tbl[cclp + read];
    assert cls[read] == ich;
    assert cls[..read + 1] == cls[..read] + [ich];
    TranslateMore(ecgroup, cls[..read], ich);
    hide Translate, Stored, InRange;
    var c := ecgroup[ich];
    if c > 0 {
      assert ClassAt(tbl[cclp + newlen := c % CSIZE], cclp, newlen + 1) == ClassAt(tbl, cclp, newlen) + [c % CSIZE];
    }
  }

  /** Replaces the entries of a class by class numbers, in place; returns the new length. */
  method TranslateInPlace(ccltbl: array<int>, cclp: nat, len: nat, ecgroup: seq<int>) returns (newlen: nat)
    requires cclp + len <= ccltbl.Length && InRange(ClassAt(ccltbl[..], cclp, len), |ecgroup|)
    modifies ccltbl
    ensures newlen <= len
    ensures ClassAt(ccltbl[..], cclp, newlen) == Stored(Translate(ecgroup, old(ClassAt(ccltbl[..], cclp, len))))
    ensures ccltbl[..cclp] == old(ccltbl[..cclp]) && ccltbl[cclp + len..] == old(ccltbl[cclp + len..])
  {
    ghost var tbl0 := ccltbl[..];
    newlen := 0;
    var ccls := 0;
    while ccls < len
      invariant 0 <= ccls <= len && newlen <= ccls
      invariant PartTranslated(ccltbl[..], tbl0, cclp, len, ecgroup, ccls, newlen)
    {
      TranslateEntry(ccltbl[..], tbl0, cclp, len, ecgroup, ccls, newlen);
      var ich := ccltbl[cclp + ccls];
      var cclmec := ecgroup[ich];
      if cclmec > 0 {
        ccltbl[cclp + newlen] := cclmec % CSIZE;
        newlen := newlen + 1;
      }
      ccls := ccls + 1;
    }
    assert ClassAt(tbl0, cclp, len)[..len] == ClassAt(tbl0, cclp, len);
  }

  /** The classes lie one after the other in the class table. */
  ghost predicate LaidOut(cclmap: seq<int>, ccllen: seq<int>, size: nat, lastccl: nat) {
    && lastccl < |cclmap| && lastccl < |ccllen|
    && (forall i :: 1 <= i <= lastccl ==> 0 <= cclmap[i] && 0 <= ccllen[i] && cclmap[i] + ccllen[i] <= size)
    && (forall i, j :: 1 <= i < j <= lastccl ==> cclmap[i] + ccllen[i] <= cclmap[j])
  }

  /** The entries of class k are character codes ecgroup knows. */
  ghost predicate ClassOk(tbl: seq<int>, cclmap: seq<int>, ccllen: seq<int>, size: nat, k: nat) {
    && k < |cclmap| && k < |ccllen| && 0 <= cclmap[k] && 0 <= ccllen[k] && cclmap[k] + ccllen[k] <= |tbl|
    && InRange(ClassAt(tbl, cclmap[k], ccllen[k]), size)
  }

  /** Class k in tbl/len is the translation of class k in tbl0/len0. */
  ghost predicate TranslatedClass(tbl: seq<int>, len: seq<int>, tbl0: seq<int>, len0: seq<int>, cclmap: seq<int>,
                                  ecgroup: seq<int>, k: nat)
    requires ClassOk(tbl0, cclmap, len0, |ecgroup|, k)
  {
    && k < |len| && 0 <= len[k] <= len0[k] && cclmap[k] + len[k] <= |tbl|
    && ClassAt(tbl, cclmap[k], len[k]) == Stored(Translate(ecgroup, ClassAt(tbl0, cclmap[k], len0[k])))
  }

  ghost predicate SameClass(tbl: seq<int>, len: seq<int>, tbl0: seq<int>, len0: seq<int>, cclmap: seq<int>,
                            ecgroup: seq<int>, k: nat)
    requires ClassOk(tbl0, cclmap, len0, |ecgroup|, k)
  {
    && k < |len| && len[k] == len0[k] && cclmap[k] + len[k] <= |tbl|
    && ClassAt(tbl, cclmap[k], len[k]) == ClassAt(tbl0, cclmap[k], len0[k])
  }

  /** Classes below i are translated, the others as they were. */
  ghost predicate Translated(tbl: seq<int>, len: seq<int>, tbl0: seq<int>, len0: seq<int>, cclmap: seq<int>,
                             ecgroup: seq<int>, lastccl: nat, i: nat)
    requires 1 <= i && forall k :: 1 <= k <= lastccl ==> ClassOk(tbl0, cclmap, len0, |ecgroup|, k)
  {
    && |tbl| == |tbl0| && |len| == |len0|
    && (forall k :: 1 <= k < i && k <= lastccl ==> TranslatedClass(tbl, len, tbl0, len0, cclmap, ecgroup, k))
    && (forall k :: i <= k <= lastccl ==> SameClass(tbl, len, tbl0, len0, cclmap, ecgroup, k))
  }

  /** A change between a and b leaves the classes elsewhere as they are. */
  lemma SliceKept(tbl1: seq<int>, tbl: seq<int>, a: nat, b: nat, at: nat, len: nat)
    requires |tbl1| == |tbl| && a <= b <= |tbl| && tbl1[..a] == tbl[..a] && tbl1[b..] == tbl[b..]
    requires at + len <= a || (b <= at && at + len <= |tbl|)
    ensures ClassAt(tbl1, at, len) == ClassAt(tbl, at, len)
  {
    forall k | at <= k < at + len ensures tbl1[k] == tbl[k] {
      if at + len <= a {
        assert tbl1[k] == tbl1[..a][k] && tbl[k] == tbl[..a][k];
      } else {
        assert tbl1[k] == tbl1[b..][k - b] && tbl[k] == tbl[b..][k - b];
      }
    }
  }

  lemma OtherClassKept(tbl1: seq<int>, len: seq<int>, tbl: seq<int>, tbl0: seq<int>, len0: seq<int>, cclmap: seq<int>,
                       ecgroup: seq<int>, a: nat, b: nat, k: nat)
    requires ClassOk(tbl0, cclmap, len0, |ecgroup|, k) && |tbl1| == |tbl|
    requires a <= b <= |tbl| && tbl1[..a] == tbl[..a] && tbl1[b..] == tbl[b..]
    requires cclmap[k] + len0[k] <= a || b <= cclmap[k]
    ensures TranslatedClass(tbl, len, tbl0, len0, cclmap, ecgroup, k) ==> TranslatedClass(tbl1, len, tbl0, len0, cclmap, ecgroup, k)
    ensures SameClass(tbl, len, tbl0, len0, cclmap, ecgroup, k) ==> SameClass(tbl1, len, tbl0, len0, cclmap, ecgroup, k)
  {
    if k < |len| && 0 <= len[k] <= len0[k] && cclmap[k] + len[k] <= |tbl| {
      SliceKept(tbl1, tbl, a, b, cclmap[k], len[k]);
    }
  }

  lemma OtherLength(tbl: seq<int>, len: seq<int>, tbl0: seq<int>, len0: seq<int>, cclmap: seq<int>, ecgroup: seq<int>,
                    i: nat, len1: seq<int>, k: nat)
    requires ClassOk(tbl0, cclmap, len0, |ecgroup|, k) && i < |len| == |len1| && k != i && (k < |len| ==> len1[k] == len[k])
    ensures TranslatedClass(tbl, len, tbl0, len0, cclmap, ecgroup, k) <==> TranslatedClass(tbl, len1, tbl0, len0, cclmap, ecgroup, k)
    ensures SameClass(tbl, len, tbl0, len0, cclmap, ecgroup, k) <==> SameClass(tbl, len1, tbl0, len0, cclmap, ecgroup, k)
  {
  }

  lemma ThisClass(tbl1: seq<int>, len: seq<int>, tbl0: seq<int>, len0: seq<int>, cclmap: seq<int>, ecgroup: seq<int>,
                  i: nat, newlen: nat, len1: seq<int>)
    requires ClassOk(tbl0, cclmap, len0, |ecgroup|, i) && i < |len| && len1 == len[i := newlen]
    requires newlen <= len0[i] && cclmap[i] + newlen <= |tbl1|
    requires ClassAt(tbl1, cclmap[i], newlen) == Stored(Translate(ecgroup, ClassAt(tbl0, cclmap[i], len0[i])))
    ensures TranslatedClass(tbl1, len1, tbl0, len0, cclmap, ecgroup, i)
  {
    hide Translate, Stored, ClassAt;
  }

  lemma TranslatedStep(tbl1: seq<int>, len: seq<int>, tbl: seq<int>, tbl0: seq<int>, len0: seq<int>, cclmap: seq<int>,
                       ecgroup: seq<int>, lastccl: nat, i: nat, newlen: nat, len1: seq<int>)
    requires i < |len| && len1 == len[i := newlen]
    requires LaidOut(cclmap, len0, |tbl0|, lastccl) && 1 <= i <= lastccl && |tbl1| == |tbl| && newlen <= len0[i]
    requires forall k :: 1 <= k <= lastccl ==> ClassOk(tbl0, cclmap, len0, |ecgroup|, k)
    requires Translated(tbl, len, tbl0, len0, cclmap, ecgroup, lastccl, i)
    requires ClassOk(tbl0, cclmap, len0, |ecgroup|, i)
    requires ClassAt(tbl1, cclmap[i], newlen) == Stored(Translate(ecgroup, ClassAt(tbl0, cclmap[i], len0[i])))
    requires tbl1[..cclmap[i]] == tbl[..cclmap[i]] && tbl1[cclmap[i] + len0[i]..] == tbl[cclmap[i] + len0[i]..]
    ensures Translated(tbl1, len1, tbl0, len0, cclmap, ecgroup, lastccl, i + 1)
  {
    hide TranslatedClass, SameClass, ClassOk, Translate, Stored, ClassAt;
    ThisClass(tbl1, len, tbl0, len0, cclmap, ecgroup, i, newlen, len1);
    forall k | 1 <= k < i
      ensures TranslatedClass(tbl1, len1, tbl0, len0, cclmap, ecgroup, k)
    {
      OtherClassKept(tbl1, len, tbl, tbl0, len0, cclmap, ecgroup, cclmap[i], cclmap[i] + len0[i], k);
      OtherLength(tbl1, len, tbl0, len0, cclmap, ecgroup, i, len1, k);
    }
    forall k | i < k <= lastccl
      ensures SameClass(tbl1, len1, tbl0, len0, cclmap, ecgroup, k)
    {
      OtherClassKept(tbl1, len, tbl, tbl0, len0, cclmap, ecgroup, cclmap[i], cclmap[i] + len0[i], k);
      OtherLength(tbl1, len, tbl0, len0, cclmap, ecgroup, i, len1, k);
    }
  }

  /** Turns every character class into the list of its class numbers. */
  method Ccl2Ecl(cclmap: array<int>, ccllen: array<int>, ccltbl: array<int>, ecgroup: seq<int>, lastccl: nat)
    requires ccllen != ccltbl && cclmap != ccltbl && cclmap != ccllen
    requires LaidOut(cclmap[..], ccllen[..], ccltbl.Length, lastccl)
    requires forall k :: 1 <= k <= lastccl ==> ClassOk(ccltbl[..], cclmap[..], ccllen[..], |ecgroup|, k)
    modifies ccllen, ccltbl
    ensures forall k :: 1 <= k <= lastccl ==>
      TranslatedClass(ccltbl[..], ccllen[..], old(ccltbl[..]), old(ccllen[..]), cclmap[..], ecgroup, k)
  {
    ghost var map0, len0, tbl0 := cclmap[..], ccllen[..], ccltbl[..];
    forall k | 1 <= k <= lastccl ensures SameClass(tbl0, len0, tbl0, len0, map0, ecgroup, k) {
      assert ClassOk(tbl0, map0, len0, |ecgroup|, k);
    }
    var i := 1;
    hide Translate, LaidOut, TranslatedClass;
    while i <= lastccl
      invariant 1 <= i <= lastccl + 1
      invariant Translated(ccltbl[..], ccllen[..], tbl0, len0, map0, ecgroup, lastccl, i)
    {
      ghost var tbl, len := ccltbl[..], ccllen[..];
      assert ClassOk(tbl0, map0, len0, |ecgroup|, i) && SameClass(tbl, len, tbl0, len0, map0, ecgroup, i);
      var newlen := TranslateInPlace(ccltbl, cclmap[i], ccllen[i], ecgroup);
      ccllen[i] := newlen;
      TranslatedStep(ccltbl[..], len, tbl, tbl0, len0, map0, ecgroup, lastccl, i, newlen, ccllen[..]);
      i := i + 1;
    }
  }
}
