/** The versions of one key, newest first, and what the operations of `src/backend/storage.cc` do to them. */
module Versions {

  /** NULL, or the bytes of a value. */
  datatype Value = Null | Data(bytes: seq<int>)

  datatype Ver = Ver(version: int, value: Value)

  ghost predicate Descending(c: seq<Ver>) {
    forall i, j :: 0 <= i < j < |c| ==> c[i].version > c[j].version
  }

  /** The number of leading versions >= v. */
  function CountFrom(c: seq<Ver>, v: int): (n: nat)
    ensures n <= |c| && (forall i :: 0 <= i < n ==> c[i].version >= v) && (n < |c| ==> c[n].version < v)
  {
    if c == [] || c[0].version < v then 0 else 1 + CountFrom(c[1..], v)
  }

  /** The value as of version v: that of the newest version strictly older than v. */
  function Read(c: seq<Ver>, v: int): Value {
    var n := CountFrom(c, v);
    if n < |c| then c[n].value else Null
  }

  /** The versions as a map. */
  ghost function AsMap(c: seq<Ver>): (m: map<int, Value>) {
    if c == [] then map[] else AsMap(c[1..])[c[0].version := c[0].value]
  }

  /** Writing at a version: a new entry in its place, or an overwritten one. */
  function Write(c: seq<Ver>, v: int, x: Value): seq<Ver> {
    var n := CountFrom(c, v + 1);
    if n < |c| && c[n].version == v then c[n := Ver(v, x)] else c[..n] + [Ver(v, x)] + c[n..]
  }

  /** The chain without the versions from the first one <= v to the last one > minimum. */
  function Cut(c: seq<Ver>, v: int, minimum: int): seq<Ver> {
    var i := CountFrom(c, v + 1);
    c[..i] + c[i..][CountFrom(c[i..], minimum + 1)..]
  }

  lemma CutNothing(c: seq<Ver>, v: int, minimum: int)
    requires var i := CountFrom(c, v + 1); i == |c| || c[i].version <= minimum
    ensures Cut(c, v, minimum) == c
  {
    var i := CountFrom(c, v + 1);
    if i < |c| {
      assert c[i..][0] == c[i];
    }
    assert c[..i] + c[i..] == c;
  }

  /** What PruneRow leaves, and its result. */
  function Prune(c: seq<Ver>, v: int, multiple: bool, minimum: int, unsafe: bool): (seq<Ver>, bool) {
    var i := CountFrom(c, v + 1);
    if i == |c| || (|c| == 1 && !unsafe) then (c, false)
    else if c[i].version <= minimum then (c, true)
    else if i == 0 && multiple && !unsafe then (c, false)
    else if multiple then (Cut(c, v, minimum), true)
    else (c[..i] + c[i + 1..], true)
  }

  // ---- reading ----

  /** Read gives the value of the greatest version below v, or NULL if there is none. */
  lemma ReadIsNewest(c: seq<Ver>, v: int)
    requires Descending(c)
    ensures forall i :: 0 <= i < |c| && c[i].version < v && (forall j :: 0 <= j < |c| && c[j].version < v ==> c[j].version <= c[i].version) ==>
      Read(c, v) == c[i].value
    ensures (forall i :: 0 <= i < |c| ==> c[i].version >= v) ==> Read(c, v) == Null
  {
    var n := CountFrom(c, v);
    forall i | 0 <= i < |c| && c[i].version < v && (forall j :: 0 <= j < |c| && c[j].version < v ==> c[j].version <= c[i].version)
      ensures Read(c, v) == c[i].value
    {
      assert n <= i;
      assert c[n].version <= c[i].version;
    }
  }

  lemma {:induction false} AsMapHas(c: seq<Ver>, v: int)
    requires Descending(c)
    ensures v in AsMap(c) <==> exists i :: 0 <= i < |c| && c[i].version == v
    ensures forall i :: 0 <= i < |c| && c[i].version == v ==> AsMap(c)[v] == c[i].value
  {
    if c != [] {
      AsMapHas(c[1..], v);
      if v in AsMap(c) && v != c[0].version {
        var i :| 0 <= i < |c[1..]| && c[1..][i].version == v;
        assert c[i + 1].version == v;
      }
    }
  }

  /** A chain is determined by the versions and values in it. */
  lemma {:induction false} ChainIsDetermined(c: seq<Ver>, d: seq<Ver>)
    requires Descending(c) && Descending(d) && AsMap(c) == AsMap(d)
    ensures c == d
  {
    if c != [] {
      AsMapHas(c, c[0].version);
      AsMapHas(d, c[0].version);
      var j :| 0 <= j < |d| && d[j].version == c[0].version;
      AsMapHas(d, d[0].version);
      AsMapHas(c, d[0].version);
      var i :| 0 <= i < |c| && c[i].version == d[0].version;
      assert d[0] == c[0];
      TailsAgree(c, d);
      ChainIsDetermined(c[1..], d[1..]);
    } else if d != [] {
      AsMapHas(d, d[0].version);
    }
  }

  lemma TailsAgree(c: seq<Ver>, d: seq<Ver>)
    requires Descending(c) && Descending(d) && AsMap(c) == AsMap(d) && c != [] && d != [] && c[0] == d[0]
    ensures AsMap(c[1..]) == AsMap(d[1..])
  {
    AsMapHas(c[1..], c[0].version);
    AsMapHas(d[1..], d[0].version);
    assert AsMap(c[1..]) == AsMap(c) - {c[0].version};
    assert AsMap(d[1..]) == AsMap(d) - {c[0].version};
  }

  // ---- writing ----

  lemma WriteDescends(c: seq<Ver>, v: int, x: Value)
    requires Descending(c)
    ensures Descending(Write(c, v, x))
  {
  }

  /** d is c with an entry at n replaced or inserted. */
  ghost predicate Entered(c: seq<Ver>, d: seq<Ver>, n: int, e: Ver) {
    && 0 <= n <= |c|
    && (d == c[..n] + [e] + c[n..] || (n < |c| && c[n].version == e.version && d == c[n := e]))
  }

  lemma EntryStays(c: seq<Ver>, d: seq<Ver>, n: int, e: Ver, i: int) returns (j: int)
    requires Entered(c, d, n, e) && 0 <= i < |c| && c[i].version != e.version
    ensures 0 <= j < |d| && d[j] == c[i]
  {
    j := if |d| != |c| && n <= i then i + 1 else i;
  }

  lemma EntryWas(c: seq<Ver>, d: seq<Ver>, n: int, e: Ver, j: int) returns (i: int)
    requires Entered(c, d, n, e) && 0 <= j < |d| && d[j].version != e.version
    ensures 0 <= i < |c| && d[j] == c[i]
  {
    i := if |d| != |c| && n <= j then j - 1 else j;
  }

  /** Other versions are the same in both. */
  lemma EntryMoves(c: seq<Ver>, d: seq<Ver>, n: int, e: Ver, u: int)
    requires Entered(c, d, n, e) && u != e.version && Descending(c) && Descending(d)
    ensures u in AsMap(d) <==> u in AsMap(c)
    ensures u in AsMap(d) ==> AsMap(d)[u] == AsMap(c)[u]
  {
    hide AsMap, Entered;
    AsMapHas(c, u);
    AsMapHas(d, u);
    if u in AsMap(c) {
      var i :| 0 <= i < |c| && c[i].version == u;
      var j := EntryStays(c, d, n, e, i);
    }
    if u in AsMap(d) {
      var j :| 0 <= j < |d| && d[j].version == u;
      var i := EntryWas(c, d, n, e, j);
    }
  }

  /** Writing is updating the map of versions. */
  lemma WriteIsUpdate(c: seq<Ver>, v: int, x: Value)
    requires Descending(c)
    ensures AsMap(Write(c, v, x)) == AsMap(c)[v := x]
  {
    hide AsMap, Descending;
    var d := Write(c, v, x);
    WriteDescends(c, v, x);
    var n := CountFrom(c, v + 1);
    assert d[n] == Ver(v, x);
    AsMapHas(d, v);
    forall u
      ensures u in AsMap(d) <==> u in AsMap(c)[v := x]
      ensures u in AsMap(d) ==> AsMap(d)[u] == AsMap(c)[v := x][u]
    {
      if u != v {
        EntryMoves(c, d, n, Ver(v, x), u);
      }
    }
  }

  /** Writes at different versions commute. */
  lemma WritesCommute(c: seq<Ver>, v: int, x: Value, w: int, y: Value)
    requires Descending(c) && v != w
    ensures Write(Write(c, v, x), w, y) == Write(Write(c, w, y), v, x)
  {
    hide Write, Descending, AsMap;
    WriteDescends(c, v, x);
    WriteDescends(c, w, y);
    WriteDescends(Write(c, v, x), w, y);
    WriteDescends(Write(c, w, y), v, x);
    WriteIsUpdate(c, v, x);
    WriteIsUpdate(c, w, y);
    WriteIsUpdate(Write(c, v, x), w, y);
    WriteIsUpdate(Write(c, w, y), v, x);
    assert AsMap(c)[v := x][w := y] == AsMap(c)[w := y][v := x];
    ChainIsDetermined(Write(Write(c, v, x), w, y), Write(Write(c, w, y), v, x));
  }

  /** CountFrom is the only position with smaller versions after it and no smaller ones before it. */
  lemma {:induction false} CountIs(c: seq<Ver>, v: int, n: int)
    requires 0 <= n <= |c| && (forall i :: 0 <= i < n ==> c[i].version >= v) && (n < |c| ==> c[n].version < v)
    ensures CountFrom(c, v) == n
  {
    if n > 0 {
      CountIs(c[1..], v, n - 1);
    }
  }

  /** A read at or below the written version is not affected. */
  lemma ReadBelowWrite(c: seq<Ver>, w: int, x: Value, r: int)
    requires Descending(c) && r <= w
    ensures Read(Write(c, w, x), r) == Read(c, r)
  {
    var d := Write(c, w, x);
    var n, m := CountFrom(c, w + 1), CountFrom(c, r);
    if n < |c| && c[n].version == w {
      CountIs(d, r, m);
    } else {
      assert n <= m;
      CountIs(d, r, m + 1);
    }
  }

  /** A read above it sees the written value unless a version lies between. */
  lemma ReadAboveWrite(c: seq<Ver>, w: int, x: Value, r: int)
    requires Descending(c) && w < r
    ensures Read(Write(c, w, x), r) == if forall i :: 0 <= i < |c| ==> !(w < c[i].version < r) then x else Read(c, r)
  {
    var d := Write(c, w, x);
    var n, m := CountFrom(c, w + 1), CountFrom(c, r);
    if m < n {
      assert w < c[m].version < r;
      CountIs(d, r, m);
    } else {
      CountIs(d, r, n);
    }
  }

  /** A write is seen by exactly the reads above it that no other version lies between. */
  lemma ReadAfterWrite(c: seq<Ver>, w: int, x: Value, r: int)
    requires Descending(c)
    ensures Read(Write(c, w, x), r) ==
      if w < r && forall i :: 0 <= i < |c| ==> !(w < c[i].version < r) then x else Read(c, r)
  {
    hide Read, Write;
    if w < r {
      ReadAboveWrite(c, w, x, r);
    } else {
      ReadBelowWrite(c, w, x, r);
    }
  }

  // ---- pruning ----

  /** The versions above minimum and up to v. */
  predicate Pruned(e: Ver, v: int, minimum: int) {
    minimum < e.version <= v
  }

  function Keeping(c: seq<Ver>, v: int, minimum: int): seq<Ver> {
    if c == [] then [] else (if Pruned(c[0], v, minimum) then [] else [c[0]]) + Keeping(c[1..], v, minimum)
  }

  /** Safe pruning never takes a key's last version. */
  lemma SafePruneLeavesSome(c: seq<Ver>, v: int, multiple: bool, minimum: int)
    requires c != []
    ensures Prune(c, v, multiple, minimum, false).0 != []
  {
  }

  lemma {:induction false} KeepingNone(c: seq<Ver>, v: int, minimum: int)
    requires forall i :: 0 <= i < |c| ==> !Pruned(c[i], v, minimum)
    ensures Keeping(c, v, minimum) == c
  {
    if c != [] {
      KeepingNone(c[1..], v, minimum);
    }
  }

  lemma {:induction false} KeepingHead(c: seq<Ver>, v: int, minimum: int, i: nat)
    requires i <= |c| && forall j :: 0 <= j < i ==> c[j].version > v
    ensures Keeping(c, v, minimum) == c[..i] + Keeping(c[i..], v, minimum)
  {
    if i > 0 {
      KeepingHead(c[1..], v, minimum, i - 1);
      assert c[1..][i - 1..] == c[i..] && c[..i] == [c[0]] + c[1..][..i - 1];
    } else {
      assert c[0..] == c;
    }
  }

  lemma SuffixDescends(c: seq<Ver>, i: nat)
    requires Descending(c) && i <= |c|
    ensures Descending(c[i..])
  {
  }

  /** Keeping cuts out the middle of a chain. */
  lemma KeepingCuts(c: seq<Ver>, v: int, minimum: int)
    requires Descending(c)
    ensures Keeping(c, v, minimum) == Cut(c, v, minimum)
  {
    hide Descending, Keeping;
    var i := CountFrom(c, v + 1);
    SuffixDescends(c, i);
    KeepingHead(c, v, minimum, i);
    KeepingTail(c[i..], v, minimum);
  }

  lemma {:induction false} KeepingTail(c: seq<Ver>, v: int, minimum: int)
    requires Descending(c) && (c != [] ==> c[0].version <= v)
    ensures Keeping(c, v, minimum) == c[CountFrom(c, minimum + 1)..]
  {
    if c != [] {
      if c[0].version > minimum {
        KeepingTail(c[1..], v, minimum);
      } else {
        KeepingNone(c, v, minimum);
      }
    }
  }

  /**
   With multiple set, PruneRow either changes nothing or removes exactly the versions above minimum
   and up to v; safely it does so exactly if a newer version stays at the front.
   */
  lemma PruneManyIsExact(c: seq<Ver>, v: int, minimum: int, unsafe: bool)
    requires Descending(c)
    ensures var (d, ok) := Prune(c, v, true, minimum, unsafe);
      && (d == c || d == Keeping(c, v, minimum))
      && (unsafe ==> d == Keeping(c, v, minimum))
      && (!unsafe && c != [] && c[0].version > v ==> d == Keeping(c, v, minimum))
      && (!unsafe && c != [] && c[0].version <= v ==> d == c)
  {
    hide Cut, Keeping, Descending;
    KeepingCuts(c, v, minimum);
    var i := CountFrom(c, v + 1);
    if i == |c| || c[i].version <= minimum {
      CutNothing(c, v, minimum);
    }
  }

  /** Keeping leaves out exactly the versions above minimum and up to v, in the order there was. */
  lemma {:induction false} KeepingHas(c: seq<Ver>, v: int, minimum: int)
    requires Descending(c)
    ensures Descending(Keeping(c, v, minimum))
    ensures forall e :: e in Keeping(c, v, minimum) <==> e in c && !(minimum < e.version <= v)
  {
    if c != [] {
      SuffixDescends(c, 1);
      KeepingHas(c[1..], v, minimum);
      assert c == [c[0]] + c[1..];
      forall e | e in c[1..]
        ensures e.version < c[0].version
      {
        var i :| 0 <= i < |c[1..]| && c[1..][i] == e;
        assert c[i + 1] == e;
      }
    }
  }

  /** Pruning reports success unless there is no version up to v, or only one version at all, or, safely, it would have to take the newest one. */
  lemma PruneSucceeds(c: seq<Ver>, v: int, multiple: bool, minimum: int, unsafe: bool)
    requires Descending(c)
    ensures Prune(c, v, multiple, minimum, unsafe).1 <==>
      && (exists i :: 0 <= i < |c| && c[i].version <= v) && (unsafe || |c| != 1)
      && (unsafe || !multiple || c[0].version > v || c[0].version <= minimum)
    ensures !Prune(c, v, multiple, minimum, unsafe).1 ==> Prune(c, v, multiple, minimum, unsafe).0 == c
  {
    var i := CountFrom(c, v + 1);
    if i < |c| {
      assert c[i].version <= v;
    }
  }

  /** Without multiple, PruneRow takes the newest version up to v and nothing else, if that is above minimum. */
  lemma PruneOneIsExact(c: seq<Ver>, v: int, minimum: int, unsafe: bool, i: int)
    requires Descending(c) && 0 <= i < |c| && c[i].version <= v && (i == 0 || c[i - 1].version > v)
    ensures Prune(c, v, false, minimum, unsafe) ==
      if |c| == 1 && !unsafe then (c, false) else if c[i].version <= minimum then (c, true) else (c[..i] + c[i + 1..], true)
  {
    CountIs(c, v + 1, i);
  }

  /** A read that has a version between v and itself is not affected by pruning up to v. */
  lemma PruneKeepsReads(c: seq<Ver>, v: int, multiple: bool, minimum: int, unsafe: bool, r: int, k: int)
    requires Descending(c) && 0 <= k < |c| && v < c[k].version < r
    ensures Read(Prune(c, v, multiple, minimum, unsafe).0, r) == Read(c, r)
  {
    var d := Prune(c, v, multiple, minimum, unsafe).0;
    var i, m := CountFrom(c, v + 1), CountFrom(c, r);
    assert m <= k < i;
    CountIs(d, r, m);
  }
}
