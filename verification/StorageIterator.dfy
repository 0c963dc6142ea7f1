/** A cursor over the keys visible at a version (`src/backend/storage_iterator.cc`). */
module StorageCursor {
  import opened Versions
  import opened Keys
  import opened StorageLayer

  /** The keys of s in ascending order. */
  ghost predicate IsLine(line: seq<Key>, s: set<Key>) {
    (forall i, j :: 0 <= i < j < |line| ==> Less(line[i], line[j])) && forall k :: k in s <==> k in line
  }

  lemma {:induction false} LineExists(s: set<Key>) returns (line: seq<Key>)
    ensures IsLine(line, s)
  {
    line := [];
    if s != {} {
      var last := Greatest(s);
      var init := LineExists(s - {last});
      line := init + [last];
      forall i, j | 0 <= i < j < |line|
        ensures Less(line[i], line[j])
      {
        assert j == |init| ==> line[i] in s - {last};
      }
    }
  }

  lemma {:induction false} Greatest(s: set<Key>) returns (last: Key)
    requires s != {}
    ensures last in s && forall k :: k in s && k != last ==> Less(k, last)
  {
    var k :| k in s;
    if s == {k} {
      last := k;
    } else {
      last := Greatest(s - {k});
      LessTotal(k, last);
      if Less(last, k) {
        forall u | u in s && u != k
          ensures Less(u, k)
        {
          if u != last {
            LessTransitive(u, last, k);
          }
        }
        last := k;
      }
    }
  }

  /** There is only one line. */
  lemma {:induction false} LineIsUnique(a: seq<Key>, b: seq<Key>, s: set<Key>)
    requires IsLine(a, s) && IsLine(b, s)
    ensures a == b
    decreases |a|
  {
    LineIsEmpty(a, s);
    LineIsEmpty(b, s);
    if a != [] {
      var x, y := a[|a| - 1], b[|b| - 1];
      LastIsGreatest(a, s);
      LastIsGreatest(b, s);
      assert x in s && y in s;
      LessIrreflexive(x);
      if x != y {
        LessTransitive(x, y, x);
      }
      InitIsLine(a, s);
      InitIsLine(b, s);
      LineIsUnique(a[..|a| - 1], b[..|b| - 1], s - {x});
      assert a == a[..|a| - 1] + [x] && b == b[..|b| - 1] + [y];
    }
  }

  lemma LineIsEmpty(a: seq<Key>, s: set<Key>)
    requires IsLine(a, s)
    ensures a == [] <==> s == {}
  {
    if a != [] {
      assert a[0] in s;
    }
  }

  lemma LastIsGreatest(a: seq<Key>, s: set<Key>)
    requires IsLine(a, s) && a != []
    ensures forall k :: k in s && k != a[|a| - 1] ==> Less(k, a[|a| - 1])
  {
  }

  lemma InitIsLine(a: seq<Key>, s: set<Key>)
    requires IsLine(a, s) && a != []
    ensures IsLine(a[..|a| - 1], s - {a[|a| - 1]})
  {
    LessIrreflexive(a[|a| - 1]);
    assert a == a[..|a| - 1] + [a[|a| - 1]];
  }

  // ---- neighbours in the line ----

  /** The key at position p of the line, where 0 is before and |line| + 1 after it. */
  ghost function Neighbour(line: seq<Key>, p: int): Maybe {
    if 1 <= p <= |line| then Just(line[p - 1]) else Nothing
  }

  /** key stands at position p, or outside the line on the side of p. */
  ghost predicate Stands(line: seq<Key>, p: int, key: Key) {
    && 0 <= p <= |line| + 1
    && (p == 0 ==> forall i :: 0 <= i < |line| ==> !Less(line[i], key))
    && (p == |line| + 1 ==> forall i :: 0 <= i < |line| ==> !Less(key, line[i]))
    && (1 <= p <= |line| ==> key == line[p - 1])
  }

  lemma NearestIs(line: seq<Key>, s: set<Key>, up: bool, from: Maybe, r: Maybe, q: int)
    requires IsLine(line, s) && IsNearest(s, up, from, r) && if up then 1 <= q <= |line| + 1 else 0 <= q <= |line|
    requires forall i :: 0 <= i < |line| ==> (Beyond(up, from, line[i]) <==> if up then q <= i + 1 else i < q)
    ensures r == Neighbour(line, q)
  {
    if 1 <= q <= |line| {
      assert line[q - 1] in s;
    }
    if r.Just? {
      assert r.key in line;
      var j :| 0 <= j < |line| && line[j] == r.key;
      assert Beyond(up, from, line[j]);
      assert !Before(up, line[q - 1], line[j]);
    }
  }

  /** The keys beyond one that stands at p are those at the positions beyond p. */
  lemma BeyondIs(line: seq<Key>, s: set<Key>, up: bool, p: int, key: Key, q: int)
    requires IsLine(line, s) && Stands(line, p, key)
    requires if up then 1 <= p && q == (if p <= |line| then p + 1 else p) else p <= |line| && q == (if 1 <= p then p - 1 else p)
    ensures forall i :: 0 <= i < |line| ==> (Beyond(up, Just(key), line[i]) <==> if up then q <= i + 1 else i < q)
  {
    hide Less;
    forall i | 0 <= i < |line|
      ensures Beyond(up, Just(key), line[i]) <==> if up then q <= i + 1 else i < q
    {
      if 1 <= p <= |line| {
        LessIrreflexive(key);
        if i < p - 1 {
          LessAsymmetric(line[i], line[p - 1]);
        } else if i > p - 1 {
          LessAsymmetric(line[p - 1], line[i]);
        }
      }
    }
  }

  /** Having moved on to position q, or having found nothing there. */
  lemma Arrives(line: seq<Key>, s: set<Key>, up: bool, p: int, key: Key, q: int, next: Maybe)
    requires IsLine(line, s) && Stands(line, p, key) && q == Step(|line|, up, p) && next == Neighbour(line, q)
    ensures Stands(line, q, if next.Just? then next.key else key)
    ensures next == Nothing <==> q == if up then |line| + 1 else 0
  {
    hide Less;
    if next == Nothing && 1 <= p <= |line| {
      forall i | 0 <= i < |line|
        ensures !Before(up, key, line[i])
      {
        LessIrreflexive(key);
        if i < p - 1 {
          LessAsymmetric(line[i], line[p - 1]);
        } else if i > p - 1 {
          LessAsymmetric(line[p - 1], line[i]);
        }
      }
    }
  }

  /** Moving on from before the line, or from a position in it. */
  lemma NextIs(line: seq<Key>, s: set<Key>, up: bool, p: int, key: Key, r: Maybe, outside: bool)
    requires IsLine(line, s) && Stands(line, p, key) && outside == (p == if up then 0 else |line| + 1)
    requires IsNearest(s, up, if outside then Nothing else Just(key), r)
    ensures r == Neighbour(line, Step(|line|, up, p))
  {
    hide IsLine, Stands, IsNearest, Neighbour, Beyond;
    if outside {
      AllBeyond(line, up);
      NearestIs(line, s, up, Nothing, r, if up then 1 else |line|);
    } else {
      StandsIn(line, p, key);
      BeyondIs(line, s, up, p, key, Step(|line|, up, p));
      NearestIs(line, s, up, Just(key), r, Step(|line|, up, p));
    }
  }

  lemma AllBeyond(line: seq<Key>, up: bool)
    ensures forall i :: 0 <= i < |line| ==> Beyond(up, Nothing, line[i])
  {
  }

  lemma StandsIn(line: seq<Key>, p: int, key: Key)
    requires Stands(line, p, key)
    ensures 0 <= p <= |line| + 1
  {
  }

  lemma KeyIs(line: seq<Key>, p: int, key: Key)
    requires Stands(line, p, key)
    ensures 1 <= p <= |line| ==> key == line[p - 1]
  {
  }

  /** One position up or down a line of n keys, within 0 and n + 1. */
  function Step(n: nat, up: bool, p: int): int {
    if up then (if p <= n then p + 1 else p) else if 1 <= p then p - 1 else p
  }

  class StorageIterator {
    const storage: Storage
    const version: int
    var beforeFirst: bool
    var afterLast: bool
    var key: Key

    constructor (storage: Storage, version: int)
      requires storage.Valid()
      ensures this.storage == storage && this.version == version && storage.Valid()
      ensures forall line :: IsLine(line, storage.Visible(version)) ==> At(line, 0)
    {
      this.storage, this.version, beforeFirst, afterLast, key := storage, version, true, false, [];
    }

    /** The iterator is at position p of the line of visible keys: before it, at its p-th key, or after it. */
    ghost predicate At(line: seq<Key>, p: int)
      requires storage.Valid()
      reads this, storage, storage.repr
    {
      IsLine(line, storage.Visible(version)) && IsAt(line, p)
    }

    ghost predicate IsAt(line: seq<Key>, p: int)
      reads this
    {
      Stands(line, p, key) && beforeFirst == (p == 0) && afterLast == (p == |line| + 1)
    }

    method Valid(ghost line: seq<Key>, ghost p: int) returns (valid: bool)
      requires storage.Valid() && At(line, p)
      ensures valid == (1 <= p <= |line|)
    {
      valid := !beforeFirst && !afterLast;
    }

    /** Moves one position up. */
    method Next(ghost line: seq<Key>, ghost p: int)
      requires storage.Valid() && At(line, p)
      modifies this
      ensures IsAt(line, if p <= |line| then p + 1 else p)
      ensures p < |line| ==> key == line[p] && !beforeFirst && !afterLast
      ensures p >= |line| ==> afterLast && !beforeFirst
    {
      hide IsLine, IsNearest, Stands, Neighbour, Storage.Valid, Storage.Visible;
      StandsIn(line, p, key);
      var next;
      if beforeFirst {
        next := storage.FirstKey(version);
        NextIs(line, storage.Visible(version), true, p, key, next, true);
        Arrives(line, storage.Visible(version), true, p, key, Step(|line|, true, p), next);
        beforeFirst := false;
      } else {
        next := storage.GetNextKey(key, version);
        NextIs(line, storage.Visible(version), true, p, key, next, false);
        Arrives(line, storage.Visible(version), true, p, key, Step(|line|, true, p), next);
      }
      if next == Nothing {
        afterLast := true;
      } else {
        key := next.key;
      }
      KeyIs(line, Step(|line|, true, p), key);
    }

    /** Moves one position down. */
    method Prev(ghost line: seq<Key>, ghost p: int)
      requires storage.Valid() && At(line, p)
      modifies this
      ensures IsAt(line, if p > 0 then p - 1 else p)
      ensures p > 1 ==> key == line[p - 2] && !beforeFirst && !afterLast
      ensures p <= 1 ==> beforeFirst && !afterLast
    {
      hide IsLine, IsNearest, Stands, Neighbour, Storage.Valid, Storage.Visible;
      StandsIn(line, p, key);
      var next;
      if afterLast {
        next := storage.LastKey(version);
        NextIs(line, storage.Visible(version), false, p, key, next, true);
        Arrives(line, storage.Visible(version), false, p, key, Step(|line|, false, p), next);
        afterLast := false;
      } else {
        next := storage.GetPrevKey(key, version);
        NextIs(line, storage.Visible(version), false, p, key, next, false);
        Arrives(line, storage.Visible(version), false, p, key, Step(|line|, false, p), next);
      }
      if next == Nothing {
        beforeFirst := true;
      } else {
        key := next.key;
      }
      KeyIs(line, Step(|line|, false, p), key);
    }

    /** Moves to the first key, or after the line if it is empty. */
    method SeekToFirst(ghost line: seq<Key>, ghost p: int)
      requires storage.Valid() && At(line, p)
      modifies this
      ensures IsAt(line, 1)
      ensures if line == [] then afterLast && !beforeFirst else key == line[0] && !beforeFirst && !afterLast
    {
      hide IsLine, IsNearest, Neighbour, Less, Storage.Valid, Storage.Visible;
      var first := storage.FirstKey(version);
      AllBeyond(line, true);
      NearestIs(line, storage.Visible(version), true, Nothing, first, 1);
      NeighbourIs(line, 1);
      if first == Nothing {
        beforeFirst := false;
        afterLast := true;
      } else {
        key := first.key;
        beforeFirst := false;
        afterLast := false;
      }
    }

    /** Moves to the last key, or before the line if it is empty. */
    method SeekToLast(ghost line: seq<Key>, ghost p: int)
      requires storage.Valid() && At(line, p)
      modifies this
      ensures IsAt(line, |line|)
      ensures if line == [] then beforeFirst && !afterLast else key == line[|line| - 1] && !beforeFirst && !afterLast
    {
      hide IsLine, IsNearest, Neighbour, Less, Storage.Valid, Storage.Visible;
      var last := storage.LastKey(version);
      AllBeyond(line, false);
      NearestIs(line, storage.Visible(version), false, Nothing, last, |line|);
      NeighbourIs(line, |line|);
      if last == Nothing {
        beforeFirst := true;
        afterLast := false;
      } else {
        key := last.key;
        beforeFirst := false;
        afterLast := false;
      }
    }

    /**
     From a position in the line, moves to the first key that is not less than target, or after the
     line.  From before the line a target without a value leads to the line's first key instead, and
     one with a value leaves the iterator before the line; from after the line it stays there.
     */
    method Seek(target: Key, ghost line: seq<Key>, ghost p: int) returns (ghost q: int)
      requires storage.Valid() && At(line, p)
      modifies this
      ensures 1 <= q <= |line| + 1 && forall i :: 0 <= i < |line| ==> (Less(line[i], target) <==> i + 1 < q)
      ensures 1 <= p <= |line| ==> IsAt(line, q)
      ensures p == 0 && target !in storage.Visible(version) ==> IsAt(line, 1)
      ensures p == 0 && target in storage.Visible(version) ==> beforeFirst && !afterLast && key == target
      ensures p == |line| + 1 ==> !beforeFirst && afterLast && key == if q <= |line| then line[q - 1] else target
    {
      hide IsLine, IsNearest, Less, Neighbour, Storage.Valid, Storage.Visible;
      key := target;
      var found := storage.KeyExists(key, version);
      if found {
        q := SeekIs(line, storage.Visible(version), target, Nothing, true);
      } else {
        var next;
        if beforeFirst {
          beforeFirst := false;
          next := storage.FirstKey(version);
          AllBeyond(line, true);
          NearestIs(line, storage.Visible(version), true, Nothing, next, 1);
          NeighbourIs(line, 1);
          q := PlaceIs(line, storage.Visible(version), target, |line|);
        } else {
          next := storage.GetNextKey(key, version);
          q := SeekIs(line, storage.Visible(version), target, next, false);
        }
        if next == Nothing {
          afterLast := true;
        } else {
          key := next.key;
        }
      }
    }

    method Value() returns (value: Value)
      requires storage.Valid()
      ensures value == Read(storage.Chain(key), version)
    {
      value := storage.Get(key, version);
    }
  }

  lemma NeighbourIs(line: seq<Key>, q: int)
    ensures Neighbour(line, q) == (if 1 <= q <= |line| then Just(line[q - 1]) else Nothing)
  {
  }

  lemma LineIsInOrder(line: seq<Key>, s: set<Key>)
    requires IsLine(line, s)
    ensures (forall k :: k in line <==> k in s) && forall i, j :: 0 <= i < j < |line| ==> Less(line[i], line[j])
  {
  }

  /** Where the first of n keys from target on is. */
  lemma {:induction false} PlaceIs(line: seq<Key>, s: set<Key>, target: Key, n: nat) returns (q: int)
    requires IsLine(line, s) && n <= |line|
    ensures 1 <= q <= n + 1 && forall i :: 0 <= i < n ==> (Less(line[i], target) <==> i + 1 < q)
  {
    hide Less;
    q := 1;
    if n > 0 {
      q := PlaceIs(line, s, target, n - 1);
      if q < n {
        if Less(line[n - 1], target) {
          LessTransitive(line[q - 1], line[n - 1], target);
        }
      } else if Less(line[n - 1], target) {
        q := n + 1;
      }
    }
  }

  /** Where the first key from target on is. */
  lemma SeekIs(line: seq<Key>, s: set<Key>, target: Key, next: Maybe, found: bool) returns (q: int)
    requires IsLine(line, s) && found == (target in s) && (!found ==> IsNearest(s, true, Just(target), next))
    ensures 1 <= q <= |line| + 1 && forall i :: 0 <= i < |line| ==> (Less(line[i], target) <==> i + 1 < q)
    ensures if found then q <= |line| && target == line[q - 1]
            else if next.Just? then q <= |line| && next.key == line[q - 1] else q == |line| + 1
    ensures q == |line| + 1 ==> forall i :: 0 <= i < |line| ==> !Less(target, line[i])
  {
    hide Less;
    BeforeOrders(true);
    q := |line| + 1;
    if found || next.Just? {
      var key := if found then target else next.key;
      assert key in line;
      var j :| 0 <= j < |line| && line[j] == key;
      q := j + 1;
    }
    forall i | 0 <= i < |line|
      ensures Less(line[i], target) <==> i + 1 < q
      ensures q == |line| + 1 ==> !Less(target, line[i])
    {
      assert line[i] in s;
      SeekOrder(line, s, target, next, found, q, i);
    }
  }

  lemma SeekOrder(line: seq<Key>, s: set<Key>, target: Key, next: Maybe, found: bool, q: int, i: int)
    requires IsLine(line, s) && found == (target in s) && (!found ==> IsNearest(s, true, Just(target), next)) && 0 <= i < |line|
    requires if found then 1 <= q <= |line| && target == line[q - 1]
             else if next.Just? then 1 <= q <= |line| && next.key == line[q - 1] else q == |line| + 1
    ensures Less(line[i], target) <==> i + 1 < q
    ensures q == |line| + 1 ==> !Less(target, line[i])
  {
    hide Less;
    assert Beyond(true, Just(target), line[i]) <==> Before(true, target, line[i]);
    LessTotal(line[i], target);
    LessIrreflexive(target);
    assert line[i] in s;
    if Less(line[i], target) {
      LessAsymmetric(line[i], target);
    }
    if 1 <= q <= |line| {
      LessIrreflexive(line[q - 1]);
      if i < q - 1 {
        LessAsymmetric(line[i], line[q - 1]);
      } else if i > q - 1 {
        LessAsymmetric(line[q - 1], line[i]);
        if !found {
          LessTransitive(target, line[q - 1], line[i]);
          LessAsymmetric(target, line[i]);
        }
      }
    }
  }

  /** Reads all keys from first to last, the documented use of an iterator. */
  method Scan(it: StorageIterator, ghost line: seq<Key>, ghost p: int) returns (keys: seq<Key>)
    requires it.storage.Valid() && it.At(line, p)
    modifies it
    ensures keys == line && it.storage.Valid()
    ensures forall k :: k in keys <==> k in it.storage.Visible(it.version)
    ensures forall i, j :: 0 <= i < j < |keys| ==> Less(keys[i], keys[j])
  {
    hide Storage.Valid, Storage.Visible, IsLine, Less;
    LineIsInOrder(line, it.storage.Visible(it.version));
    it.SeekToFirst(line, p);
    keys := [];
    var valid := it.Valid(line, 1);
    ghost var q := 1;
    while valid
      invariant it.storage.Valid() && it.At(line, q) && 1 <= q <= |line| + 1
      invariant valid == (q <= |line|) && keys == line[..q - 1]
      decreases |line| + 1 - q
    {
      keys := keys + [it.key];
      it.Next(line, q);
      q := q + 1;
      valid := it.Valid(line, q);
    }
  }
}
