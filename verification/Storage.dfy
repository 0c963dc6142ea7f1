/**
 Multi-version storage: a list of rows per key (`Storage` in `src/backend/storage.cc`), without a
 decorator.  Its operations act on the chain of one key only, and as the functions on chains say.
 */
module StorageLayer {
  import opened Versions
  import opened RowChain
  import opened Keys
  import opened Databases

  /** The rows are those of key k, linked in order, newest version first. */
  ghost predicate ListOk(k: Key, rows: seq<Row>)
    reads rows
  {
    (forall r :: r in rows ==> r.key == k) && Chained(rows) && Descending(Contents(rows))
  }

  datatype Cell = Cell(version: int, value: Value, prev: Row?, next: Row?)

  class Storage {
    /** AtomicMap<Key, Row*>. */
    var objects: map<Key, Row?>
    ghost var chains: map<Key, seq<Row>>
    ghost var repr: set<Row>

    constructor ()
      ensures Valid() && Db() == map[] && fresh(repr)
    {
      objects, chains, repr := map[], map[], {};
    }

    ghost predicate ChainOk(k: Key)
      requires k in chains
      reads this, repr
    {
      (forall r :: r in chains[k] ==> r in repr) && ListOk(k, chains[k]) && k in objects && objects[k] == At(chains[k], 0)
    }

    ghost predicate Valid()
      reads this, repr
    {
      objects.Keys == chains.Keys && forall k :: k in chains ==> ChainOk(k)
    }

    /** The versions of every key. */
    ghost function Db(): Databases.Db
      requires Valid()
      reads this, repr
    {
      assert forall k :: k in chains ==> ChainOk(k);
      map k | k in chains :: Contents(chains[k])
    }

    /** The rows of a key, none if it is not there. */
    ghost function Rows(k: Key): seq<Row>
      reads this
    {
      if k in chains then chains[k] else []
    }

    /** The versions of a key, none if it is not there. */
    ghost function Chain(k: Key): seq<Ver>
      requires Valid()
      reads this, repr
    {
      if k in chains then assert ChainOk(k); Contents(chains[k]) else []
    }

    /** The head of a key's list, NULL if the key is not there. */
    function Head(k: Key): Row?
      reads this
    {
      if k in objects then objects[k] else null
    }

    lemma RowsAreOk(k: Key)
      requires Valid()
      ensures ListOk(k, Rows(k)) && Head(k) == At(Rows(k), 0) && Chain(k) == Contents(Rows(k))
      ensures Chained(Rows(k)) && Descending(Contents(Rows(k))) && forall r :: r in Rows(k) ==> r in repr
      ensures |Chain(k)| == |Rows(k)| && forall i :: 0 <= i < |Rows(k)| ==> Rows(k)[i].version == Chain(k)[i].version
    {
      if k in chains {
        assert ChainOk(k);
      }
    }

    /** The rows of a key are among the storage's own. */
    lemma RowsHave(k: Key)
      requires Valid()
      ensures forall r :: r in Rows(k) ==> r in repr
    {
      RowsAreOk(k);
    }

    lemma DbHas(k: Key)
      requires Valid()
      ensures Db().Keys == objects.Keys && (k in objects ==> Chain(k) == Db()[k]) && (k !in objects ==> Chain(k) == [])
    {
    }

    lemma EndsAre(k: Key, i: nat)
      requires Valid()
      ensures i < |Rows(k)| ==> (Rows(k)[i].prev == null <==> i == 0) && (Rows(k)[i].next == null <==> i == |Rows(k)| - 1)
    {
      hide Valid, ListOk, Descending, Contents;
      RowsAreOk(k);
    }

    /** Where row stands while c is being pruned from position i on, and j is next. */
    lemma PruningHas(key: Key, row: Row?, i: nat, j: nat, c: seq<Ver>, db0: map<Key, seq<Ver>>)
      requires Valid() && key in objects && i <= j <= |c| && Db() == db0[key := Gap(c, i, j)] && row == At(Rows(key), i)
      ensures Chain(key) == Gap(c, i, j) && (row != null <==> j < |c|) && forall r :: r in Rows(key) ==> r in repr
      ensures row != null ==> i < |Rows(key)| && row.version == c[j].version && (row.prev == null <==> i == 0)
    {
      hide Valid, ListOk, Descending, Db, Chain;
      DbHas(key);
      RowsAreOk(key);
    }

    lemma HeadsAreFirst()
      requires Valid()
      ensures objects.Keys == chains.Keys && forall k :: k in chains ==> objects[k] == At(chains[k], 0)
    {
      assert forall k :: k in chains ==> ChainOk(k);
    }

    method Get(key: Key, version: int) returns (value: Value)
      requires Valid()
      ensures value == Read(Chain(key), version)
    {
      RowsAreOk(key);
      value := ReadChain(Head(key), version, Rows(key));
    }

    /** Overwrites the value of a row in its place. */
    method Overwrite(key: Key, row: Row, value: Value, ghost n: nat)
      requires Valid() && n < |Rows(key)| && row == Rows(key)[n]
      modifies Rows(key)
      ensures Valid() && Db() == old(Db())[key := old(Chain(key))[n := Ver(old(row.version), value)]]
    {
      hide ListOk, Contents, Valid, ChainOk, Chained, At, Descending, OthersKept, Apart, OthersAs;
      ghost var chains0, objects0, db0, repr0, rows, c := chains, objects, Db(), repr, Rows(key), Chain(key);
      RowsAreOk(key);
      HeadsAreFirst();
      ghost var cells := CellsBefore(this, key);
      SetValue(rows, n, row, value);
      OthersStay(chains0, db0, repr0, key, rows, cells);
      OverwrittenIsOk(key, rows, c, n, value);
      assert chains == chains0[key := rows];
      ReplacedIsValid(this, key, rows, chains0, db0, repr0);
    }

    /** Makes row the head of the key's list if it is the first. */
    method SetFirst(key: Key, row: Row, ghost rows: seq<Row>, ghost rows1: seq<Row>, ghost n: nat)
      requires Inserted(rows, rows1, n, row) && row.prev == At(rows, n - 1) && Head(key) == At(rows, 0) && (key in objects || rows == [])
      requires 0 <= row.version || key !in objects
      modifies this`objects
      ensures objects == old(objects)[key := At(rows1, 0)]
    {
      if row.version < 0 || key !in objects {
        objects := objects[key := row];
      } else if row.prev == null {
        objects := objects[key := row];
      }
    }

    /** Links a new row in between prev and current, at position n. */
    method InsertNew(key: Key, value: Value, version: int, prev: Row?, current: Row?, ghost n: nat)
      requires Valid() && n == CountFrom(Chain(key), version + 1) && prev == At(Rows(key), n - 1) && current == At(Rows(key), n)
      requires !(n < |Chain(key)| && Chain(key)[n].version == version) && (0 <= version || key !in objects)
      modifies this, Rows(key)
      ensures Valid() && fresh(repr - old(repr)) && Db() == old(Db())[key := Write(old(Chain(key)), version, value)]
    {
      hide ListOk, Contents, Valid, ChainOk, Chained, Descending, OthersKept, Apart, OthersAs, CountFrom, Write, At, Inserted, CellOf;
      hide Db, Chain, Distinct;
      ghost var chains0, objects0, db0, repr0, rows := chains, objects, Db(), repr, Rows(key);
      RowsAreOk(key);
      HeadsAreFirst();
      CountIsFirst(Chain(key), version + 1);
      ghost var cells := CellsBefore(this, key);
      var row := new Row(key, version, value, prev, current);
      ghost var rows1 := Insertion(rows, n, row);
      LinkIn(rows, rows1, n, row, prev, current);
      SetFirst(key, row, rows, rows1, n);
      chains := chains[key := rows1];
      repr := repr + {row};
      OthersStay(chains0, db0, repr0, key, rows, cells);
      InsertedIsOk(key, rows, rows1, n, row);
      HeadsAre(this, key, rows1, chains0, objects0);
      ReplacedIsValid(this, key, rows1, chains0, db0, repr0);
    }

    /** Writes a value at a version.  A negative version is inserted as a key's first one; the map refuses a key it has. */
    method Put(key: Key, value: Value, version: int) returns (ok: bool)
      requires Valid() && (0 <= version || key !in objects)
      modifies this, repr
      ensures ok && Valid() && fresh(repr - old(repr)) && Db() == Apply(old(Db()), PutOp(key, version, value))
    {
      hide ListOk, Contents, Valid, Chained, Descending, Db, Chain, CountFrom, Write;
      RowsAreOk(key);
      DbHas(key);
      RowsHave(key);
      ghost var n;
      var prev, current;
      prev, current, n := Locate(if version < 0 then null else Head(key), version, Rows(key));
      CountIsFirst(Chain(key), version + 1);
      if current != null && current.version == version {
        WriteReplaces(Chain(key), version, value);
        Overwrite(key, current, value, n);
      } else {
        InsertNew(key, value, version, prev, current, n);
      }
      ok := true;
    }

    /** A deletion writes NULL. */
    method Delete(key: Key, version: int) returns (ok: bool)
      requires Valid() && (0 <= version || key !in objects)
      modifies this, repr
      ensures ok && Valid() && fresh(repr - old(repr)) && Db() == Apply(old(Db()), PutOp(key, version, Null))
    {
      ok := Put(key, Null, version);
    }

    /** Takes the row at position n out of the key's list. */
    method Remove(key: Key, row: Row, ghost n: nat)
      requires Valid() && key in objects && n < |Rows(key)| && row == Rows(key)[n]
      modifies this, Rows(key)
      ensures Valid() && repr == old(repr) && objects.Keys == old(objects.Keys)
      ensures Db() == old(Db())[key := Without(old(Chain(key)), n)] && Removed(old(Rows(key)), Rows(key), n)
    {
      hide ListOk, Contents, Valid, ChainOk, Chained, Descending, OthersKept, Apart, OthersAs, At, Removed, CellOf, Without;
      ghost var chains0, objects0, db0, repr0, rows, c := chains, objects, Db(), repr, Rows(key), Chain(key);
      RowsAreOk(key);
      HeadsAreFirst();
      ghost var cells := CellsBefore(this, key);
      ghost var rows1 := Removal(rows, n);
      SetNext(key, row, rows, rows1, n);
      Unlink(rows, rows1, n, row);
      chains := chains[key := rows1];
      OthersStay(chains0, db0, repr0, key, rows, cells);
      RemovedIsOk(key, rows, rows1, n);
      HeadsAre(this, key, rows1, chains0, objects0);
      ReplacedIsValid(this, key, rows1, chains0, db0, repr0);
    }

    /** Makes the row after row the head of the key's list if row is the head. */
    method SetNext(key: Key, row: Row, ghost rows: seq<Row>, ghost rows1: seq<Row>, ghost n: nat)
      requires Chained(rows) && Removed(rows, rows1, n) && row == rows[n] && key in objects && Head(key) == At(rows, 0)
      modifies this`objects
      ensures objects == old(objects)[key := At(rows1, 0)]
    {
      if row.prev == null {
        objects := objects[key := row.next];
      }
    }

    /** One turn of the pruning loop: the row at position i goes, which held version j of c. */
    method RemoveNext(key: Key, row: Row, ghost i: nat, ghost j: nat, ghost c: seq<Ver>, ghost db0: map<Key, seq<Ver>>) returns (next: Row?)
      requires Valid() && key in objects && i <= j < |c| && Db() == db0[key := Gap(c, i, j)] && row == At(Rows(key), i)
      modifies this, Rows(key)
      ensures Valid() && repr == old(repr) && key in objects && Db() == db0[key := Gap(c, i, j + 1)]
      ensures next == At(Rows(key), i)
    {
      hide Valid, ListOk, Descending, Chained, Contents, Gap, Without, Db, Chain, Removed;
      PruningHas(key, row, i, j, c, db0);
      GapHas(c, i, j);
      next := NextOf(key, row, i);
      ghost var rows := Rows(key);
      Remove(key, row, i);
      RemovedAt(rows, Rows(key), i);
      DbHas(key);
    }

    /** The row after row. */
    method NextOf(key: Key, row: Row, ghost i: nat) returns (next: Row?)
      requires Valid() && i < |Rows(key)| && row == Rows(key)[i]
      ensures next == At(Rows(key), i + 1)
    {
      RowsAreOk(key);
      next := row.next;
    }

    /** Removes one version, or all from row, at position i, on down to minimum. */
    method PruneFrom(key: Key, row: Row, multiple: bool, minimum: int, unsafe: bool, ghost i: nat) returns (ok: bool)
      requires Valid() && key in objects && i < |Chain(key)| && row == At(Rows(key), i)
      modifies this, repr
      ensures Valid() && repr == old(repr)
      ensures var c := old(Chain(key)); var (d, r) := PrunedAt(c, i, multiple, minimum, unsafe); ok == r && Db() == old(Db())[key := d]
    {
      hide Valid, ListOk, Descending, Contents, Chained, PrunedAt, Gap, Db, Chain, At, Rows;
      ghost var c, db0 := Chain(key), Db();
      DbHas(key);
      GapIsAll(c, i);
      var fetching := row;
      ghost var j := i;
      while fetching != null && fetching.version > minimum
        invariant Valid() && repr == old(repr) && key in objects
        invariant i <= j <= |c| && fetching == At(Rows(key), i) && Db() == db0[key := Gap(c, i, j)]
        invariant forall k :: i <= k < j ==> c[k].version > minimum
        invariant j == i || (multiple && (i == 0 ==> unsafe))
        decreases |c| - j
      {
        PruningHas(key, fetching, i, j, c, db0);
        if fetching.prev == null && multiple && !unsafe {
          PrunedIs(c, i, j, multiple, minimum, unsafe, false);
          return false;
        }
        var next := RemoveNext(key, fetching, i, j, c, db0);
        j := j + 1;
        if !multiple {
          PrunedIs(c, i, j, multiple, minimum, unsafe, true);
          return true;
        }
        fetching := next;
      }
      PruningHas(key, fetching, i, j, c, db0);
      PrunedIs(c, i, j, multiple, minimum, unsafe, true);
      ok := true;
    }

    /** Removes one version, or all from the first one <= version down to minimum. */
    method PruneRow(key: Key, version: int, multiple: bool, minimum: int, unsafe: bool) returns (ok: bool)
      requires Valid()
      modifies this, repr
      ensures Valid() && repr == old(repr) && ok == Prune(old(Chain(key)), version, multiple, minimum, unsafe).1
      ensures Db() == if key in old(Db()) then old(Db())[key := Prune(old(Chain(key)), version, multiple, minimum, unsafe).0] else old(Db())
    {
      hide ListOk, Contents, Valid, Chained, Descending, Db, Prune, PrunedAt;
      DbHas(key);
      PruneCases(Chain(key), version, multiple, minimum, unsafe);
      if key !in objects {
        return false;
      }
      assert Db()[key := Chain(key)] == Db();
      RowsAreOk(key);
      ghost var i;
      var prev, fetching;
      prev, fetching, i := Locate(Head(key), version, Rows(key));
      EndsAre(key, i);
      if fetching == null || (fetching.prev == null && fetching.next == null && !unsafe) {
        return false;
      }
      ok := PruneFrom(key, fetching, multiple, minimum, unsafe, i);
    }

    // ---- the keys that can be seen at a version ----

    /** The keys that have a value as of a version. */
    ghost function Visible(version: int): (s: set<Key>)
      requires Valid()
      reads this, repr
    {
      set k | k in objects && Read(Chain(k), version) != Null
    }

    lemma VisibleHas(key: Key, version: int)
      requires Valid()
      ensures key in Visible(version) <==> Read(Chain(key), version) != Null
      ensures key in Visible(version) ==> key in objects
    {
    }

    method KeyExists(key: Key, version: int) returns (found: bool)
      requires Valid()
      ensures found == (key in Visible(version))
    {
      hide Valid, Chain, Visible;
      VisibleHas(key, version);
      var value := Get(key, version);
      found := value != Null;
    }

    /** The first key with a value in the order of bytes. */
    method FirstKey(version: int) returns (first: Maybe)
      requires Valid()
      ensures IsNearest(Visible(version), true, Nothing, first)
      ensures first == Nothing <==> Visible(version) == {}
      ensures first.Just? ==> first.key in Visible(version) && forall k :: k in Visible(version) && k != first.key ==>
        exists i :: 0 <= i <= |first.key| && i < |k| && first.key[..i] == k[..i] && (i == |first.key| || first.key[i] < k[i])
    {
      hide Visible, IsNearest, Less, Valid;
      first := FirstSeen(true, Nothing, version);
      NearestIsExtreme(Visible(version), true, first);
      if first.Just? {
        forall k | k in Visible(version) && k != first.key
          ensures exists i :: 0 <= i <= |first.key| && i < |k| && first.key[..i] == k[..i] && (i == |first.key| || first.key[i] < k[i])
        {
          LessIsByBytes(first.key, k);
        }
      }
    }

    /** The last key with a value. */
    method LastKey(version: int) returns (last: Maybe)
      requires Valid()
      ensures IsNearest(Visible(version), false, Nothing, last)
      ensures last == Nothing <==> Visible(version) == {}
      ensures last.Just? ==> last.key in Visible(version) && forall k :: k in Visible(version) && k != last.key ==> Less(k, last.key)
    {
      hide Visible, IsNearest, Less, Valid;
      last := FirstSeen(false, Nothing, version);
      NearestIsExtreme(Visible(version), false, last);
    }

    /** The next key with a value after the target. */
    method GetNextKey(target: Key, version: int) returns (next: Maybe)
      requires Valid()
      ensures IsNearest(Visible(version), true, Just(target), next)
      ensures next == Nothing <==> forall k :: k in Visible(version) ==> !Less(target, k)
      ensures next.Just? ==> next.key in Visible(version) && Less(target, next.key)
      ensures next.Just? ==> forall k :: k in Visible(version) ==> !(Less(target, k) && Less(k, next.key))
    {
      hide Visible, IsNearest, Less, Valid;
      next := FirstSeen(true, Just(target), version);
      NearestIsNext(Visible(version), true, target, next);
    }

    /** The next key with a value before the target. */
    method GetPrevKey(target: Key, version: int) returns (next: Maybe)
      requires Valid()
      ensures IsNearest(Visible(version), false, Just(target), next)
      ensures next == Nothing <==> forall k :: k in Visible(version) ==> !Less(k, target)
      ensures next.Just? ==> next.key in Visible(version) && Less(next.key, target)
      ensures next.Just? ==> forall k :: k in Visible(version) ==> !(Less(next.key, k) && Less(k, target))
    {
      hide Visible, IsNearest, Less, Valid;
      next := FirstSeen(false, Just(target), version);
      NearestIsNext(Visible(version), false, target, next);
    }

    /** Walks along the keys until one has a value: the loop of the four methods above. */
    method FirstSeen(up: bool, from: Maybe, version: int) returns (current: Maybe)
      requires Valid()
      ensures IsNearest(Visible(version), up, from, current)
    {
      hide Valid, Chain, Visible, IsNearest, Passed;
      current := Nearest(objects.Keys, up, from);
      ghost var rest := objects.Keys;
      PassedNone(rest, up, from, current);
      forall k
        ensures k in Visible(version) ==> k in objects
      {
        VisibleHas(k, version);
      }
      while current != Nothing
        invariant Visible(version) <= rest && Passed(objects.Keys, rest, up, from, current)
        decreases rest
      {
        var found := KeyExists(current.key, version);
        if found {
          break;
        }
        var next := Nearest(objects.Keys, up, current);
        PassedOne(objects.Keys, rest, up, from, current.key, next);
        rest := rest - {current.key};
        current := next;
      }
      PassedAll(objects.Keys, rest, Visible(version), up, from, current);
    }
  }

  lemma GapIsAll(c: seq<Ver>, i: nat)
    requires i <= |c|
    ensures Gap(c, i, i) == c
  {
  }

  /** When the pruning loop stops, it has done what PrunedAt says. */
  lemma PrunedIs(c: seq<Ver>, i: nat, j: nat, multiple: bool, minimum: int, unsafe: bool, ok: bool)
    requires i < |c| && i <= j <= |c| && forall k :: i <= k < j ==> c[k].version > minimum
    requires if !ok then j == i && c[i].version > minimum && i == 0 && multiple && !unsafe
             else if multiple then (j == |c| || c[j].version <= minimum) && (j == i || (i == 0 ==> unsafe))
             else if j == i then c[i].version <= minimum else j == i + 1
    ensures PrunedAt(c, i, multiple, minimum, unsafe) == (Gap(c, i, j), ok)
  {
    hide Gap, CountFrom;
    GapIsAll(c, i);
    if ok && multiple && j > i {
      RunEnds(c, i, j, minimum);
    }
  }

  lemma RunEnds(c: seq<Ver>, i: nat, j: nat, minimum: int)
    requires i <= j <= |c| && (j == |c| || c[j].version <= minimum) && forall k :: i <= k < j ==> c[k].version > minimum
    ensures CountFrom(c[i..], minimum + 1) == j - i
  {
    CountIs(c[i..], minimum + 1, j - i);
  }

  lemma PruneCases(c: seq<Ver>, v: int, multiple: bool, minimum: int, unsafe: bool)
    ensures var i := CountFrom(c, v + 1);
      Prune(c, v, multiple, minimum, unsafe)
      == (if i == |c| || (|c| == 1 && !unsafe) then (c, false) else PrunedAt(c, i, multiple, minimum, unsafe))
  {
  }

  /** c without the versions at i up to j. */
  ghost function Gap(c: seq<Ver>, i: nat, j: nat): seq<Ver>
    requires i <= j <= |c|
  {
    c[..i] + c[j..]
  }

  lemma GapHas(c: seq<Ver>, i: nat, j: nat)
    requires i <= j < |c|
    ensures i < |Gap(c, i, j)| && Gap(c, i, j)[i] == c[j] && Without(Gap(c, i, j), i) == Gap(c, i, j + 1)
  {
  }

  lemma RemovedAt(rows: seq<Row>, rows1: seq<Row>, i: nat)
    requires Removed(rows, rows1, i)
    ensures At(rows1, i) == At(rows, i + 1)
  {
  }

  /** What pruning leaves and returns, from position i on. */
  ghost function PrunedAt(c: seq<Ver>, i: nat, multiple: bool, minimum: int, unsafe: bool): (seq<Ver>, bool)
    requires i < |c|
  {
    if c[i].version <= minimum then (c, true)
    else if i == 0 && multiple && !unsafe then (c, false)
    else if multiple then (Gap(c, i, i + CountFrom(c[i..], minimum + 1)), true)
    else (Gap(c, i, i + 1), true)
  }

  lemma CountIsFirst(c: seq<Ver>, v: int)
    ensures CountFrom(c, v) <= |c|
  {
  }

  lemma WriteReplaces(c: seq<Ver>, v: int, x: Value)
    ensures var n := CountFrom(c, v + 1); n < |c| && c[n].version == v ==> Write(c, v, x) == c[n := Ver(v, x)]
  {
  }

  lemma OverwrittenIsOk(key: Key, rows: seq<Row>, c: seq<Ver>, n: nat, value: Value)
    requires (forall r :: r in rows ==> r.key == key) && Chained(rows) && Descending(c) && n < |c|
    requires Contents(rows) == c[n := Ver(c[n].version, value)]
    ensures ListOk(key, rows)
  {
    hide Chained;
  }

  lemma Removal(rows: seq<Row>, n: nat) returns (rows1: seq<Row>)
    requires n < |rows|
    ensures Removed(rows, rows1, n) && forall r :: r in rows1 ==> r in rows
  {
    rows1 := rows[..n] + rows[n + 1..];
  }

  lemma RemovedIsOk(key: Key, rows: seq<Row>, rows1: seq<Row>, n: nat)
    requires (forall r :: r in rows ==> r.key == key) && Removed(rows, rows1, n) && Chained(rows1) && Descending(Contents(rows))
    ensures ListOk(key, rows1) && Contents(rows1) == Without(Contents(rows), n)
  {
    hide Chained;
    ContentsIs(rows1, Without(Contents(rows), n));
  }

  ghost function Without(c: seq<Ver>, n: nat): seq<Ver>
    requires n < |c|
  {
    c[..n] + c[n + 1..]
  }

  lemma Insertion(rows: seq<Row>, n: nat, row: Row) returns (rows1: seq<Row>)
    requires n <= |rows|
    ensures Inserted(rows, rows1, n, row) && forall r :: r in rows1 ==> r in rows || r == row
  {
    rows1 := rows[..n] + [row] + rows[n..];
  }

  lemma InsertedIsOk(key: Key, rows: seq<Row>, rows1: seq<Row>, n: nat, row: Row)
    requires (forall r :: r in rows ==> r.key == key) && row.key == key && Inserted(rows, rows1, n, row) && Chained(rows1)
    requires Descending(Contents(rows)) && n == CountFrom(Contents(rows), row.version + 1)
    requires !(n < |rows| && Contents(rows)[n].version == row.version)
    ensures ListOk(key, rows1) && Contents(rows1) == Write(Contents(rows), row.version, row.value)
  {
    hide Chained, Descending;
    ContentsIs(rows1, Write(Contents(rows), row.version, row.value));
    WriteDescends(Contents(rows), row.version, row.value);
  }

  /** The lists of the keys other than key hold the given versions. */
  ghost predicate OthersKept(chains0: map<Key, seq<Row>>, db0: map<Key, seq<Ver>>, repr0: set<Row>, key: Key)
    reads repr0
  {
    && chains0.Keys == db0.Keys
    && forall k :: k in chains0 && k != key ==> (forall r :: r in chains0[k] ==> r in repr0) && OtherKept(k, chains0[k], db0[k])
  }

  ghost predicate OtherKept(k: Key, rows: seq<Row>, c: seq<Ver>)
    reads rows
  {
    ListOk(k, rows) && Contents(rows) == c
  }

  /** No row of another key is one of rows. */
  ghost predicate Apart(chains0: map<Key, seq<Row>>, key: Key, rows: seq<Row>) {
    forall k, r :: k in chains0 && k != key && r in chains0[k] ==> r !in rows
  }

  lemma ValidKeeps(s: Storage, key: Key)
    requires s.Valid()
    ensures OthersKept(s.chains, s.Db(), s.repr, key) && Apart(s.chains, key, s.Rows(key))
  {
    hide Chained, Descending, Contents, At;
    forall k | k in s.chains
      ensures (forall r :: r in s.chains[k] ==> r in s.repr && r.key == k) && OtherKept(k, s.chains[k], s.Db()[k])
    {
      assert s.ChainOk(k);
    }
  }

  /** What a row holds. */
  ghost function CellOf(r: Row): Cell
    reads r
  {
    Cell(r.version, r.value, r.prev, r.next)
  }

  /** OtherKept, for rows that hold what cells say. */
  ghost predicate KeptAs(k: Key, rows: seq<Row>, c: seq<Ver>, cells: map<Row, Cell>) {
    && Distinct(rows) && Descending(c) && |c| == |rows| && (forall r :: r in rows ==> r in cells && r.key == k)
    && forall i :: 0 <= i < |rows| ==> cells[rows[i]] == Cell(c[i].version, c[i].value, At(rows, i - 1), At(rows, i + 1))
  }

  lemma KeptAsCells(k: Key, rows: seq<Row>, c: seq<Ver>, cells: map<Row, Cell>)
    requires forall r :: r in rows ==> r in cells && cells[r] == CellOf(r)
    ensures OtherKept(k, rows, c) <==> KeptAs(k, rows, c, cells)
  {
    hide Distinct, Descending, At;
    if KeptAs(k, rows, c, cells) {
      ContentsIs(rows, c);
    }
  }

  /** What the rows of the other keys hold. */
  lemma CellsBefore(s: Storage, key: Key) returns (cells: map<Row, Cell>)
    requires s.Valid()
    ensures cells.Keys == s.repr && (forall r :: r in s.repr ==> cells[r] == CellOf(r))
    ensures Apart(s.chains, key, s.Rows(key)) && OthersAs(s.chains, s.Db(), s.repr, key, cells)
  {
    hide OtherKept, KeptAs, CellOf, Distinct;
    cells := map r | r in s.repr :: CellOf(r);
    ValidKeeps(s, key);
    forall k | k in s.chains && k != key
      ensures KeptAs(k, s.chains[k], s.Db()[k], cells)
    {
      KeptAsCells(k, s.chains[k], s.Db()[k], cells);
    }
  }

  ghost predicate OthersAs(chains0: map<Key, seq<Row>>, db0: map<Key, seq<Ver>>, repr0: set<Row>, key: Key, cells: map<Row, Cell>) {
    && chains0.Keys == db0.Keys
    && forall k :: k in chains0 && k != key ==> (forall r :: r in chains0[k] ==> r in repr0) && KeptAs(k, chains0[k], db0[k], cells)
  }

  /** If only rows have changed, the other lists hold what they did. */
  lemma OthersStay(chains0: map<Key, seq<Row>>, db0: map<Key, seq<Ver>>, repr0: set<Row>, key: Key, rows: seq<Row>, cells: map<Row, Cell>)
    requires Apart(chains0, key, rows) && OthersAs(chains0, db0, repr0, key, cells) && cells.Keys == repr0
    requires forall r :: r in repr0 && r !in rows ==> cells[r] == CellOf(r)
    ensures OthersKept(chains0, db0, repr0, key)
  {
    hide OtherKept, KeptAs, CellOf, Distinct;
    forall k | k in chains0 && k != key
      ensures OtherKept(k, chains0[k], db0[k])
    {
      KeptAsCells(k, chains0[k], db0[k], cells);
    }
  }

  lemma KeptIsOk(s: Storage, k: Key, c: seq<Ver>)
    requires k in s.chains && OtherKept(k, s.chains[k], c) && (forall r :: r in s.chains[k] ==> r in s.repr)
    requires k in s.objects && s.objects[k] == At(s.chains[k], 0)
    ensures s.ChainOk(k) && Contents(s.chains[k]) == c
  {
    hide Chained, Descending;
  }

  /** Replacing the list of one key keeps the storage valid and changes that key's versions only. */
  lemma ReplacedIsValid(s: Storage, key: Key, rows1: seq<Row>, chains0: map<Key, seq<Row>>, db0: map<Key, seq<Ver>>, repr0: set<Row>)
    requires OthersKept(chains0, db0, repr0, key) && s.chains == chains0[key := rows1] && repr0 <= s.repr
    requires s.objects.Keys == s.chains.Keys && forall k :: k in s.chains ==> s.objects[k] == At(s.chains[k], 0)
    requires (forall r :: r in rows1 ==> r in s.repr) && ListOk(key, rows1)
    ensures s.Valid() && s.Db() == db0[key := Contents(rows1)]
  {
    hide ListOk, Contents, OtherKept, At;
    forall k | k in s.chains
      ensures s.ChainOk(k) && Contents(s.chains[k]) == db0[key := Contents(rows1)][k]
    {
      if k != key {
        KeptIsOk(s, k, db0[k]);
      }
    }
  }

  lemma HeadsAre(s: Storage, key: Key, rows1: seq<Row>, chains0: map<Key, seq<Row>>, objects0: map<Key, Row?>)
    requires s.chains == chains0[key := rows1] && s.objects == objects0[key := At(rows1, 0)]
    requires objects0.Keys == chains0.Keys && forall k :: k in chains0 ==> objects0[k] == At(chains0[k], 0)
    ensures s.objects.Keys == s.chains.Keys && forall k :: k in s.chains ==> s.objects[k] == At(s.chains[k], 0)
  {
  }
}
