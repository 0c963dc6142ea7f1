/** Doubly linked lists of rows in the heap, one list per key (`struct Row` in `src/backend/storage.h`). */
module RowChain {
  import opened Versions
  import opened Keys

  class Row {
    /** The key whose list the row belongs to. */
    ghost const key: Key
    var value: Value
    var version: int
    var prev: Row?
    var next: Row?

    constructor (ghost key: Key, version: int, value: Value, prev: Row?, next: Row?)
      ensures this.key == key && this.version == version && this.value == value && this.prev == prev && this.next == next
    {
      this.key := key;
      this.version, this.value, this.prev, this.next := version, value, prev, next;
    }
  }

  /** The row at position i, or NULL. */
  ghost function At(rows: seq<Row>, i: int): Row? {
    if 0 <= i < |rows| then rows[i] else null
  }

  ghost predicate Distinct(rows: seq<Row>) {
    forall i, j :: 0 <= i < j < |rows| ==> rows[i] != rows[j]
  }

  /** The rows are linked to each other in order. */
  ghost predicate Chained(rows: seq<Row>)
    reads rows
  {
    Distinct(rows) && forall i :: 0 <= i < |rows| ==> rows[i].next == At(rows, i + 1) && rows[i].prev == At(rows, i - 1)
  }

  /** The versions and values that the rows hold. */
  ghost function Contents(rows: seq<Row>): (c: seq<Ver>)
    reads rows
    ensures |c| == |rows| && forall i :: 0 <= i < |rows| ==> c[i] == Ver(rows[i].version, rows[i].value)
  {
    if rows == [] then [] else Contents(rows[..|rows| - 1]) + [Ver(rows[|rows| - 1].version, rows[|rows| - 1].value)]
  }

  /** Walks past all rows above version; returns the row it stops at and the one before. */
  method Locate(head: Row?, version: int, ghost rows: seq<Row>) returns (prev: Row?, current: Row?, ghost i: nat)
    requires Chained(rows) && head == At(rows, 0) && Descending(Contents(rows))
    ensures i == CountFrom(Contents(rows), version + 1) <= |rows| && prev == At(rows, i - 1) && current == At(rows, i)
  {
    prev, current := null, head;
    i := 0;
    while current != null && current.version > version
      invariant 0 <= i <= |rows| && prev == At(rows, i - 1) && current == At(rows, i)
      invariant forall j :: 0 <= j < i ==> rows[j].version > version
      decreases |rows| - i
    {
      prev := current;
      current := current.next;
      i := i + 1;
    }
    CountIs(Contents(rows), version + 1, i);
  }

  /** The value as of a version: that of the first row below it. */
  method ReadChain(head: Row?, version: int, ghost rows: seq<Row>) returns (value: Value)
    requires Chained(rows) && head == At(rows, 0)
    ensures value == Read(Contents(rows), version)
  {
    var current := head;
    ghost var i := 0;
    while current != null && current.version >= version
      invariant 0 <= i <= |rows| && current == At(rows, i)
      invariant forall j :: 0 <= j < i ==> rows[j].version >= version
      decreases |rows| - i
    {
      current := current.next;
      i := i + 1;
    }
    CountIs(Contents(rows), version, i);
    value := if current != null then current.value else Null;
  }

  lemma ContentsIs(rows: seq<Row>, c: seq<Ver>)
    requires |c| == |rows| && forall i :: 0 <= i < |rows| ==> c[i] == Ver(rows[i].version, rows[i].value)
    ensures Contents(rows) == c
  {
  }

  lemma ContentsOf(rows: seq<Row>) returns (c: seq<Ver>)
    ensures c == Contents(rows) && |c| == |rows| && forall i :: 0 <= i < |rows| ==> c[i] == Ver(rows[i].version, rows[i].value)
  {
    c := Contents(rows);
  }

  /** The row at i, if there is one, is at no other position. */
  lemma DistinctAt(rows: seq<Row>, i: int)
    requires Distinct(rows)
    ensures forall j :: 0 <= j < |rows| && j != i ==> rows[j] != At(rows, i)
  {
  }

  /** Overwrites a row's value. */
  method SetValue(ghost rows: seq<Row>, ghost n: nat, row: Row, value: Value)
    requires Chained(rows) && n < |rows| && row == rows[n]
    modifies rows
    ensures Chained(rows) && Contents(rows) == old(Contents(rows))[n := Ver(old(row.version), value)]
  {
    ghost var c := Contents(rows);
    row.value := value;
    ContentsIs(rows, c[n := Ver(row.version, value)]);
  }

  // ---- linking and unlinking ----

  /** rows with row inserted at i. */
  ghost predicate Inserted(rows: seq<Row>, rows1: seq<Row>, i: int, row: Row) {
    && 0 <= i <= |rows| && |rows1| == |rows| + 1 && rows1[i] == row
    && (forall j :: 0 <= j < i ==> rows1[j] == rows[j]) && (forall j :: i < j < |rows1| ==> rows1[j] == rows[j - 1])
  }

  lemma InsertedDistinct(rows: seq<Row>, rows1: seq<Row>, i: int, row: Row)
    requires Inserted(rows, rows1, i, row) && Distinct(rows) && row !in rows
    ensures Distinct(rows1)
  {
  }

  /** Row j of rows is linked as if row had been put in at i. */
  ghost predicate LinkedWith(rows: seq<Row>, i: int, row: Row, j: int)
    requires 0 <= j < |rows|
    reads rows[j]
  {
    && rows[j].next == (if j == i - 1 then row else At(rows, j + 1))
    && rows[j].prev == (if j == i then row else At(rows, j - 1))
  }

  lemma InsertChains(rows: seq<Row>, rows1: seq<Row>, i: int, row: Row)
    requires Inserted(rows, rows1, i, row) && Distinct(rows) && row !in rows
    requires row.next == At(rows, i) && row.prev == At(rows, i - 1)
    requires forall j :: 0 <= j < |rows| ==> LinkedWith(rows, i, row, j)
    ensures Chained(rows1)
  {
    InsertedDistinct(rows, rows1, i, row);
    hide Distinct, LinkedWith;
    forall j | 0 <= j < |rows1|
      ensures rows1[j].next == At(rows1, j + 1) && rows1[j].prev == At(rows1, j - 1)
    {
      InsertedLink(rows, rows1, i, row, j);
    }
  }

  lemma InsertedLink(rows: seq<Row>, rows1: seq<Row>, i: int, row: Row, j: int)
    requires Inserted(rows, rows1, i, row) && 0 <= j < |rows1|
    requires row.next == At(rows, i) && row.prev == At(rows, i - 1)
    requires j < i ==> LinkedWith(rows, i, row, j)
    requires j > i ==> LinkedWith(rows, i, row, j - 1)
    ensures rows1[j].next == At(rows1, j + 1) && rows1[j].prev == At(rows1, j - 1)
  {
    if j < i {
      assert rows1[j] == rows[j];
    } else if j > i {
      assert rows1[j] == rows[j - 1];
    }
  }

  lemma LinkedWithIs(rows: seq<Row>, i: int, row: Row, j: int)
    requires 0 <= j < |rows|
    requires rows[j].next == (if j == i - 1 then row else At(rows, j + 1))
    requires rows[j].prev == (if j == i then row else At(rows, j - 1))
    ensures LinkedWith(rows, i, row, j)
  {
  }

  /** Links a new row in between two neighbours. */
  method LinkIn(ghost rows: seq<Row>, ghost rows1: seq<Row>, ghost i: nat, row: Row, prev: Row?, current: Row?)
    requires Chained(rows) && Inserted(rows, rows1, i, row) && row !in rows && prev == At(rows, i - 1) && current == At(rows, i)
    requires row.prev == prev && row.next == current
    modifies rows
    ensures Chained(rows1) && Contents(rows) == old(Contents(rows))
  {
    hide Contents, Distinct, LinkedWith;
    ghost var c := ContentsOf(rows);
    DistinctAt(rows, i - 1);
    DistinctAt(rows, i);
    if prev != null {
      prev.next := row;
    }
    if current != null {
      current.prev := row;
    }
    ContentsIs(rows, c);
    forall j | 0 <= j < |rows|
      ensures LinkedWith(rows, i, row, j)
    {
      LinkedWithIs(rows, i, row, j);
    }
    InsertChains(rows, rows1, i, row);
  }

  /** rows without the row at i. */
  ghost predicate Removed(rows: seq<Row>, rows1: seq<Row>, i: int) {
    && 0 <= i < |rows| && |rows1| == |rows| - 1
    && (forall j :: 0 <= j < i ==> rows1[j] == rows[j]) && (forall j :: i <= j < |rows1| ==> rows1[j] == rows[j + 1])
  }

  /** Row j of rows is linked as if the row at i were not there. */
  ghost predicate LinkedWithout(rows: seq<Row>, i: int, j: int)
    requires 0 <= j < |rows|
    reads rows[j]
  {
    && rows[j].next == (if j == i - 1 then At(rows, i + 1) else At(rows, j + 1))
    && rows[j].prev == (if j == i + 1 then At(rows, i - 1) else At(rows, j - 1))
  }

  lemma LinkedWithoutIs(rows: seq<Row>, i: int, j: int)
    requires 0 <= j < |rows|
    requires rows[j].next == (if j == i - 1 then At(rows, i + 1) else At(rows, j + 1))
    requires rows[j].prev == (if j == i + 1 then At(rows, i - 1) else At(rows, j - 1))
    ensures LinkedWithout(rows, i, j)
  {
  }

  lemma RemoveChains(rows: seq<Row>, rows1: seq<Row>, i: int)
    requires Removed(rows, rows1, i) && Distinct(rows)
    requires forall j :: 0 <= j < |rows| && j != i ==> LinkedWithout(rows, i, j)
    ensures Chained(rows1)
  {
    RemovedDistinct(rows, rows1, i);
    hide Distinct, LinkedWithout;
    forall j | 0 <= j < |rows1|
      ensures rows1[j].next == At(rows1, j + 1) && rows1[j].prev == At(rows1, j - 1)
    {
      RemovedLink(rows, rows1, i, j);
    }
  }

  lemma RemovedLink(rows: seq<Row>, rows1: seq<Row>, i: int, j: int)
    requires Removed(rows, rows1, i) && 0 <= j < |rows1|
    requires j < i ==> LinkedWithout(rows, i, j)
    requires j >= i ==> LinkedWithout(rows, i, j + 1)
    ensures rows1[j].next == At(rows1, j + 1) && rows1[j].prev == At(rows1, j - 1)
  {
    if j < i {
      assert rows1[j] == rows[j];
    } else {
      assert rows1[j] == rows[j + 1];
    }
  }

  lemma RemovedDistinct(rows: seq<Row>, rows1: seq<Row>, i: int)
    requires Removed(rows, rows1, i) && Distinct(rows)
    ensures Distinct(rows1)
  {
  }

  /** Takes a row out of its list. */
  method Unlink(ghost rows: seq<Row>, ghost rows1: seq<Row>, ghost i: nat, row: Row)
    requires Chained(rows) && Removed(rows, rows1, i) && row == rows[i]
    modifies rows
    ensures Chained(rows1) && Contents(rows) == old(Contents(rows))
  {
    hide Contents, Distinct, LinkedWithout;
    ghost var c := ContentsOf(rows);
    DistinctAt(rows, i - 1);
    DistinctAt(rows, i + 1);
    if row.prev != null {
      row.prev.next := row.next;
    }
    if row.next != null {
      row.next.prev := row.prev;
    }
    ContentsIs(rows, c);
    forall j | 0 <= j < |rows| && j != i
      ensures LinkedWithout(rows, i, j)
    {
      LinkedWithoutIs(rows, i, j);
    }
    RemoveChains(rows, rows1, i);
  }
}
