/** Databases as maps from keys to their versions, and runs of writes on them. */
module Databases {
  import opened Versions
  import opened Keys

  type Db = map<Key, seq<Ver>>

  datatype Op = PutOp(key: Key, version: int, value: Value)

  ghost predicate DbOk(db: Db) {
    forall k :: k in db ==> Descending(db[k])
  }

  /** The versions of a key, none if it is not there. */
  function ChainIn(db: Db, k: Key): seq<Ver> {
    if k in db then db[k] else []
  }

  function Apply(db: Db, op: Op): Db {
    db[op.key := Write(ChainIn(db, op.key), op.version, op.value)]
  }

  function ApplyAll(db: Db, ops: seq<Op>): Db {
    if ops == [] then db else Apply(ApplyAll(db, ops[..|ops| - 1]), ops[|ops| - 1])
  }

  /** The operations write one value only at each key and version. */
  ghost predicate Consistent(ops: seq<Op>) {
    forall a, b :: a in ops && b in ops && a.key == b.key && a.version == b.version ==> a == b
  }

  datatype Found = None | Some(value: Value)

  /** What db holds at a key and version. */
  ghost function Stored(db: Db, k: Key, v: int): Found {
    if v in AsMap(ChainIn(db, k)) then Some(AsMap(ChainIn(db, k))[v]) else None
  }

  /** What the last operation on a key and version writes. */
  function LastWrite(ops: seq<Op>, k: Key, v: int): Found {
    if ops == [] then None
    else if ops[|ops| - 1].key == k && ops[|ops| - 1].version == v then Some(ops[|ops| - 1].value)
    else LastWrite(ops[..|ops| - 1], k, v)
  }

  lemma {:induction false} LastWriteIsIn(ops: seq<Op>, k: Key, v: int)
    ensures forall x :: LastWrite(ops, k, v) == Some(x) ==> PutOp(k, v, x) in ops
    ensures LastWrite(ops, k, v) == None ==> forall op :: op in ops ==> op.key != k || op.version != v
  {
    if ops != [] {
      LastWriteIsIn(ops[..|ops| - 1], k, v);
    }
  }

  /** The last write is the one that no later operation on the key and version follows. */
  lemma {:induction false} LastWriteIsLast(ops: seq<Op>, k: Key, v: int, i: int)
    requires 0 <= i < |ops| && ops[i].key == k && ops[i].version == v
    requires forall j :: i < j < |ops| ==> ops[j].key != k || ops[j].version != v
    ensures LastWrite(ops, k, v) == Some(ops[i].value)
  {
    if i < |ops| - 1 {
      LastWriteIsLast(ops[..|ops| - 1], k, v, i);
    }
  }

  lemma {:induction false} ApplyAllOk(db: Db, ops: seq<Op>)
    requires DbOk(db)
    ensures DbOk(ApplyAll(db, ops)) && forall k :: k in ApplyAll(db, ops) <==> k in db || WritesTo(ops, k)
  {
    hide WritesTo, Write, Descending;
    if ops == [] {
      forall k
        ensures !WritesTo(ops, k)
      {
        WritesToLast(ops, k);
      }
    } else {
      var n := |ops| - 1;
      ApplyAllOk(db, ops[..n]);
      WriteDescends(ChainIn(ApplyAll(db, ops[..n]), ops[n].key), ops[n].version, ops[n].value);
      forall k
        ensures WritesTo(ops, k) <==> WritesTo(ops[..n], k) || k == ops[n].key
      {
        WritesToLast(ops, k);
      }
    }
  }

  ghost predicate WritesTo(ops: seq<Op>, k: Key) {
    exists op :: op in ops && op.key == k
  }

  lemma WritesToLast(ops: seq<Op>, k: Key)
    ensures WritesTo(ops, k) <==> ops != [] && (WritesTo(ops[..|ops| - 1], k) || k == ops[|ops| - 1].key)
  {
    if ops != [] {
      assert ops == ops[..|ops| - 1] + [ops[|ops| - 1]];
    }
  }

  lemma ApplyHas(db: Db, op: Op, k: Key, v: int)
    requires DbOk(db)
    ensures Stored(Apply(db, op), k, v) == if op.key == k && op.version == v then Some(op.value) else Stored(db, k, v)
  {
    hide AsMap, Write, Descending;
    if op.key == k {
      ChainDescends(db, k);
      WriteIsUpdate(ChainIn(db, k), op.version, op.value);
    }
  }

  /** A run of writes leaves at each key and version what was last written there, or else what was there. */
  lemma {:induction false} ApplyAllHas(db: Db, ops: seq<Op>, k: Key, v: int)
    requires DbOk(db)
    ensures Stored(ApplyAll(db, ops), k, v) == if LastWrite(ops, k, v).Some? then LastWrite(ops, k, v) else Stored(db, k, v)
  {
    hide Stored, Apply, DbOk;
    if ops != [] {
      ApplyAllHas(db, ops[..|ops| - 1], k, v);
      ApplyAllOk(db, ops[..|ops| - 1]);
      ApplyHas(ApplyAll(db, ops[..|ops| - 1]), ops[|ops| - 1], k, v);
    }
  }

  lemma ChainDescends(db: Db, k: Key)
    requires DbOk(db)
    ensures Descending(ChainIn(db, k))
  {
  }

  /** The same writes, each of one value only per key and version, have the same last writes. */
  lemma SameLastWrites(ops: seq<Op>, ops1: seq<Op>, k: Key, v: int)
    requires Consistent(ops) && forall op :: op in ops <==> op in ops1
    ensures LastWrite(ops, k, v) == LastWrite(ops1, k, v)
  {
    hide LastWrite;
    LastWriteIsIn(ops, k, v);
    LastWriteIsIn(ops1, k, v);
    if LastWrite(ops, k, v).Some? && LastWrite(ops1, k, v).Some? {
      var a, b := PutOp(k, v, LastWrite(ops, k, v).value), PutOp(k, v, LastWrite(ops1, k, v).value);
      assert a in ops && b in ops;
    }
  }

  /** Databases that hold the same at each key and version are the same, if they have the same keys. */
  lemma SameStored(a: Db, b: Db)
    requires DbOk(a) && DbOk(b) && a.Keys == b.Keys && forall k, v :: Stored(a, k, v) == Stored(b, k, v)
    ensures a == b
  {
    hide Descending, AsMap;
    forall k | k in a
      ensures a[k] == b[k]
    {
      SameChains(a, b, k);
    }
  }

  lemma SameChains(a: Db, b: Db, k: Key)
    requires DbOk(a) && DbOk(b) && k in a && k in b && forall v :: Stored(a, k, v) == Stored(b, k, v)
    ensures a[k] == b[k]
  {
    hide Descending, AsMap;
    forall v
      ensures v in AsMap(a[k]) <==> v in AsMap(b[k])
      ensures v in AsMap(a[k]) ==> AsMap(a[k])[v] == AsMap(b[k])[v]
    {
      assert Stored(a, k, v) == Stored(b, k, v);
    }
    assert AsMap(a[k]) == AsMap(b[k]);
    ChainIsDetermined(a[k], b[k]);
  }

  /**
   Writes of the same values at the same keys and versions leave the same database, in whatever
   order, and however often, they are done.
   */
  lemma OrderDoesNotMatter(db: Db, ops: seq<Op>, ops1: seq<Op>)
    requires DbOk(db) && Consistent(ops) && forall op :: op in ops <==> op in ops1
    ensures ApplyAll(db, ops) == ApplyAll(db, ops1)
  {
    hide ApplyAll, DbOk, Stored, LastWrite, Consistent;
    var a, b := ApplyAll(db, ops), ApplyAll(db, ops1);
    ApplyAllOk(db, ops);
    ApplyAllOk(db, ops1);
    assert forall k :: WritesTo(ops, k) <==> WritesTo(ops1, k);
    forall k, v
      ensures Stored(a, k, v) == Stored(b, k, v)
    {
      ApplyAllHas(db, ops, k, v);
      ApplyAllHas(db, ops1, k, v);
      SameLastWrites(ops, ops1, k, v);
    }
    SameStored(a, b);
  }
}
