/** One node's part in a transaction's reads (`src/backend/transactional_storage_manager.cc`). */
module RemoteReads {
  import opened Versions
  import opened Keys
  import opened Databases
  import opened StorageLayer

  datatype Txn = Txn(id: int, readSet: seq<Key>, readWriteSet: seq<Key>, readers: seq<int>, writers: seq<int>)

  /** A READ_RESULT message. */
  datatype Message = Message(dest: int, channel: int, keys: seq<Key>, values: seq<seq<int>>)

  /** What is sent of a value: NULL as no bytes. */
  function Wire(v: Value): seq<int> {
    if v.Null? then [] else v.bytes
  }

  function TxnKeys(txn: Txn): seq<Key> {
    txn.readSet + txn.readWriteSet
  }

  /** The keys among keys that a node owns, in order. */
  function Own(keys: seq<Key>, owner: Key -> int, node: int): seq<Key> {
    if keys == [] then []
    else Own(keys[..|keys| - 1], owner, node) + (if owner(keys[|keys| - 1]) == node then [keys[|keys| - 1]] else [])
  }

  lemma {:induction false} OwnHas(keys: seq<Key>, owner: Key -> int, node: int, k: Key)
    ensures k in Own(keys, owner, node) <==> k in keys && owner(k) == node
  {
    if keys != [] {
      OwnHas(keys[..|keys| - 1], owner, node, k);
      assert keys == keys[..|keys| - 1] + [keys[|keys| - 1]];
    }
  }

  lemma {:induction false} OwnJoins(a: seq<Key>, b: seq<Key>, owner: Key -> int, node: int)
    ensures Own(a + b, owner, node) == Own(a, owner, node) + Own(b, owner, node)
  {
    if b == [] {
      assert a + b == a;
    } else {
      assert (a + b)[..|a + b| - 1] == a + b[..|b| - 1];
      OwnJoins(a, b[..|b| - 1], owner, node);
    }
  }

  /** What the keys hold as of version v. */
  ghost function ReadsOf(db: Db, keys: seq<Key>, v: int): map<Key, Value> {
    map k | k in keys :: Read(ChainIn(db, k), v)
  }

  function WireOf(db: Db, keys: seq<Key>, v: int): (w: seq<seq<int>>)
    ensures |w| == |keys| && forall i :: 0 <= i < |w| ==> w[i] == Wire(Read(ChainIn(db, keys[i]), v))
  {
    if keys == [] then [] else WireOf(db, keys[..|keys| - 1], v) + [Wire(Read(ChainIn(db, keys[|keys| - 1]), v))]
  }

  /** The message a reader sends to another writer. */
  function MessageTo(txn: Txn, owner: Key -> int, db: Db, node: int, dest: int): Message {
    var own := Own(TxnKeys(txn), owner, node);
    Message(dest, txn.id, own, WireOf(db, own, txn.id))
  }

  /** The messages a node sends: to each writer in turn but itself. */
  function Broadcast(txn: Txn, owner: Key -> int, db: Db, node: int, writers: seq<int>): seq<Message> {
    if writers == [] then []
    else Broadcast(txn, owner, db, node, writers[..|writers| - 1])
         + if writers[|writers| - 1] != node then [MessageTo(txn, owner, db, node, writers[|writers| - 1])] else []
  }

  lemma {:induction false} BroadcastHas(txn: Txn, owner: Key -> int, db: Db, node: int, writers: seq<int>, m: Message)
    ensures m in Broadcast(txn, owner, db, node, writers) <==>
      m.dest in writers && m.dest != node && m == MessageTo(txn, owner, db, node, m.dest)
  {
    if writers != [] {
      BroadcastHas(txn, owner, db, node, writers[..|writers| - 1], m);
      assert writers == writers[..|writers| - 1] + [writers[|writers| - 1]];
    }
  }

  /** A message carries the keys that its sender owns, with the bytes of what they hold, and none for NULL. */
  lemma MessageCarriesReads(txn: Txn, owner: Key -> int, db: Db, node: int, m: Message)
    requires m in Broadcast(txn, owner, db, node, txn.writers)
    ensures m.dest in txn.writers && m.dest != node && m.channel == txn.id && |m.keys| == |m.values|
    ensures forall k :: k in m.keys <==> (k in txn.readSet || k in txn.readWriteSet) && owner(k) == node
    ensures forall i :: 0 <= i < |m.keys| ==>
      m.values[i] == match Read(ChainIn(db, m.keys[i]), txn.id) { case Null => [] case Data(bytes) => bytes }
  {
    hide Read, Own;
    BroadcastHas(txn, owner, db, node, txn.writers, m);
    forall k
      ensures k in m.keys <==> (k in txn.readSet || k in txn.readWriteSet) && owner(k) == node
    {
      OwnHas(TxnKeys(txn), owner, node, k);
    }
  }

  /** Every writer but the node itself is sent a message. */
  lemma WritersAreSent(txn: Txn, owner: Key -> int, db: Db, node: int, w: int)
    requires w in txn.writers && w != node
    ensures exists m :: m in Broadcast(txn, owner, db, node, txn.writers) && m.dest == w
  {
    BroadcastHas(txn, owner, db, node, txn.writers, MessageTo(txn, owner, db, node, w));
  }

  /** A reader starts with its own keys and what they hold, another node with nothing. */
  lemma StartedHas(txn: Txn, owner: Key -> int, db: Db, node: int)
    ensures forall k :: k in Started(txn, owner, db, node) <==>
      node in txn.readers && (k in txn.readSet || k in txn.readWriteSet) && owner(k) == node
    ensures forall k :: k in Started(txn, owner, db, node) ==> Started(txn, owner, db, node)[k] == Read(ChainIn(db, k), txn.id)
  {
    hide Read, Own;
    forall k
      ensures k in Own(TxnKeys(txn), owner, node) <==> (k in txn.readSet || k in txn.readWriteSet) && owner(k) == node
    {
      OwnHas(TxnKeys(txn), owner, node, k);
    }
  }

  /** What a node holds after a message: the last value sent for each key in it. */
  function Received(objects: map<Key, Value>, keys: seq<Key>, values: seq<seq<int>>): map<Key, Value>
    requires |keys| == |values|
  {
    if keys == [] then objects
    else Received(objects, keys[..|keys| - 1], values[..|keys| - 1])[keys[|keys| - 1] := Data(values[|keys| - 1])]
  }

  /** Each key of a message gets the last value sent for it, and the others keep theirs. */
  lemma {:induction false} ReceivedHas(objects: map<Key, Value>, keys: seq<Key>, values: seq<seq<int>>, k: Key)
    requires |keys| == |values|
    ensures k in Received(objects, keys, values) <==> k in objects || k in keys
    ensures k in objects && k !in keys ==> Received(objects, keys, values)[k] == objects[k]
    ensures forall i :: 0 <= i < |keys| && keys[i] == k && (forall j :: i < j < |keys| ==> keys[j] != k) ==>
      k in Received(objects, keys, values) && Received(objects, keys, values)[k] == Data(values[i])
  {
    if keys != [] {
      var n := |keys| - 1;
      ReceivedHas(objects, keys[..n], values[..n], k);
      assert keys == keys[..n] + [keys[n]];
    }
  }

  /** A key of a message has a last place in it. */
  lemma {:induction false} LastPlace(keys: seq<Key>, k: Key) returns (i: nat)
    requires k in keys
    ensures i < |keys| && keys[i] == k && forall j :: i < j < |keys| ==> keys[j] != k
  {
    i := |keys| - 1;
    if keys[i] != k {
      assert keys == keys[..i] + [keys[i]];
      i := LastPlace(keys[..i], k);
    }
  }

  class Connection {
    var sent: seq<Message>

    constructor ()
      ensures sent == []
    {
      sent := [];
    }

    method Send(message: Message)
      modifies this
      ensures sent == old(sent) + [message]
    {
      sent := sent + [message];
    }
  }

  class TransactionalStorageManager {
    const txn: Txn
    var writer: bool
    var objects: map<Key, Value>
    var remoteReads: seq<Value>

    /** Reads the node's own keys if it is a reader, and sends them to all other writers. */
    constructor (connection: Connection, txn: Txn, node: int, owner: Key -> int, storage: Storage, ghost db: Db)
      requires storage.Valid() && storage.Db() == db
      modifies connection
      ensures this.txn == txn && writer == (node in txn.writers) && remoteReads == [] && objects == Started(txn, owner, db, node)
      ensures connection.sent == old(connection.sent) + if node in txn.readers then Broadcast(txn, owner, db, node, txn.writers) else []
    {
      hide Storage.Valid, Storage.Db, Own, WireOf, Broadcast;
      this.txn, objects, remoteReads, writer := txn, map[], [], false;
      new;
      var reader := Among(node, txn.readers);
      if reader {
        NoReads(db, txn.id);
        var keys, values := ExecuteReads([], [], txn.readSet, node, owner, storage, db);
        keys, values := ExecuteReads(keys, values, txn.readWriteSet, node, owner, storage, db);
        OwnJoins(txn.readSet, txn.readWriteSet, owner, node);
        assert [] + Own(txn.readSet, owner, node) + Own(txn.readWriteSet, owner, node) == Own(TxnKeys(txn), owner, node);
        SendToWriters(connection, keys, values, txn, node, owner, db);
      }
      writer := Among(node, txn.writers);
    }

    /** Reads those keys of the list that the node owns, and adds them to the message. */
    method ExecuteReads(keys0: seq<Key>, values0: seq<seq<int>>, list: seq<Key>, node: int, owner: Key -> int,
                        storage: Storage, ghost db: Db) returns (keys: seq<Key>, values: seq<seq<int>>)
      requires storage.Valid() && storage.Db() == db && objects == ReadsOf(db, keys0, txn.id) && values0 == WireOf(db, keys0, txn.id)
      modifies this
      ensures storage.Valid() && storage.Db() == db && remoteReads == old(remoteReads) && writer == old(writer)
      ensures keys == keys0 + Own(list, owner, node) && objects == ReadsOf(db, keys, txn.id) && values == WireOf(db, keys, txn.id)
    {
      hide Storage.Valid, Storage.Db, Storage.Chain, Read, WireOf, ReadsOf, ChainIn;
      keys, values := keys0, values0;
      for i := 0 to |list|
        invariant storage.Valid() && storage.Db() == db && remoteReads == old(remoteReads) && writer == old(writer)
        invariant keys == keys0 + Own(list[..i], owner, node) && objects == ReadsOf(db, keys, txn.id) && values == WireOf(db, keys, txn.id)
      {
        assert list[..i + 1][..i] == list[..i];
        if owner(list[i]) == node {
          ChainIsIn(storage, list[i]);
          var val := storage.Get(list[i], txn.id);
          ReadsOfMore(db, keys, list[i], txn.id);
          objects := objects[list[i] := val];
          keys := keys + [list[i]];
          values := values + [Wire(val)];
        }
      }
      assert list[..|list|] == list;
    }

    /** Takes in the values of a message. */
    method HandleReadResult(msg: Message)
      requires |msg.keys| == |msg.values|
      modifies this
      ensures writer == old(writer) && objects == Received(old(objects), msg.keys, msg.values)
      ensures |remoteReads| == |old(remoteReads)| + |msg.keys|
    {
      for i := 0 to |msg.keys|
        invariant writer == old(writer) && objects == Received(old(objects), msg.keys[..i], msg.values[..i])
        invariant |remoteReads| == |old(remoteReads)| + i
      {
        assert msg.keys[..i + 1][..i] == msg.keys[..i] && msg.values[..i + 1][..i] == msg.values[..i];
        var val := Data(msg.values[i]);
        objects := objects[msg.keys[i] := val];
        remoteReads := remoteReads + [val];
      }
      assert msg.keys[..|msg.keys|] == msg.keys && msg.values[..|msg.keys|] == msg.values;
    }

    /** Whether there is a value for each key that the transaction reads. */
    predicate ReadyToExecute()
      reads this
    {
      Ready(txn, objects)
    }
  }

  predicate Ready(txn: Txn, objects: map<Key, Value>) {
    |objects| == |txn.readSet| + |txn.readWriteSet|
  }

  /** What a node holds of its own. */
  ghost function Started(txn: Txn, owner: Key -> int, db: Db, node: int): map<Key, Value> {
    if node in txn.readers then ReadsOf(db, Own(TxnKeys(txn), owner, node), txn.id) else map[]
  }

  lemma NoReads(db: Db, v: int)
    ensures ReadsOf(db, [], v) == map[] && WireOf(db, [], v) == []
  {
  }

  lemma ReadsOfMore(db: Db, keys: seq<Key>, k: Key, v: int)
    ensures ReadsOf(db, keys + [k], v) == ReadsOf(db, keys, v)[k := Read(ChainIn(db, k), v)]
    ensures WireOf(db, keys + [k], v) == WireOf(db, keys, v) + [Wire(Read(ChainIn(db, k), v))]
  {
    hide Read, ChainIn;
    assert (keys + [k])[..|keys|] == keys;
  }

  lemma ChainIsIn(storage: Storage, k: Key)
    requires storage.Valid()
    ensures storage.Chain(k) == ChainIn(storage.Db(), k)
  {
    hide Storage.Valid;
    storage.DbHas(k);
  }

  /** Sends a message to each writer but the node itself. */
  method SendToWriters(connection: Connection, keys: seq<Key>, values: seq<seq<int>>, txn: Txn, node: int, owner: Key -> int, ghost db: Db)
    requires keys == Own(TxnKeys(txn), owner, node) && values == WireOf(db, keys, txn.id)
    modifies connection
    ensures connection.sent == old(connection.sent) + Broadcast(txn, owner, db, node, txn.writers)
  {
    hide Own, WireOf;
    for i := 0 to |txn.writers|
      invariant connection.sent == old(connection.sent) + Broadcast(txn, owner, db, node, txn.writers[..i])
    {
      assert txn.writers[..i + 1][..i] == txn.writers[..i];
      if txn.writers[i] != node {
        connection.Send(Message(txn.writers[i], txn.id, keys, values));
      }
    }
    assert txn.writers[..|txn.writers|] == txn.writers;
  }

  /** Whether a node is listed. */
  method Among(node: int, list: seq<int>) returns (found: bool)
    ensures found == (node in list)
  {
    found := false;
    for i := 0 to |list|
      invariant found == (node in list[..i])
    {
      if list[i] == node {
        found := true;
      }
    }
  }
}
