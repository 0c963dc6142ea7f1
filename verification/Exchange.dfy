/**
 The exchange of remote reads for one transaction, as steps over the nodes and the messages in
 flight.  A message may be delivered at any time after it was sent, any number of times; writes at
 the transaction's version or later, and writes of any version to keys that are not the
 transaction's, may happen at any node at any time.
 */
module Exchange {
  import opened Versions
  import opened Keys
  import opened Databases
  import opened RemoteReads

  /** The transaction, the owner of each key, and what the nodes' storages hold at first. */
  datatype Setup = Setup(txn: Txn, owner: Key -> int, dbs: map<int, Db>)

  /** Managers hold the objects of each node that has started; delivered is history only. */
  datatype State = State(dbs: map<int, Db>, managers: map<int, map<Key, Value>>, pool: set<Message>, delivered: set<Message>)

  datatype Step = Start(node: int) | Deliver(msg: Message) | Store(node: int, op: Op)

  ghost predicate SetupOk(c: Setup) {
    && (forall r :: r in c.txn.readers ==> r in c.dbs) && (forall w :: w in c.txn.writers ==> w in c.dbs)
    && forall n :: n in c.dbs ==> DbOk(c.dbs[n])
  }

  function Initial(c: Setup): State {
    State(c.dbs, map[], {}, {})
  }

  ghost predicate Enabled(c: Setup, s: State, step: Step) {
    match step
    case Start(n) => n in s.dbs && n !in s.managers
    case Deliver(m) => m in s.pool && m.dest in s.managers && |m.keys| == |m.values|
    case Store(n, op) => n in s.dbs && (op.version >= c.txn.id || op.key !in TxnKeys(c.txn))
  }

  /** What a reader sends when it starts. */
  ghost function Sent(c: Setup, db: Db, n: int): set<Message> {
    if n in c.txn.readers then set m | m in Broadcast(c.txn, c.owner, db, n, c.txn.writers) else {}
  }

  ghost function Next(c: Setup, s: State, step: Step): State
    requires Enabled(c, s, step)
  {
    match step
    case Start(n) =>
      s.(managers := s.managers[n := Started(c.txn, c.owner, s.dbs[n], n)], pool := s.pool + Sent(c, s.dbs[n], n))
    case Deliver(m) =>
      s.(managers := s.managers[m.dest := Received(s.managers[m.dest], m.keys, m.values)], delivered := s.delivered + {m})
    case Store(n, op) =>
      s.(dbs := s.dbs[n := Apply(s.dbs[n], op)])
  }

  ghost predicate Reaches(c: Setup, s: State, steps: seq<Step>, t: State)
    decreases |steps|
  {
    if steps == [] then s == t
    else Enabled(c, s, steps[0]) && Reaches(c, Next(c, s, steps[0]), steps[1..], t)
  }

  // ---- what every step keeps ----

  /** What a key held at its owner just before the transaction. */
  ghost function Expected(c: Setup, k: Key): Value {
    if c.owner(k) in c.dbs then Read(ChainIn(c.dbs[c.owner(k)], k), c.txn.id) else Null
  }

  /** What a node should hold of a key: its own value, or what is sent of another node's. */
  ghost function Held(c: Setup, n: int, k: Key): Value {
    if c.owner(k) == n then Expected(c, k) else Data(Wire(Expected(c, k)))
  }

  /** The storages still show the same values of the transaction's keys before the transaction. */
  ghost predicate ReadsKept(c: Setup, dbs: map<int, Db>) {
    && dbs.Keys == c.dbs.Keys
    && forall n :: n in dbs ==> DbOk(dbs[n]) && forall k :: k in TxnKeys(c.txn) ==> Read(ChainIn(dbs[n], k), c.txn.id) == Read(ChainIn(c.dbs[n], k), c.txn.id)
  }

  ghost predicate ObjectsOk(c: Setup, n: int, objects: map<Key, Value>) {
    forall k :: k in objects ==> k in TxnKeys(c.txn) && c.owner(k) in c.txn.readers && objects[k] == Held(c, n, k)
  }

  /** A message carries its sender's keys, with what is sent of their values. */
  ghost predicate MessageOk(c: Setup, m: Message) {
    && |m.keys| == |m.values| && m.dest in c.txn.writers
    && (forall k :: k in m.keys ==> k in TxnKeys(c.txn) && c.owner(k) in c.txn.readers && c.owner(k) != m.dest)
    && forall i :: 0 <= i < |m.keys| ==> m.values[i] == Wire(Expected(c, m.keys[i]))
  }

  /** A key of the transaction has come to node n: it is n's own, or in a delivered message. */
  ghost predicate Came(c: Setup, s: State, n: int, k: Key) {
    (c.owner(k) == n && n in c.txn.readers && k in TxnKeys(c.txn)) || exists m :: m in s.delivered && m.dest == n && k in m.keys
  }

  /** A started reader has sent its keys to writer w. */
  ghost predicate SentTo(c: Setup, s: State, r: int, w: int) {
    exists m :: m in s.pool && m.dest == w && forall k :: k in TxnKeys(c.txn) && c.owner(k) == r ==> k in m.keys
  }

  ghost predicate Inv(c: Setup, s: State) {
    && ReadsKept(c, s.dbs) && s.managers.Keys <= s.dbs.Keys && s.delivered <= s.pool
    && (forall n :: n in s.managers ==> ObjectsOk(c, n, s.managers[n]))
    && (forall m :: m in s.pool ==> MessageOk(c, m)) && (forall m :: m in s.delivered ==> m.dest in s.managers)
    && (forall n, k :: n in s.managers ==> (k in s.managers[n] <==> Came(c, s, n, k)))
    && forall r, w :: r in s.managers && r in c.txn.readers && w in c.txn.writers && w != r ==> SentTo(c, s, r, w)
  }

  /** Writes at the transaction's version or later, or to other keys, do not show in its reads. */
  lemma StoreKeepsReads(c: Setup, dbs: map<int, Db>, n: int, op: Op)
    requires ReadsKept(c, dbs) && n in dbs && (op.version >= c.txn.id || op.key !in TxnKeys(c.txn))
    ensures ReadsKept(c, dbs[n := Apply(dbs[n], op)])
  {
    hide Read, Write, Descending;
    ChainDescends(dbs[n], op.key);
    WriteDescends(ChainIn(dbs[n], op.key), op.version, op.value);
    if c.txn.id <= op.version {
      ReadBelowWrite(ChainIn(dbs[n], op.key), op.version, op.value, c.txn.id);
    }
  }

  lemma StartedIsOk(c: Setup, dbs: map<int, Db>, n: int)
    requires ReadsKept(c, dbs) && n in dbs
    ensures ObjectsOk(c, n, Started(c.txn, c.owner, dbs[n], n))
    ensures forall k :: k in Started(c.txn, c.owner, dbs[n], n) <==> n in c.txn.readers && k in TxnKeys(c.txn) && c.owner(k) == n
  {
    hide Read, Own;
    forall k
      ensures k in Own(TxnKeys(c.txn), c.owner, n) <==> k in TxnKeys(c.txn) && c.owner(k) == n
    {
      OwnHas(TxnKeys(c.txn), c.owner, n, k);
    }
  }

  lemma SentIsOk(c: Setup, dbs: map<int, Db>, n: int, m: Message)
    requires ReadsKept(c, dbs) && n in dbs && m in Sent(c, dbs[n], n)
    ensures MessageOk(c, m) && forall k :: k in TxnKeys(c.txn) && c.owner(k) == n ==> k in m.keys
  {
    hide Read, Own, Broadcast;
    BroadcastHas(c.txn, c.owner, dbs[n], n, c.txn.writers, m);
    forall k
      ensures k in m.keys <==> k in TxnKeys(c.txn) && c.owner(k) == n
    {
      OwnHas(TxnKeys(c.txn), c.owner, n, k);
    }
  }

  lemma SentReaches(c: Setup, db: Db, n: int, w: int)
    requires n in c.txn.readers && w in c.txn.writers && w != n
    ensures MessageTo(c.txn, c.owner, db, n, w) in Sent(c, db, n) && MessageTo(c.txn, c.owner, db, n, w).dest == w
  {
    hide Broadcast;
    BroadcastHas(c.txn, c.owner, db, n, c.txn.writers, MessageTo(c.txn, c.owner, db, n, w));
  }

  lemma StartKeeps(c: Setup, s: State, n: int)
    requires Inv(c, s) && Enabled(c, s, Start(n))
    ensures Inv(c, Next(c, s, Start(n)))
  {
    hide ReadsKept, ObjectsOk, MessageOk, Started, Sent, MessageTo;
    var t := Next(c, s, Start(n));
    StartedIsOk(c, s.dbs, n);
    forall m | m in Sent(c, s.dbs[n], n)
      ensures MessageOk(c, m)
    {
      SentIsOk(c, s.dbs, n, m);
    }
    forall r, w | r in t.managers && r in c.txn.readers && w in c.txn.writers && w != r
      ensures SentTo(c, t, r, w)
    {
      if r == n {
        SentReaches(c, s.dbs[n], n, w);
        SentIsOk(c, s.dbs, n, MessageTo(c.txn, c.owner, s.dbs[n], n, w));
      } else {
        assert SentTo(c, s, r, w);
      }
    }
    forall n1, k | n1 in t.managers
      ensures k in t.managers[n1] <==> Came(c, t, n1, k)
    {
      assert n1 != n ==> (k in s.managers[n1] <==> Came(c, s, n1, k));
    }
  }

  lemma ReceivedIsOk(c: Setup, objects: map<Key, Value>, m: Message)
    requires MessageOk(c, m) && ObjectsOk(c, m.dest, objects)
    ensures ObjectsOk(c, m.dest, Received(objects, m.keys, m.values))
    ensures forall k :: k in Received(objects, m.keys, m.values) <==> k in objects || k in m.keys
  {
    hide Received, Expected;
    forall k
      ensures k in Received(objects, m.keys, m.values) <==> k in objects || k in m.keys
      ensures k in m.keys ==> Received(objects, m.keys, m.values)[k] == Held(c, m.dest, k)
      ensures k in objects && k !in m.keys ==> Received(objects, m.keys, m.values)[k] == objects[k]
    {
      ReceivedHas(objects, m.keys, m.values, k);
      if k in m.keys {
        var i := LastPlace(m.keys, k);
      }
    }
  }

  lemma DeliverKeeps(c: Setup, s: State, m: Message)
    requires Inv(c, s) && Enabled(c, s, Deliver(m))
    ensures Inv(c, Next(c, s, Deliver(m)))
  {
    hide ReadsKept, ObjectsOk, MessageOk, Received;
    var t := Next(c, s, Deliver(m));
    ReceivedIsOk(c, s.managers[m.dest], m);
    forall r, w | r in t.managers && r in c.txn.readers && w in c.txn.writers && w != r
      ensures SentTo(c, t, r, w)
    {
      assert SentTo(c, s, r, w);
    }
    forall n, k | n in t.managers
      ensures k in t.managers[n] <==> Came(c, t, n, k)
    {
      assert k in s.managers[n] <==> Came(c, s, n, k);
      assert m in t.delivered;
    }
  }

  lemma StoreKeeps(c: Setup, s: State, n: int, op: Op)
    requires Inv(c, s) && Enabled(c, s, Store(n, op))
    ensures Inv(c, Next(c, s, Store(n, op)))
  {
    hide ReadsKept, ObjectsOk, MessageOk, Apply;
    StoreKeepsReads(c, s.dbs, n, op);
    KeysKept(c, s.dbs);
    var t := Next(c, s, Store(n, op));
    forall r, w | r in t.managers && r in c.txn.readers && w in c.txn.writers && w != r
      ensures SentTo(c, t, r, w)
    {
      assert SentTo(c, s, r, w);
    }
    forall n, k | n in t.managers
      ensures k in t.managers[n] <==> Came(c, t, n, k)
    {
      assert k in s.managers[n] <==> Came(c, s, n, k);
    }
  }

  lemma KeysKept(c: Setup, dbs: map<int, Db>)
    requires ReadsKept(c, dbs)
    ensures dbs.Keys == c.dbs.Keys
  {
  }

  /** Every reachable state satisfies the invariant. */
  lemma {:induction false} RunKeeps(c: Setup, s: State, steps: seq<Step>, t: State)
    requires Inv(c, s) && Reaches(c, s, steps, t)
    ensures Inv(c, t)
    decreases |steps|
  {
    hide Inv, Next, Enabled;
    if steps != [] {
      StepKeeps(c, s, steps[0]);
      RunKeeps(c, Next(c, s, steps[0]), steps[1..], t);
    }
  }

  lemma StepKeeps(c: Setup, s: State, step: Step)
    requires Inv(c, s) && Enabled(c, s, step)
    ensures Inv(c, Next(c, s, step))
  {
    hide Inv, Next, Enabled;
    match step
    case Start(n) => StartKeeps(c, s, n);
    case Deliver(m) => DeliverKeeps(c, s, m);
    case Store(n, op) => StoreKeeps(c, s, n, op);
  }

  lemma InitialIsOk(c: Setup)
    requires SetupOk(c)
    ensures Inv(c, Initial(c))
  {
  }

  // ---- what holds on every run ----

  ghost predicate Reachable(c: Setup, s: State) {
    SetupOk(c) && exists steps :: Reaches(c, Initial(c), steps, s)
  }

  lemma ReachableIsOk(c: Setup, s: State)
    requires Reachable(c, s)
    ensures Inv(c, s)
  {
    hide Inv;
    InitialIsOk(c);
    var steps :| Reaches(c, Initial(c), steps, s);
    RunKeeps(c, Initial(c), steps, s);
  }

  /**
   A node only ever holds what the owners' keys held just before the transaction: its own values as
   they were, and of another node's the same bytes, none for NULL.
   */
  lemma HoldsWhatOwnersRead(c: Setup, s: State, n: int, k: Key)
    requires Reachable(c, s) && n in s.managers && k in s.managers[n]
    ensures k in TxnKeys(c.txn) && c.owner(k) in c.dbs
    ensures c.owner(k) == n ==> s.managers[n][k] == Read(ChainIn(c.dbs[n], k), c.txn.id)
    ensures c.owner(k) != n ==>
      s.managers[n][k] == match Read(ChainIn(c.dbs[c.owner(k)], k), c.txn.id) { case Null => Data([]) case Data(bytes) => Data(bytes) }
  {
    ReachableIsOk(c, s);
  }

  /** Every message in flight carries, for keys of other nodes than its receiver's, exactly the bytes of what they hold. */
  lemma MessagesCarryReads(c: Setup, s: State, m: Message, i: int)
    requires Reachable(c, s) && m in s.pool && 0 <= i < |m.keys|
    ensures |m.values| == |m.keys| && m.dest in c.txn.writers && c.owner(m.keys[i]) in c.dbs && c.owner(m.keys[i]) != m.dest
    ensures m.values[i] == match Read(ChainIn(c.dbs[c.owner(m.keys[i])], m.keys[i]), c.txn.id) { case Null => [] case Data(bytes) => bytes }
  {
    hide Read, ReadsKept, ObjectsOk, Came, SentTo;
    ReachableIsOk(c, s);
    assert MessageOk(c, m) && m.keys[i] in m.keys;
  }

  ghost predicate NoRepeats(keys: seq<Key>) {
    forall i, j :: 0 <= i < j < |keys| ==> keys[i] != keys[j]
  }

  ghost function KeySet(keys: seq<Key>): set<Key> {
    set k | k in keys
  }

  lemma {:induction false} KeysCount(keys: seq<Key>)
    ensures |KeySet(keys)| <= |keys|
    ensures |KeySet(keys)| == |keys| <==> NoRepeats(keys)
  {
    if keys != [] {
      var n := |keys| - 1;
      var init, last := keys[..n], keys[n];
      KeysCount(init);
      assert keys == init + [last];
      assert KeySet(keys) == KeySet(init) + {last};
      if last in KeySet(init) {
        assert KeySet(keys) == KeySet(init);
        var i :| 0 <= i < n && init[i] == last;
        assert keys[i] == keys[n];
      }
    }
  }

  lemma SubsetCount<T>(a: set<T>, b: set<T>)
    requires a <= b
    ensures |a| <= |b| && (|a| == |b| ==> a == b)
  {
    assert b == a + (b - a);
    if |a| == |b| {
      assert |b - a| == 0;
    }
  }

  /** A node is ready exactly if it holds all keys of the transaction and none is listed twice. */
  lemma ReadyIsComplete(c: Setup, s: State, n: int)
    requires Reachable(c, s) && n in s.managers
    ensures Ready(c.txn, s.managers[n]) <==> NoRepeats(TxnKeys(c.txn)) && s.managers[n].Keys == KeySet(TxnKeys(c.txn))
  {
    hide NoRepeats;
    ReachableIsOk(c, s);
    KeysCount(TxnKeys(c.txn));
    SubsetCount(s.managers[n].Keys, KeySet(TxnKeys(c.txn)));
  }

  /** All ready nodes hold the same values, except that what is NULL at its owner is a value without bytes elsewhere. */
  lemma ReadyNodesAgree(c: Setup, s: State, n: int, n1: int)
    requires Reachable(c, s) && n in s.managers && n1 in s.managers && Ready(c.txn, s.managers[n]) && Ready(c.txn, s.managers[n1])
    ensures s.managers[n].Keys == s.managers[n1].Keys
    ensures forall k :: k in s.managers[n] ==>
      || s.managers[n][k] == s.managers[n1][k]
      || (c.owner(k) == n && s.managers[n][k] == Null && s.managers[n1][k] == Data([]))
      || (c.owner(k) == n1 && s.managers[n][k] == Data([]) && s.managers[n1][k] == Null)
  {
    hide Ready, Reachable, NoRepeats, Read;
    ReadyIsComplete(c, s, n);
    ReadyIsComplete(c, s, n1);
    forall k | k in s.managers[n]
      ensures s.managers[n][k] == s.managers[n1][k]
        || (c.owner(k) == n && s.managers[n][k] == Null && s.managers[n1][k] == Data([]))
        || (c.owner(k) == n1 && s.managers[n][k] == Data([]) && s.managers[n1][k] == Null)
    {
      HoldsWhatOwnersRead(c, s, n, k);
      HoldsWhatOwnersRead(c, s, n1, k);
    }
  }

  /** All readers have started and all that was sent to a started node has been delivered. */
  ghost predicate Settled(c: Setup, s: State) {
    && (forall r :: r in c.txn.readers ==> r in s.managers)
    && forall m :: m in s.pool && m.dest in s.managers ==> m in s.delivered
  }

  /**
   Once all messages are delivered, every writer that has started is ready, if and only if the owners
   of all keys are readers and no key is listed twice.
   */
  lemma SettledWritersAreReady(c: Setup, s: State, w: int)
    requires Reachable(c, s) && Settled(c, s) && w in s.managers && w in c.txn.writers
    ensures Ready(c.txn, s.managers[w]) <==> NoRepeats(TxnKeys(c.txn)) && forall k :: k in TxnKeys(c.txn) ==> c.owner(k) in c.txn.readers
  {
    hide Ready, Reachable, NoRepeats;
    ReadyIsComplete(c, s, w);
    ReachableIsOk(c, s);
    forall k | k in TxnKeys(c.txn)
      ensures k in s.managers[w] <==> c.owner(k) in c.txn.readers
    {
      SettledHas(c, s, w, k);
    }
    assert s.managers[w].Keys <= KeySet(TxnKeys(c.txn));
  }

  lemma SettledHas(c: Setup, s: State, w: int, k: Key)
    requires Inv(c, s) && Settled(c, s) && w in s.managers && w in c.txn.writers && k in TxnKeys(c.txn)
    ensures k in s.managers[w] <==> c.owner(k) in c.txn.readers
  {
    hide ReadsKept, MessageOk;
    var r := c.owner(k);
    if r in c.txn.readers && r != w {
      assert SentTo(c, s, r, w);
      var m :| m in s.pool && m.dest == w && forall k :: k in TxnKeys(c.txn) && c.owner(k) == r ==> k in m.keys;
      assert Came(c, s, w, k);
    }
    assert k in s.managers[w] <==> Came(c, s, w, k);
  }

  /** A node that is ready stays ready, with the same values. */
  lemma ReadyStaysReady(c: Setup, s: State, step: Step, n: int)
    requires Reachable(c, s) && Enabled(c, s, step) && n in s.managers && Ready(c.txn, s.managers[n])
    ensures n in Next(c, s, step).managers && Next(c, s, step).managers[n] == s.managers[n]
  {
    hide Reachable, Ready, Inv, Received, Started, ObjectsOk, MessageOk, Sent, Apply;
    ReadyIsComplete(c, s, n);
    ReachableIsOk(c, s);
    if step.Deliver? && step.msg.dest == n {
      InvHas(c, s, n, step.msg);
      ReceivedIsOk(c, s.managers[n], step.msg);
      SameObjects(c, n, s.managers[n], Received(s.managers[n], step.msg.keys, step.msg.values));
    }
  }

  lemma InvHas(c: Setup, s: State, n: int, m: Message)
    requires Inv(c, s) && n in s.managers && m in s.pool
    ensures ObjectsOk(c, n, s.managers[n]) && MessageOk(c, m)
  {
    hide ReadsKept, ObjectsOk, MessageOk, Came, SentTo;
  }

  lemma SameObjects(c: Setup, n: int, a: map<Key, Value>, b: map<Key, Value>)
    requires ObjectsOk(c, n, a) && ObjectsOk(c, n, b) && a.Keys == KeySet(TxnKeys(c.txn)) && forall k :: k in a ==> k in b
    ensures a == b
  {
  }

  // ---- every run can be brought to its end ----

  lemma {:induction false} ReachesOn(c: Setup, s: State, steps: seq<Step>, t: State, steps1: seq<Step>, u: State)
    requires Reaches(c, s, steps, t) && Reaches(c, t, steps1, u)
    ensures Reaches(c, s, steps + steps1, u)
    decreases |steps|
  {
    hide Next, Enabled;
    if steps == [] {
      assert steps + steps1 == steps1;
    } else {
      ReachesOn(c, Next(c, s, steps[0]), steps[1..], t, steps1, u);
      assert (steps + steps1)[0] == steps[0] && (steps + steps1)[1..] == steps[1..] + steps1;
    }
  }

  /** From each state, starting the nodes that have not started and delivering what has not been delivered settles it. */
  lemma {:induction false} CanSettle(c: Setup, s: State) returns (steps: seq<Step>, t: State)
    requires SetupOk(c) && Inv(c, s)
    ensures Reaches(c, s, steps, t) && Settled(c, t) && t.managers.Keys == c.dbs.Keys
    decreases s.dbs.Keys - s.managers.Keys, s.pool - s.delivered
  {
    hide Inv, Received, Started, Sent, Apply;
    KeysOfInv(c, s);
    var step;
    var missing := s.dbs.Keys - s.managers.Keys;
    if missing != {} {
      var n := SomeOf(missing);
      step := Start(n);
    } else if m :| m in s.pool && m.dest in s.managers && m !in s.delivered {
      InvHas(c, s, m.dest, m);
      step := Deliver(m);
    } else {
      assert forall n :: n in s.dbs.Keys ==> n !in missing;
      return [], s;
    }
    StepKeeps(c, s, step);
    var rest, next := [], Next(c, s, step);
    assert step.Start? ==> step.node in s.dbs.Keys - s.managers.Keys && next.dbs.Keys - next.managers.Keys < s.dbs.Keys - s.managers.Keys;
    assert step.Deliver? ==> step.msg in s.pool - s.delivered && next.managers.Keys == s.managers.Keys;
    rest, t := CanSettle(c, next);
    steps := [step] + rest;
    assert steps[0] == step && steps[1..] == rest;
  }

  lemma SomeOf<T>(s: set<T>) returns (x: T)
    requires s != {}
    ensures x in s
  {
    x :| x in s;
  }

  lemma KeysOfInv(c: Setup, s: State)
    requires Inv(c, s)
    ensures s.dbs.Keys == c.dbs.Keys && s.managers.Keys <= s.dbs.Keys && s.delivered <= s.pool
  {
  }

  /** From every reachable state the exchange can go on to one in which all writers are ready. */
  lemma AllWritersCanGetReady(c: Setup, s: State) returns (steps: seq<Step>, t: State)
    requires Reachable(c, s) && NoRepeats(TxnKeys(c.txn)) && forall k :: k in TxnKeys(c.txn) ==> c.owner(k) in c.txn.readers
    ensures Reaches(c, s, steps, t) && forall w :: w in c.txn.writers ==> w in t.managers && Ready(c.txn, t.managers[w])
  {
    hide Inv, Ready, NoRepeats, Settled, Enabled, Next;
    ReachableIsOk(c, s);
    steps, t := CanSettle(c, s);
    var before :| Reaches(c, Initial(c), before, s);
    ReachesOn(c, Initial(c), before, s, steps, t);
    forall w | w in c.txn.writers
      ensures w in t.managers && Ready(c.txn, t.managers[w])
    {
      SettledWritersAreReady(c, t, w);
    }
  }
}
