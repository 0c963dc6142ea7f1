/**
 The move-to-front queue of recent transition tables that new states are compared with:
 `mkprot`, `mv2front` and `tbldiff` (`ext/flex/tblcmp.c`).
 */
module Protos {
  import opened NxtChk
  import opened MkEntry

  const NIL := 0
  const MSP := 50
  const PROT_SAVE_SIZE := 2000

  /** The linked list from first to last runs through the slots of queue, which are 1..|queue|. */
  ghost predicate QueueOk(queue: seq<int>, next: seq<int>, prev: seq<int>, first: int, last: int) {
    && |next| == |prev| == MSP && |queue| < MSP
    && (forall k :: 0 <= k < |queue| ==> 1 <= queue[k] <= |queue|)
    && (forall j, k :: 0 <= j < k < |queue| ==> queue[j] != queue[k])
    && (forall k :: 0 <= k < |queue| - 1 ==> next[queue[k]] == queue[k + 1])
    && (forall k :: 1 <= k < |queue| ==> prev[queue[k]] == queue[k - 1])
    && (if |queue| == 0 then first == NIL
        else first == queue[0] && last == queue[|queue| - 1] && next[last] == NIL)
  }

  /** There is no room for an n-th proto. */
  predicate Full(numecs: nat, n: nat) {
    n >= MSP || numecs * n >= PROT_SAVE_SIZE
  }

  /** Number of protos made so far, against the number on the queue. */
  ghost predicate CountOk(numecs: nat, numprots: nat, size: nat) {
    && 1 <= numecs <= 256
    && (size == 0 || !Full(numecs, size))
    && (numprots == size || (size < numprots && Full(numecs, size + 1)))
  }

  lemma FullMonotone(numecs: nat, a: nat, b: nat)
    requires a <= b && Full(numecs, a)
    ensures Full(numecs, b)
  {
    if a < b {
      MulStep(numecs, a, b);
    }
  }

  /** When the queue is full it holds at least two protos, so one can be dropped. */
  lemma CountStep(numecs: nat, numprots: nat, size: nat)
    requires CountOk(numecs, numprots, size)
    ensures Full(numecs, numprots + 1) ==> 2 <= size && CountOk(numecs, numprots + 1, size)
    ensures !Full(numecs, numprots + 1) ==> numprots == size && CountOk(numecs, numprots + 1, size + 1)
  {
    if numprots != size {
      FullMonotone(numecs, size + 1, numprots + 1);
    }
  }

  /** A new proto in a new slot goes to the front. */
  lemma QueuePush(queue: seq<int>, next: seq<int>, prev: seq<int>, first: int, last: int,
                  slot: int, next1: seq<int>, prev1: seq<int>, last1: int)
    requires QueueOk(queue, next, prev, first, last) && |queue| + 1 < MSP && slot == |queue| + 1
    requires next1 == next[slot := first]
    requires prev1 == if first != NIL then prev[first := slot] else prev
    requires last1 == if |queue| == 0 then slot else last
    ensures QueueOk([slot] + queue, next1, prev1, slot, last1)
  {
    var q1 := [slot] + queue;
    forall k | 0 <= k < |q1| - 1 ensures next1[q1[k]] == q1[k + 1] {
      assert k > 0 ==> q1[k] == queue[k - 1];
    }
    forall k | 1 <= k < |q1| ensures prev1[q1[k]] == q1[k - 1] {
      assert q1[k] == queue[k - 1];
    }
  }

  /** Dropping the last proto and reusing its slot at the front. */
  lemma QueueReplace(queue: seq<int>, next: seq<int>, prev: seq<int>, first: int, last: int,
                     next1: seq<int>, prev1: seq<int>)
    requires QueueOk(queue, next, prev, first, last) && 2 <= |queue|
    requires prev[last] == queue[|queue| - 2]
    requires next1 == next[prev[last] := NIL][last := first]
    requires prev1 == prev[first := last]
    ensures QueueOk([last] + queue[..|queue| - 1], next1, prev1, last, prev[last])
  {
    var n := |queue|;
    var q1 := [last] + queue[..n - 1];
    assert prev[last] == queue[n - 2];
    forall k | 1 <= k < n ensures q1[k] == queue[k - 1] != last {
    }
    forall k | 1 <= k < n - 1 ensures next1[q1[k]] == q1[k + 1] {
      assert next[queue[k - 1]] == queue[k];
    }
    forall k | 2 <= k < n ensures prev1[q1[k]] == q1[k - 1] {
      assert prev[queue[k - 1]] == queue[k - 2];
    }
  }

  /** queue with its k-th element moved to the front. */
  ghost function ToFront(queue: seq<int>, k: nat): seq<int>
    requires k < |queue|
  {
    [queue[k]] + queue[..k] + queue[k + 1..]
  }

  lemma QueueIs(queue: seq<int>, next: seq<int>, prev: seq<int>, first: int, last: int, k: nat)
    requires QueueOk(queue, next, prev, first, last) && k < |queue|
    ensures |next| == |prev| == MSP && first == queue[0] && 1 <= last < MSP
  {
  }

  /** What mv2front finds around the element it moves. */
  lemma QueueNeighbours(queue: seq<int>, next: seq<int>, prev: seq<int>, first: int, last: int, k: nat)
    requires QueueOk(queue, next, prev, first, last) && 1 <= k < |queue|
    ensures 1 <= queue[k] < MSP && queue[k] != first && 1 <= first < MSP
    ensures prev[queue[k]] == queue[k - 1] && 1 <= queue[k - 1] < MSP
    ensures next[queue[k]] == if k + 1 < |queue| then queue[k + 1] else NIL
    ensures queue[k] == last <==> k + 1 == |queue|
    ensures queue[k - 1] != queue[k] && (k + 1 < |queue| ==> 1 <= queue[k + 1] < MSP)
  {
    assert k + 1 < |queue| ==> queue[k] != queue[|queue| - 1];
  }

  lemma ToFrontAt(queue: seq<int>, k: nat, j: nat)
    requires j < |queue| && k < |queue|
    ensures |ToFront(queue, k)| == |queue|
    ensures ToFront(queue, k)[j] == if j == 0 then queue[k] else if j <= k then queue[j - 1] else queue[j]
  {
  }

  lemma ToFrontNext(queue: seq<int>, next: seq<int>, prev: seq<int>, first: int, last: int, k: nat, next1: seq<int>, j: nat)
    requires QueueOk(queue, next, prev, first, last) && 1 <= k < |queue| && j < |queue| - 1
    requires next1 == next[queue[k - 1] := next[queue[k]]][queue[k] := first]
    ensures next1[ToFront(queue, k)[j]] == ToFront(queue, k)[j + 1]
  {
    QueueNeighbours(queue, next, prev, first, last, k);
    ToFrontAt(queue, k, j);
    ToFrontAt(queue, k, j + 1);
    hide ToFront;
    if 0 < j < k {
      assert next[queue[j - 1]] == queue[j];
    } else if j > k {
      assert next[queue[j]] == queue[j + 1];
    }
  }

  lemma ToFrontPrev(queue: seq<int>, next: seq<int>, prev: seq<int>, first: int, last: int, k: nat, prev1: seq<int>, j: nat)
    requires QueueOk(queue, next, prev, first, last) && 1 <= k < |queue| && 1 <= j < |queue|
    requires prev1 == (if k + 1 < |queue| then prev[queue[k + 1] := queue[k - 1]] else prev)[queue[k] := NIL][first := queue[k]]
    ensures prev1[ToFront(queue, k)[j]] == ToFront(queue, k)[j - 1]
  {
    QueueNeighbours(queue, next, prev, first, last, k);
    ToFrontAt(queue, k, j);
    ToFrontAt(queue, k, j - 1);
    hide ToFront;
    if 1 < j <= k {
      assert prev[queue[j - 1]] == queue[j - 2];
    } else if j > k + 1 {
      assert prev[queue[j]] == queue[j - 1];
    }
  }

  lemma QueueToFront(queue: seq<int>, next: seq<int>, prev: seq<int>, first: int, last: int, k: nat,
                     next1: seq<int>, prev1: seq<int>, last1: int)
    requires QueueOk(queue, next, prev, first, last) && 1 <= k < |queue|
    requires last1 == if k + 1 == |queue| then queue[k - 1] else last
    requires next1 == next[queue[k - 1] := next[queue[k]]][queue[k] := first]
    requires prev1 == (if k + 1 < |queue| then prev[queue[k + 1] := queue[k - 1]] else prev)[queue[k] := NIL][first := queue[k]]
    ensures QueueOk(ToFront(queue, k), next1, prev1, queue[k], last1)
  {
    hide ToFront;
    FrontOrder(queue, next, prev, first, last, k);
    FrontLast(queue, next, prev, first, last, k, next1, last1);
    forall j | 0 <= j < |queue| - 1
      ensures next1[ToFront(queue, k)[j]] == ToFront(queue, k)[j + 1]
    {
      ToFrontNext(queue, next, prev, first, last, k, next1, j);
    }
    forall j | 1 <= j < |queue|
      ensures prev1[ToFront(queue, k)[j]] == ToFront(queue, k)[j - 1]
    {
      ToFrontPrev(queue, next, prev, first, last, k, prev1, j);
    }
  }

  /** The elements are the same, each once. */
  lemma FrontOrder(queue: seq<int>, next: seq<int>, prev: seq<int>, first: int, last: int, k: nat)
    requires QueueOk(queue, next, prev, first, last) && 1 <= k < |queue|
    ensures |ToFront(queue, k)| == |queue| && ToFront(queue, k)[0] == queue[k] && first == queue[0]
    ensures forall j :: 0 <= j < |queue| ==> 1 <= ToFront(queue, k)[j] <= |queue|
    ensures forall i, j :: 0 <= i < j < |queue| ==> ToFront(queue, k)[i] != ToFront(queue, k)[j]
  {
    var q1 := ToFront(queue, k);
    assert forall j :: 0 <= j < |q1| ==> q1[j] == queue[if j == 0 then k else if j <= k then j - 1 else j];
  }

  lemma FrontLast(queue: seq<int>, next: seq<int>, prev: seq<int>, first: int, last: int, k: nat, next1: seq<int>, last1: int)
    requires QueueOk(queue, next, prev, first, last) && 1 <= k < |queue|
    requires last1 == if k + 1 == |queue| then queue[k - 1] else last
    requires next1 == next[queue[k - 1] := next[queue[k]]][queue[k] := first]
    ensures last1 == ToFront(queue, k)[|queue| - 1] && next1[last1] == NIL
  {
    QueueNeighbours(queue, next, prev, first, last, k);
  }

  // ---- the rows saved for the protos ----

  /** Where entry i of the row of slot p is saved. */
  function At(numecs: nat, p: nat, i: nat): int
    requires 1 <= p
  {
    numecs * (p - 1) + i
  }

  /** Slots below b end before slot b starts. */
  lemma {:induction false} MulStep(n: nat, a: nat, b: nat)
    requires a < b
    ensures n * a + n <= n * b
    decreases b
  {
    if a + 1 < b {
      MulStep(n, a, b - 1);
      assert n * b == n * (b - 1) + n;
    } else {
      assert n * b == n * a + n;
    }
  }

  lemma FullBelow(numecs: nat, a: nat, b: nat)
    requires a <= b && !Full(numecs, b)
    ensures !Full(numecs, a)
  {
    if Full(numecs, a) {
      FullMonotone(numecs, a, b);
    }
  }

  lemma AtInRange(numecs: nat, p: nat, i: nat, size: nat)
    requires 1 <= p <= size && 1 <= i <= numecs && !Full(numecs, size)
    ensures 0 < At(numecs, p, i) < PROT_SAVE_SIZE
  {
    MulStep(numecs, p - 1, size);
  }

  lemma AtDisjoint(numecs: nat, p: nat, i: nat, q: nat, j: nat)
    requires 1 <= p && 1 <= q && 1 <= i <= numecs && 1 <= j <= numecs
    requires At(numecs, p, i) == At(numecs, q, j)
    ensures p == q && i == j
  {
    if p < q {
      MulStep(numecs, p - 1, q - 1);
    }
    if q < p {
      MulStep(numecs, q - 1, p - 1);
    }
  }

  /** Rows of links are numecs + 1 long and agree on class 0. */
  ghost predicate FullRow(m: Meaning, l: int, numecs: nat, eob: int) {
    l in m && |m[l]| == numecs + 1 && m[l][0] == eob
  }

  /** What slot p saves is the row of the state or template it names. */
  ghost predicate ProtRow(prottbl: seq<int>, protsave: seq<int>, numecs: nat, eob: int, m: Meaning, p: nat)
    requires |prottbl| == MSP && |protsave| == PROT_SAVE_SIZE && 1 <= p < MSP
  {
    && FullRow(m, prottbl[p], numecs, eob) && prottbl[p] != JAMSTATE
    && forall i {:trigger At(numecs, p, i)} :: 1 <= i <= numecs ==>
         0 <= At(numecs, p, i) < PROT_SAVE_SIZE && protsave[At(numecs, p, i)] == m[prottbl[p]][i]
  }

  ghost predicate ProtRows(prottbl: seq<int>, protsave: seq<int>, numecs: nat, eob: int, m: Meaning, size: nat) {
    && |prottbl| == MSP && |protsave| == PROT_SAVE_SIZE && size < MSP
    && forall p :: 1 <= p <= size ==> ProtRow(prottbl, protsave, numecs, eob, m, p)
  }

  lemma ProtRowsGrow(prottbl: seq<int>, protsave: seq<int>, numecs: nat, eob: int, m: Meaning, size: nat, s: int, row: Row)
    requires ProtRows(prottbl, protsave, numecs, eob, m, size) && s !in m
    ensures ProtRows(prottbl, protsave, numecs, eob, m[s := row], size)
  {
    var m1 := m[s := row];
    forall p | 1 <= p <= size ensures ProtRow(prottbl, protsave, numecs, eob, m1, p) {
      assert ProtRow(prottbl, protsave, numecs, eob, m, p);
    }
  }

  /** Saving the row of link l in a slot leaves the other slots alone. */
  lemma ProtRowsSave(prottbl: seq<int>, protsave: seq<int>, numecs: nat, eob: int, m: Meaning, size: nat, size1: nat,
                     slot: nat, l: int, prottbl1: seq<int>, protsave1: seq<int>)
    requires ProtRows(prottbl, protsave, numecs, eob, m, size) && size1 < MSP && !Full(numecs, size1)
    requires size1 == size || (size1 == size + 1 && slot == size1)
    requires 1 <= slot <= size1 && FullRow(m, l, numecs, eob) && l != JAMSTATE
    requires prottbl1 == prottbl[slot := l] && |protsave1| == |protsave|
    requires Saved(protsave, protsave1, m[l], numecs, slot, numecs + 1)
    ensures ProtRows(prottbl1, protsave1, numecs, eob, m, size1)
  {
    forall p | 1 <= p <= size1 ensures ProtRow(prottbl1, protsave1, numecs, eob, m, p) {
      if p != slot {
        assert ProtRow(prottbl, protsave, numecs, eob, m, p);
      }
      forall i {:trigger At(numecs, p, i)} | 1 <= i <= numecs
        ensures 0 <= At(numecs, p, i) < PROT_SAVE_SIZE && protsave1[At(numecs, p, i)] == m[prottbl1[p]][i]
      {
        AtInRange(numecs, p, i, size1);
      }
    }
  }

  /** Entries 1..i-1 of row are saved in slot; every other slot is as it was. */
  ghost predicate Saved(protsave: seq<int>, protsave1: seq<int>, row: Row, numecs: nat, slot: nat, i: nat)
    requires |protsave| == |protsave1| && 1 <= slot && |row| == numecs + 1
  {
    && 1 <= i <= numecs + 1
    && (forall c {:trigger At(numecs, slot, c)} :: 1 <= c < i ==>
         0 <= At(numecs, slot, c) < |protsave| && protsave1[At(numecs, slot, c)] == row[c])
    && (forall p: nat, c: nat {:trigger At(numecs, p, c)} ::
         1 <= p && p != slot && 1 <= c <= numecs && 0 <= At(numecs, p, c) < |protsave|
         ==> protsave1[At(numecs, p, c)] == protsave[At(numecs, p, c)])
  }

  lemma SaveNext(protsave: seq<int>, protsave1: seq<int>, row: Row, numecs: nat, slot: nat, i: nat)
    requires |protsave| == |protsave1| && 1 <= slot && |row| == numecs + 1
    requires 0 <= At(numecs, slot, i) < |protsave| && i <= numecs && Saved(protsave, protsave1, row, numecs, slot, i)
    ensures Saved(protsave, protsave1[At(numecs, slot, i) := row[i]], row, numecs, slot, i + 1)
  {
    var k := At(numecs, slot, i);
    forall p: nat, c: nat {:trigger At(numecs, p, c)} | 1 <= p && 1 <= c <= numecs && At(numecs, p, c) == k
      ensures p == slot && c == i
    {
      AtDisjoint(numecs, p, c, slot, i);
    }
    hide At;
  }

  class ProtoQueue {
    const numecs: nat
    const eob: int
    var numprots: nat
    var firstprot: int
    var lastprot: int
    var protnext: seq<int>
    var protprev: seq<int>
    var prottbl: seq<int>
    var protcomst: seq<int>
    var protsave: seq<int>
    ghost var queue: seq<int>

    ghost predicate Valid(m: Meaning)
      reads this
    {
      && QueueOk(queue, protnext, protprev, firstprot, lastprot)
      && (|queue| == 0 ==> lastprot == 1)
      && CountOk(numecs, numprots, |queue|) && |protcomst| == MSP
      && ProtRows(prottbl, protsave, numecs, eob, m, |queue|)
    }

    constructor (numecs: nat, eob: int, ghost m: Meaning)
      requires 1 <= numecs <= 256
      ensures Valid(m) && this.numecs == numecs && this.eob == eob && queue == []
    {
      this.numecs, this.eob := numecs, eob;
      numprots, firstprot, lastprot := 0, NIL, 1;
      protnext, protprev := seq(MSP, _ => 0), seq(MSP, _ => 0);
      prottbl, protcomst := seq(MSP, _ => 0), seq(MSP, _ => 0);
      protsave := seq(PROT_SAVE_SIZE, _ => 0);
      queue := [];
    }

    /** Drops the last proto of a full queue and puts its slot at the front. */
    method ReuseLast() returns (slot: nat)
      requires QueueOk(queue, protnext, protprev, firstprot, lastprot) && 2 <= |queue|
      modifies `firstprot, `lastprot, `protnext, `protprev, `queue
      ensures 1 <= slot <= |queue| == |old(queue)| && firstprot == slot == queue[0]
      ensures QueueOk(queue, protnext, protprev, firstprot, lastprot)
      ensures forall p :: p in old(queue) ==> p in queue
    {
      ghost var next0, prev0, last0 := protnext, protprev, lastprot;
      QueueNeighbours(queue, protnext, protprev, firstprot, lastprot, |queue| - 1);
      slot := lastprot;
      hide QueueOk;
      lastprot := protprev[lastprot];
      protnext := protnext[lastprot := NIL];
      protnext := protnext[slot := firstprot];
      protprev := protprev[firstprot := slot];
      QueueReplace(queue, next0, prev0, firstprot, last0, protnext, protprev);
      KeepsAll(queue);
      queue := [last0] + queue[..|queue| - 1];
      firstprot := slot;
    }

    /** Puts the slot after the ones in use at the front of the queue. */
    method TakeFresh(slot: nat)
      requires QueueOk(queue, protnext, protprev, firstprot, lastprot) && slot == |queue| + 1 < MSP
      requires |queue| == 0 ==> lastprot == 1
      modifies `firstprot, `protnext, `protprev, `queue
      ensures |queue| == |old(queue)| + 1 && firstprot == slot == queue[0]
      ensures QueueOk(queue, protnext, protprev, firstprot, lastprot)
      ensures forall p :: p in old(queue) ==> p in queue
    {
      ghost var next0, prev0 := protnext, protprev;
      protnext := protnext[slot := firstprot];
      if firstprot != NIL {
        protprev := protprev[firstprot := slot];
      }
      QueuePush(queue, next0, prev0, firstprot, lastprot, slot, protnext, protprev, lastprot);
      queue := [slot] + queue;
      firstprot := slot;
    }

    /** Takes a slot for a new proto and puts it at the front of the queue. */
    method NewSlot(ghost m: Meaning) returns (slot: nat)
      requires Valid(m)
      modifies `numprots, `firstprot, `lastprot, `protnext, `protprev, `queue
      ensures 1 <= slot <= |queue| && firstprot == slot == queue[0]
      ensures |queue| == |old(queue)| || (|queue| == |old(queue)| + 1 && slot == |queue|)
      ensures QueueOk(queue, protnext, protprev, firstprot, lastprot) && CountOk(numecs, numprots, |queue|)
      ensures |queue| < MSP && !Full(numecs, |queue|)
      ensures forall p :: p in old(queue) ==> p in queue
    {
      CountStep(numecs, numprots, |queue|);
      numprots := numprots + 1;
      if numprots >= MSP || numecs * numprots >= PROT_SAVE_SIZE {
        slot := ReuseLast();
      } else {
        slot := numprots;
        TakeFresh(slot);
      }
    }

    /** Makes the transition array of link l the first proto. */
    method MkProt(state: seq<int>, l: int, comstate: int, ghost m: Meaning)
      requires Valid(m) && FullRow(m, l, numecs, eob) && l != JAMSTATE && |state| == numecs + 1
      requires forall i :: 1 <= i <= numecs ==> state[i] == m[l][i]
      modifies this
      ensures Valid(m) && firstprot in queue && prottbl[firstprot] == l
      ensures forall p :: p in old(queue) ==> p in queue
    {
      ghost var size, tbl0, save0 := |queue|, prottbl, protsave;
      assert |prottbl| == |protcomst| == MSP && |protsave| == PROT_SAVE_SIZE;
      var slot := NewSlot(m);
      hide QueueOk, CountOk, ProtRows, Saved;
      prottbl := prottbl[slot := l];
      protcomst := protcomst[slot := comstate];
      FullBelow(numecs, slot, |queue|);
      SaveRow(state, slot, m[l]);
      ProtRowsSave(tbl0, save0, numecs, eob, m, size, |queue|, slot, l, prottbl, protsave);
    }

    method SaveRow(state: seq<int>, slot: nat, ghost row: Row)
      requires |protsave| == PROT_SAVE_SIZE && 1 <= slot && !Full(numecs, slot)
      requires |state| == |row| == numecs + 1 && forall i :: 1 <= i <= numecs ==> state[i] == row[i]
      modifies `protsave
      ensures |protsave| == PROT_SAVE_SIZE && Saved(old(protsave), protsave, row, numecs, slot, numecs + 1)
    {
      ghost var save0 := protsave;
      var tblbase := numecs * (slot - 1);
      var i := 1;
      while i <= numecs
        invariant 1 <= i <= numecs + 1 && |protsave| == PROT_SAVE_SIZE
        invariant Saved(save0, protsave, row, numecs, slot, i)
      {
        AtInRange(numecs, slot, i, slot);
        SaveNext(save0, protsave, row, numecs, slot, i);
        protsave := protsave[tblbase + i := state[i]];
        i := i + 1;
      }
    }

    /** Moves a proto to the front of the queue. */
    method Mv2Front(qelm: int, ghost m: Meaning)
      requires Valid(m) && qelm in queue
      modifies `firstprot, `lastprot, `protnext, `protprev, `queue
      ensures Valid(m) && firstprot == qelm && |queue| == |old(queue)|
    {
      hide QueueOk, ProtRows, ToFront, CountOk;
      ghost var k: nat :| k < |queue| && queue[k] == qelm;
      QueueIs(queue, protnext, protprev, firstprot, lastprot, k);
      if firstprot != qelm {
        QueueNeighbours(queue, protnext, protprev, firstprot, lastprot, k);
        FrontOrder(queue, protnext, protprev, firstprot, lastprot, k);
        ghost var next0, prev0, first0, last0 := protnext, protprev, firstprot, lastprot;
        if qelm == lastprot {
          lastprot := protprev[lastprot];
        }
        protnext := protnext[protprev[qelm] := protnext[qelm]];
        if protnext[qelm] != NIL {
          protprev := protprev[protnext[qelm] := protprev[qelm]];
        }
        protprev := protprev[qelm := NIL];
        protnext := protnext[qelm := firstprot];
        protprev := protprev[firstprot := qelm];
        firstprot := qelm;
        QueueToFront(queue, next0, prev0, first0, last0, k, protnext, protprev, lastprot);
        queue := ToFront(queue, k);
      }
    }

    /** Differences between state and the pr'th proto: ext is state with SAME_TRANS where they agree. */
    method TblDiff(state: seq<int>, pr: int, ghost m: Meaning, ghost row: Row) returns (numdiff: nat, ext: seq<int>)
      requires Valid(m) && 1 <= pr <= |queue| && RowOf(state, row, numecs, eob)
      ensures IsDiff(ext, numdiff, row, m, prottbl[pr], numecs)
    {
      ghost var l := prottbl[pr];
      assert ProtRow(prottbl, protsave, numecs, eob, m, pr);
      var protp := numecs * (pr - 1);
      numdiff := 0;
      ext := state;
      var i := 1;
      while i <= numecs
        invariant 1 <= i <= numecs + 1
        invariant DiffUpTo(ext, state, m[l], numecs, i) && numdiff == CountKept(ext, l, i - 1)
      {
        assert protsave[At(numecs, pr, i)] == m[l][i];
        DiffStep(ext, state, m[l], numecs, l, i);
        if protsave[protp + i] == state[i] {
          ext := ext[i := SAME_TRANS];
        } else {
          numdiff := numdiff + 1;
        }
        i := i + 1;
      }
      DiffRepresents(ext, state, row, m, l, numecs, eob);
    }
  }

  /** state is the transition array of a row: entries are states, or 0 for no transition. */
  ghost predicate RowOf(state: seq<int>, row: Row, numecs: nat, eob: int) {
    && |state| == |row| == numecs + 1 && row[0] == eob
    && forall i :: 1 <= i <= numecs ==> 0 <= state[i] == row[i]
  }

  /** ext is what a state with this row has to store when it links to l, numdiff entries. */
  ghost predicate IsDiff(ext: seq<int>, numdiff: int, row: Row, m: Meaning, l: int, numecs: nat) {
    |ext| == numecs + 1 && Represents(ext, row, m, l) && numdiff == CountKept(ext, l, numecs)
  }

  ghost predicate DiffUpTo(ext: seq<int>, state: seq<int>, prow: Row, numecs: nat, i: int) {
    && |ext| == |state| == |prow| == numecs + 1
    && (forall c :: 1 <= c <= numecs ==>
          ext[c] == if c < i && prow[c] == state[c] then SAME_TRANS else state[c])
  }

  lemma DiffStep(ext: seq<int>, state: seq<int>, prow: Row, numecs: nat, l: int, i: int)
    requires DiffUpTo(ext, state, prow, numecs, i) && 1 <= i <= numecs && l != JAMSTATE && 0 <= state[i]
    ensures prow[i] == state[i] ==>
      DiffUpTo(ext[i := SAME_TRANS], state, prow, numecs, i + 1) &&
      CountKept(ext[i := SAME_TRANS], l, i) == CountKept(ext, l, i - 1)
    ensures prow[i] != state[i] ==>
      DiffUpTo(ext, state, prow, numecs, i + 1) && CountKept(ext, l, i) == CountKept(ext, l, i - 1) + 1
  {
    CountPrefix(ext, ext[i := SAME_TRANS], l, i - 1);
  }

  lemma DiffRepresents(ext: seq<int>, state: seq<int>, row: Row, m: Meaning, l: int, numecs: nat, eob: int)
    requires FullRow(m, l, numecs, eob) && l != JAMSTATE
    requires RowOf(state, row, numecs, eob) && DiffUpTo(ext, state, m[l], numecs, numecs + 1)
    ensures Represents(ext, row, m, l)
  {
  }

  lemma KeepsAll(queue: seq<int>)
    requires 1 <= |queue|
    ensures forall p :: p in queue ==> p in [queue[|queue| - 1]] + queue[..|queue| - 1]
  {
    assert queue == queue[..|queue| - 1] + [queue[|queue| - 1]];
  }
}
