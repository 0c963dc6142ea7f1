/** Following a DFA state's NFA states on a class, and grouping classes with equal targets (`ext/flex/dfa.c`). */
module Follow {
  import Ecs
  import EcNumbers
  import opened NfaLang
  import opened NfaSteps
  import opened Closure
  import opened Finite

  /** The input alphabet after equivalence classes: 1..numecs, and the character classes as lists of them. */
  datatype Alphabet = Alphabet(numecs: nat, nul: int, ecgroup: seq<int>, ccltbl: seq<int>, cclmap: seq<int>,
                               ccllen: seq<int>, cclng: seq<bool>)

  predicate HasClass(al: Alphabet, k: int) {
    && 1 <= k < |al.cclmap| && k < |al.ccllen| && k < |al.cclng|
    && 0 <= al.cclmap[k] && 0 <= al.ccllen[k] && al.cclmap[k] + al.ccllen[k] <= |al.ccltbl|
  }

  function ClassList(al: Alphabet, k: int): seq<int>
    requires HasClass(al, k)
  {
    EcNumbers.ClassAt(al.ccltbl, al.cclmap[k], al.ccllen[k])
  }

  /** The equivalence classes a character class lists. */
  function ClassSymbols(al: Alphabet, k: int): seq<int>
    requires HasClass(al, k)
  {
    Ecs.Symbols(ClassList(al, k), al.nul)
  }

  /** Character classes are strictly ascending lists of classes; a NUL entry stands for class nul. */
  ghost predicate AlphabetOk(al: Alphabet) {
    && 1 <= al.numecs <= Ecs.CSIZE && 1 <= al.nul <= al.numecs
    && forall k :: HasClass(al, k) ==> Ecs.ClassEntries(ClassSymbols(al, k), al.numecs)
  }

  /** A character that has an equivalence class of its own, or a negated class number. */
  predicate SymbolOk(al: Alphabet, sym: int) {
    if sym < 0 then HasClass(al, -sym)
    else sym != SYM_EPSILON && sym < |al.ecgroup| && 1 <= al.ecgroup[sym] <= al.numecs
  }

  /** Equivalence class c is among what symbol sym stands for. */
  predicate Takes(al: Alphabet, sym: int, c: int) {
    && SymbolOk(al, sym)
    && if sym < 0 then (c in ClassSymbols(al, -sym)) != al.cclng[-sym] else al.ecgroup[sym] == c
  }

  function Sat(al: Alphabet): Match {
    (sym, c) => Takes(al, sym, c)
  }

  ghost predicate SymbolsOk(al: Alphabet, net: Net) {
    forall s :: 0 < s < |net.sym| ==> net.sym[s] == SYM_EPSILON || SymbolOk(al, net.sym[s])
  }

  /** The states that consume class c. */
  ghost function Consumers(al: Alphabet, net: Net, c: int): int -> bool {
    s => 0 < s < |net.sym| && net.sym[s] != SYM_EPSILON && Takes(al, net.sym[s], c)
  }

  // ---- symfollowset ----

  /** Searches an ascending class list, giving up at the first greater entry. */
  method ListHas(al: Alphabet, k: int, transsym: int) returns (found: bool)
    requires HasClass(al, k) && AlphabetOk(al)
    ensures found <==> transsym in ClassSymbols(al, k)
  {
    var ccllist, lenccl := al.cclmap[k], al.ccllen[k];
    ghost var ms := ClassSymbols(al, k);
    found := false;
    var j := 0;
    while j < lenccl
      invariant 0 <= j <= lenccl == |ms| && !found
      invariant forall i :: 0 <= i < j ==> ms[i] < transsym
    {
      var ch := al.ccltbl[ccllist + j];
      if ch == 0 {
        ch := al.nul;
      }
      assert ch == ms[j];
      if ch > transsym {
        assert forall i :: j <= i < |ms| ==> ms[j] <= ms[i];
        return;
      } else if ch == transsym {
        found := true;
        return;
      }
      j := j + 1;
    }
  }

  function Abs(x: int): int {
    if x < 0 then -x else x
  }

  /** Whether a symbol consumes a class. */
  method SymbolTakes(al: Alphabet, sym: int, transsym: int) returns (r: bool)
    requires AlphabetOk(al) && SymbolOk(al, sym)
    ensures r == Takes(al, sym, transsym)
  {
    if sym < 0 {
      var found := ListHas(al, -sym, transsym);
      r := found != al.cclng[-sym];
    } else {
      r := Abs(al.ecgroup[sym]) == transsym;
    }
  }

  lemma PrefixStates(net: Net, ds: seq<int>, i: nat)
    requires States(net, ds) && i <= |ds|
    ensures States(net, ds[..i])
  {
    forall q | q in ds[..i]
      ensures q in ds
    {
      var k :| 0 <= k < i && ds[..i][k] == q;
      assert ds[k] == q;
    }
  }

  lemma TargetsStep(net: Net, ds: seq<int>, chosen: int -> bool, i: nat)
    requires States(net, ds) && Sized(net) && i < |ds|
    ensures States(net, ds[..i]) && States(net, ds[..i + 1]) && ds[i] in ds
    ensures Targets(net, ds[..i + 1], chosen) == Targets(net, ds[..i], chosen) + if chosen(ds[i]) then [net.t1[ds[i]]] else []
  {
    PrefixStates(net, ds, i);
    PrefixStates(net, ds, i + 1);
    assert ds[..i + 1][..i] == ds[..i];
  }

  /** The states that ds leads to on a class. */
  method SymFollowSet(nfa: NfaArrays, al: Alphabet, ds: seq<int>, transsym: int) returns (nset: seq<int>)
    requires nfa.Valid() && AlphabetOk(al) && SymbolsOk(al, nfa.net) && States(nfa.net, ds)
    ensures nset == Targets(nfa.net, ds, Consumers(al, nfa.net, transsym))
  {
    nset := [];
    ghost var net := nfa.net;
    ghost var chosen := Consumers(al, net, transsym);
    var i := 0;
    assert ds[..0] == [];
    while i < |ds|
      invariant 0 <= i <= |ds| && States(net, ds[..i]) && nset == Targets(net, ds[..i], chosen)
    {
      var ns := ds[i];
      assert ns in ds;
      var sym := nfa.transchar[ns];
      TargetsStep(net, ds, chosen, i);
      if sym != SYM_EPSILON {
        var takes := SymbolTakes(al, sym, transsym);
        if takes {
          nset := nset + [nfa.trans1[ns]];
          assert nfa.trans1[..][ns] == net.t1[ns];
        }
      }
      i := i + 1;
    }
    assert ds[..i] == ds;
  }

  // ---- sympartition ----

  /** The states of ds that consume c1 are those that consume c2. */
  ghost predicate SameConsumers(al: Alphabet, net: Net, ds: seq<int>, c1: int, c2: int) {
    forall s :: s in ds && 0 < s < |net.sym| && net.sym[s] != SYM_EPSILON ==> (Takes(al, net.sym[s], c1) <==> Takes(al, net.sym[s], c2))
  }

  ghost predicate Consumed(al: Alphabet, net: Net, ds: seq<int>, c: int) {
    exists s :: s in ds && Consumers(al, net, c)(s)
  }

  /** The classes a symbol names: its own one, or those its class lists. */
  ghost function Named(al: Alphabet, sym: int): set<int>
    requires SymbolOk(al, sym)
  {
    if sym < 0 then Ecs.Members(ClassSymbols(al, -sym)) else {al.ecgroup[sym]}
  }

  /** The sets by which the states ds[..i] split the classes. */
  ghost function Splits(al: Alphabet, net: Net, ds: seq<int>): (r: seq<set<int>>)
    requires States(net, ds) && SymbolsOk(al, net)
    ensures forall s :: s in ds && net.sym[s] != SYM_EPSILON ==> Named(al, net.sym[s]) in r
  {
    if ds == [] then []
    else
      var e, s := ds[..|ds| - 1], ds[|ds| - 1];
      assert ds == e + [s] && s in ds && forall q :: q in e ==> q in ds;
      Splits(al, net, e) + if net.sym[s] != SYM_EPSILON then [Named(al, net.sym[s])] else []
  }

  ghost function Uniform(n: nat): (r: seq<int>)
    ensures |r| == n + 1 && forall x :: 0 <= x <= n ==> r[x] == 0
  {
    seq(n + 1, i => 0)
  }

  /** Classes of one group have the same consumers. */
  lemma GroupsAgree(al: Alphabet, net: Net, ds: seq<int>, c1: nat, c2: nat)
    requires States(net, ds) && SymbolsOk(al, net) && c1 <= al.numecs && c2 <= al.numecs
    requires var part := EcNumbers.RefineAll(Uniform(al.numecs), Splits(al, net, ds)); part[c1] == part[c2]
    ensures SameConsumers(al, net, ds, c1, c2)
  {
    hide Splits, Uniform, Named, Takes, EcNumbers.RefineAll, SymbolOk;
    UniformIs(al.numecs);
    var sets := Splits(al, net, ds);
    EcNumbers.RefineAllIsExact(Uniform(al.numecs), sets, c1, c2);
    forall s | s in ds && net.sym[s] != SYM_EPSILON
      ensures Takes(al, net.sym[s], c1) <==> Takes(al, net.sym[s], c2)
    {
      var k := SplitAt(al, net, ds, s);
      assert c1 in sets[k] <==> c2 in sets[k];
      assert net.sym[s] != SYM_EPSILON && 0 < s < |net.sym|;
      NamedTake(al, net.sym[s], c1, c2);
    }
  }

  /** Classes that a symbol names both or neither of are taken both or neither. */
  lemma NamedTake(al: Alphabet, sym: int, c1: int, c2: int)
    requires SymbolOk(al, sym) && (c1 in Named(al, sym) <==> c2 in Named(al, sym))
    ensures Takes(al, sym, c1) <==> Takes(al, sym, c2)
  {
  }

  lemma UniformIs(n: nat)
    ensures |Uniform(n)| == n + 1 && forall x :: 0 <= x <= n ==> Uniform(n)[x] == 0
  {
  }

  lemma SplitAt(al: Alphabet, net: Net, ds: seq<int>, s: int) returns (k: int)
    requires States(net, ds) && SymbolsOk(al, net) && s in ds && net.sym[s] != SYM_EPSILON
    ensures 0 <= k < |Splits(al, net, ds)| && Splits(al, net, ds)[k] == Named(al, net.sym[s])
  {
    hide Named;
    assert Named(al, net.sym[s]) in Splits(al, net, ds);
    k :| 0 <= k < |Splits(al, net, ds)| && Splits(al, net, ds)[k] == Named(al, net.sym[s]);
  }

  lemma SplitsStep(al: Alphabet, net: Net, ds: seq<int>, i: nat)
    requires States(net, ds) && SymbolsOk(al, net) && i < |ds|
    ensures States(net, ds[..i]) && States(net, ds[..i + 1]) && 0 < ds[i] < |net.sym|
    ensures Splits(al, net, ds[..i + 1]) == Splits(al, net, ds[..i]) +
            if net.sym[ds[i]] != SYM_EPSILON then [Named(al, net.sym[ds[i]])] else []
  {
    assert ds[i] in ds;
    PrefixStates(net, ds, i);
    PrefixStates(net, ds, i + 1);
    assert ds[..i + 1][..i] == ds[..i];
  }

  lemma RefineAllStep(part: seq<int>, sets: seq<set<int>>, s: set<int>)
    ensures EcNumbers.RefineAll(part, sets + [s]) == Ecs.Refine(EcNumbers.RefineAll(part, sets), s)
  {
    assert (sets + [s])[..|sets|] == sets;
  }

  /** symlist[1..n] gains exactly the classes that sym consumes. */
  ghost predicate Gains(al: Alphabet, symlist: seq<bool>, symlist0: seq<bool>, sym: int) {
    |symlist| == |symlist0| && al.numecs < |symlist|
    && forall c :: 1 <= c <= al.numecs ==> symlist[c] == (symlist0[c] || Takes(al, sym, c))
  }

  /** Marks the listed classes. */
  method MarkListed(al: Alphabet, k: int, symlist: array<bool>)
    requires HasClass(al, k) && AlphabetOk(al) && !al.cclng[k] && al.numecs < symlist.Length
    modifies symlist
    ensures Gains(al, symlist[..], old(symlist[..]), -k)
  {
    ghost var ms := ClassSymbols(al, k);
    ghost var old0 := symlist[..];
    var i := 0;
    while i < al.ccllen[k]
      invariant 0 <= i <= al.ccllen[k] == |ms|
      invariant forall c :: 1 <= c <= al.numecs ==> symlist[c] == (old0[c] || c in ms[..i])
    {
      var ich := al.ccltbl[al.cclmap[k] + i];
      if ich == 0 {
        ich := al.nul;
      }
      assert ich == ms[i];
      symlist[ich] := true;
      assert ms[..i + 1] == ms[..i] + [ms[i]];
      i := i + 1;
    }
    assert ms[..i] == ms;
  }

  /** Marks the classes that a negated class does not list. */
  method MarkUnlisted(al: Alphabet, k: int, symlist: array<bool>)
    requires HasClass(al, k) && AlphabetOk(al) && al.cclng[k] && al.numecs < symlist.Length
    modifies symlist
    ensures Gains(al, symlist[..], old(symlist[..]), -k)
  {
    ghost var ms := ClassSymbols(al, k);
    ghost var old0 := symlist[..];
    var j := 0;
    var i := 0;
    while i < al.ccllen[k]
      invariant 0 <= i <= al.ccllen[k] == |ms| && j == if i == 0 then 0 else ms[i - 1]
      invariant forall c :: 1 <= c <= al.numecs ==> symlist[c] == (old0[c] || (c <= j && c !in ms))
    {
      var ich := al.ccltbl[al.cclmap[k] + i];
      if ich == 0 {
        ich := al.nul;
      }
      assert ich == ms[i] && ich in ms;
      MarkGap(al, symlist, j, ich, ms, i, old0);
      j := ich;
      i := i + 1;
    }
    MarkGap(al, symlist, j, al.numecs + 1, ms, i, old0);
  }

  /** Marks the classes strictly between j and end, none of which is listed. */
  method MarkGap(al: Alphabet, symlist: array<bool>, j0: int, end: int, ghost ms: seq<int>, ghost i: nat, ghost old0: seq<bool>)
    requires Ecs.ClassEntries(ms, al.numecs) && i <= |ms| && j0 == if i == 0 then 0 else ms[i - 1]
    requires j0 < end <= al.numecs + 1 <= symlist.Length == |old0| && end == if i < |ms| then ms[i] else al.numecs + 1
    requires forall c :: 1 <= c <= al.numecs ==> symlist[c] == (old0[c] || (c <= j0 && c !in ms))
    modifies symlist
    ensures forall c :: 1 <= c <= al.numecs ==> symlist[c] == (old0[c] || (c <= end && c !in ms))
  {
    var j := j0 + 1;
    while j < end
      invariant j0 < j <= end
      invariant forall c :: 1 <= c <= al.numecs ==> symlist[c] == (old0[c] || (c < j && c !in ms))
    {
      BetweenEntries(ms, al.numecs, i, j);
      symlist[j] := true;
      j := j + 1;
    }
  }

  lemma BetweenEntries(ms: seq<int>, n: nat, i: nat, c: int)
    requires Ecs.ClassEntries(ms, n) && i <= |ms| && (i > 0 ==> ms[i - 1] < c) && (i < |ms| ==> c < ms[i])
    ensures c !in ms
  {
    forall k | 0 <= k < |ms|
      ensures ms[k] != c
    {
      if k < i {
        assert ms[k] <= ms[i - 1];
      } else {
        assert ms[i] <= ms[k];
      }
    }
  }

  /** The state of sympartition after the NFA states e: the groups, and the classes consumed. */
  ghost predicate Partitioned(al: Alphabet, net: Net, e: seq<int>, fwd: seq<int>, bck: seq<int>, symlist: seq<bool>, symlist0: seq<bool>) {
    && States(net, e) && SymbolsOk(al, net)
    && Ecs.Linked(fwd, bck, EcNumbers.RefineAll(Uniform(al.numecs), Splits(al, net, e)), al.numecs)
    && |symlist| == |symlist0| && al.numecs < |symlist|
    && forall c :: 1 <= c <= al.numecs ==> symlist[c] == (symlist0[c] || Consumed(al, net, e, c))
  }

  lemma PartitionedStart(al: Alphabet, net: Net, fwd: seq<int>, bck: seq<int>, symlist: seq<bool>)
    requires SymbolsOk(al, net) && 1 <= al.numecs < |symlist| && al.numecs < |fwd| && al.numecs < |bck|
    requires forall i :: 1 <= i <= al.numecs ==> bck[i] == i - 1 && fwd[i] == if i == al.numecs then NIL else i + 1
    ensures Partitioned(al, net, [], fwd, bck, symlist, symlist)
  {
    var part := Uniform(al.numecs);
    forall x | 1 <= x <= al.numecs
      ensures Ecs.IsNext(part, al.numecs, x, fwd[x]) && Ecs.IsPrev(part, al.numecs, x, bck[x])
    {
    }
  }

  /** An epsilon state splits nothing. */
  lemma PartitionedSkip(al: Alphabet, net: Net, ds: seq<int>, i: nat, fwd: seq<int>, bck: seq<int>, symlist: seq<bool>, symlist0: seq<bool>)
    requires States(net, ds) && i < |ds| && Partitioned(al, net, ds[..i], fwd, bck, symlist, symlist0)
    requires 0 < ds[i] < |net.sym| && net.sym[ds[i]] == SYM_EPSILON
    ensures Partitioned(al, net, ds[..i + 1], fwd, bck, symlist, symlist0)
  {
    SplitsStep(al, net, ds, i);
    forall c | 1 <= c <= al.numecs
      ensures Consumed(al, net, ds[..i + 1], c) <==> Consumed(al, net, ds[..i], c)
    {
      ConsumedStep(al, net, ds, i, c);
    }
    assert Splits(al, net, ds[..i + 1]) == Splits(al, net, ds[..i]);
  }

  lemma ConsumedStep(al: Alphabet, net: Net, ds: seq<int>, i: nat, c: int)
    requires States(net, ds) && i < |ds| && 0 < ds[i] < |net.sym|
    ensures Consumed(al, net, ds[..i + 1], c) <==> Consumed(al, net, ds[..i], c) || Consumers(al, net, c)(ds[i])
  {
    assert ds[..i + 1] == ds[..i] + [ds[i]];
    if Consumed(al, net, ds[..i + 1], c) {
      var s :| s in ds[..i + 1] && Consumers(al, net, c)(s);
      assert s in ds[..i] || s == ds[i];
    }
    if Consumed(al, net, ds[..i], c) {
      var s :| s in ds[..i] && Consumers(al, net, c)(s);
      assert s in ds[..i + 1];
    }
    if Consumers(al, net, c)(ds[i]) {
      assert ds[i] in ds[..i + 1];
    }
  }

  /** A symbol state splits the groups by the classes it names. */
  lemma PartitionedStep(al: Alphabet, net: Net, ds: seq<int>, i: nat, fwd: seq<int>, bck: seq<int>, symlist: seq<bool>,
                        fwd1: seq<int>, bck1: seq<int>, symlist1: seq<bool>, symlist0: seq<bool>)
    requires States(net, ds) && i < |ds| && Partitioned(al, net, ds[..i], fwd, bck, symlist, symlist0)
    requires 0 < ds[i] < |net.sym| && net.sym[ds[i]] != SYM_EPSILON && SymbolOk(al, net.sym[ds[i]])
    requires Ecs.Linked(fwd1, bck1,
      Ecs.Refine(EcNumbers.RefineAll(Uniform(al.numecs), Splits(al, net, ds[..i])), Named(al, net.sym[ds[i]])), al.numecs)
    requires Gains(al, symlist1, symlist, net.sym[ds[i]])
    ensures Partitioned(al, net, ds[..i + 1], fwd1, bck1, symlist1, symlist0)
  {
    hide Ecs.Linked, SymbolOk;
    SplitsStep(al, net, ds, i);
    RefineAllStep(Uniform(al.numecs), Splits(al, net, ds[..i]), Named(al, net.sym[ds[i]]));
    forall c | 1 <= c <= al.numecs
      ensures symlist1[c] == (symlist0[c] || Consumed(al, net, ds[..i + 1], c))
    {
      ConsumedStep(al, net, ds, i, c);
    }
  }

  /** One symbol state in sympartition's loop. */
  method PartitionBy(al: Alphabet, sym: int, symlist: array<bool>, dupfwd: array<int>, duplist: array<int>, cclflags: array<bool>,
                     ghost part: seq<int>)
    requires AlphabetOk(al) && SymbolOk(al, sym) && dupfwd != duplist && symlist != cclflags && al.numecs < symlist.Length
    requires Ecs.Linked(dupfwd[..], duplist[..], part, al.numecs) && cclflags.Length == Ecs.CSIZE
    requires forall k :: 0 <= k < cclflags.Length ==> !cclflags[k]
    modifies symlist, dupfwd, duplist, cclflags
    ensures Ecs.Linked(dupfwd[..], duplist[..], Ecs.Refine(part, Named(al, sym)), al.numecs)
    ensures Gains(al, symlist[..], old(symlist[..]), sym)
    ensures forall k :: 0 <= k < cclflags.Length ==> !cclflags[k]
  {
    hide Ecs.Linked;
    if sym >= 0 {
      var ec := al.ecgroup[sym];
      Ecs.MkEChar(ec, dupfwd, duplist, part, al.numecs);
      symlist[ec] := true;
    } else {
      var ccls := al.ccltbl[al.cclmap[-sym]..al.cclmap[-sym] + al.ccllen[-sym]];
      assert ccls == ClassList(al, -sym);
      ShortClass(ClassSymbols(al, -sym), al.numecs);
      Ecs.MkECcl(ccls, dupfwd, duplist, al.numecs, al.nul, cclflags, part);
      if al.cclng[-sym] {
        MarkUnlisted(al, -sym, symlist);
      } else {
        MarkListed(al, -sym, symlist);
      }
    }
  }

  lemma ShortClass(ms: seq<int>, n: nat)
    requires Ecs.ClassEntries(ms, n)
    ensures |ms| <= n
  {
    NoRepeatsFit(ms, n);
  }

  /** sympartition's first loop: all classes are in one list. */
  method InitGroups(numecs: nat, dupfwd: array<int>, duplist: array<int>)
    requires 1 <= numecs && dupfwd != duplist && numecs < dupfwd.Length && numecs < duplist.Length
    modifies dupfwd, duplist
    ensures forall i :: 1 <= i <= numecs ==> duplist[i] == i - 1 && dupfwd[i] == if i == numecs then NIL else i + 1
  {
    var i := 1;
    while i <= numecs
      invariant 1 <= i <= numecs + 1
      invariant forall k :: 1 <= k < i ==> duplist[k] == k - 1 && dupfwd[k] == k + 1
    {
      duplist[i] := i - 1;
      dupfwd[i] := i + 1;
      i := i + 1;
    }
    duplist[1] := NIL;
    dupfwd[numecs] := NIL;
  }

  /** sympartition's loop body. */
  method PartitionAt(nfa: NfaArrays, al: Alphabet, ds: seq<int>, i: nat, symlist: array<bool>, dupfwd: array<int>, duplist: array<int>,
                     cclflags: array<bool>, ghost symlist0: seq<bool>)
    requires nfa.Shaped() && AlphabetOk(al) && SymbolsOk(al, nfa.net) && States(nfa.net, ds) && i < |ds|
    requires symlist != cclflags && dupfwd != duplist && cclflags.Length == Ecs.CSIZE
    requires forall k :: 0 <= k < cclflags.Length ==> !cclflags[k]
    requires Partitioned(al, nfa.net, ds[..i], dupfwd[..], duplist[..], symlist[..], symlist0)
    modifies symlist, dupfwd, duplist, cclflags
    ensures Partitioned(al, nfa.net, ds[..i + 1], dupfwd[..], duplist[..], symlist[..], symlist0)
    ensures forall k :: 0 <= k < cclflags.Length ==> !cclflags[k]
  {
    var ns := ds[i];
    ghost var net := nfa.net;
    assert ns in ds;
    var tch := nfa.transchar[ns];
    ghost var f, b, l := dupfwd[..], duplist[..], symlist[..];
    assert tch != SYM_EPSILON ==> SymbolOk(al, tch);
    hide SymbolOk, AlphabetOk, SymbolsOk, Ecs.Linked, Gains;
    if tch != SYM_EPSILON {
      PartitionBy(al, tch, symlist, dupfwd, duplist, cclflags, EcNumbers.RefineAll(Uniform(al.numecs), Splits(al, net, ds[..i])));
      hide Partitioned;
      PartitionedStep(al, net, ds, i, f, b, l, dupfwd[..], duplist[..], symlist[..], symlist0);
    } else {
      PartitionedSkip(al, net, ds, i, f, b, l, symlist0);
    }
  }

  /**
   Groups the classes by the NFA states that consume them: duplist leads from a class to an
   earlier one with the same consumers, and symlist holds the classes that have any.
   */
  method SymPartition(nfa: NfaArrays, al: Alphabet, ds: seq<int>, symlist: array<bool>, duplist: array<int>, cclflags: array<bool>)
    requires nfa.Shaped() && AlphabetOk(al) && SymbolsOk(al, nfa.net) && States(nfa.net, ds)
    requires symlist != cclflags && al.numecs < symlist.Length && al.numecs < duplist.Length
    requires cclflags.Length == Ecs.CSIZE && forall k :: 0 <= k < cclflags.Length ==> !cclflags[k]
    modifies symlist, duplist, cclflags
    ensures forall c :: 1 <= c <= al.numecs ==> symlist[c] == (old(symlist[c]) || Consumed(al, nfa.net, ds, c))
    ensures forall c :: 1 <= c <= al.numecs && duplist[c] != NIL ==> 1 <= duplist[c] < c && SameConsumers(al, nfa.net, ds, c, duplist[c])
    ensures forall k :: 0 <= k < cclflags.Length ==> !cclflags[k]
  {
    ghost var net, symlist0 := nfa.net, symlist[..];
    assert 1 <= al.numecs;
    var dupfwd := new int[al.numecs + 1];
    InitGroups(al.numecs, dupfwd, duplist);
    PartitionedStart(al, net, dupfwd[..], duplist[..], symlist[..]);
    assert ds[..0] == [];
    var i := 0;
    while i < |ds|
      invariant 0 <= i <= |ds| && Partitioned(al, net, ds[..i], dupfwd[..], duplist[..], symlist[..], symlist0)
      invariant forall k :: 0 <= k < cclflags.Length ==> !cclflags[k]
    {
      PartitionAt(nfa, al, ds, i, symlist, dupfwd, duplist, cclflags, symlist0);
      i := i + 1;
    }
    assert ds[..i] == ds;
    DuplistAgrees(al, net, ds, dupfwd[..], duplist[..]);
  }

  lemma DuplistAgrees(al: Alphabet, net: Net, ds: seq<int>, fwd: seq<int>, bck: seq<int>)
    requires States(net, ds) && SymbolsOk(al, net)
    requires Ecs.Linked(fwd, bck, EcNumbers.RefineAll(Uniform(al.numecs), Splits(al, net, ds)), al.numecs)
    ensures forall c :: 1 <= c <= al.numecs && bck[c] != NIL ==> 1 <= bck[c] < c && SameConsumers(al, net, ds, c, bck[c])
  {
    forall c | 1 <= c <= al.numecs && bck[c] != NIL
      ensures 1 <= bck[c] < c && SameConsumers(al, net, ds, c, bck[c])
    {
      var part := EcNumbers.RefineAll(Uniform(al.numecs), Splits(al, net, ds));
      assert Ecs.IsPrev(part, al.numecs, c, bck[c]);
      GroupsAgree(al, net, ds, c, bck[c]);
    }
  }
}
