/** What each step of building a machine does to the words it matches. */
module NfaOps {
  import opened Words
  import opened NfaLang

  /** The machine s..f lives in the closed range a..b and can be continued at f. */
  ghost predicate Part(net: Net, a: int, b: int, s: int, f: int) {
    && Closed(net, a, b) && a <= s <= b && a <= f <= b && FreeSlot(net, f)
  }

  /** State j is an epsilon state without transitions (SUPER_FREE_EPSILON). */
  predicate SuperFree(net: Net, j: int) {
    HasState(net, j) && net.sym[j] == SYM_EPSILON && net.t1[j] == NO_TRANSITION
  }

  /** net1 is net with one more state, on sym. */
  ghost predicate Grown(net: Net, net1: Net, sym: int) {
    && Sized(net) && net1.sym == net.sym + [sym]
    && net1.t1 == net.t1 + [NO_TRANSITION] && net1.t2 == net.t2 + [NO_TRANSITION]
  }

  /** net with a transition from f to t in f's free slot. */
  ghost function LinkTo(net: Net, f: int, t: int): (net1: Net)
    requires FreeSlot(net, f) && t != NO_TRANSITION
    ensures Linked(net, net1, f, t)
  {
    if net.t1[f] == NO_TRANSITION then net.(t1 := net.t1[f := t]) else net.(t2 := net.t2[f := t])
  }

  /** The words that leave a state on symbol sym. */
  ghost function Single(sat: Match, sym: int): Language {
    if sym == SYM_EPSILON then Empty() else iset w: Word | |w| == 1 && sat(sym, w[0])
  }

  // ---- ranges that a step does not touch ----

  lemma GrownAgrees(net: Net, net1: Net, sym: int, a: int, b: int)
    requires Grown(net, net1, sym) && 1 <= a && b < |net.sym|
    ensures Agree(net, net1, a, b)
  {
  }

  lemma LinkedAgrees(net: Net, net1: Net, f: int, t: int, a: int, b: int)
    requires Linked(net, net1, f, t) && 1 <= a && b < |net.sym| && !(a <= f <= b)
    ensures Agree(net, net1, a, b)
  {
  }

  lemma AgreeKeeps(sat: Match, net: Net, net1: Net, a: int, b: int, s: int, f: int)
    requires Closed(net, a, b) && a <= s <= b && Agree(net, net1, a, b)
    ensures Closed(net1, a, b)
    ensures LangOf(sat, net1, s, f) == LangOf(sat, net, s, f)
  {
    assert Closed(net1, a, b);
    hide Closed, Agree;
    forall w: Word
      ensures Matches(sat, net, s, f, w) <==> Matches(sat, net1, s, f, w)
    {
      if k: nat :| Exits(sat, net, k, s, w, f) {
        ClosedIsLocal(sat, net, net1, a, b, k, s, w, f);
      }
      if k: nat :| Exits(sat, net1, k, s, w, f) {
        ClosedIsLocal(sat, net, net1, a, b, k, s, w, f);
      }
    }
  }

  // ---- single states ----

  /** A state without transitions is a machine by itself. */
  lemma Alone(sat: Match, net: Net, s: int)
    requires Sized(net) && HasState(net, s) && net.t1[s] == NO_TRANSITION && net.t2[s] == NO_TRANSITION
    ensures Part(net, s, s, s, s) && LangOf(sat, net, s, s) == Single(sat, net.sym[s])
  {
    forall w: Word
      ensures Matches(sat, net, s, s, w) <==> w in Single(sat, net.sym[s])
    {
      if k: nat :| Exits(sat, net, k, s, w, s) {
        assert k > 0 ==> !Steps(sat, net, k - 1, s, w, s);
      }
      if w in Single(sat, net.sym[s]) {
        assert Exits(sat, net, 0, s, w, s);
      }
    }
  }

  /** A path from an epsilon state other than f starts with one of its transitions. */
  lemma Branch(sat: Match, net: Net, e: int, f: int)
    requires Sized(net) && HasState(net, e) && net.sym[e] == SYM_EPSILON && e != f && net.t1[e] != NO_TRANSITION
    ensures LangOf(sat, net, e, f) == LangOf(sat, net, net.t1[e], f)
                                      + if net.t2[e] == NO_TRANSITION then iset{} else LangOf(sat, net, net.t2[e], f)
  {
    forall w: Word
      ensures Matches(sat, net, e, f, w) <==>
              Matches(sat, net, net.t1[e], f, w) || (net.t2[e] != NO_TRANSITION && Matches(sat, net, net.t2[e], f, w))
    {
      if k: nat :| Exits(sat, net, k, e, w, f) {
        assert Steps(sat, net, k - 1, e, w, f);
        assert Exits(sat, net, k - 1, net.t1[e], w, f) ||
               (net.t2[e] != NO_TRANSITION && Exits(sat, net, k - 1, net.t2[e], w, f));
      }
      if k: nat :| Exits(sat, net, k, net.t1[e], w, f) {
        assert Exits(sat, net, k + 1, e, w, f);
      }
      if net.t2[e] != NO_TRANSITION {
        if k: nat :| Exits(sat, net, k, net.t2[e], w, f) {
          assert Exits(sat, net, k + 1, e, w, f);
        }
      }
    }
  }

  // ---- concatenation ----

  lemma SequenceHas(sat: Match, net: Net, net1: Net, s: int, f: int, t: int, g: int, w: Word)
    requires Linked(net, net1, f, t)
    requires w in Cat(LangOf(sat, net, s, f), LangOf(sat, net, t, g))
    ensures w in LangOf(sat, net1, s, g)
  {
    hide Linked, Exits;
    var i :| Splits(LangOf(sat, net, s, f), LangOf(sat, net, t, g), w, i);
    var k1 :| Exits(sat, net, k1, s, w[..i], f);
    var k2 :| Exits(sat, net, k2, t, w[i..], g);
    LinkKeeps(sat, net, net1, f, t, k2, t, w[i..], g);
    LinkCompose(sat, net, net1, f, t, k1, s, w[..i], k2, w[i..], g);
    assert w[..i] + w[i..] == w;
  }

  lemma SequenceOnly(sat: Match, net: Net, net1: Net, a: int, b: int, s: int, f: int, c: int, d: int, t: int, g: int, w: Word)
    requires Closed(net, a, b) && a <= s <= b && Closed(net, c, d) && c <= t <= d && !(a <= g <= b)
    requires Linked(net, net1, f, t) && Agree(net, net1, c, d)
    requires w in LangOf(sat, net1, s, g)
    ensures w in Cat(LangOf(sat, net, s, f), LangOf(sat, net, t, g))
  {
    hide Linked, Exits, Closed, Agree;
    var k :| Exits(sat, net1, k, s, w, g);
    var i, k2 := LinkDecompose(sat, net, net1, f, t, k, s, w, g);
    if Exits(sat, net, k, s, w, g) {
      ClosedIsNotLeft(sat, net, a, b, k, s, w, g);
      assert false;
    } else {
      ClosedIsLocal(sat, net, net1, c, d, k2, t, w[i..], g);
      assert Splits(LangOf(sat, net, s, f), LangOf(sat, net, t, g), w, i);
    }
  }

  /** Linking the final state of one machine to another concatenates them. */
  lemma Sequence(sat: Match, net: Net, net1: Net, a: int, b: int, s: int, f: int, c: int, d: int, t: int, g: int)
    requires Part(net, a, b, s, f) && Closed(net, c, d) && c <= t <= d && c <= g <= d && (b < c || d < a)
    requires Linked(net, net1, f, t)
    ensures LangOf(sat, net1, s, g) == Cat(LangOf(sat, net, s, f), LangOf(sat, net, t, g))
  {
    hide Linked, FreeSlot, LangOf, Cat;
    LinkedAgrees(net, net1, f, t, c, d);
    forall w: Word
      ensures w in LangOf(sat, net1, s, g) <==> w in Cat(LangOf(sat, net, s, f), LangOf(sat, net, t, g))
    {
      if w in LangOf(sat, net1, s, g) {
        SequenceOnly(sat, net, net1, a, b, s, f, c, d, t, g, w);
      }
      if w in Cat(LangOf(sat, net, s, f), LangOf(sat, net, t, g)) {
        SequenceHas(sat, net, net1, s, f, t, g, w);
      }
    }
  }

  // ---- repetition ----

  lemma {:induction false} LoopHas(sat: Match, net: Net, net1: Net, s: int, f: int, n: nat, w: Word)
    requires Linked(net, net1, f, s) && 1 <= n && w in Power(LangOf(sat, net, s, f), n)
    ensures w in LangOf(sat, net1, s, f)
    decreases n
  {
    hide Linked, Exits;
    var A := LangOf(sat, net, s, f);
    if n == 1 {
      PowerOne(A);
      var k :| Exits(sat, net, k, s, w, f);
      LinkKeeps(sat, net, net1, f, s, k, s, w, f);
    } else {
      var i :| Splits(A, Power(A, n - 1), w, i);
      LoopHas(sat, net, net1, s, f, n - 1, w[i..]);
      var k1 :| Exits(sat, net, k1, s, w[..i], f);
      var k2 :| Exits(sat, net1, k2, s, w[i..], f);
      LinkCompose(sat, net, net1, f, s, k1, s, w[..i], k2, w[i..], f);
      assert w[..i] + w[i..] == w;
    }
  }

  lemma {:induction false} LoopOnly(sat: Match, net: Net, net1: Net, s: int, f: int, k: nat, w: Word) returns (n: nat)
    requires Linked(net, net1, f, s) && Exits(sat, net1, k, s, w, f)
    ensures 1 <= n && w in Power(LangOf(sat, net, s, f), n)
    decreases k
  {
    hide Linked, Exits;
    var A := LangOf(sat, net, s, f);
    var i, k2 := LinkDecompose(sat, net, net1, f, s, k, s, w, f);
    if Exits(sat, net, k, s, w, f) {
      PowerOne(A);
      n := 1;
    } else {
      n := LoopOnly(sat, net, net1, s, f, k2, w[i..]);
      assert Splits(A, Power(A, n), w, i);
      n := n + 1;
    }
  }

  /** Linking a machine's final state to its start repeats it. */
  lemma Loop(sat: Match, net: Net, net1: Net, s: int, f: int)
    requires Linked(net, net1, f, s)
    ensures LangOf(sat, net1, s, f) == AtLeast(LangOf(sat, net, s, f), 1)
  {
    hide Linked, Exits;
    forall w: Word
      ensures w in LangOf(sat, net1, s, f) <==> w in AtLeast(LangOf(sat, net, s, f), 1)
    {
      if w in LangOf(sat, net1, s, f) {
        var k :| Exits(sat, net1, k, s, w, f);
        var n := LoopOnly(sat, net, net1, s, f, k, w);
      }
      if w in AtLeast(LangOf(sat, net, s, f), 1) {
        var n: nat :| 1 <= n && w in Power(LangOf(sat, net, s, f), n);
        LoopHas(sat, net, net1, s, f, n, w);
      }
    }
  }

  // ---- copies ----

  function Shift(t: int, off: int): int {
    if t == NO_TRANSITION then NO_TRANSITION else t + off
  }

  /** States a+off..b+off of net1 are a copy of states a..b of net. */
  ghost predicate Copied(net: Net, net1: Net, a: int, b: int, off: int) {
    && Sized(net) && Sized(net1) && 1 <= a && b < |net.sym| && 0 <= off && b + off < |net1.sym|
    && forall s :: a <= s <= b ==> net1.sym[s + off] == net.sym[s] && net1.t1[s + off] == Shift(net.t1[s], off)
                                   && net1.t2[s + off] == Shift(net.t2[s], off)
  }

  lemma {:induction false} CopyExits(sat: Match, net: Net, net1: Net, a: int, b: int, off: int, k: nat, s: int, w: Word, f: int)
    requires Copied(net, net1, a, b, off) && Closed(net, a, b) && a <= s <= b
    ensures Exits(sat, net, k, s, w, f) <==> Exits(sat, net1, k, s + off, w, f + off)
    decreases k
  {
    if k > 0 {
      if net.t1[s] != NO_TRANSITION {
        CopyExits(sat, net, net1, a, b, off, k - 1, net.t1[s], w, f);
        if w != [] {
          CopyExits(sat, net, net1, a, b, off, k - 1, net.t1[s], w[1..], f);
        }
      }
      if net.t2[s] != NO_TRANSITION {
        CopyExits(sat, net, net1, a, b, off, k - 1, net.t2[s], w, f);
      }
    }
  }

  /** A copy of a machine matches the same words. */
  lemma CopyMatches(sat: Match, net: Net, net1: Net, a: int, b: int, off: int, s: int, f: int)
    requires Copied(net, net1, a, b, off) && Part(net, a, b, s, f)
    ensures Part(net1, a + off, b + off, s + off, f + off)
    ensures LangOf(sat, net1, s + off, f + off) == LangOf(sat, net, s, f)
  {
    forall s1 | a + off <= s1 <= b + off
      ensures Inside(a + off, b + off, net1.t1[s1]) && Inside(a + off, b + off, net1.t2[s1])
    {
      assert Inside(a, b, net.t1[s1 - off]) && Inside(a, b, net.t2[s1 - off]);
      assert net1.t1[s1 - off + off] == Shift(net.t1[s1 - off], off);
    }
    forall w: Word
      ensures Matches(sat, net, s, f, w) <==> Matches(sat, net1, s + off, f + off, w)
    {
      hide Copied, Exits;
      if k: nat :| Exits(sat, net, k, s, w, f) {
        CopyExits(sat, net, net1, a, b, off, k, s, w, f);
      }
      var s1, f1 := s + off, f + off;
      if k: nat :| Exits(sat, net1, k, s1, w, f1) {
        CopyExits(sat, net, net1, a, b, off, k, s, w, f);
      }
    }
  }

  // ---- that every state leads on to the end ----

  /** Every symbol matches everything. */
  function AnyMatch(): Match {
    (sym, c) => true
  }

  /** Some path leads from s out of f, whatever its symbols match. */
  ghost predicate Escapes(net: Net, s: int, f: int) {
    exists w :: Matches(AnyMatch(), net, s, f, w)
  }

  /** Every state of the range leads out of f. */
  ghost predicate Alive(net: Net, a: int, b: int, f: int) {
    forall s :: a <= s <= b ==> Escapes(net, s, f)
  }

  lemma EscapesSelf(net: Net, s: int)
    requires HasState(net, s)
    ensures Escapes(net, s, s)
  {
    var w := if net.sym[s] == SYM_EPSILON then [] else [0];
    assert Exits(AnyMatch(), net, 0, s, w, s);
    assert Matches(AnyMatch(), net, s, s, w);
  }

  /** An epsilon state leads where its successors do. */
  lemma EscapesBy(net: Net, e: int, t: int, f: int)
    requires HasState(net, e) && net.sym[e] == SYM_EPSILON && t != NO_TRANSITION && (t == net.t1[e] || t == net.t2[e]) && Escapes(net, t, f)
    ensures Escapes(net, e, f)
  {
    var w :| Matches(AnyMatch(), net, t, f, w);
    var k: nat :| Exits(AnyMatch(), net, k, t, w, f);
    assert Exits(AnyMatch(), net, k + 1, e, w, f);
    assert Matches(AnyMatch(), net, e, f, w);
  }

  /** A new transition out of f1 takes nothing away. */
  lemma EscapesKept(net: Net, net1: Net, f1: int, t: int, s: int, f: int)
    requires Linked(net, net1, f1, t) && Escapes(net, s, f)
    ensures Escapes(net1, s, f)
  {
    hide Linked, Exits;
    var w :| Matches(AnyMatch(), net, s, f, w);
    var k: nat :| Exits(AnyMatch(), net, k, s, w, f);
    LinkKeeps(AnyMatch(), net, net1, f1, t, k, s, w, f);
    assert Matches(AnyMatch(), net1, s, f, w);
  }

  /** What led out of f1 goes on from t. */
  lemma EscapesOn(net: Net, net1: Net, f1: int, t: int, s: int, f: int)
    requires Linked(net, net1, f1, t) && Escapes(net, s, f1) && Escapes(net1, t, f)
    ensures Escapes(net1, s, f)
  {
    hide Linked, Exits;
    var w1 :| Matches(AnyMatch(), net, s, f1, w1);
    var k1: nat :| Exits(AnyMatch(), net, k1, s, w1, f1);
    var w2 :| Matches(AnyMatch(), net1, t, f, w2);
    var k2: nat :| Exits(AnyMatch(), net1, k2, t, w2, f);
    LinkCompose(AnyMatch(), net, net1, f1, t, k1, s, w1, k2, w2, f);
    assert Matches(AnyMatch(), net1, s, f, w1 + w2);
  }

  lemma AliveKept(net: Net, net1: Net, f1: int, t: int, a: int, b: int, f: int)
    requires Linked(net, net1, f1, t) && Alive(net, a, b, f)
    ensures Alive(net1, a, b, f)
  {
    hide Linked, Escapes;
    forall s | a <= s <= b
      ensures Escapes(net1, s, f)
    {
      EscapesKept(net, net1, f1, t, s, f);
    }
  }

  lemma AliveOn(net: Net, net1: Net, f1: int, t: int, a: int, b: int, f: int)
    requires Linked(net, net1, f1, t) && Alive(net, a, b, f1) && Escapes(net1, t, f)
    ensures Alive(net1, a, b, f)
  {
    hide Linked, Escapes;
    forall s | a <= s <= b
      ensures Escapes(net1, s, f)
    {
      EscapesOn(net, net1, f1, t, s, f);
    }
  }

  lemma EscapesAgrees(net: Net, net1: Net, a: int, b: int, s: int, f: int)
    requires Closed(net, a, b) && Agree(net, net1, a, b) && a <= s <= b && Escapes(net, s, f)
    ensures Escapes(net1, s, f)
  {
    hide Closed, Agree, Exits;
    var w :| Matches(AnyMatch(), net, s, f, w);
    var k: nat :| Exits(AnyMatch(), net, k, s, w, f);
    ClosedIsLocal(AnyMatch(), net, net1, a, b, k, s, w, f);
    assert Matches(AnyMatch(), net1, s, f, w);
  }

  /** A closed range that does not change stays alive. */
  lemma AliveAgrees(net: Net, net1: Net, a: int, b: int, f: int)
    requires Closed(net, a, b) && Agree(net, net1, a, b) && Alive(net, a, b, f)
    ensures Alive(net1, a, b, f)
  {
    hide Closed, Agree, Escapes;
    forall s | a <= s <= b
      ensures Escapes(net1, s, f)
    {
      EscapesAgrees(net, net1, a, b, s, f);
    }
  }

  lemma EscapesCopied(net: Net, net1: Net, a: int, b: int, off: int, s: int, f: int)
    requires Copied(net, net1, a, b, off) && Closed(net, a, b) && a <= s <= b && Escapes(net, s, f)
    ensures Escapes(net1, s + off, f + off)
  {
    hide Closed, Copied, Exits;
    var w :| Matches(AnyMatch(), net, s, f, w);
    var k: nat :| Exits(AnyMatch(), net, k, s, w, f);
    CopyExits(AnyMatch(), net, net1, a, b, off, k, s, w, f);
    assert Matches(AnyMatch(), net1, s + off, f + off, w);
  }

  lemma AliveCopied(net: Net, net1: Net, a: int, b: int, off: int, f: int)
    requires Copied(net, net1, a, b, off) && Closed(net, a, b) && Alive(net, a, b, f)
    ensures Alive(net1, a + off, b + off, f + off)
  {
    hide Closed, Copied, Escapes;
    var f1 := f + off;
    forall s1 | a + off <= s1 <= b + off
      ensures Escapes(net1, s1, f1)
    {
      EscapesCopied(net, net1, a, b, off, s1 - off, f);
    }
  }

  /** A symbol state other than f has its transition. */
  lemma EscapesContinues(net: Net, s: int, f: int)
    requires Escapes(net, s, f) && s != f && HasState(net, s) && net.sym[s] != SYM_EPSILON
    ensures net.t1[s] != NO_TRANSITION
  {
    var w :| Matches(AnyMatch(), net, s, f, w);
    var k: nat :| Exits(AnyMatch(), net, k, s, w, f);
    assert Steps(AnyMatch(), net, k - 1, s, w, f);
  }
}
