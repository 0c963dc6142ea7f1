/**
 Nondeterministic machines in flat arrays, and their languages (`ext/flex/nfa.c`).

 A state has a symbol and up to two out-transitions (two only for epsilon states).  A machine
 matches w when w leads from its start state to the *exit* of its final state: a final state with
 a real symbol is left by consuming that symbol.
 */
module NfaLang {
  import opened Words

  const SYM_EPSILON := 257
  const NO_TRANSITION := 0

  /** States are 1..|sym| - 1; transitions are state numbers or NO_TRANSITION. */
  datatype Net = Net(sym: seq<int>, t1: seq<int>, t2: seq<int>)

  /** Which characters a transition symbol (a character or a character class) matches. */
  type Match = (int, int) -> bool

  ghost predicate Sized(net: Net) {
    |net.sym| == |net.t1| == |net.t2|
  }

  predicate HasState(net: Net, s: int) {
    0 < s < |net.sym| && s < |net.t1| && s < |net.t2|
  }

  /** w takes the machine out of state s by s's own symbol. */
  ghost predicate Leaves(sat: Match, net: Net, s: int, w: Word)
    requires HasState(net, s)
  {
    if net.sym[s] == SYM_EPSILON then w == [] else |w| == 1 && sat(net.sym[s], w[0])
  }

  /** From state s, w leads out of state f in at most k + 1 steps. */
  ghost predicate Exits(sat: Match, net: Net, k: nat, s: int, w: Word, f: int)
    decreases k, 0
  {
    && HasState(net, s)
    && ((s == f && Leaves(sat, net, s, w)) || (k > 0 && Steps(sat, net, k - 1, s, w, f)))
  }

  /** From state s, w takes a transition of s and then leads out of f. */
  ghost predicate Steps(sat: Match, net: Net, k: nat, s: int, w: Word, f: int)
    requires HasState(net, s)
    decreases k, 1
  {
    if net.sym[s] == SYM_EPSILON then
      (net.t1[s] != NO_TRANSITION && Exits(sat, net, k, net.t1[s], w, f)) ||
      (net.t2[s] != NO_TRANSITION && Exits(sat, net, k, net.t2[s], w, f))
    else
      w != [] && sat(net.sym[s], w[0]) && net.t1[s] != NO_TRANSITION && Exits(sat, net, k, net.t1[s], w[1..], f)
  }

  ghost predicate Matches(sat: Match, net: Net, s: int, f: int, w: Word) {
    exists k :: Exits(sat, net, k, s, w, f)
  }

  /** The words the machine with start state s and final state f matches. */
  ghost function LangOf(sat: Match, net: Net, s: int, f: int): Language {
    iset w: Word | Matches(sat, net, s, f, w)
  }

  lemma {:induction false} ExitsMonotone(sat: Match, net: Net, j: nat, k: nat, s: int, w: Word, f: int)
    requires Exits(sat, net, j, s, w, f) && j <= k
    ensures Exits(sat, net, k, s, w, f)
    decreases j
  {
    if !(s == f && Leaves(sat, net, s, w)) {
      if net.sym[s] == SYM_EPSILON {
        if net.t1[s] != NO_TRANSITION && Exits(sat, net, j - 1, net.t1[s], w, f) {
          ExitsMonotone(sat, net, j - 1, k - 1, net.t1[s], w, f);
        } else {
          ExitsMonotone(sat, net, j - 1, k - 1, net.t2[s], w, f);
        }
      } else {
        ExitsMonotone(sat, net, j - 1, k - 1, net.t1[s], w[1..], f);
      }
    }
  }

  // ---- closed ranges of states ----

  ghost predicate Inside(a: int, b: int, t: int) {
    t == NO_TRANSITION || a <= t <= b
  }

  /** Transitions from states a..b stay in a..b. */
  ghost predicate Closed(net: Net, a: int, b: int) {
    && Sized(net) && 1 <= a && b < |net.sym|
    && forall s :: a <= s <= b ==> Inside(a, b, net.t1[s]) && Inside(a, b, net.t2[s])
  }

  /** The two nets have the same states a..b. */
  ghost predicate Agree(net: Net, net1: Net, a: int, b: int) {
    && Sized(net) && Sized(net1) && 1 <= a && b < |net.sym| && b < |net1.sym|
    && forall s :: a <= s <= b ==> net.sym[s] == net1.sym[s] && net.t1[s] == net1.t1[s] && net.t2[s] == net1.t2[s]
  }

  /** What happens in a closed range depends on that range only. */
  lemma {:induction false} ClosedIsLocal(sat: Match, net: Net, net1: Net, a: int, b: int, k: nat, s: int, w: Word, f: int)
    requires Closed(net, a, b) && Agree(net, net1, a, b) && a <= s <= b
    ensures Exits(sat, net, k, s, w, f) <==> Exits(sat, net1, k, s, w, f)
    decreases k
  {
    if k > 0 {
      if net.t1[s] != NO_TRANSITION {
        ClosedIsLocal(sat, net, net1, a, b, k - 1, net.t1[s], w, f);
        if w != [] {
          ClosedIsLocal(sat, net, net1, a, b, k - 1, net.t1[s], w[1..], f);
        }
      }
      if net.t2[s] != NO_TRANSITION {
        ClosedIsLocal(sat, net, net1, a, b, k - 1, net.t2[s], w, f);
      }
    }
  }

  /** A closed range is never left. */
  lemma {:induction false} ClosedIsNotLeft(sat: Match, net: Net, a: int, b: int, k: nat, s: int, w: Word, f: int)
    requires Closed(net, a, b) && a <= s <= b && Exits(sat, net, k, s, w, f)
    ensures a <= f <= b
    decreases k
  {
    if s != f {
      if net.sym[s] == SYM_EPSILON {
        if net.t1[s] != NO_TRANSITION && Exits(sat, net, k - 1, net.t1[s], w, f) {
          ClosedIsNotLeft(sat, net, a, b, k - 1, net.t1[s], w, f);
        } else {
          ClosedIsNotLeft(sat, net, a, b, k - 1, net.t2[s], w, f);
        }
      } else {
        ClosedIsNotLeft(sat, net, a, b, k - 1, net.t1[s], w[1..], f);
      }
    }
  }

  // ---- adding a transition out of a free slot ----

  /** State f has room for another transition. */
  ghost predicate FreeSlot(net: Net, f: int) {
    && Sized(net) && HasState(net, f)
    && (net.t1[f] == NO_TRANSITION ==> net.t2[f] == NO_TRANSITION)
    && net.t2[f] == NO_TRANSITION && (net.sym[f] != SYM_EPSILON ==> net.t1[f] == NO_TRANSITION)
  }

  /** net1 is net with a transition from f to t in f's free slot. */
  ghost predicate Linked(net: Net, net1: Net, f: int, t: int) {
    && FreeSlot(net, f) && Sized(net1) && t != NO_TRANSITION && net1.sym == net.sym
    && if net.t1[f] == NO_TRANSITION then net1.t1 == net.t1[f := t] && net1.t2 == net.t2
       else net1.t1 == net.t1 && net1.t2 == net.t2[f := t]
  }

  /** Old paths remain. */
  lemma {:induction false} LinkKeeps(sat: Match, net: Net, net1: Net, f1: int, t: int, k: nat, s: int, w: Word, f: int)
    requires Linked(net, net1, f1, t) && Exits(sat, net, k, s, w, f)
    ensures Exits(sat, net1, k, s, w, f)
    decreases k
  {
    if !(s == f && Leaves(sat, net, s, w)) {
      if net.sym[s] == SYM_EPSILON {
        if net.t1[s] != NO_TRANSITION && Exits(sat, net, k - 1, net.t1[s], w, f) {
          LinkKeeps(sat, net, net1, f1, t, k - 1, net.t1[s], w, f);
        } else {
          LinkKeeps(sat, net, net1, f1, t, k - 1, net.t2[s], w, f);
        }
      } else {
        LinkKeeps(sat, net, net1, f1, t, k - 1, net.t1[s], w[1..], f);
      }
    }
  }

  /** A path out of f1 continues at t. */
  lemma {:induction false} LinkCompose(sat: Match, net: Net, net1: Net, f1: int, t: int, k1: nat, s: int, w1: Word,
                                       k2: nat, w2: Word, f: int)
    requires Linked(net, net1, f1, t)
    requires Exits(sat, net, k1, s, w1, f1) && Exits(sat, net1, k2, t, w2, f)
    ensures Exits(sat, net1, k1 + 1 + k2, s, w1 + w2, f)
    decreases k1
  {
    if s == f1 && Leaves(sat, net, s, w1) {
      ExitsMonotone(sat, net1, k2, k1 + k2, t, w2, f);
      if net.sym[s] == SYM_EPSILON {
        assert w1 + w2 == w2;
      } else {
        assert (w1 + w2)[1..] == w2;
      }
    } else if net.sym[s] == SYM_EPSILON {
      if net.t1[s] != NO_TRANSITION && Exits(sat, net, k1 - 1, net.t1[s], w1, f1) {
        LinkCompose(sat, net, net1, f1, t, k1 - 1, net.t1[s], w1, k2, w2, f);
      } else {
        LinkCompose(sat, net, net1, f1, t, k1 - 1, net.t2[s], w1, k2, w2, f);
      }
    } else {
      assert (w1 + w2)[1..] == w1[1..] + w2;
      LinkCompose(sat, net, net1, f1, t, k1 - 1, net.t1[s], w1[1..], k2, w2, f);
    }
  }

  /** w splits at i: the first part leads out of f1, the rest from t out of f. */
  ghost predicate SplitAt(sat: Match, net: Net, net1: Net, f1: int, t: int, k: nat, s: int, w: Word, f: int, i: nat, k2: nat) {
    && i <= |w| && k2 < k
    && Exits(sat, net, k, s, w[..i], f1) && Exits(sat, net1, k2, t, w[i..], f)
  }

  /** A path in the new net either was there before or uses the new transition. */
  lemma {:induction false} LinkDecompose(sat: Match, net: Net, net1: Net, f1: int, t: int, k: nat, s: int, w: Word, f: int)
    returns (i: nat, k2: nat)
    requires Linked(net, net1, f1, t) && Exits(sat, net1, k, s, w, f)
    ensures Exits(sat, net, k, s, w, f) || SplitAt(sat, net, net1, f1, t, k, s, w, f, i, k2)
    decreases k
  {
    i, k2 := 0, 0;
    if s == f && Leaves(sat, net1, s, w) {
      return;
    }
    if net.sym[s] != SYM_EPSILON {
      if s == f1 {
        i, k2 := 1, k - 1;
        assert w[..1] == [w[0]];
      } else {
        i, k2 := LinkDecompose(sat, net, net1, f1, t, k - 1, net.t1[s], w[1..], f);
        if !Exits(sat, net, k - 1, net.t1[s], w[1..], f) {
          i := i + 1;
          assert w[..i][1..] == w[1..][..i - 1] && w[i..] == w[1..][i - 1..] && w[..i][0] == w[0];
          assert Exits(sat, net, k, s, w[..i], f1);
        }
      }
      return;
    }
    var viaFirst := net1.t1[s] != NO_TRANSITION && Exits(sat, net1, k - 1, net1.t1[s], w, f);
    var u := if viaFirst then net1.t1[s] else net1.t2[s];
    assert u != NO_TRANSITION && Exits(sat, net1, k - 1, u, w, f);
    if u == (if viaFirst then net.t1[s] else net.t2[s]) {
      i, k2 := LinkDecompose(sat, net, net1, f1, t, k - 1, u, w, f);
      if !Exits(sat, net, k - 1, u, w, f) {
        assert Exits(sat, net, k, s, w[..i], f1);
      }
    } else {
      // the new transition itself
      assert s == f1 && u == t;
      k2 := k - 1;
      assert w[..0] == [] && w[0..] == w;
      assert Exits(sat, net, k, s, w[..0], f1);
    }
  }
}
