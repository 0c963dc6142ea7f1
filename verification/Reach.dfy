/** The states an NFA can be in after a word, step by step. */
module Reach {
  import opened Words
  import opened NfaLang

  /** q can be reached from p by at most k epsilon transitions. */
  ghost predicate EpsWithin(net: Net, k: nat, p: int, q: int) {
    && HasState(net, p)
    && (p == q || (k > 0 && net.sym[p] == SYM_EPSILON
                   && ((net.t1[p] != NO_TRANSITION && EpsWithin(net, k - 1, net.t1[p], q)) ||
                       (net.t2[p] != NO_TRANSITION && EpsWithin(net, k - 1, net.t2[p], q)))))
  }

  ghost predicate Eps(net: Net, p: int, q: int) {
    exists k :: EpsWithin(net, k, p, q)
  }

  /** p consumes c and q follows by epsilon transitions. */
  ghost predicate Moves(sat: Match, net: Net, p: int, c: int, q: int) {
    HasState(net, p) && net.sym[p] != SYM_EPSILON && sat(net.sym[p], c) && net.t1[p] != NO_TRANSITION && Eps(net, net.t1[p], q)
  }

  ghost predicate Via(sat: Match, net: Net, s: int, w: Word, p: int, c: int, q: int)
    decreases |w|, 1
  {
    Reached(sat, net, s, w, p) && Moves(sat, net, p, c, q)
  }

  /** From state s, word w leads to state q. */
  ghost predicate Reached(sat: Match, net: Net, s: int, w: Word, q: int)
    decreases |w|, 0
  {
    if w == [] then Eps(net, s, q)
    else var u, c := w[..|w| - 1], w[|w| - 1]; exists p :: Via(sat, net, s, u, p, c, q)
  }

  lemma {:induction false} EpsExits(sat: Match, net: Net, j: nat, p: int, q: int, k: nat, v: Word, f: int)
    requires EpsWithin(net, j, p, q) && Exits(sat, net, k, q, v, f)
    ensures Matches(sat, net, p, f, v)
    decreases j
  {
    if p != q {
      if net.t1[p] != NO_TRANSITION && EpsWithin(net, j - 1, net.t1[p], q) {
        EpsExits(sat, net, j - 1, net.t1[p], q, k, v, f);
        var k1: nat :| Exits(sat, net, k1, net.t1[p], v, f);
        assert Exits(sat, net, k1 + 1, p, v, f);
      } else {
        EpsExits(sat, net, j - 1, net.t2[p], q, k, v, f);
        var k1: nat :| Exits(sat, net, k1, net.t2[p], v, f);
        assert Exits(sat, net, k1 + 1, p, v, f);
      }
    }
  }

  /** A path to p and a path from p onwards make a path. */
  lemma {:induction false} ReachedThenExits(sat: Match, net: Net, s: int, u: Word, p: int, k: nat, v: Word, f: int)
    requires Reached(sat, net, s, u, p) && Exits(sat, net, k, p, v, f)
    ensures Matches(sat, net, s, f, u + v)
    decreases |u|
  {
    if u == [] {
      var j :| EpsWithin(net, j, s, p);
      EpsExits(sat, net, j, s, p, k, v, f);
      assert u + v == v;
    } else {
      var u0, c := u[..|u| - 1], u[|u| - 1];
      var p0 :| Via(sat, net, s, u0, p0, c, p);
      var j :| EpsWithin(net, j, net.t1[p0], p);
      EpsExits(sat, net, j, net.t1[p0], p, k, v, f);
      var k1: nat :| Exits(sat, net, k1, net.t1[p0], v, f);
      assert ([c] + v)[1..] == v;
      assert Exits(sat, net, k1 + 1, p0, [c] + v, f);
      ReachedThenExits(sat, net, s, u0, p0, k1 + 1, [c] + v, f);
      assert u0 + ([c] + v) == u + v;
    }
  }

  /** A path may start with an epsilon transition. */
  lemma {:induction false} EpsFirst(sat: Match, net: Net, s: int, t: int, w: Word, q: int)
    requires HasState(net, s) && net.sym[s] == SYM_EPSILON && t != NO_TRANSITION && (t == net.t1[s] || t == net.t2[s])
    requires Reached(sat, net, t, w, q)
    ensures Reached(sat, net, s, w, q)
    decreases |w|
  {
    if w == [] {
      var k: nat :| EpsWithin(net, k, t, q);
      assert EpsWithin(net, k + 1, s, q);
    } else {
      var p :| Via(sat, net, t, w[..|w| - 1], p, w[|w| - 1], q);
      EpsFirst(sat, net, s, t, w[..|w| - 1], p);
      assert Via(sat, net, s, w[..|w| - 1], p, w[|w| - 1], q);
    }
  }

  /** A path may start with a symbol. */
  lemma {:induction false} SymbolFirst(sat: Match, net: Net, s: int, w: Word, q: int)
    requires HasState(net, s) && net.sym[s] != SYM_EPSILON && net.t1[s] != NO_TRANSITION
    requires w != [] && sat(net.sym[s], w[0]) && Reached(sat, net, net.t1[s], w[1..], q)
    ensures Reached(sat, net, s, w, q)
    decreases |w|
  {
    var u, c := w[..|w| - 1], w[|w| - 1];
    if |w| == 1 {
      assert EpsWithin(net, 0, s, s);
      assert Reached(sat, net, s, u, s);
      assert Via(sat, net, s, u, s, c, q);
    } else {
      assert w[1..][..|w| - 2] == u[1..] && w[1..][|w| - 2] == c;
      var p :| Via(sat, net, net.t1[s], u[1..], p, c, q);
      SymbolFirst(sat, net, s, u, p);
      assert Via(sat, net, s, u, p, c, q);
    }
  }

  lemma {:induction false} ExitsReached(sat: Match, net: Net, k: nat, s: int, w: Word, f: int)
    requires Exits(sat, net, k, s, w, f) && HasState(net, f) && net.sym[f] == SYM_EPSILON
    ensures Reached(sat, net, s, w, f)
    decreases k
  {
    if s == f && w == [] {
      assert EpsWithin(net, 0, s, f);
    } else if net.sym[s] == SYM_EPSILON {
      if net.t1[s] != NO_TRANSITION && Exits(sat, net, k - 1, net.t1[s], w, f) {
        ExitsReached(sat, net, k - 1, net.t1[s], w, f);
        EpsFirst(sat, net, s, net.t1[s], w, f);
      } else {
        ExitsReached(sat, net, k - 1, net.t2[s], w, f);
        EpsFirst(sat, net, s, net.t2[s], w, f);
      }
    } else {
      ExitsReached(sat, net, k - 1, net.t1[s], w[1..], f);
      SymbolFirst(sat, net, s, w, f);
    }
  }

  /** A word takes a machine out of an epsilon state exactly if it leads to that state. */
  lemma MatchesIsReached(sat: Match, net: Net, s: int, f: int, w: Word)
    requires HasState(net, f) && net.sym[f] == SYM_EPSILON
    ensures Matches(sat, net, s, f, w) <==> Reached(sat, net, s, w, f)
  {
    if Matches(sat, net, s, f, w) {
      var k: nat :| Exits(sat, net, k, s, w, f);
      ExitsReached(sat, net, k, s, w, f);
    }
    if Reached(sat, net, s, w, f) {
      assert Exits(sat, net, 0, f, [], f);
      ReachedThenExits(sat, net, s, w, f, 0, [], f);
      assert w + [] == w;
    }
  }

  lemma {:induction false} EpsTrans(net: Net, j: nat, p: int, q: int, r: int)
    requires EpsWithin(net, j, p, q) && Eps(net, q, r)
    ensures Eps(net, p, r)
    decreases j
  {
    if p != q {
      var t := if net.t1[p] != NO_TRANSITION && EpsWithin(net, j - 1, net.t1[p], q) then net.t1[p] else net.t2[p];
      EpsTrans(net, j - 1, t, q, r);
      var k: nat :| EpsWithin(net, k, t, r);
      assert EpsWithin(net, k + 1, p, r);
    }
  }

  lemma ReachedVia(sat: Match, net: Net, s: int, w: Word, p: int, c: int, q: int)
    requires Via(sat, net, s, w, p, c, q)
    ensures Reached(sat, net, s, w + [c], q)
  {
    var w1 := w + [c];
    assert w1[..|w1| - 1] == w && w1[|w1| - 1] == c;
    assert Via(sat, net, s, w1[..|w1| - 1], p, w1[|w1| - 1], q);
  }

  /** The last step of a path. */
  lemma ReachedLast(sat: Match, net: Net, s: int, w: Word, c: int, q: int) returns (p: int)
    requires Reached(sat, net, s, w + [c], q)
    ensures Via(sat, net, s, w, p, c, q)
  {
    var w1 := w + [c];
    assert w1[..|w1| - 1] == w && w1[|w1| - 1] == c;
    p :| Via(sat, net, s, w1[..|w1| - 1], p, w1[|w1| - 1], q);
  }
}
