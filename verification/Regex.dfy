/** Regular expressions as the grammar of `ext/flex/parse.y` reads them, and the machine of a whole specification. */
module Regex {
  import opened Words
  import opened NfaLang
  import opened NfaOps
  import opened NfaSteps
  import opened NfaMachines

  /** Symbols are characters, negated class numbers, or SYM_EPSILON for an empty string. */
  datatype Rx =
    | Symbol(sym: int)
    | Series(left: Rx, right: Rx)
    | Either(left: Rx, right: Rx)
    | Optional(body: Rx)
    | Plus(body: Rx)
    | Star(body: Rx)
    | Between(body: Rx, lb: int, ub: int)
    | From(body: Rx, lb: int)
    | Exactly(body: Rx, n: int)

  /** The words a regular expression stands for; rejected repetition counts are ignored. */
  ghost function Denotes(sat: Match, r: Rx): Language {
    match r
    case Symbol(sym) => Single(sat, sym)
    case Series(a, b) => Cat(Denotes(sat, a), Denotes(sat, b))
    case Either(a, b) => Denotes(sat, a) + Denotes(sat, b)
    case Optional(a) => Denotes(sat, a) + Empty()
    case Plus(a) => AtLeast(Denotes(sat, a), 1)
    case Star(a) => AtLeast(Denotes(sat, a), 0)
    case Between(a, lb, ub) => if 0 <= lb <= ub && 0 < ub then Repeat(Denotes(sat, a), lb, ub) else Denotes(sat, a)
    case From(a, lb) => if 0 < lb then AtLeast(Denotes(sat, a), lb) else Denotes(sat, a)
    case Exactly(a, n) => if 0 < n then Power(Denotes(sat, a), n) else Denotes(sat, a)
  }

  /** All repetition counts are accepted. */
  predicate WellFormed(r: Rx) {
    match r
    case Symbol(_) => true
    case Series(a, b) => WellFormed(a) && WellFormed(b)
    case Either(a, b) => WellFormed(a) && WellFormed(b)
    case Optional(a) => WellFormed(a)
    case Plus(a) => WellFormed(a)
    case Star(a) => WellFormed(a)
    case Between(a, lb, ub) => WellFormed(a) && 0 <= lb <= ub && 0 < ub
    case From(a, lb) => WellFormed(a) && 0 < lb
    case Exactly(a, n) => WellFormed(a) && 0 < n
  }

  /** The symbols of the expression are allowed. */
  ghost predicate Legal(r: Rx, legal: int -> bool) {
    match r
    case Symbol(sym) => sym == SYM_EPSILON || legal(sym)
    case Series(a, b) => Legal(a, legal) && Legal(b, legal)
    case Either(a, b) => Legal(a, legal) && Legal(b, legal)
    case Optional(a) => Legal(a, legal)
    case Plus(a) => Legal(a, legal)
    case Star(a) => Legal(a, legal)
    case Between(a, _, _) => Legal(a, legal)
    case From(a, _) => Legal(a, legal)
    case Exactly(a, _) => Legal(a, legal)
  }

  lemma RepeatFromNone(A: Language, ub: nat)
    requires 0 < ub
    ensures Repeat(A, 1, ub) + Empty() == Repeat(A, 0, ub)
  {
    forall w: Word
      ensures w in Repeat(A, 1, ub) + Empty() <==> w in Repeat(A, 0, ub)
    {
      if w == [] {
        assert w in Power(A, 0);
      }
      if n: nat :| n <= ub && w in Power(A, n) {
        assert n == 0 ==> w == [];
      }
    }
  }

  /** Repetition a{lb,ub}; a lower bound of 0 is an optional a{1,ub}. */
  method BuildBetween(b: NfaBuilder, m0: int, lb: int, ub: int) returns (m: int, errors: bool)
    requires b.Valid() && b.IsMachine(m0) && b.lastst[m0] == b.lastnfa
    modifies b
    ensures b.Valid() && b.Spans(m, old(b.firstst[m0])) && Below(old(b.All()), b.All(), old(b.firstst[m0]))
    ensures errors <==> !(0 <= lb <= ub && 0 < ub)
    ensures b.Means(m) == if errors then old(b.Means(m0)) else Repeat(old(b.Means(m0)), lb, ub)
  {
    m, errors := m0, false;
    ghost var n, A, lo := b.All(), b.Means(m0), b.firstst[m0];
    hide Repeat, AtLeast, LangOf, Meaning;
    if lb > ub || lb < 0 {
      errors := true;
      assert Below(n, b.All(), lo);
    } else if lb == 0 {
      if ub <= 0 {
        errors := true;
        assert Below(n, b.All(), lo);
      } else {
        m := b.MkRep(m0, 1, ub);
        ghost var n1 := b.All();
        m := b.MkOpt(m);
        BelowTrans(n, n1, b.All(), lo, lo, lo);
        RepeatFromNone(A, ub);
      }
    } else {
      m := b.MkRep(m0, lb, ub);
    }
  }

  /** Two expressions, one after the other: their machines are adjacent. */
  method BuildPair(b: NfaBuilder, r: Rx) returns (m1: int, m2: int, errors: bool)
    requires b.Valid() && (r.Series? || r.Either?) && Legal(r, b.legal)
    modifies b
    ensures b.Valid() && b.IsMachine(m1) && b.firstst[m1] == old(b.lastnfa) + 1
    ensures b.Spans(m2, b.lastst[m1] + 1) && b.firstst[m1] < b.firstst[m2]
    ensures b.Means(m1) == Denotes(b.sat, r.left) && b.Means(m2) == Denotes(b.sat, r.right)
    ensures Below(old(b.All()), b.All(), old(b.lastnfa) + 1) && (errors <==> !(WellFormed(r.left) && WellFormed(r.right)))
    decreases r, 0
  {
    ghost var n, N := b.All(), b.lastnfa + 1;
    var bad1, bad2;
    m1, bad1 := Build(b, r.left);
    ghost var n1, N1 := b.All(), b.lastnfa + 1;
    m2, bad2 := Build(b, r.right);
    errors := bad1 || bad2;
    hide Denotes, LangOf, Closed, Unnumbered, FreeSlot, Below;
    assert n1.lo[m1] <= n1.hi[m1] < N1;
    BelowKeeps(b.sat, n1, b.All(), N1, m1);
    BelowTrans(n, n1, b.All(), N, N1, N);
  }

  /** A repeated or optional expression. */
  method BuildRepeated(b: NfaBuilder, r: Rx) returns (m: int, errors: bool)
    requires b.Valid() && !(r.Symbol? || r.Series? || r.Either?) && Legal(r, b.legal)
    modifies b
    ensures b.Valid() && b.Spans(m, old(b.lastnfa) + 1) && b.Means(m) == Denotes(b.sat, r)
    ensures Below(old(b.All()), b.All(), old(b.lastnfa) + 1) && (errors <==> !WellFormed(r))
    decreases r, 0
  {
    ghost var n, N := b.All(), b.lastnfa + 1;
    m, errors := Build(b, r.body);
    ghost var n1, A := b.All(), b.Means(m);
    hide LangOf, Closed, Unnumbered, FreeSlot, Below, Power, Repeat, AtLeast, Part, Meaning, Good;
    match r {
      case Optional(_) =>
        m := b.MkOpt(m);
      case Plus(_) =>
        m := b.MkPosCl(m);
      case Star(_) =>
        m := b.MkClos(m);
      case Between(_, lb, ub) =>
        var bad;
        m, bad := BuildBetween(b, m, lb, ub);
        errors := errors || bad;
      case From(_, lb) =>
        if lb <= 0 {
          errors := true;
        } else {
          m := b.MkRep(m, lb, INFINITE_REPEAT);
        }
      case Exactly(_, num) =>
        if num <= 0 {
          errors := true;
        } else {
          m := BuildExactly(b, m, num);
        }
    }
    if b.All() != n1 {
      BelowTrans(n, n1, b.All(), N, N, N);
    }
  }

  /** Repetition a{num}. */
  method BuildExactly(b: NfaBuilder, m0: int, num: int) returns (m: int)
    requires b.Valid() && b.IsMachine(m0) && b.lastst[m0] == b.lastnfa && 0 < num
    modifies b
    ensures b.Valid() && b.Spans(m, old(b.firstst[m0])) && Below(old(b.All()), b.All(), old(b.firstst[m0]))
    ensures b.Means(m) == Power(old(b.Means(m0)), num)
  {
    ghost var n := b.All();
    ghost var A := b.Means(m0);
    assert n.lo[m0] <= n.hi[m0] < |n.lo|;
    var copies := b.CopySingl(m0, num - 1);
    BelowKeeps(b.sat, n, b.All(), |n.lo|, m0);
    ghost var n1 := b.All();
    hide LangOf, Closed, Unnumbered, FreeSlot, Below, Cat, Meaning, Good;
    m := b.Concatenate(m0, copies);
    BelowTrans(n, n1, b.All(), |n.lo|, n.lo[m0], n.lo[m0]);
    assert Power(A, num) == Cat(A, Power(A, num - 1));
  }

  /** The machine built for an expression matches exactly the words the expression stands for. */
  method Build(b: NfaBuilder, r: Rx) returns (m: int, errors: bool)
    requires b.Valid() && Legal(r, b.legal)
    modifies b
    ensures b.Valid() && b.Spans(m, old(b.lastnfa) + 1) && b.Means(m) == Denotes(b.sat, r)
    ensures Below(old(b.All()), b.All(), old(b.lastnfa) + 1) && (errors <==> !WellFormed(r))
    decreases r, 1
  {
    ghost var n, N := b.All(), b.lastnfa + 1;
    errors := false;
    hide LangOf, Closed, Unnumbered, FreeSlot, Below, Cat, Alive, Good, Single, Part, Meaning;
    if r.Symbol? {
      m := b.MkState(r.sym);
    } else if r.Series? || r.Either? {
      var m1, m2;
      m1, m2, errors := BuildPair(b, r);
      ghost var n1 := b.All();
      if r.Series? {
        m := b.Concatenate(m1, m2);
      } else {
        m := b.MkOr(m1, m2);
      }
      BelowTrans(n, n1, b.All(), N, N, N);
    } else {
      m, errors := BuildRepeated(b, r);
    }
  }
}
