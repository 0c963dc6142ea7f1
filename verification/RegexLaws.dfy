/**
 What the words of a regular expression are, operator by operator and word by word.  These laws
 determine them: each leads to smaller expressions, smaller bounds or shorter words.
 */
module RegexLaws {
  import opened Words
  import opened NfaLang
  import opened NfaOps
  import opened Regex

  /** A symbol stands for the characters it takes, and the empty string for no character. */
  lemma SymbolLaw(sat: Match, sym: int, w: Word)
    ensures w in Denotes(sat, Symbol(sym)) <==> if sym == SYM_EPSILON then w == [] else |w| == 1 && sat(sym, w[0])
  {
  }

  lemma SeriesLaw(sat: Match, a: Rx, b: Rx, w: Word)
    ensures w in Denotes(sat, Series(a, b)) <==>
      exists i :: 0 <= i <= |w| && w[..i] in Denotes(sat, a) && w[i..] in Denotes(sat, b)
  {
    if i :| Splits(Denotes(sat, a), Denotes(sat, b), w, i) {
      assert w[..i] in Denotes(sat, a) && w[i..] in Denotes(sat, b);
    }
    if i :| 0 <= i <= |w| && w[..i] in Denotes(sat, a) && w[i..] in Denotes(sat, b) {
      assert Splits(Denotes(sat, a), Denotes(sat, b), w, i);
    }
  }

  lemma EitherLaw(sat: Match, a: Rx, b: Rx, w: Word)
    ensures w in Denotes(sat, Either(a, b)) <==> w in Denotes(sat, a) || w in Denotes(sat, b)
  {
  }

  lemma OptionalLaw(sat: Match, a: Rx, w: Word)
    ensures w in Denotes(sat, Optional(a)) <==> w == [] || w in Denotes(sat, a)
  {
  }

  /** A power that is not empty begins with a part that is not. */
  lemma {:induction false} PowerBegins(A: Language, n: nat, w: Word) returns (i: int, m: nat)
    requires w in Power(A, n) && w != []
    ensures 0 < i <= |w| && w[..i] in A && w[i..] in Power(A, m) && m < n
  {
    i :| Splits(A, Power(A, n - 1), w, i);
    m := n - 1;
    if i == 0 {
      assert w[0..] == w;
      i, m := PowerBegins(A, n - 1, w);
    }
  }

  /** Any number of repetitions: none, or one that takes some of the word and then any number. */
  lemma StarLaw(sat: Match, a: Rx, w: Word)
    ensures w in Denotes(sat, Star(a)) <==>
      w == [] || exists i :: 0 < i <= |w| && w[..i] in Denotes(sat, a) && w[i..] in Denotes(sat, Star(a))
  {
    var A := Denotes(sat, a);
    if w == [] {
      assert w in Power(A, 0);
    } else if n: nat :| w in Power(A, n) {
      var i, m := PowerBegins(A, n, w);
      assert w[i..] in Denotes(sat, Star(a));
    }
    if i :| 0 < i <= |w| && w[..i] in A && w[i..] in Denotes(sat, Star(a)) {
      var n: nat :| w[i..] in Power(A, n);
      assert Splits(A, Power(A, n), w, i);
      assert w in Power(A, n + 1);
    }
  }

  lemma PlusLaw(sat: Match, a: Rx)
    ensures Denotes(sat, Plus(a)) == Denotes(sat, Series(a, Star(a)))
  {
    PowerThenStar(Denotes(sat, a), 1);
    PowerOne(Denotes(sat, a));
  }

  lemma PowerIsNext(A: Language, n: nat)
    ensures Power(A, n + 1) == Cat(A, Power(A, n))
  {
  }

  lemma AtLeastNext(A: Language, lb: nat)
    ensures AtLeast(A, lb + 1) == Cat(A, AtLeast(A, lb))
  {
    hide AtLeast, Power;
    PowerThenStar(A, lb);
    PowerThenStar(A, lb + 1);
    PowerIsNext(A, lb);
    CatAssociates(A, Power(A, lb), AtLeast(A, 0));
  }

  /** A fixed number of repetitions; a rejected one leaves the expression as it is. */
  lemma ExactlyLaw(sat: Match, a: Rx, n: int)
    ensures n <= 1 ==> Denotes(sat, Exactly(a, n)) == Denotes(sat, a)
    ensures 1 <= n ==> Denotes(sat, Exactly(a, n + 1)) == Denotes(sat, Series(a, Exactly(a, n)))
  {
    hide Power, Cat;
    PowerOne(Denotes(sat, a));
    if 1 <= n {
      PowerIsNext(Denotes(sat, a), n);
    }
  }

  lemma FromLaw(sat: Match, a: Rx, lb: int)
    ensures lb <= 0 ==> Denotes(sat, From(a, lb)) == Denotes(sat, a)
    ensures Denotes(sat, From(a, 1)) == Denotes(sat, Plus(a))
    ensures 1 <= lb ==> Denotes(sat, From(a, lb + 1)) == Denotes(sat, Series(a, From(a, lb)))
  {
    hide AtLeast, Cat;
    if 1 <= lb {
      AtLeastNext(Denotes(sat, a), lb);
    }
  }

  lemma OnceOnly(A: Language)
    ensures Repeat(A, 1, 1) == A
  {
    PowerOne(A);
    forall w: Word
      ensures w in Repeat(A, 1, 1) <==> w in A
    {
      if n: nat :| 1 <= n <= 1 && w in Power(A, n) {
        assert n == 1;
      }
      if w in A {
        assert w in Power(A, 1);
      }
    }
  }

  lemma RepeatNext(A: Language, lb: nat, ub: nat)
    requires lb <= ub
    ensures Repeat(A, lb + 1, ub + 1) == Cat(A, Repeat(A, lb, ub))
  {
    hide Power, Repeat;
    PowerThenRepeat(A, lb, ub - lb);
    PowerThenRepeat(A, lb + 1, ub - lb);
    PowerIsNext(A, lb);
    CatAssociates(A, Power(A, lb), Repeat(A, 0, ub - lb));
  }

  /** Between two bounds: none if allowed, else one less of both. */
  lemma BetweenLaw(sat: Match, a: Rx, lb: int, ub: int)
    ensures !(0 <= lb <= ub && 0 < ub) ==> Denotes(sat, Between(a, lb, ub)) == Denotes(sat, a)
    ensures Denotes(sat, Between(a, 1, 1)) == Denotes(sat, a)
    ensures 0 < ub ==> Denotes(sat, Between(a, 0, ub)) == Denotes(sat, Optional(Between(a, 1, ub)))
    ensures 0 <= lb <= ub && 0 < ub ==> Denotes(sat, Between(a, lb + 1, ub + 1)) == Denotes(sat, Series(a, Between(a, lb, ub)))
  {
    var A := Denotes(sat, a);
    hide Repeat;
    OnceOnly(A);
    if 0 < ub {
      RepeatFromNone(A, ub);
    }
    if 0 <= lb <= ub {
      RepeatNext(A, lb, ub);
    }
  }

  /** The repetition counts that are accepted. */
  lemma WellFormedIs(a: Rx, b: Rx, lb: int, ub: int)
    ensures forall sym :: WellFormed(Symbol(sym))
    ensures (WellFormed(Series(a, b)) <==> WellFormed(a) && WellFormed(b)) && (WellFormed(Either(a, b)) <==> WellFormed(a) && WellFormed(b))
    ensures WellFormed(Optional(a)) == WellFormed(Plus(a)) == WellFormed(Star(a)) == WellFormed(a)
    ensures WellFormed(Between(a, lb, ub)) <==> WellFormed(a) && 0 <= lb <= ub && 0 < ub
    ensures WellFormed(From(a, lb)) <==> WellFormed(a) && 0 < lb
    ensures WellFormed(Exactly(a, lb)) <==> WellFormed(a) && 0 < lb
  {
  }
}
