/** Sets of words: the operators regular expressions denote. */
module Words {

  type Word = seq<int>
  type Language = iset<Word>

  ghost function Empty(): Language {
    iset{[]}
  }

  ghost predicate Splits(A: Language, B: Language, w: Word, i: int) {
    0 <= i <= |w| && w[..i] in A && w[i..] in B
  }

  ghost predicate Splittable(A: Language, B: Language, w: Word) {
    exists i :: Splits(A, B, w, i)
  }

  ghost function Cat(A: Language, B: Language): Language {
    iset w: Word | Splittable(A, B, w)
  }

  ghost function Power(A: Language, n: nat): Language {
    if n == 0 then Empty() else Cat(A, Power(A, n - 1))
  }

  ghost predicate Repeats(A: Language, lo: nat, hi: nat, w: Word) {
    exists n: nat :: lo <= n <= hi && w in Power(A, n)
  }

  /** Between lo and hi repetitions. */
  ghost function Repeat(A: Language, lo: nat, hi: nat): Language {
    iset w: Word | Repeats(A, lo, hi, w)
  }

  ghost predicate Unbounded(A: Language, lo: nat, w: Word) {
    exists n: nat :: lo <= n && w in Power(A, n)
  }

  /** At least lo repetitions. */
  ghost function AtLeast(A: Language, lo: nat): Language {
    iset w: Word | Unbounded(A, lo, w)
  }

  lemma InCat(A: Language, B: Language, u: Word, v: Word)
    requires u in A && v in B
    ensures u + v in Cat(A, B)
  {
    assert (u + v)[..|u|] == u && (u + v)[|u|..] == v;
    assert Splits(A, B, u + v, |u|);
  }

  lemma CatEmptyRight(A: Language)
    ensures Cat(A, Empty()) == A
  {
    forall w: Word
      ensures w in Cat(A, Empty()) <==> w in A
    {
      if w in A {
        InCat(A, Empty(), w, []);
        assert w + [] == w;
      }
      if i :| Splits(A, Empty(), w, i) {
        assert w[..i] + w[i..] == w && w[i..] == [];
        assert w == w[..i];
      }
    }
  }

  lemma CatEmptyLeft(A: Language)
    ensures Cat(Empty(), A) == A
  {
    forall w: Word
      ensures w in Cat(Empty(), A) <==> w in A
    {
      if w in A {
        InCat(Empty(), A, [], w);
        assert [] + w == w;
      }
      if i :| Splits(Empty(), A, w, i) {
        assert i == 0;
        assert w == w[i..];
      }
    }
  }

  lemma CatAssociates(A: Language, B: Language, C: Language)
    ensures Cat(Cat(A, B), C) == Cat(A, Cat(B, C))
  {
    forall w: Word
      ensures w in Cat(Cat(A, B), C) <==> w in Cat(A, Cat(B, C))
    {
      if i :| Splits(Cat(A, B), C, w, i) {
        var j :| Splits(A, B, w[..i], j);
        assert w[..i][..j] == w[..j];
        InCat(B, C, w[..i][j..], w[i..]);
        assert w[..i][j..] + w[i..] == w[j..];
        InCat(A, Cat(B, C), w[..j], w[j..]);
        assert w[..j] + w[j..] == w;
      }
      if i :| Splits(A, Cat(B, C), w, i) {
        var j :| Splits(B, C, w[i..], j);
        InCat(A, B, w[..i], w[i..][..j]);
        assert w[..i] + w[i..][..j] == w[..i + j];
        assert w[i..][j..] == w[i + j..];
        InCat(Cat(A, B), C, w[..i + j], w[i + j..]);
        assert w[..i + j] + w[i + j..] == w;
      }
    }
  }

  /** Powers add. */
  lemma {:induction false} PowerAdds(A: Language, m: nat, n: nat)
    ensures Cat(Power(A, m), Power(A, n)) == Power(A, m + n)
  {
    if m == 0 {
      CatEmptyLeft(Power(A, n));
    } else {
      PowerAdds(A, m - 1, n);
      CatAssociates(A, Power(A, m - 1), Power(A, n));
    }
  }

  /** One more optional repetition at the front: (A (A^0..d))? is A^0..d+1. */
  lemma RepeatStep(A: Language, d: nat)
    ensures Cat(A, Repeat(A, 0, d)) + Empty() == Repeat(A, 0, d + 1)
  {
    forall w: Word
      ensures w in Cat(A, Repeat(A, 0, d)) + Empty() <==> w in Repeat(A, 0, d + 1)
    {
      if i :| Splits(A, Repeat(A, 0, d), w, i) {
        var n: nat :| n <= d && w[i..] in Power(A, n);
        InCat(A, Power(A, n), w[..i], w[i..]);
        assert w[..i] + w[i..] == w;
        assert w in Power(A, n + 1);
      }
      if w == [] {
        assert w in Power(A, 0);
      }
      if n: nat :| n <= d + 1 && w in Power(A, n) {
        if n > 0 {
          var i :| Splits(A, Power(A, n - 1), w, i);
          assert w[i..] in Repeat(A, 0, d);
          assert Splits(A, Repeat(A, 0, d), w, i);
        }
      }
    }
  }

  /** w is k repetitions and then n more exactly if it is k + n of them. */
  lemma PowersMeet(A: Language, k: nat, n: nat, w: Word, i: int)
    requires 0 <= i <= |w| && w[..i] in Power(A, k) && w[i..] in Power(A, n)
    ensures w in Power(A, k + n)
  {
    PowerAdds(A, k, n);
    InCat(Power(A, k), Power(A, n), w[..i], w[i..]);
    assert w[..i] + w[i..] == w;
  }

  lemma PowersPart(A: Language, k: nat, n: nat, w: Word) returns (i: int)
    requires w in Power(A, k + n)
    ensures 0 <= i <= |w| && w[..i] in Power(A, k) && w[i..] in Power(A, n)
  {
    PowerAdds(A, k, n);
    i :| Splits(Power(A, k), Power(A, n), w, i);
  }

  /** k repetitions and then up to d more are k..k+d of them. */
  lemma PowerThenRepeat(A: Language, k: nat, d: nat)
    ensures Cat(Power(A, k), Repeat(A, 0, d)) == Repeat(A, k, k + d)
  {
    hide Power;
    forall w: Word
      ensures w in Cat(Power(A, k), Repeat(A, 0, d)) <==> w in Repeat(A, k, k + d)
    {
      if i :| Splits(Power(A, k), Repeat(A, 0, d), w, i) {
        var n: nat :| n <= d && w[i..] in Power(A, n);
        PowersMeet(A, k, n, w, i);
      }
      if n: nat :| k <= n <= k + d && w in Power(A, n) {
        var i := PowersPart(A, k, n - k, w);
        assert Splits(Power(A, k), Repeat(A, 0, d), w, i);
      }
    }
  }

  /** k repetitions and then any number of them are at least k. */
  lemma PowerThenStar(A: Language, k: nat)
    ensures Cat(Power(A, k), AtLeast(A, 0)) == AtLeast(A, k)
  {
    hide Power;
    forall w: Word
      ensures w in Cat(Power(A, k), AtLeast(A, 0)) <==> w in AtLeast(A, k)
    {
      if i :| Splits(Power(A, k), AtLeast(A, 0), w, i) {
        var n: nat :| w[i..] in Power(A, n);
        PowersMeet(A, k, n, w, i);
      }
      if n: nat :| k <= n && w in Power(A, n) {
        var i := PowersPart(A, k, n - k, w);
        assert Splits(Power(A, k), AtLeast(A, 0), w, i);
      }
    }
  }

  lemma StarIsPlusOrEmpty(A: Language)
    ensures AtLeast(A, 1) + Empty() == AtLeast(A, 0)
  {
    forall w: Word
      ensures w in AtLeast(A, 1) + Empty() <==> w in AtLeast(A, 0)
    {
      if w == [] {
        assert w in Power(A, 0);
      }
      if n: nat :| w in Power(A, n) {
        assert n == 0 ==> w == [];
      }
    }
  }

  lemma PowerOne(A: Language)
    ensures Power(A, 1) == A
  {
    assert Power(A, 1) == Cat(A, Power(A, 0));
    CatEmptyRight(A);
  }

  lemma RepeatNone(A: Language)
    ensures Repeat(A, 0, 0) == Empty()
  {
    forall w: Word
      ensures w in Repeat(A, 0, 0) <==> w in Empty()
    {
      assert Power(A, 0) == Empty();
    }
  }

  /** One repetition, k - 1 more and then up to d more. */
  lemma RepeatParts(A: Language, k: nat, d: nat)
    requires 1 <= k
    ensures Cat(A, Cat(Power(A, k - 1), Repeat(A, 0, d))) == Repeat(A, k, k + d)
  {
    CatAssociates(A, Power(A, k - 1), Repeat(A, 0, d));
    PowerThenRepeat(A, k, d);
  }

  lemma AtLeastParts(A: Language, k: nat)
    requires 1 <= k
    ensures Cat(A, Cat(Power(A, k - 1), AtLeast(A, 0))) == AtLeast(A, k)
  {
    CatAssociates(A, Power(A, k - 1), AtLeast(A, 0));
    PowerThenStar(A, k);
  }

  lemma PowerNone(A: Language)
    ensures Power(A, 0) == Empty()
  {
  }

  lemma PowerNext(A: Language, k: nat)
    ensures Cat(Power(A, k), A) == Power(A, k + 1)
  {
    hide Power;
    PowerAdds(A, k, 1);
    PowerOne(A);
  }
}
