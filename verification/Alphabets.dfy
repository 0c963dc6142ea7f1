/**
 From characters to equivalence classes: what the tables of `ext/flex/ecs.c` mean for the symbols of
 patterns, and that nothing is lost by reading classes instead of characters.
 */
module Alphabets {
  import opened Ecs
  import ShellSort
  import opened EcNumbers
  import opened Words
  import opened NfaLang
  import opened NfaOps
  import opened Follow
  import opened Regex
  import opened Rules

  /** The character classes of the input: lists of characters 0..csize - 1, NUL last. */
  datatype Charset = Charset(csize: nat, tbl: seq<int>, map_: seq<int>, len: seq<int>, ng: seq<bool>)

  predicate IsClass(cs: Charset, k: int) {
    && 1 <= k < |cs.map_| && k < |cs.len| && k < |cs.ng|
    && 0 <= cs.map_[k] && 0 <= cs.len[k] && cs.map_[k] + cs.len[k] <= |cs.tbl|
  }

  function Entries(cs: Charset, k: int): seq<int>
    requires IsClass(cs, k)
  {
    ClassAt(cs.tbl, cs.map_[k], cs.len[k])
  }

  /** Character ch is among what symbol sym stands for. */
  predicate TakesChar(cs: Charset, sym: int, ch: int) {
    if sym < 0 then IsClass(cs, -sym) && (ch in Entries(cs, -sym)) != cs.ng[-sym] else sym == ch
  }

  /** A character stands for itself; a class for the characters it lists, or if it is negated for the others. */
  lemma TakesCharIs(cs: Charset, sym: int, ch: int)
    ensures 0 <= sym ==> (TakesChar(cs, sym, ch) <==> sym == ch)
    ensures sym < 0 && IsClass(cs, -sym) ==>
      (TakesChar(cs, sym, ch) <==>
        (exists j :: cs.map_[-sym] <= j < cs.map_[-sym] + cs.len[-sym] && cs.tbl[j] == ch) != cs.ng[-sym])
  {
    if sym < 0 && IsClass(cs, -sym) {
      var all := Entries(cs, -sym);
      if ch in all {
        var i :| 0 <= i < |all| && all[i] == ch;
        assert cs.tbl[cs.map_[-sym] + i] == ch;
      }
      if j :| cs.map_[-sym] <= j < cs.map_[-sym] + cs.len[-sym] && cs.tbl[j] == ch {
        assert all[j - cs.map_[-sym]] == ch;
      }
    }
  }

  /** Characters of the class are in order, with NUL (read as csize) last. */
  ghost predicate ClassInOrder(cs: Charset, k: int) {
    && IsClass(cs, k) && (forall i :: 0 <= i < cs.len[k] ==> 0 <= Entries(cs, k)[i] < cs.csize)
    && ClassEntries(Symbols(Entries(cs, k), cs.csize), cs.csize)
  }

  /** part is the partition that mkechar and mkeccl leave for these classes and these single characters. */
  ghost predicate Refined(cs: Charset, part: seq<int>, singles: set<int>) {
    && 1 <= cs.csize <= CSIZE && |part| == cs.csize + 1
    && (forall k :: 1 <= k < |cs.map_| ==> ClassInOrder(cs, k) && Respects(part, Members(Symbols(Entries(cs, k), cs.csize))))
    && (forall c :: c in singles ==> 0 <= c < cs.csize && Respects(part, {Mapped(c, cs.csize)}))
  }

  /** Class k has been replaced by its translation. */
  ghost predicate Listed(al: Alphabet, cs: Charset, k: int) {
    && ClassInOrder(cs, k) && HasClass(al, k) && InRange(Entries(cs, k), |al.ecgroup|)
    && ClassList(al, k) == Stored(Translate(al.ecgroup, Entries(cs, k)))
  }

  /** al is the alphabet cre8ecs and ccl2ecl make of the character classes. */
  ghost predicate AlphabetOf(al: Alphabet, cs: Charset, part: seq<int>) {
    && 1 <= cs.csize <= CSIZE && |part| == cs.csize + 1 && |cs.map_| == |cs.ng| <= |cs.len|
    && al.numecs == NumClasses(part, cs.csize) && Coded(al.ecgroup, part, cs.csize) && |al.ecgroup| == cs.csize + 1
    && al.nul == Abs(al.ecgroup[0]) && al.cclmap == cs.map_ && al.cclng == cs.ng && |al.ccllen| == |cs.len|
    && forall k :: 1 <= k < |cs.map_| ==> Listed(al, cs, k)
  }

  lemma NulClass(al: Alphabet, cs: Charset, part: seq<int>)
    requires AlphabetOf(al, cs, part)
    ensures al.nul == ClassNumber(part, cs.csize) && 1 <= al.nul <= al.numecs <= cs.csize
  {
    NumbersFollowLeast(part, cs.csize, cs.csize);
    NumClassesMonotone(part, 0, cs.csize);
  }

  /** The class lists of the alphabet are the translated classes. */
  lemma ClassTranslated(al: Alphabet, cs: Charset, part: seq<int>, k: int)
    requires AlphabetOf(al, cs, part) && 1 <= k < |cs.map_| && Listed(al, cs, k) && Respects(part, Members(Symbols(Entries(cs, k), cs.csize)))
    ensures ClassSymbols(al, k) == Translate(al.ecgroup, Entries(cs, k)) && ClassEntries(ClassSymbols(al, k), al.numecs)
    ensures forall x :: 1 <= x <= cs.csize ==> (ClassNumber(part, x) in ClassSymbols(al, k) <==> x in Symbols(Entries(cs, k), cs.csize))
  {
    NulClass(al, cs, part);
    var t := Translate(al.ecgroup, Entries(cs, k));
    TranslateIsExact(al.ecgroup, part, cs.csize, Entries(cs, k), 1);
    forall i | 0 <= i < |t|
      ensures 1 <= t[i] <= al.numecs
    {
      assert t[i] in t;
    }
    StoredIsExact(part, cs.csize, t);
    forall x | 1 <= x <= cs.csize
      ensures ClassNumber(part, x) in t <==> x in Symbols(Entries(cs, k), cs.csize)
    {
      TranslateIsExact(al.ecgroup, part, cs.csize, Entries(cs, k), x);
    }
  }

  /** The equivalence class of a character. */
  function ClassOf(al: Alphabet, ch: int): int
    requires 0 <= ch < |al.ecgroup|
  {
    Abs(al.ecgroup[ch])
  }

  lemma ClassOfIsNumber(al: Alphabet, cs: Charset, part: seq<int>, ch: int)
    requires AlphabetOf(al, cs, part) && 0 <= ch < cs.csize
    ensures 1 <= Mapped(ch, cs.csize) <= cs.csize && ClassOf(al, ch) == ClassNumber(part, Mapped(ch, cs.csize))
    ensures 1 <= ClassOf(al, ch) <= al.numecs
  {
    var x := Mapped(ch, cs.csize);
    CodeAt(al.ecgroup, part, cs.csize, ch, x);
    NumbersFollowLeast(part, x, x);
  }

  lemma MappedIn(entries: seq<int>, n: nat, ch: int)
    requires 1 <= n && 0 <= ch < n && forall i :: 0 <= i < |entries| ==> 0 <= entries[i] < n
    ensures Mapped(ch, n) in Symbols(entries, n) <==> ch in entries
  {
    if ch in entries {
      var i :| 0 <= i < |entries| && entries[i] == ch;
      assert Symbols(entries, n)[i] == Mapped(ch, n);
    }
    if Mapped(ch, n) in Symbols(entries, n) {
      var i :| 0 <= i < |entries| && Symbols(entries, n)[i] == Mapped(ch, n);
      assert entries[i] == ch;
    }
  }

  /** A class symbol takes a character's equivalence class exactly if it stands for the character. */
  lemma ClassSymbolTakes(al: Alphabet, cs: Charset, part: seq<int>, singles: set<int>, k: int, ch: int)
    requires AlphabetOf(al, cs, part) && Refined(cs, part, singles) && 1 <= k < |cs.map_| && 0 <= ch < cs.csize
    ensures |al.ecgroup| == cs.csize + 1 && SymbolOk(al, -k) && (Takes(al, -k, ClassOf(al, ch)) <==> TakesChar(cs, -k, ch))
  {
    assert Listed(al, cs, k) && ClassInOrder(cs, k);
    ClassOfIsNumber(al, cs, part, ch);
    ClassTranslated(al, cs, part, k);
    MappedIn(Entries(cs, k), cs.csize, ch);
  }

  /** So does a character with an equivalence class of its own. */
  lemma SingleTakes(al: Alphabet, cs: Charset, part: seq<int>, singles: set<int>, c: int, ch: int)
    requires AlphabetOf(al, cs, part) && Refined(cs, part, singles) && c in singles && 0 <= ch < cs.csize
    ensures SymbolOk(al, c) && (Takes(al, c, ClassOf(al, ch)) <==> TakesChar(cs, c, ch))
  {
    var x, y := Mapped(c, cs.csize), Mapped(ch, cs.csize);
    ClassOfIsNumber(al, cs, part, c);
    ClassOfIsNumber(al, cs, part, ch);
    NumbersFollowLeast(part, x, y);
    assert Respects(part, {x});
    assert part[x] == part[y] <==> x == y;
    CodeAt(al.ecgroup, part, cs.csize, c, x);
    assert Least(part, x) == x;
  }

  /** The alphabet is in order. */
  lemma AlphabetIsOk(al: Alphabet, cs: Charset, part: seq<int>, singles: set<int>)
    requires AlphabetOf(al, cs, part) && Refined(cs, part, singles)
    ensures AlphabetOk(al) && 1 <= al.numecs <= cs.csize && al.nul == Abs(al.ecgroup[0])
    ensures al.numecs == cs.csize ==> al.ecgroup[0] == al.numecs
  {
    NulClass(al, cs, part);
    forall k | HasClass(al, k)
      ensures ClassEntries(ClassSymbols(al, k), al.numecs)
    {
      assert Listed(al, cs, k) && ClassInOrder(cs, k);
      ClassTranslated(al, cs, part, k);
    }
    if al.numecs == cs.csize {
      AllLeast(part, cs.csize, cs.csize);
    }
  }

  /** With as many classes as symbols every symbol is alone in its class. */
  lemma {:induction false} AllLeast(part: seq<int>, n: nat, k: nat)
    requires 1 <= k <= n < |part| && NumClasses(part, n) == n
    ensures Least(part, k) == k && NumClasses(part, k) == k
  {
    NumClassesMonotone(part, 0, k - 1);
    NumClassesMonotone(part, k - 1, k);
    NumClassesMonotone(part, k, n);
  }

  /** Then no other character is in NUL's class. */
  lemma NulAlone(al: Alphabet, cs: Charset, part: seq<int>, ch: int)
    requires AlphabetOf(al, cs, part) && al.numecs == cs.csize && 1 <= ch < cs.csize
    ensures ClassOf(al, ch) != al.nul
  {
    NulClass(al, cs, part);
    ClassOfIsNumber(al, cs, part, ch);
    AllLeast(part, cs.csize, ch);
    AllLeast(part, cs.csize, cs.csize);
    NumbersFollowLeast(part, ch, cs.csize);
  }

  /** A class that names each of its characters once is in order once cshell has sorted it. */
  lemma SortedIsInOrder(cs: Charset, k: int)
    requires IsClass(cs, k) && cs.csize <= CSIZE && ShellSort.Ordered(Entries(cs, k), true)
    requires forall i :: 0 <= i < cs.len[k] ==> 0 <= Entries(cs, k)[i] < cs.csize
    requires forall i, j :: 0 <= i < j < cs.len[k] ==> Entries(cs, k)[i] != Entries(cs, k)[j]
    ensures ClassInOrder(cs, k)
  {
    ShellSort.SortedClassIsAscending(Entries(cs, k), cs.csize);
  }

  /**
   cre8ecs, the NUL mapping and ccl2ecl.  A symbol of a pattern then takes the equivalence class of a
   character exactly if it stands for the character.
   */
  method MakeAlphabet(nextecm: array<int>, ecgroup: array<int>, ccltbl: array<int>, cclmap: array<int>, ccllen: array<int>,
                      cs: Charset, ghost part: seq<int>, ghost singles: set<int>, lastccl: nat) returns (al: Alphabet)
    requires nextecm != ecgroup && ecgroup != ccltbl && ecgroup != cclmap && ecgroup != ccllen
    requires ccltbl != cclmap && ccltbl != ccllen && cclmap != ccllen
    requires Refined(cs, part, singles) && Ecs.Linked(nextecm[..], ecgroup[..], part, cs.csize) && ecgroup.Length == cs.csize + 1
    requires ccltbl[..] == cs.tbl && cclmap[..] == cs.map_ && ccllen[..] == cs.len
    requires |cs.map_| == |cs.len| == |cs.ng| == lastccl + 1 && LaidOut(cs.map_, cs.len, |cs.tbl|, lastccl)
    modifies ecgroup, ccltbl, ccllen
    ensures AlphabetOf(al, cs, part) && AlphabetOk(al) && 1 <= al.numecs <= cs.csize && |al.ecgroup| == cs.csize + 1
    ensures al.nul == Abs(al.ecgroup[0]) && (al.numecs == cs.csize ==> al.ecgroup[0] == al.numecs)
    ensures forall ch :: 0 <= ch < cs.csize ==> 1 <= ClassOf(al, ch) <= al.numecs
    ensures forall sym :: 1 <= -sym <= lastccl ==> SymbolOk(al, sym)
    ensures forall c :: c in singles ==> SymbolOk(al, c)
    ensures forall sym, ch :: 0 <= ch < cs.csize && ((1 <= -sym <= lastccl) || sym in singles) ==>
      (Takes(al, sym, ClassOf(al, ch)) <==> TakesChar(cs, sym, ch))
  {
    var numecs := Cre8Ecs(nextecm, ecgroup, cs.csize, part);
    ecgroup[0] := ecgroup[cs.csize];
    ghost var ecs := ecgroup[..];
    assert Coded(ecs, part, cs.csize);
    forall k | 1 <= k <= lastccl
      ensures ClassOk(cs.tbl, cs.map_, cs.len, |ecs|, k)
    {
      assert ClassInOrder(cs, k);
    }
    assert ccltbl[..] == cs.tbl && cclmap[..] == cs.map_ && ccllen[..] == cs.len;
    Ccl2Ecl(cclmap, ccllen, ccltbl, ecgroup[..], lastccl);
    assert ecgroup[..] == ecs && cclmap[..] == cs.map_;
    al := Alphabet(numecs, Abs(ecgroup[0]), ecgroup[..], ccltbl[..], cclmap[..], ccllen[..], cs.ng);
    AlphabetMade(al, cs, part, singles, lastccl);
  }

  /** What the finished alphabet promises. */
  lemma AlphabetMade(al: Alphabet, cs: Charset, part: seq<int>, singles: set<int>, lastccl: nat)
    requires Refined(cs, part, singles) && |cs.map_| == |cs.len| == |cs.ng| == |al.ccllen| == lastccl + 1
    requires al.numecs == NumClasses(part, cs.csize) && Coded(al.ecgroup, part, cs.csize) && |al.ecgroup| == cs.csize + 1
    requires al.nul == Abs(al.ecgroup[0]) && al.cclmap == cs.map_ && al.cclng == cs.ng
    requires forall k :: 1 <= k <= lastccl ==>
      ClassOk(cs.tbl, cs.map_, cs.len, |al.ecgroup|, k) && TranslatedClass(al.ccltbl, al.ccllen, cs.tbl, cs.len, cs.map_, al.ecgroup, k)
    ensures AlphabetOf(al, cs, part) && AlphabetOk(al) && 1 <= al.numecs <= cs.csize && (al.numecs == cs.csize ==> al.ecgroup[0] == al.numecs)
    ensures forall ch :: 0 <= ch < cs.csize ==> 1 <= ClassOf(al, ch) <= al.numecs
    ensures forall sym :: 1 <= -sym <= lastccl ==> SymbolOk(al, sym)
    ensures forall c :: c in singles ==> SymbolOk(al, c)
    ensures forall sym, ch :: 0 <= ch < cs.csize && ((1 <= -sym <= lastccl) || sym in singles) ==>
      (Takes(al, sym, ClassOf(al, ch)) <==> TakesChar(cs, sym, ch))
  {
    forall k | 1 <= k < |cs.map_|
      ensures Listed(al, cs, k)
    {
      assert ClassInOrder(cs, k) && TranslatedClass(al.ccltbl, al.ccllen, cs.tbl, cs.len, cs.map_, al.ecgroup, k);
    }
    hide Coded, Listed, Takes, TakesChar, TranslatedClass;
    AlphabetIsOk(al, cs, part, singles);
    forall ch | 0 <= ch < cs.csize
      ensures 1 <= ClassOf(al, ch) <= al.numecs
    {
      ClassOfIsNumber(al, cs, part, ch);
    }
    forall sym | 1 <= -sym <= lastccl
      ensures SymbolOk(al, sym)
    {
      ClassSymbolTakes(al, cs, part, singles, -sym, 0);
    }
    forall c | c in singles
      ensures SymbolOk(al, c)
    {
      SingleTakes(al, cs, part, singles, c, 0);
    }
    forall sym, ch | 0 <= ch < cs.csize && ((1 <= -sym <= lastccl) || sym in singles)
      ensures Takes(al, sym, ClassOf(al, ch)) <==> TakesChar(cs, sym, ch)
    {
      if sym in singles {
        SingleTakes(al, cs, part, singles, sym, ch);
      } else {
        ClassSymbolTakes(al, cs, part, singles, -sym, ch);
      }
    }
  }

  /** The calls of mkechar and mkeccl made while the input was read refine the characters as needed. */
  lemma RefinedBySets(cs: Charset, part0: seq<int>, sets: seq<set<int>>, singles: set<int>)
    requires 1 <= cs.csize <= CSIZE && |part0| == cs.csize + 1
    requires forall k :: 1 <= k < |cs.map_| ==> ClassInOrder(cs, k) && Members(Symbols(Entries(cs, k), cs.csize)) in sets
    requires forall c :: c in singles ==> 0 <= c < cs.csize && {Mapped(c, cs.csize)} in sets
    ensures Refined(cs, RefineAll(part0, sets), singles)
  {
    forall s | s in sets
      ensures Respects(RefineAll(part0, sets), s)
    {
      var k :| 0 <= k < |sets| && sets[k] == s;
      RefineAllRespects(part0, sets, k);
    }
  }

  // ---- words of characters and words of classes ----

  predicate CharWord(al: Alphabet, u: Word) {
    forall i :: 0 <= i < |u| ==> 0 <= u[i] < |al.ecgroup| - 1
  }

  /** The classes of the characters of a word. */
  function ClassesOf(al: Alphabet, u: Word): (w: Word)
    requires CharWord(al, u)
    ensures |w| == |u| && forall i :: 0 <= i < |u| ==> w[i] == ClassOf(al, u[i])
  {
    seq(|u|, i requires 0 <= i < |u| => ClassOf(al, u[i]))
  }

  /** L over characters is what M is over classes. */
  ghost predicate Mirrors(al: Alphabet, L: Language, M: Language) {
    forall u :: CharWord(al, u) ==> (u in L <==> ClassesOf(al, u) in M)
  }

  /** The symbols of a pattern take classes as they stand for characters. */
  ghost predicate SymbolsAgree(al: Alphabet, sat: Match, r: Rx) {
    match r
    case Symbol(sym) => sym == SYM_EPSILON || forall ch :: 0 <= ch < |al.ecgroup| - 1 ==> (sat(sym, ch) <==> Takes(al, sym, ClassOf(al, ch)))
    case Series(a, b) => SymbolsAgree(al, sat, a) && SymbolsAgree(al, sat, b)
    case Either(a, b) => SymbolsAgree(al, sat, a) && SymbolsAgree(al, sat, b)
    case Optional(a) => SymbolsAgree(al, sat, a)
    case Plus(a) => SymbolsAgree(al, sat, a)
    case Star(a) => SymbolsAgree(al, sat, a)
    case Between(a, _, _) => SymbolsAgree(al, sat, a)
    case From(a, _) => SymbolsAgree(al, sat, a)
    case Exactly(a, _) => SymbolsAgree(al, sat, a)
  }

  lemma SplitMirrors(al: Alphabet, u: Word, i: int)
    requires CharWord(al, u) && 0 <= i <= |u|
    ensures CharWord(al, u[..i]) && CharWord(al, u[i..])
    ensures ClassesOf(al, u)[..i] == ClassesOf(al, u[..i]) && ClassesOf(al, u)[i..] == ClassesOf(al, u[i..])
  {
  }

  lemma CatMirrors(al: Alphabet, A: Language, B: Language, C: Language, D: Language)
    requires Mirrors(al, A, C) && Mirrors(al, B, D)
    ensures Mirrors(al, Cat(A, B), Cat(C, D))
  {
    forall u | CharWord(al, u)
      ensures u in Cat(A, B) <==> ClassesOf(al, u) in Cat(C, D)
    {
      var w := ClassesOf(al, u);
      forall i | 0 <= i <= |u|
        ensures Words.Splits(A, B, u, i) <==> Words.Splits(C, D, w, i)
      {
        SplitMirrors(al, u, i);
      }
      if i :| Words.Splits(A, B, u, i) {
        assert Words.Splits(C, D, w, i);
      }
      if i :| Words.Splits(C, D, w, i) {
        assert Words.Splits(A, B, u, i);
      }
    }
  }

  lemma {:induction false} PowerMirrors(al: Alphabet, A: Language, C: Language, n: nat)
    requires Mirrors(al, A, C)
    ensures Mirrors(al, Power(A, n), Power(C, n))
  {
    if n > 0 {
      PowerMirrors(al, A, C, n - 1);
      CatMirrors(al, A, Power(A, n - 1), C, Power(C, n - 1));
    } else {
      assert Mirrors(al, Words.Empty(), Words.Empty());
    }
  }

  lemma RepeatMirrors(al: Alphabet, A: Language, C: Language, lb: nat, ub: nat)
    requires Mirrors(al, A, C)
    ensures Mirrors(al, Repeat(A, lb, ub), Repeat(C, lb, ub)) && Mirrors(al, AtLeast(A, lb), AtLeast(C, lb))
  {
    forall u, n: nat | CharWord(al, u)
      ensures u in Power(A, n) <==> ClassesOf(al, u) in Power(C, n)
    {
      PowerMirrors(al, A, C, n);
    }
  }

  /**
   Reading equivalence classes instead of characters loses nothing: a pattern stands for a word of
   characters exactly if it stands for the word of their classes.
   */
  lemma {:induction false} DenotesMirrors(al: Alphabet, sat: Match, r: Rx)
    requires SymbolsAgree(al, sat, r)
    ensures Mirrors(al, Denotes(sat, r), Denotes(Sat(al), r))
    decreases r, 1
  {
    match r {
      case Symbol(sym) =>
      case Series(a, b) =>
        DenotesMirrors(al, sat, a);
        DenotesMirrors(al, sat, b);
        CatMirrors(al, Denotes(sat, a), Denotes(sat, b), Denotes(Sat(al), a), Denotes(Sat(al), b));
      case Either(a, b) =>
        DenotesMirrors(al, sat, a);
        DenotesMirrors(al, sat, b);
      case _ =>
        RepeatedMirrors(al, sat, r);
    }
  }

  lemma RepeatedMirrors(al: Alphabet, sat: Match, r: Rx)
    requires SymbolsAgree(al, sat, r) && !(r.Symbol? || r.Series? || r.Either?)
    ensures Mirrors(al, Denotes(sat, r), Denotes(Sat(al), r))
    decreases r, 0
  {
    DenotesMirrors(al, sat, r.body);
    var A, C := Denotes(sat, r.body), Denotes(Sat(al), r.body);
    RepeatMirrors(al, A, C, 0, 0);
    RepeatMirrors(al, A, C, 1, 0);
    match r {
      case Between(_, lb, ub) =>
        if 0 <= lb <= ub {
          RepeatMirrors(al, A, C, lb, ub);
        }
      case From(_, lb) =>
        if 0 < lb {
          RepeatMirrors(al, A, C, lb, 0);
        }
      case Exactly(_, n) =>
        if 0 < n {
          PowerMirrors(al, A, C, n);
        }
      case _ =>
    }
  }
}
