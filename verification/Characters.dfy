/**
 Tokens in terms of characters: what the scanner says of the words of equivalence classes it reads, it
 says of the texts they are read from.
 */
module Characters {
  import NfaLang
  import opened EcNumbers
  import opened Words
  import opened Regex
  import opened Rules
  import opened Follow
  import opened Subset
  import opened MatchLoop
  import opened Scanner
  import opened Alphabets
  import opened Tokens

  /** What the symbols of patterns stand for. */
  function CharSat(cs: Charset): NfaLang.Match {
    (sym, ch) => TakesChar(cs, sym, ch)
  }

  predicate TextOf(cs: Charset, u: Word) {
    forall i :: 0 <= i < |u| ==> 0 <= u[i] < cs.csize
  }

  /** Rule k is active in start state i. */
  predicate IsActive(rules: seq<Rule>, i: int, k: int) {
    1 <= k <= |rules| && (i % 2 == 0 || !rules[k - 1].bol) && (i + 1) / 2 in rules[k - 1].conds
  }

  /** Rule k is active in start state i, and its pattern stands for v. */
  ghost predicate RuleTakes(cs: Charset, rules: seq<Rule>, i: int, k: int, v: Word) {
    IsActive(rules, i, k) && v in Denotes(CharSat(cs), rules[k - 1].pattern)
  }

  ghost predicate SomeTakes(cs: Charset, rules: seq<Rule>, i: int, v: Word) {
    exists k :: RuleTakes(cs, rules, i, k, v)
  }

  ghost predicate FirstTakes(cs: Charset, rules: seq<Rule>, i: int, v: Word, k: int) {
    RuleTakes(cs, rules, i, k, v) && forall j :: RuleTakes(cs, rules, i, j, v) ==> k <= j
  }

  /** The token at the front of a text: the longest match of an active rule, and of those the first rule. */
  ghost predicate CharToken(cs: Charset, rules: seq<Rule>, i: int, u: Word, r: Choice) {
    && r.Acts? && 1 <= r.cp <= |u| && FirstTakes(cs, rules, i, u[..r.cp], r.act)
    && forall v, k :: TextOf(cs, v) && r.cp < |v| && Compatible(v, u) ==> !RuleTakes(cs, rules, i, k, v)
  }

  /**
   In start condition c, at the beginning of a line or not: the token's rule is active and its pattern
   stands for the token, no active rule before it does so, and no active rule's pattern stands for more.
   */
  lemma CharTokenIs(cs: Charset, rules: seq<Rule>, c: int, bol: bool, u: Word, r: Choice, k: int, v: Word)
    requires CharToken(cs, rules, if bol then 2 * c else 2 * c - 1, u, r)
    ensures 1 <= r.cp <= |u| && 1 <= r.act <= |rules| && c in rules[r.act - 1].conds && (bol || !rules[r.act - 1].bol)
    ensures u[..r.cp] in Denotes(CharSat(cs), rules[r.act - 1].pattern)
    ensures 1 <= k < r.act && c in rules[k - 1].conds && (bol || !rules[k - 1].bol) ==>
      u[..r.cp] !in Denotes(CharSat(cs), rules[k - 1].pattern)
    ensures 1 <= k <= |rules| && c in rules[k - 1].conds && (bol || !rules[k - 1].bol)
      && (forall x :: 0 <= x < |v| ==> 0 <= v[x] < cs.csize) && r.cp < |v| && (v <= u || u <= v)
      ==> v !in Denotes(CharSat(cs), rules[k - 1].pattern)
  {
    hide Denotes, CharSat;
    var i := if bol then 2 * c else 2 * c - 1;
    if 1 <= k <= |rules| && c in rules[k - 1].conds && (bol || !rules[k - 1].bol) {
      assert IsActive(rules, i, k);
      assert v in Denotes(CharSat(cs), rules[k - 1].pattern) ==> RuleTakes(cs, rules, i, k, v);
      assert u[..r.cp] in Denotes(CharSat(cs), rules[k - 1].pattern) ==> RuleTakes(cs, rules, i, k, u[..r.cp]);
    }
  }

  /** Some active rule takes a text that begins with u. */
  ghost predicate TextGoesOn(cs: Charset, rules: seq<Rule>, i: int, u: Word) {
    exists v :: TextOf(cs, v) && u <= v && SomeTakes(cs, rules, i, v)
  }

  ghost predicate TextGoesFurther(cs: Charset, rules: seq<Rule>, i: int, u: Word) {
    exists v :: TextOf(cs, v) && u < v && SomeTakes(cs, rules, i, v)
  }

  /** The course of a run in terms of characters. */
  ghost function TextCourse(cs: Charset, rules: seq<Rule>, i: int, u: Word): (c: Course)
    ensures |c.lives| == |c.more| == |u| + 1
    ensures forall j :: 0 <= j <= |u| ==> c.lives[j] == TextGoesOn(cs, rules, i, u[..j]) && c.more[j] == TextGoesFurther(cs, rules, i, u[..j])
  {
    Course(seq(|u| + 1, j requires 0 <= j <= |u| => TextGoesOn(cs, rules, i, u[..j])),
           seq(|u| + 1, j requires 0 <= j <= |u| => TextGoesFurther(cs, rules, i, u[..j])))
  }

  /** The scanner reaches the end of the text. */
  ghost predicate TextRunsOut(cs: Charset, rules: seq<Rule>, i: int, u: Word, interactive: bool) {
    ReadsOn(TextCourse(cs, rules, i, u), interactive, u + [0, 0], |u|)
  }

  /** The position that the stack of states lacks. */
  ghost function TextMissing(cs: Charset, rules: seq<Rule>, i: int, u: Word, byTable: bool, interactive: bool): nat {
    Hole(TextCourse(cs, rules, i, u), byTable, interactive, u + [0, 0])
  }

  /** The choice from a stack of states without position h. */
  ghost predicate CharTokenWithout(cs: Charset, rules: seq<Rule>, i: int, u: Word, h: nat, r: Choice)
    requires 1 <= h <= |u|
  {
    if exists j :: h < j <= |u| && SomeTakes(cs, rules, i, u[..j]) then CharToken(cs, rules, i, u, r)
    else
      && CharMisplaced(cs, rules, i, u, h, r)
      && (CharToken(cs, rules, i, u, r) <==> exists k :: FirstTakes(cs, rules, i, u[..h - 1], k) && FirstTakes(cs, rules, i, u[..h], k))
  }

  /**
   Without position h the choice is the token if and only if some rule takes a longer prefix, or one
   rule is the first for both the prefixes up to h and one character shorter.
   */
  lemma WithoutIs(cs: Charset, rules: seq<Rule>, i: int, u: Word, h: nat, r: Choice)
    requires 1 <= h <= |u| && CharTokenWithout(cs, rules, i, u, h, r)
    ensures CharToken(cs, rules, i, u, r) <==>
      ((exists j :: h < j <= |u| && SomeTakes(cs, rules, i, u[..j]))
      || exists k :: FirstTakes(cs, rules, i, u[..h - 1], k) && FirstTakes(cs, rules, i, u[..h], k))
  {
  }

  ghost predicate CharMisplaced(cs: Charset, rules: seq<Rule>, i: int, u: Word, h: nat, r: Choice)
    requires h <= |u|
  {
    match r
    case Lost => forall j :: 0 <= j < h ==> !SomeTakes(cs, rules, i, u[..j])
    case Acts(act, cp) =>
      1 <= cp <= h && (forall j :: cp <= j < h ==> !SomeTakes(cs, rules, i, u[..j])) && FirstTakes(cs, rules, i, u[..cp - 1], act)
  }

  // ---- characters and classes agree ----

  /** Class c has a character. */
  predicate HasChar(al: Alphabet, c: int) {
    exists ch :: 0 <= ch < |al.ecgroup| - 1 && ClassOf(al, ch) == c
  }

  /** Every character has a class and every class a character, and patterns mean the same over both. */
  ghost predicate Agrees(cs: Charset, al: Alphabet, rules: seq<Rule>) {
    && |al.ecgroup| == cs.csize + 1 && (forall ch :: 0 <= ch < cs.csize ==> 1 <= ClassOf(al, ch) <= al.numecs)
    && (forall c :: 1 <= c <= al.numecs ==> HasChar(al, c))
    && forall rule :: rule in rules ==> SymbolsAgree(al, CharSat(cs), rule.pattern)
  }

  lemma ClassHasChar(al: Alphabet, cs: Charset, part: seq<int>, c: int)
    requires AlphabetOf(al, cs, part) && 1 <= c <= al.numecs
    ensures HasChar(al, c)
  {
    var x := EveryNumberUsed(part, cs.csize, c);
    ClassOfIsNumber(al, cs, part, if x == cs.csize then 0 else x);
  }

  /** A word of classes that begins like a text is that of a text that begins so. */
  lemma {:induction false} TextFor(cs: Charset, al: Alphabet, rules: seq<Rule>, u: Word, w: Word) returns (v: Word)
    requires Agrees(cs, al, rules) && CharWord(al, u) && ClassWord(al, w) && ClassesOf(al, u) <= w
    ensures CharWord(al, v) && TextOf(cs, v) && ClassesOf(al, v) == w && u <= v
    decreases |w|
  {
    if |w| == |u| {
      v := u;
    } else {
      var v0 := TextFor(cs, al, rules, u, w[..|w| - 1]);
      assert HasChar(al, w[|w| - 1]);
      var ch :| 0 <= ch < |al.ecgroup| - 1 && ClassOf(al, ch) == w[|w| - 1];
      v := v0 + [ch];
    }
  }

  lemma TextHasClasses(cs: Charset, al: Alphabet, rules: seq<Rule>, u: Word)
    requires Agrees(cs, al, rules) && TextOf(cs, u)
    ensures CharWord(al, u) && ClassWord(al, ClassesOf(al, u))
    ensures forall j :: 0 <= j <= |u| ==> CharWord(al, u[..j]) && TextOf(cs, u[..j]) && ClassesOf(al, u[..j]) == ClassesOf(al, u)[..j]
  {
  }

  lemma TakesMirrors(cs: Charset, al: Alphabet, rules: seq<Rule>, i: int, k: int, u: Word)
    requires Agrees(cs, al, rules) && CharWord(al, u)
    ensures RuleMatches(al, rules, i, k, ClassesOf(al, u)) <==> RuleTakes(cs, rules, i, k, u)
  {
    if IsActive(rules, i, k) {
      assert rules[k - 1] in rules;
      DenotesMirrors(al, CharSat(cs), rules[k - 1].pattern);
    }
  }

  lemma FirstMirrors(cs: Charset, al: Alphabet, rules: seq<Rule>, i: int, u: Word)
    requires Agrees(cs, al, rules) && CharWord(al, u)
    ensures SomeMatch(al, rules, i, ClassesOf(al, u)) <==> SomeTakes(cs, rules, i, u)
    ensures forall k :: IsFirst(al, rules, i, ClassesOf(al, u), k) <==> FirstTakes(cs, rules, i, u, k)
  {
    hide RuleMatches, RuleTakes;
    forall k
      ensures RuleMatches(al, rules, i, k, ClassesOf(al, u)) <==> RuleTakes(cs, rules, i, k, u)
    {
      TakesMirrors(cs, al, rules, i, k, u);
    }
  }

  /** Which rules can still match is the same over characters as over classes. */
  lemma OnwardMirrors(cs: Charset, al: Alphabet, rules: seq<Rule>, i: int, u: Word)
    requires Agrees(cs, al, rules) && TextOf(cs, u) && CharWord(al, u)
    ensures GoesOn(al, rules, i, ClassesOf(al, u)) <==> TextGoesOn(cs, rules, i, u)
    ensures GoesFurther(al, rules, i, ClassesOf(al, u)) <==> TextGoesFurther(cs, rules, i, u)
  {
    hide SomeMatch, SomeTakes;
    forall v | TextOf(cs, v) && u <= v && SomeTakes(cs, rules, i, v)
      ensures GoesOn(al, rules, i, ClassesOf(al, u)) && (u < v ==> GoesFurther(al, rules, i, ClassesOf(al, u)))
    {
      TextHasClasses(cs, al, rules, v);
      FirstMirrors(cs, al, rules, i, v);
      assert ClassesOf(al, u) <= ClassesOf(al, v);
    }
    forall w | ClassWord(al, w) && ClassesOf(al, u) <= w && SomeMatch(al, rules, i, w)
      ensures TextGoesOn(cs, rules, i, u) && (ClassesOf(al, u) < w ==> TextGoesFurther(cs, rules, i, u))
    {
      var v := TextFor(cs, al, rules, u, w);
      FirstMirrors(cs, al, rules, i, v);
    }
  }

  lemma CourseMirrors(cs: Charset, al: Alphabet, rules: seq<Rule>, i: int, u: Word)
    requires Agrees(cs, al, rules) && TextOf(cs, u) && CharWord(al, u)
    ensures RuleCourse(al, rules, i, ClassesOf(al, u)) == TextCourse(cs, rules, i, u)
  {
    hide GoesOn, GoesFurther, TextGoesOn, TextGoesFurther, Agrees;
    TextHasClasses(cs, al, rules, u);
    var c, d := RuleCourse(al, rules, i, ClassesOf(al, u)), TextCourse(cs, rules, i, u);
    forall j | 0 <= j <= |u|
      ensures c.lives[j] == d.lives[j] && c.more[j] == d.more[j]
    {
      OnwardMirrors(cs, al, rules, i, u[..j]);
    }
    assert c.lives == d.lives && c.more == d.more;
  }

  /** Nothing longer that agrees with a text is matched, over characters or over classes. */
  lemma LongerMirrors(cs: Charset, al: Alphabet, rules: seq<Rule>, i: int, u: Word, cp: nat)
    requires Agrees(cs, al, rules) && TextOf(cs, u) && CharWord(al, u)
    ensures (forall w, k :: ClassWord(al, w) && cp < |w| && Compatible(w, ClassesOf(al, u)) ==> !RuleMatches(al, rules, i, k, w))
      <==> forall v, k :: TextOf(cs, v) && cp < |v| && Compatible(v, u) ==> !RuleTakes(cs, rules, i, k, v)
  {
    hide RuleMatches, RuleTakes;
    forall v, k | TextOf(cs, v) && cp < |v| && Compatible(v, u) && RuleTakes(cs, rules, i, k, v)
      ensures exists w :: ClassWord(al, w) && cp < |w| && Compatible(w, ClassesOf(al, u)) && RuleMatches(al, rules, i, k, w)
    {
      TextHasClasses(cs, al, rules, v);
      TakesMirrors(cs, al, rules, i, k, v);
      assert Compatible(ClassesOf(al, v), ClassesOf(al, u));
    }
    forall w, k | ClassWord(al, w) && cp < |w| && Compatible(w, ClassesOf(al, u)) && RuleMatches(al, rules, i, k, w)
      ensures exists v :: TextOf(cs, v) && cp < |v| && Compatible(v, u) && RuleTakes(cs, rules, i, k, v)
    {
      TextHasClasses(cs, al, rules, u);
      var v := u[..if |w| <= |u| then |w| else |u|];
      if |u| < |w| {
        v := TextFor(cs, al, rules, u, w);
      }
      assert ClassesOf(al, v) == w;
      TakesMirrors(cs, al, rules, i, k, v);
      assert Compatible(v, u);
    }
  }

  /** The scanner's token over classes is the text's token: the longest match of an active rule, and of those the first. */
  lemma TokenOfCharacters(cs: Charset, al: Alphabet, rules: seq<Rule>, i: int, u: Word, r: Choice)
    requires Agrees(cs, al, rules) && TextOf(cs, u) && CharWord(al, u)
    ensures TokenOf(al, rules, i, ClassesOf(al, u), r) <==> CharToken(cs, rules, i, u, r)
  {
    hide RuleMatches, RuleTakes, IsFirst, FirstTakes, Agrees;
    TextHasClasses(cs, al, rules, u);
    if r.Acts? && 1 <= r.cp <= |u| {
      FirstMirrors(cs, al, rules, i, u[..r.cp]);
      LongerMirrors(cs, al, rules, i, u, r.cp);
    }
  }

  /** So is the choice from a stack that lacks a state. */
  lemma WithoutOfCharacters(cs: Charset, al: Alphabet, rules: seq<Rule>, i: int, u: Word, h: nat, r: Choice)
    requires Agrees(cs, al, rules) && TextOf(cs, u) && CharWord(al, u) && 1 <= h <= |u|
    ensures TokenWithout(al, rules, i, ClassesOf(al, u), h, r) <==> CharTokenWithout(cs, rules, i, u, h, r)
  {
    hide SomeMatch, SomeTakes, IsFirst, FirstTakes, TokenOf, CharToken, Agrees;
    TextHasClasses(cs, al, rules, u);
    TokenOfCharacters(cs, al, rules, i, u, r);
    forall j | 0 <= j <= |u|
      ensures SomeMatch(al, rules, i, ClassesOf(al, u)[..j]) <==> SomeTakes(cs, rules, i, u[..j])
      ensures forall k :: IsFirst(al, rules, i, ClassesOf(al, u)[..j], k) <==> FirstTakes(cs, rules, i, u[..j], k)
    {
      FirstMirrors(cs, al, rules, i, u[..j]);
    }
  }

  /** How far a run gets depends on a buffer only in where it has NUL characters. */
  lemma {:induction false} SameNuls(c: Course, buf: seq<int>, buf1: seq<int>, n: nat)
    requires CourseOn(c, buf) && |buf| == |buf1| && n <= |buf| - 2 && forall j :: 0 <= j < |buf| ==> (buf[j] == 0 <==> buf1[j] == 0)
    ensures LastNul(c, buf, n) == LastNul(c, buf1, n)
  {
    if n > 0 {
      SameNuls(c, buf, buf1, n - 1);
    }
  }

  lemma SameHole(c: Course, byTable: bool, interactive: bool, buf: seq<int>, buf1: seq<int>)
    requires CourseOn(c, buf) && |buf| == |buf1| >= 2 && forall j :: 0 <= j < |buf| ==> (buf[j] == 0 <==> buf1[j] == 0)
    ensures ReadsOn(c, interactive, buf, |buf| - 2) == ReadsOn(c, interactive, buf1, |buf| - 2)
    ensures Hole(c, byTable, interactive, buf) == Hole(c, byTable, interactive, buf1)
  {
    SameNuls(c, buf, buf1, |buf| - 2);
    forall j | 0 <= j < |buf| - 2
      ensures ReadsOn(c, interactive, buf, j) == ReadsOn(c, interactive, buf1, j)
    {
    }
    if EndsOnNul(c, interactive, buf) {
      var j :| 0 <= j < |buf| - 2 && buf[j] == 0 && ReadsOn(c, interactive, buf, j) && !c.lives[j + 1];
      assert buf1[j] == 0 && ReadsOn(c, interactive, buf1, j);
    }
    if EndsOnNul(c, interactive, buf1) {
      var j :| 0 <= j < |buf| - 2 && buf1[j] == 0 && ReadsOn(c, interactive, buf1, j) && !c.lives[j + 1];
      assert buf[j] == 0 && ReadsOn(c, interactive, buf, j);
    }
  }

  /** The characters of a text as yy_ec has them, and the two end-of-buffer characters. */
  function Codes(al: Alphabet, u: Word): (codes: seq<int>)
    requires CharWord(al, u)
    ensures |codes| == |u| + 2 && codes[|u|] == codes[|u| + 1] == 0
    ensures forall i :: 0 <= i < |u| ==> codes[i] == if u[i] == 0 then 0 else ClassOf(al, u[i])
  {
    seq(|u|, i requires 0 <= i < |u| => if u[i] == 0 then 0 else ClassOf(al, u[i])) + [0, 0]
  }

  /** Where the rules over classes put the end of the run and the missing state is where those over characters do. */
  lemma RunOfCharacters(cs: Charset, al: Alphabet, rules: seq<Rule>, i: int, u: Word, byTable: bool, interactive: bool)
    requires Agrees(cs, al, rules) && TextOf(cs, u) && CharWord(al, u)
    ensures RulesRunOut(al, rules, i, ClassesOf(al, u), interactive, Codes(al, u)) <==> TextRunsOut(cs, rules, i, u, interactive)
    ensures RulesMissing(al, rules, i, ClassesOf(al, u), byTable, interactive, Codes(al, u)) == TextMissing(cs, rules, i, u, byTable, interactive)
  {
    CourseMirrors(cs, al, rules, i, u);
    var codes, buf := Codes(al, u), u + [0, 0];
    forall j | 0 <= j < |buf|
      ensures codes[j] == 0 <==> buf[j] == 0
    {
      if j < |u| {
        assert 1 <= ClassOf(al, u[j]);
      }
    }
    hide Hole, ReadsOn, RuleCourse, TextCourse, Codes;
    SameHole(TextCourse(cs, rules, i, u), byTable, interactive, codes, buf);
  }
}
