# Verified models of three components

This project models, in Dafny, the three parts of the repository whose correctness is easiest to lose
and hardest to see, and proves what each of them is for.

* **The scanner generator** (`ext/flex`).  From regular expressions to tokens, every stage is shown to
  preserve meaning: the machine builder of `nfa.c`, the equivalence classes of `ecs.c`, the subset
  construction of `dfa.c`, both table formats (`tblcmp.c`, `gen.c`), the match loop (`scan.c`), and the
  table files that `tables.c` writes and the loader in `skel.c` reads.
* **Multi-version storage** (`src/backend/storage.cc`, `storage_iterator.cc`).  Doubly linked lists of
  versions in the heap refine a map from keys to versions; the iterator refines a cursor.
* **The exchange of remote reads** (`src/backend/transactional_storage_manager.cc`).  One node's code is
  verified as a class, and the whole exchange as a state machine over nodes and messages in flight.

The main results are end to end. `Specification.Flex` and `Specification.NextTokenOfText` take a
specification's character classes and rules through every stage, and say what the generated scanner does,
run on its packed tables over a text of any characters: it performs the end-of-buffer action if it reaches
the end of the text, and otherwise finds the longest match of the rules and the first rule among those that
match it. It reaches the end if rules can still match there (more than the text, if it is interactive), and,
unless a pattern uses an empty class, only then. Where the code fails to find the longest match (a table for
NUL together with REJECT), the theorem says from rules and text exactly when, and what is found instead.
`FullScanner.NextFullToken` says the same of the full-speed tables. `TableRoundTrip.SaveAndLoad` says that
tables which are narrowed, written, found again and loaded come back element by element.
`Databases.OrderDoesNotMatter` says that the storage does not depend on the order of writes.
`Exchange.ReadyNodesAgree`, `Exchange.SettledWritersAreReady` and `Exchange.AllWritersCanGetReady` say that
all writers execute on the same values, exactly when they get to execute, and that they always can.

## How the files belong together

* `Ecs`, `EcNumbers`, `ShellSort`: equivalence classes as linked lists, their numbers, class lists.
* `Words`, `NfaLang`, `NfaOps`, `NfaSteps`, `Nfa`, `Regex`, `RegexLaws`, `Rules`: languages of NFA ranges, the
  machine builder, regular expressions and what they denote, rules and start conditions.
* `Reach`, `Closure`, `Sorting`, `Finite`, `Follow`, `Subset`, `Dfa`, `DfaRows`, `Scanner`: the subset
  construction, that it ends, and what the DFA says of each word.
* `NxtChk`, `MkEntry`, `Protos`, `Compress`, `Lookup`, `GenTabs`: the compressed tables and the lookup in them.
* `FullSpeed`, `FullScanner`: the full-speed tables, their match loop, and its tokens.
* `MatchLoop`, `NulTable`, `Tokens`, `EmptyClass`, `Alphabets`, `Characters`, `Specification`: accepting lists, the
  match loop with its backing up and its treatment of NUL characters, tokens, two scanners that miss the longest
  match, and the step from equivalence classes to characters.
* `TableData`, `TableWriter`, `TableReader`, `TableRoundTrip`, `TableLayout`: table files.
* `Keys`, `Versions`, `Databases`, `RowChain`, `Storage`, `StorageIterator`: storage.
* `RemoteReads`, `Exchange`: remote reads.

Arrays that the C code enlarges by reallocation are sequences held in fields; entries that reallocation
leaves uninitialised are arbitrary.  Characters and equivalence classes are numbered from 1 as in the
source; a row of a DFA state has the end-of-buffer entry at index 0.  A state's language is what leads from
it to the exit of the machine's final state, so that a final state on a symbol is left by consuming it.

## What was found on the way

* `abs` leaves the smallest 32-bit integer negative (`ext/flex/tables.c`, `min_int_size`), so a table with
  that element loses it when it is narrowed, unless another element keeps the table wide;
  `TableData.Compress` states exactly when.  A table already stored in bytes with an element -128, or in
  16 bits with -32768, is refused as "negative compression".
* Templates are named by negated numbers, and template 32766 by the number that marks the jam state.  The
  state it is made from is entered as if its difference from the template were its difference from the jam
  state, and loses exactly the transitions that it shares with the template, of which there is at least one
  (`Compress.LimitLoses`, `Compress.Compressor.MkTemplateAtLimit`).  `GenTabs.CompressDfa`, `Tokens.Generate`
  and `Specification.Flex` report such a state.  There is none unless 32766 states of the DFA have a transition
  common enough; the number of states by itself is not limited.
* When NUL has a table of its own (`yy_NUL_trans`) and the scanner uses REJECT, the state entered on a NUL is
  not pushed on the stack of states, and everything below it is then taken for one character longer than it
  is.  The position that is missing is that of the last NUL passed, unless the run ends on a later NUL that it
  has read (`MatchLoop.Hole`).  The choice is right if and only if some rule matches more than the text up to
  that NUL, or the text has the same first rule with the NUL and without it (`MatchLoop.ShortStack`,
  `Tokens.NextToken`, `Specification.NextTokenOfText`).  `NulTable.NulMisplaces` is a scanner for `a` and
  `a\0b` that takes two characters for the first pattern.
* A class may stand for no character at all.  A DFA state may then wait for it without a rule that can still
  match, so that the scanner runs on to the end of the buffer (`EmptyClass.RunsOnForNothing`); without empty
  classes it jams as soon as no rule can match (`Scanner.RunGoesOn`, `Tokens.CourseInRules`).
* With such a table `ntod` takes NUL's transition out of the array after having counted it.  A state with no
  other transition is then put on the one-transition stack for a class past the last one, with whatever lies
  behind its array as target.  That is harmless, whatever it is (`MkEntry.EntryTables.MkEntry`), and because
  of it such a state does not get the base at which the match loop stops (`GenTabs.CompressDfa`).
* The lists that `snstods` interns may repeat a state, so that the usual bound by sets of states does not
  apply.  The construction ends nevertheless, because the machine builder only ever links a symbol state
  to a later symbol state (`Finite.TargetsBounded`, `Finite.FewLists`).
* `ReadyToExecute` compares numbers of keys: a transaction that lists a key twice never becomes ready
  (`Exchange.ReadyIsComplete`, `Exchange.SettledWritersAreReady`).
* A set of tables that holds no table states size 0, and a loader that looks for a set after it seeks by that
  size minus the header's, which leaves the file: nothing behind such a set is found
  (`TableRoundTrip.EmptySetHidesRest`, `TableRoundTrip.FileIsLoaded`).
* The header comment of the iterator says that `Next` requires a valid position; the code also accepts the
  positions before and after the keys, and that is what is modelled.

## Model

| member | source | states |
|---|---|---|
| `Ecs.MkEChar` | ext/flex/ecs.c:204-219 | a character gets a list of its own; all others stay in their lists, which stay ascending and consistently linked both ways |
| `Ecs.MkECcl` | ext/flex/ecs.c:115-199 | the lists are split exactly by membership in the class, links stay mutually consistent and ascending, and all flags are clear again at the end |
| `Ecs.WalkClass` | ext/flex/ecs.c:128-193 | one turn of the outer loop carves the members of one list that are in the class, and flags exactly the later entries of that list |
| `Ecs.RefineIsExact` | ext/flex/ecs.c:115-199 | after a split two symbols share a class iff they did before and are both in or both out of the set |
| `EcNumbers.Cre8Ecs` | ext/flex/ecs.c:77-97 | every class gets its number, positive at its least member and negative elsewhere, from the linked lists, and the count of classes is returned |
| `EcNumbers.NumbersFollowLeast` | ext/flex/ecs.c:77-97 | numbers are equal exactly within a class, follow the order of the least members, and lie in 1 to the number of classes |
| `EcNumbers.EveryNumberUsed` | ext/flex/ecs.c:77-97 | no class number is skipped: each belongs to some least member |
| `EcNumbers.RefineAllIsExact` | ext/flex/ecs.c:115-219 | after any sequence of refinements two characters share a class iff no character or class of the input tells them apart |
| `EcNumbers.Ccl2Ecl` | ext/flex/ecs.c:39-66 | every character class becomes, in place, the list of the numbers of its representatives, and the others are not disturbed |
| `EcNumbers.TranslateIsExact` | ext/flex/ecs.c:39-66 | a translated class is strictly ascending, and every original symbol is in the class iff its class number is in the list |
| `EcNumbers.StoredIsExact` | ext/flex/ecs.c:57-60 | storing class numbers in bytes loses nothing, since 256 can only be the class of NUL and is read back as such |
| `ShellSort.CShell` | ext/flex/misc.c:335-363 | sorts in place: the result is ordered, with NUL last if asked for, and has the same elements as often |
| `ShellSort.SortedClassIsAscending` | ext/flex/misc.c:311-363 | a sorted class without repetitions is in the strictly ascending order, NUL read as the alphabet's size, that mkeccl relies on |
| `Sorting.Bubble` | ext/flex/misc.c:226-238 | sorts v[1..n] in place into a permutation in increasing order and changes nothing else |
| `Sorting.SortIsUnique` | ext/flex/dfa.c:830-862 | a list has one sorted form only, so that comparing sorted lists compares the lists as multisets |
| `NfaMachines.NfaBuilder.MkState` | ext/flex/nfa.c:592-656 | a new last state is a machine by itself that matches its symbol, and all earlier states are as they were |
| `NfaMachines.NfaBuilder.MkXtion` | ext/flex/nfa.c:669-683 | adds the transition if the state has a free slot; otherwise reports the error and changes nothing |
| `NfaMachines.NfaBuilder.LinkMachines` | ext/flex/nfa.c:304-321 | adjacent machines become one that matches the concatenation; NIL operands are neutral; no error is reached |
| `NfaMachines.NfaBuilder.MkOr` | ext/flex/nfa.c:459-504 | the result matches the union in all four variants of joining the ends; NIL operands are neutral |
| `NfaMachines.NfaBuilder.MkOpt` | ext/flex/nfa.c:422-442 | the result matches the machine's words and the empty word |
| `NfaMachines.NfaBuilder.MkPosCl` | ext/flex/nfa.c:515-530 | the result matches one or more repetitions |
| `NfaMachines.NfaBuilder.MkClos` | ext/flex/nfa.c:401-405 | the result matches any number of repetitions |
| `NfaMachines.NfaBuilder.DupMachine` | ext/flex/nfa.c:151-184 | the copy is disjoint, lies behind all earlier states, matches the same words, and leaves every earlier state untouched |
| `NfaMachines.NfaBuilder.CopySingl` | ext/flex/nfa.c:80-91 | num copies in a row match the num-th power |
| `NfaMachines.NfaBuilder.MkRep` | ext/flex/nfa.c:545-573 | the result matches lb to ub repetitions, or at least lb without an upper bound |
| `NfaMachines.NfaBuilder.AddAccept` | ext/flex/nfa.c:48-66 | the machine's words, and no others, lead to a state numbered with the rule |
| `NfaMachines.NfaBuilder.MkBranch` | ext/flex/nfa.c:373-390 | for every rule the new state accepts what either of the two did; a missing operand is neutral |
| `NfaSteps.CopyIsMachine` | ext/flex/nfa.c:151-184 | a copied range is again a machine with the same language, whatever lies between original and copy |
| `Regex.Build` | ext/flex/parse.y:495-750 | the machine built for a regular expression by the combinators matches exactly the words the expression denotes; the builder's error flag is never raised |
| `Regex.BuildBetween` | ext/flex/parse.y:545-573 | repetition with two bounds denotes lb to ub repetitions, and bad bounds are reported and leave the machine |
| `RegexLaws.SymbolLaw` | ext/flex/parse.y:699-750 | a symbol stands for the one-character words that it takes, the empty string for the empty word |
| `RegexLaws.SeriesLaw` | ext/flex/parse.y:535-541 | a word is denoted by two expressions in a row iff it splits into a word of each |
| `RegexLaws.EitherLaw` | ext/flex/parse.y:498-501 | a word is denoted by an alternative iff one of the two denotes it |
| `RegexLaws.OptionalLaw` | ext/flex/parse.y:623-627 | `?` adds the empty word and nothing else |
| `RegexLaws.StarLaw` | ext/flex/parse.y:610-615 | `*` denotes the empty word, and a non-empty word iff some non-empty part at its front is denoted by the operand and the rest by the closure |
| `RegexLaws.PlusLaw` | ext/flex/parse.y:617-621 | `+` is the operand followed by its closure |
| `RegexLaws.ExactlyLaw` | ext/flex/parse.y:589-608 | `{n}` is the operand n times, by recursion on n; a rejected count leaves the operand |
| `RegexLaws.FromLaw` | ext/flex/parse.y:575-587 | `{n,}` by recursion on n, from `{1,}`, which is `+`; a rejected count leaves the operand |
| `RegexLaws.BetweenLaw` | ext/flex/parse.y:545-573 | `{n,m}` by recursion on both bounds; rejected bounds leave the operand |
| `RegexLaws.WellFormedIs` | ext/flex/parse.y:545-608 | which repetition counts are accepted |
| `Rules.AddRule` | ext/flex/parse.y:231-290 | a rule is numbered and added to the start states of its conditions, with or without '^', and to no others |
| `Rules.BuildRules` | ext/flex/parse.y:117-290 | from each condition's start state a word leads to number k iff rule k is active there and matches the word |
| `Rules.StartStates` | ext/flex/dfa.c:570-582 | DFA start state 2c-1 begins with condition c's rules and 2c also with those for the beginning of a line |
| `Closure.NfaArrays.EpsClosure` | ext/flex/dfa.c:238-349 | returns the given list followed by what else must be listed of its closure, the accepting numbers and a hash of the distinct states, and leaves no mark |
| `Follow.SymFollowSet` | ext/flex/dfa.c:948-1016 | returns the targets of exactly the listed states that consume the class, the early exit from class lists and negation included |
| `Follow.SymPartition` | ext/flex/dfa.c:1026-1099 | marks exactly the consumed classes, and a duplicate points to an earlier class with the same consumers |
| `Follow.GroupsAgree` | ext/flex/dfa.c:1026-1099 | classes left in one group by the refinements are consumed by the same NFA states |
| `Finite.TargetsBounded` | ext/flex/dfa.c:612-700 | following a class keeps the bound on how often a list repeats a state |
| `Finite.FewLists` | ext/flex/dfa.c:612-777 | there are finitely many distinct sorted lists within the bound, so the worklist is exhausted |
| `Subset.RunIsExact` | ext/flex/dfa.c:612-777 | after any word the DFA has jammed iff no NFA state is reached; otherwise its state lists reached states, among them all that matter |
| `Subset.NumbersTracked` | ext/flex/dfa.c:238-349 | the numbers in a state's list are those of the NFA states the word leads to |
| `Dfa.FirstStates` | ext/flex/dfa.c:570-598 | each start state gets a DFA state of its own, in order, so that start condition c has exactly the states 2c-1 and 2c |
| `Dfa.DfaStates.FindState` | ext/flex/dfa.c:830-862 | finds the state with the same list up to order if there is one, else reports none |
| `Dfa.DfaStates.SnsToDs` | ext/flex/dfa.c:823-938 | returns the number of the state with exactly these NFA states, new iff there was none, with its accepting set or lowest rule |
| `Dfa.MakeEob` | ext/flex/dfa.c:600-609 | the end-of-buffer state is always new and lists nothing; its error exit is not reached |
| `Dfa.Ntod` | ext/flex/dfa.c:381-810 | the construction ends with a complete table: every state's row leads to the interned closure of its targets, and the i-th start state is DFA state i |
| `Scanner.VerdictIsExact` | ext/flex/dfa.c:612-938 | from every start state, after every word, the DFA jams iff no rule matches and otherwise accepts exactly the matching rules, or the lowest of them |
| `Scanner.RuleMatchesIs` | ext/flex/dfa.c:570-582 | in start state 2c-1 the rules of condition c without '^' may match, in 2c all of them, and a rule matches what its pattern denotes |
| `Scanner.RunGoesOn` | ext/flex/dfa.c:612-777 | if every symbol of the patterns stands for some class, then after every word on which the DFA has not jammed some rule matches a word that begins with it |
| `Scanner.BuildDfa` | ext/flex/dfa.c:381-810 | from rules to DFA: every verdict is exact, for all words and start states, and malformed repetitions are reported |
| `MkEntry.EntryTables.MkEntry` | ext/flex/tblcmp.c:503-612 | the state's entries are placed, or put on the stack, so that with its default link it stands for its row, and all earlier states keep theirs; a count that is one too high does no harm |
| `MkEntry.EntryTables.Mk1Tbl` | ext/flex/tblcmp.c:619-640 | a waiting state takes a free slot, and all earlier states keep their rows |
| `MkEntry.EntryTables.Stack1` | ext/flex/tblcmp.c:805-818 | the state waits, or is entered at once when the stack is full |
| `MkEntry.EntryTables.DrainStack` | ext/flex/dfa.c:798-804 | every waiting state is entered and no row changes |
| `Protos.ProtoQueue.MkProt` | ext/flex/tblcmp.c:645-676 | the row becomes the first proto; a full queue drops its last one; all other saved rows are as they were |
| `Protos.ProtoQueue.Mv2Front` | ext/flex/tblcmp.c:735-752 | the element becomes the first of a consistently linked queue of the same length |
| `Protos.ProtoQueue.TblDiff` | ext/flex/tblcmp.c:835-853 | the extracted difference, read with the proto as default, stands for the state's row, and the count is the number of differing entries |
| `Compress.Compressor.BldTbl` | ext/flex/tblcmp.c:81-213 | whichever way is chosen (full, difference from a proto, new template), the new state stands for its row and all earlier ones for theirs; only as template 32766 it stands for its row without the common transition |
| `Compress.Compressor.MkTemplate` | ext/flex/tblcmp.c:683-730 | below number 32766 the new template goes to the common state where the state goes anywhere, the meta-classes respect it, and the state is entered as its difference |
| `Compress.Compressor.MkTemplateAtLimit` | ext/flex/tblcmp.c:683-730 | as template 32766 the state's difference is linked to the jam state, so that the tables hold its row without the transitions to the common state |
| `Compress.LimitLoses` | ext/flex/tblcmp.c:683-730 | an entry is lost exactly where the row has the template's non-zero entry, and some entry is lost iff the row goes to the common state at all |
| `Compress.LimitLosesFives` | ext/flex/tblcmp.c:683-730 | a row that loses three of its four transitions as template 32766 |
| `GenTabs.CmpTmps` | ext/flex/tblcmp.c:224-286 | every template gets entries by meta-class that say what it said by class |
| `GenTabs.MkDefTbl` | ext/flex/tblcmp.c:454-481 | the jam state's entries are appended and nothing else changes |
| `GenTabs.EmissionIsExact` | ext/flex/gen.c:1300-1460 | after the fix-ups of base, def, nxt and chk the emitted tables stand for all rows, the jam state and the templates included |
| `GenTabs.JamBaseJams` | ext/flex/gen.c:1321-1348 | a state whose base is jambase jams on every class, so the match loop may stop there |
| `GenTabs.CompressDfa` | ext/flex/tblcmp.c:81-286 | for a whole DFA: the emitted tables encode every row passed to bldtbl, end of buffer on class 0, and the jam state's row, and exactly the states without any transition, on NUL included, have the base jambase, but for the end-of-buffer state; it stops only where 32766 states so far could be templates |
| `Lookup.NextState` | ext/flex/gen.c:708-748 | the default chain ends within the tables, applies yy_meta once at most, and gives the row's entry, or the jam state where that is 0 |
| `FullSpeed.FullTable.FindTableSpace` | ext/flex/tblcmp.c:327-414 | finds a place where the state's slots, its base and its accepting slot are all free and distinct from every other state's |
| `FullSpeed.FullTable.PlaceState` | ext/flex/tblcmp.c:762-795 | places the row, keeps all placed rows, and overwrites no slot in use |
| `FullSpeed.FullTable.GenCtbl` | ext/flex/gen.c:333-429 | the entry at base[s]+c verifies as c iff the row goes somewhere on c, and its offset leads to the base of the target; bases are distinct |
| `FullSpeed.BasesDiffer` | ext/flex/tblcmp.c:369-414 | two placed states never share a base |
| `FullSpeed.BuildFullTable` | ext/flex/dfa.c:496-753 | for a whole DFA, placing every row and writing the offsets gives a table that is exact for every state and class |
| `FullSpeed.FullMatch` | ext/flex/gen.c:794-830 | the match loop on these tables follows the DFA exactly, stops where it has no transition or at the end of the buffer, and notes the last state that had an action |
| `FullScanner.FollowIsRun` | ext/flex/gen.c:794-830 | going from base to base is running the DFA of the subset construction |
| `FullScanner.GenerateFull` | ext/flex/dfa.c:496-753 | for every specification the full-speed table says of every word which rule is the first to match it, or that none does; and if no symbol stands for nothing, it is followed only as long as a rule can match |
| `FullScanner.RunIsLive` | ext/flex/gen.c:794-830 | if some rule matches a word that begins with the text the DFA has not jammed, and if no symbol stands for nothing, only then |
| `FullScanner.NextFullToken` | ext/flex/gen.c:167-193 | one turn of the full-speed scanner, with backing up, returns the end-of-buffer action iff the DFA has not jammed by the end, and otherwise the longest match and the first rule for it; if no symbol stands for nothing, the end is reached iff some rule matches a word that begins with the text |
| `MatchLoop.GenAccept` | ext/flex/gen.c:1099-1151 | yy_accept and yy_acclist list, for each state, exactly its rules in order, and none for the jam state |
| `MatchLoop.DeadEnd` | ext/flex/scan.c:2255-2275 | once jammed, or in a state without transitions, the run jams on whatever follows, NUL included, so no longer match is missed where the loop stops, interactive or not |
| `MatchLoop.Match` | ext/flex/scan.c:2250-2294 | the push and pop loops, with the end-of-buffer action's treatment of NUL, return the end-of-buffer action iff the run has not jammed and, if interactive, is not in a state of base jambase after a character other than NUL; otherwise the longest prefix with a rule and the first rule listed; if NUL has its own table, exactly under the stated condition, and what is chosen otherwise |
| `MatchLoop.LastNulPassed` | ext/flex/gen.c:945-995 | the position that can be missing is that of a NUL in the buffer on which the run has not jammed |
| `MatchLoop.HoleIsLast` | ext/flex/gen.c:945-995 | the missing position is that of the last NUL on which the run lives |
| `MatchLoop.HoleIsNone` | ext/flex/gen.c:945-995 | no position is missing without a table for NUL, or if a NUL is read that the run does not survive |
| `MatchLoop.GetPreviousState` | ext/flex/scan.c:4366-4393 | going through the matched text again, NUL included, stacks exactly the states that a run of the DFA passes |
| `MatchLoop.NulTrans` | ext/flex/gen.c:930-995 | gives the DFA's transition on NUL, from the tables or from the table for NUL, and says whether it jams |
| `MatchLoop.ShortStack` | ext/flex/gen.c:945-995 | from a stack without the state entered on a NUL the choice is right iff a longer prefix has a rule or the prefixes around that state have the same first rule; without a longer prefix it is one character too long |
| `NulTable.NulMisplaces` | ext/flex/gen.c:945-948 | on a, NUL, a the scanner for a and a-NUL-b with a table for NUL takes the NUL as well, instead of a alone, which is right |
| `Tokens.DefaultRuleMatches` | ext/flex/parse.y:117-135 | with the default rule, some rule matches any one character in every start state |
| `Tokens.TokenIs` | ext/flex/scan.c:2250-2294 | the token's rule matches it, no rule before it does, and no rule matches a longer word that agrees with the text |
| `Tokens.JamIsDead` | ext/flex/scan.c:2250-2275 | if some rule matches a word that begins with the text so far the scanner has not jammed, and if one matches more it is in a state with transitions |
| `Tokens.LiveGoesOn` | ext/flex/scan.c:2250-2275 | if no symbol stands for nothing: where the scanner has not jammed some rule can match, and in a state with transitions one can match more |
| `Tokens.CourseInRules` | ext/flex/scan.c:4127-4195 | the scanner reaches the end of the buffer if the rules allow it, and if no symbol stands for nothing, only then, with the missing state where rules and text put it |
| `EmptyClass.RunsOnForNothing` | ext/flex/scan.c:2250-2294 | a scanner for a pattern that ends in an empty class runs to the end of a text on which no rule can match any more, and whose token is its first character |
| `Tokens.Generate` | ext/flex/main.c:181-198 | for every specification the generated scanner's tables and accepting lists say exactly which rules match which words, NUL included, and where no rule can match any more, unless 32766 states of its DFA are candidates for templates |
| `Tokens.NextToken` | ext/flex/scan.c:4127-4195 | one turn of the scanner returns the end-of-buffer action where some rule matches more than the text, or just goes on to match it if the scanner is not interactive or the text ends in NUL; if no symbol stands for nothing, only there; otherwise the longest match and the first rule for it, NUL characters included; if NUL has its own table and is passed, exactly under the stated condition |
| `Alphabets.MakeAlphabet` | ext/flex/main.c:1694-1704 | after numbering and translation, a symbol of a pattern takes a character's class iff it stands for the character |
| `Alphabets.TakesCharIs` | ext/flex/parse.y:712-745 | a single character stands for itself, a class for the characters it lists, and a negated one for the others |
| `Alphabets.RefinedBySets` | ext/flex/ecs.c:115-219 | the refinements made while reading the input separate all that the patterns tell apart |
| `Alphabets.DenotesMirrors` | ext/flex/main.c:1694-1704 | a pattern denotes a word of characters iff it denotes the word of their equivalence classes |
| `Alphabets.SortedIsInOrder` | ext/flex/parse.y:725-734 | once cshell has sorted it, a class that names no character twice is in the order that mkeccl and ccl2ecl rely on |
| `Characters.OnwardMirrors` | ext/flex/main.c:1694-1704 | some rule matches a text that begins with the given one iff some rule matches a word of classes that begins with its classes |
| `Characters.TokenOfCharacters` | ext/flex/scan.c:2250-2294 | the token over classes is the token over characters: no active rule matches a longer text, and none before the chosen one matches it |
| `Characters.CharTokenIs` | ext/flex/scan.c:2250-2294 | in a start condition, at the beginning of a line or not, the token's rule is active and its pattern denotes the token, no active rule before it does, and no active rule's pattern denotes more of the text or more than it |
| `Characters.WithoutOfCharacters` | ext/flex/gen.c:945-995 | what is chosen from a stack without the state entered on a NUL is the same in terms of characters |
| `Characters.WithoutIs` | ext/flex/gen.c:945-995 | without the state at h the choice is the token iff some rule matches a longer prefix, or the prefixes of lengths h and h - 1 have the same first rule |
| `Characters.RunOfCharacters` | ext/flex/scan.c:4127-4195 | the end of the run and the missing state are at the same places in terms of classes and of characters |
| `Specification.PatternAgrees` | ext/flex/main.c:1694-1704 | a pattern over classes and single characters of the input is legal for the machine builder and means over classes what it means over characters |
| `Specification.PatternLively` | ext/flex/main.c:1694-1704 | a pattern without empty classes is one in which every symbol stands for some equivalence class |
| `Specification.NoneIsEmpty` | ext/flex/parse.y:712-745 | if no class of the input is empty, no pattern uses an empty class |
| `Specification.Flex` | ext/flex/main.c:181-198 | from the refined characters to the scanner: all that its match loop relies on holds of the finished alphabet and tables, unless 32766 states of the DFA are candidates for templates |
| `Specification.NextTokenOfText` | ext/flex/scan.c:2250-2294 | on a buffer with any text the scanner reaches the end exactly where the rules allow it, and otherwise finds the longest match of an active rule, and of those the first rule; if NUL has its own table and occurs, exactly under a condition on rules and text |
| `TableData.MinIntSize` | ext/flex/tables.c:424-446 | returns the smallest width in which every element is small, by absolute value as the code computes it |
| `TableData.Compress` | ext/flex/tables.c:457-495 | narrows exactly to that width; gives up iff an element is extreme for its own type; otherwise keeps all elements iff the smallest 32-bit integer is not lost |
| `TableData.NarrowingCanFail` | ext/flex/tables.c:424-446 | concrete tables that cannot be narrowed, or lose an element |
| `TableData.SignedOfBytes` | ext/flex/tables.c:296-342 | an integer written in network order and read back sign-extended is its conversion to the width |
| `TableWriter.Writer.HdrFwrite` | ext/flex/tables.c:142-180 | the file gains the padded header, with the position of its size remembered; accepted iff the stated header size is right |
| `TableWriter.Writer.DataFwrite` | ext/flex/tables.c:188-258 | the file gains the padded table, stays aligned, and its header states the size of everything written |
| `TableWriter.SetGrows` | ext/flex/tables.c:246-257 | patching the size in place gives the bytes of the longer set |
| `TableReader.Reader.HdrRead` | ext/flex/skel.c:3319-3360 | reads a header or reports the end of the file, a bad magic number or a bad size, on every input |
| `TableReader.Reader.DataLoad` | ext/flex/skel.c:3382-3589 | loads a table with its padding, or reports the end of the file, an unknown table or missing transitions, on every input |
| `TableReader.Reader.Load` | ext/flex/skel.c:3595-3641 | finds the wanted set and loads its tables until the stated size is reached, on every input, and how many bytes of the set it has read then |
| `TableLayout.BytesAreInOrder` | ext/flex/tables.c:296-342 | integers are written with the most significant byte first |
| `TableLayout.NumbersAreInOrder` | ext/flex/skel.c:3280-3316 | and read so |
| `TableLayout.WrapIsResidue` | ext/flex/skel.c:3430-3570 | conversion to a signed type leaves the number in its range that differs by a multiple of the number of values |
| `TableLayout.TableBegins` | ext/flex/tables_shared.h:116-123 | a table begins with its id, flags and two lengths |
| `TableLayout.ElementsFollow` | ext/flex/tables.c:205-242 | then come the elements, each in the table's width |
| `TableLayout.TableEnds` | ext/flex/tables.c:236-243 | then zeros up to a multiple of 8 bytes, fewer than 8 of them |
| `TableLayout.HeaderBegins` | ext/flex/tables_shared.h:106-114 | a header holds the magic number, its size, the set's size, no flags, and the version and name ended by NUL |
| `TableLayout.HeaderIsRefused` | ext/flex/skel.c:3319-3360 | a header with other first bytes or a size out of range is refused, an incomplete one is the end of the file |
| `TableLayout.TotalLenIs` | ext/flex/tables_shared.c:58-70 | the number of elements of a table, unless it overflows |
| `TableRoundTrip.TableIsRead` | ext/flex/skel.c:3382-3589 | a written table is read back with every element as the scanner's own type holds it, and reading ends aligned behind it |
| `TableRoundTrip.HeaderIsRead` | ext/flex/skel.c:3319-3360 | a written header is read back if it has at most 1024 bytes and refused otherwise |
| `TableRoundTrip.FileIsLoaded` | ext/flex/skel.c:3595-3641 | among sets written one after the other the first wanted one is loaded whole iff every set before it holds a table; otherwise, or without one, the end of the file is reported |
| `TableRoundTrip.FindSetIs` | ext/flex/skel.c:3612-3622 | the set looked for is the first one whose name equals the given one, or the first of all without a name |
| `TableRoundTrip.LoadFrom` | ext/flex/skel.c:3595-3641 | loading by name from a file of sets gives the tables of the first set of that name, iff there is one and every set before it holds a table, otherwise the end of the file; without a name those of the first set |
| `TableRoundTrip.LoadedHas` | ext/flex/skel.c:3382-3589 | what is there for an id is the last table of that id |
| `TableRoundTrip.EmptySetHidesRest` | ext/flex/skel.c:3595-3641 | behind a skipped set without tables nothing is found in a file below 4 GiB |
| `TableRoundTrip.ConvertedIsSame` | ext/flex/skel.c:3540-3570 | a loaded table equals the written one iff it holds indices or all its elements fit the scanner's type |
| `TableRoundTrip.SetIsShorter` | ext/flex/tables.c:457-495 | narrowing the tables of a set never makes the set longer |
| `TableRoundTrip.SaveAndLoad` | ext/flex/tables.c:142-258 | narrowing, writing and loading any list of tables returns every element, and reads the set to its last byte, if none is extreme or lost and the set as written, which is no longer than un-narrowed, is below 4 GiB |
| `StorageLayer.Storage.Get` | src/backend/storage.cc:207-222 | returns the value of the newest version strictly older than the given one |
| `StorageLayer.Storage.Put` | src/backend/storage.cc:155-205 | the key's chain gains the version in its place, or the version's value is overwritten; all lists stay linked and descending, and other keys keep theirs |
| `StorageLayer.Storage.Delete` | src/backend/storage.cc:224-233 | writes NULL at the version |
| `StorageLayer.Storage.PruneRow` | src/backend/storage.cc:112-153 | the key's chain and the result are those of pruning, in every combination of the flags; other keys keep their chains |
| `StorageLayer.Storage.KeyExists` | src/backend/storage.cc:56-58 | whether the key has a value as of the version |
| `StorageLayer.Storage.FirstKey` | src/backend/storage.cc:60-66 | the least key, byte by byte, that has a value as of the version, NULL iff there is none |
| `StorageLayer.Storage.LastKey` | src/backend/storage.cc:68-74 | the greatest key that has a value as of the version, NULL iff there is none |
| `StorageLayer.Storage.GetNextKey` | src/backend/storage.cc:80-87 | the least such key after the target, NULL iff there is none |
| `StorageLayer.Storage.GetPrevKey` | src/backend/storage.cc:89-96 | the greatest such key before the target, NULL iff there is none |
| `Keys.LessIsByBytes` | src/common/atomic.h:85-120 | keys are ordered by their bytes: one comes first if the other goes on where it ends, or has the greater byte where they first differ |
| `Versions.ReadIsNewest` | src/backend/storage.cc:207-222 | reading gives the value of the greatest stored version below the given one, or NULL |
| `Versions.WriteIsUpdate` | src/backend/storage.cc:155-205 | as a map from versions to values, writing is updating at one version |
| `Versions.ReadAfterWrite` | src/backend/storage.cc:155-222 | a write is seen by exactly the reads above it that no other version separates from it, and changes no other read |
| `Versions.WritesCommute` | src/backend/storage.cc:155-205 | writes at different versions leave the same chain in either order |
| `Versions.SafePruneLeavesSome` | src/backend/storage.cc:112-153 | without the unsafe flag a key keeps at least one version |
| `Versions.PruneManyIsExact` | src/backend/storage.cc:112-153 | pruning many removes exactly the versions above the minimum up to the given one, or nothing, and which of the two is decided by the newest version |
| `Versions.PruneOneIsExact` | src/backend/storage.cc:112-153 | pruning one takes the newest version up to the given one, if that is above the minimum, and no other |
| `Versions.PruneSucceeds` | src/backend/storage.cc:112-153 | pruning reports failure, and then changes nothing, exactly if there is no version up to the given one, or in safe mode if there is one version only, or the newest one would have to go when pruning many |
| `Versions.KeepingHas` | src/backend/storage.cc:112-153 | what stays are exactly the versions that are not above the minimum and up to the given one |
| `Versions.PruneKeepsReads` | src/backend/storage.cc:112-153 | a read with a version between the pruned ones and itself is not affected |
| `Databases.ApplyAllHas` | src/backend/storage.cc:155-205 | after any run of writes each key and version holds what was last written there, or what was there before |
| `Databases.OrderDoesNotMatter` | src/backend/storage.cc:155-205 | the same writes in any order, and any number of times, leave the same database |
| `StorageCursor.LineIsUnique` | src/backend/storage_iterator.cc:22-102 | the visible keys have one ascending line |
| `StorageCursor.StorageIterator.constructor` | src/backend/storage_iterator.cc:17-20 | an iterator starts before the line of visible keys |
| `StorageCursor.StorageIterator.Next` | src/backend/storage_iterator.cc:26-41 | moves one position up the line, from before it to after it, with the key and the flags that belong there |
| `StorageCursor.StorageIterator.Prev` | src/backend/storage_iterator.cc:43-58 | moves one position down the line, from after it to before it, with the key and the flags that belong there |
| `StorageCursor.StorageIterator.SeekToFirst` | src/backend/storage_iterator.cc:74-87 | moves to the first key, or after the line if it is empty |
| `StorageCursor.StorageIterator.SeekToLast` | src/backend/storage_iterator.cc:89-102 | moves to the last key, or before the line if it is empty |
| `StorageCursor.StorageIterator.Seek` | src/backend/storage_iterator.cc:68-72 | from a valid position, moves to the first visible key not less than the target, or after the line; from before and after the line, what the iterator is left with |
| `StorageCursor.Scan` | src/backend/storage_iterator.h:32-50 | reading from first to last visits each visible key once, in ascending order of bytes |
| `RemoteReads.TransactionalStorageManager.constructor` | src/backend/transactional_storage_manager.cc:14-78 | a reader holds exactly its own keys' values at the transaction's version and has sent them to every writer but itself; another node holds and sends nothing |
| `RemoteReads.MessageCarriesReads` | src/backend/transactional_storage_manager.cc:35-66 | a message goes to another writer, on the transaction's channel, and carries exactly the sender's keys with the bytes of their values, none for NULL |
| `RemoteReads.WritersAreSent` | src/backend/transactional_storage_manager.cc:60-66 | every writer but the sender is sent one |
| `RemoteReads.StartedHas` | src/backend/transactional_storage_manager.cc:35-58 | a reader holds its own keys with their values just before the transaction, another node nothing |
| `RemoteReads.TransactionalStorageManager.HandleReadResult` | src/backend/transactional_storage_manager.cc:80-87 | every key of the message gets the last value sent for it, the others keep theirs |
| `Exchange.StoreKeepsReads` | src/backend/storage.cc:155-222 | writes at the transaction's version or later, and writes of any version to keys that are not the transaction's, do not change what it reads, at any node and time |
| `Exchange.RunKeeps` | src/backend/transactional_storage_manager.cc:14-92 | the invariant of the exchange holds after every run, in any order of starts, deliveries, later writes and writes to other keys |
| `Exchange.HoldsWhatOwnersRead` | src/backend/transactional_storage_manager.cc:35-87 | in every reachable state a node only holds its own keys' values just before the transaction, and of other nodes' keys the same bytes, none for NULL |
| `Exchange.MessagesCarryReads` | src/backend/transactional_storage_manager.cc:35-66 | every message in flight carries exactly the bytes that the keys held at their owners |
| `Exchange.ReadyIsComplete` | src/backend/transactional_storage_manager.cc:89-92 | a node is ready iff it holds every key of the transaction and no key is listed twice |
| `Exchange.ReadyNodesAgree` | src/backend/transactional_storage_manager.cc:31-92 | all ready nodes hold the same keys and values, except that a NULL at its owner is a value without bytes elsewhere |
| `Exchange.SettledWritersAreReady` | src/backend/transactional_storage_manager.cc:31-92 | once all readers have started and all messages are delivered, a writer is ready iff all owners are readers and no key is listed twice |
| `Exchange.ReadyStaysReady` | src/backend/transactional_storage_manager.cc:80-92 | no later step takes a node's readiness away or changes its values |
| `Exchange.AllWritersCanGetReady` | src/backend/transactional_storage_manager.cc:31-92 | from every reachable state some continuation makes all writers ready |

## Left out

- The Bison parser and its tables, the rule actions, m4 and skeleton output, filters, options, reports and warnings: generated code, plumbing and input/output.  Regular expressions are trees, and the combinators are called on them as the grammar's actions do.
- Trailing context (head and trail counts, the trailing masks), `yymore`, `yyless`, `yyunput`, line counting and buffer refilling: tied to file input and C pointers.
- Uncompressed `-f` tables and scanners without equivalence classes: simpler forms of what is modelled.
- `ccl_set_union`, which ignores the negation of its operands, and `sym.c`, `buf.c` and `scanflags.c`: easy members only.
- Memory limits, failed allocations and failed writes.
- NfaMachines.NfaBuilder.MkState: the call of mkechar for a new character is modelled separately, as one of the refinements of `Alphabets.RefinedBySets`.
- NfaMachines.NfaBuilder.MkOr: requires that the first machine's states come directly before the second's, as the parser creates them.
- Regex.Build: case folding, definitions and the syntax of character classes are resolved before the tree; a rejected repetition count leaves its operand, as the grammar does.
- Dfa.Ntod: the rows are compressed after all have been made instead of in turn, since `bldtbl` depends on its arguments and its own earlier calls only; the hash does not wrap.
- Dfa.DfaStates.SnsToDs: statistics and the growth of the arrays are not modelled.
- GenTabs.CompressDfa: ends at the state that needs template 32766, while the generator goes on; what it makes of the states after it, whose differences from that template's proto it links to the jam state too, is not described.
- Lookup.NextState: table entries are unbounded integers; the widths of the emitted C arrays matter for table files only, where they are modelled.
- MatchLoop.Match: is the form used with REJECT, on a buffer that holds all input and ends in two end-of-buffer characters; the form that remembers the last accepting state is modelled for the full-speed tables only.  `Lost` stands for what is read below the bottom of the stack of states.
- Compress.Compressor.MkTemplate: is for template numbers below 32766; `Compress.Compressor.MkTemplateAtLimit` is for that one.
- Compress.Compressor.MkTemplateAtLimit: says what becomes of the state, and nothing of the stored template, the meta-classes and the proto queue, since nothing after it is described.
- Tokens.Generate: no specification that needs template 32766 is given; it would have more than 32766 DFA states.
- Tokens.NextToken: where a pattern uses a symbol that stands for nothing, the end of the run and the missing state are given exactly by the tables, and by the rules in one direction only.
- Specification.NextTokenOfText: the same holds where a pattern uses an empty class.
- FullScanner.NextFullToken: NUL characters are excluded from the buffer, and the code for backing up is taken to be generated even where no state needs it.
- FullSpeed.FullTable.GenCtbl: the offsets are not limited to 16 bits.
- TableReader.Reader.Load: the count of bytes read is not limited to 32 bits, seeking forward takes a 64-bit `long`, strings that run past the header are cut at its end, and what a failed load leaves in the scanner's tables is not described.  Comparing tables instead of loading them is left out.
- TableRoundTrip.SaveAndLoad: promises nothing for files of 4 GiB or more, whose size the header cannot state.
- StorageLayer.Storage.Put: a negative version of a key that is in the map already is excluded, as an assertion in `AtomicMap::Insert` (src/common/atomic.h) does; locks, decorators, checkpoints and the size estimate, which overwriting does not adjust, are left out.
- StorageLayer.Storage.Delete: excludes the same negative versions.
- StorageLayer.Storage.PruneRow: freed rows stay in the model's set of rows, unreachable; a key that loses its last version by unsafe pruning stays in the map with an empty chain.
- StorageCursor.StorageIterator.Next: the storage is not changed while an iterator is used.
- RemoteReads.TransactionalStorageManager.constructor: the configuration's partitioning is a parameter, and the connection records what is sent.
- Exchange.RunKeeps: one transaction is followed; messages are never lost, pruning does not run, and other transactions appear through their writes, those before this one to other keys only.
