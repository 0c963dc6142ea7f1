/** What the subset construction passes on to table compression, state by state. */
module DfaRows {
  import opened NxtChk
  import opened MkEntry

  /**
   What ntod hands to bldtbl for one state: where it goes on each class, on how many classes it
   goes anywhere, and a guess at its commonest target with a count that it reaches.
   */
  datatype DfaRow = DfaRow(state: seq<int>, totaltrans: int, comstate: int, comfreq: int)

  /** Number of transitions of state to comstate on the classes 1..n. */
  function CountTo(state: seq<int>, comstate: int, n: nat): (r: nat)
    requires n < |state|
  {
    if n == 0 then 0 else CountTo(state, comstate, n - 1) + (if state[n] == comstate then 1 else 0)
  }

  lemma {:induction false} CountedIsThere(state: seq<int>, comstate: int, n: nat)
    requires n < |state|
    ensures CountTo(state, comstate, n) == 0 <==> forall i :: 1 <= i <= n ==> state[i] != comstate
  {
    if n > 0 {
      CountedIsThere(state, comstate, n - 1);
    }
  }

  lemma {:induction false} CountToPrefix(state: seq<int>, state1: seq<int>, comstate: int, n: nat)
    requires n < |state| && n < |state1| && forall c :: 1 <= c <= n ==> state[c] == state1[c]
    ensures CountTo(state, comstate, n) == CountTo(state1, comstate, n)
  {
    if n > 0 {
      CountToPrefix(state, state1, comstate, n - 1);
    }
  }

  /** Taking one transition out of an array. */
  lemma {:induction false} CountToWithout(state: seq<int>, state1: seq<int>, comstate: int, n: nat, c: nat)
    requires 1 <= c <= n < |state| && state1 == state[c := 0]
    ensures CountTo(state, comstate, n) <= CountTo(state1, comstate, n) + if state[c] == 0 then 0 else 1
  {
    if c < n {
      CountToWithout(state, state1, comstate, n - 1, c);
    } else {
      CountToPrefix(state, state1, comstate, n - 1);
    }
  }

  /**
   A transition array of a DFA with states 1..n.  NUL is left out of the array when every character
   has its own class, but its transition has been counted by then.
   */
  ghost predicate GoodRow(r: DfaRow, numecs: nat) {
    && |r.state| == numecs + 1 && (forall c :: 1 <= c <= numecs ==> 0 <= r.state[c])
    && (0 < r.totaltrans ==> 0 < r.comstate && 0 < r.comfreq)
    && (numecs == 256 ==> r.state[256] == 0)
    && CountFits(r.state, JAMSTATE, numecs, r.totaltrans) && (r.totaltrans != CountKept(r.state, JAMSTATE, numecs) ==> 7 <= numecs)
    && r.comfreq <= CountTo(r.state, r.comstate, numecs) + r.totaltrans - CountKept(r.state, JAMSTATE, numecs)
  }
}
