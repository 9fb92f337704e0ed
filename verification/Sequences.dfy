/** Sequences without repetition, for the linked lists and the recency lists. */
module Sequences {
  ghost predicate NoDup(s: seq<nat>)
  {
    forall i, j :: 0 <= i < j < |s| ==> s[i] != s[j]
  }
}
