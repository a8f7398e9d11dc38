/** Absence of characters from a text, the fact most of the pattern proofs turn on. */
module Chars {
  /** From index n on, s holds no character of cs. */
  predicate LacksFrom(s: string, n: nat, cs: set<char>) {
    forall k :: n <= k < |s| ==> s[k] !in cs
  }

  lemma LacksFromConcat(x: string, y: string, n: nat, cs: set<char>)
    requires n <= |x| && LacksFrom(x, n, cs) && LacksFrom(y, 0, cs)
    ensures LacksFrom(x + y, n, cs)
  {
  }
}
