/** Facts about sequences shared by the permutation proofs. */
module Sequences {

  /** Taking out the element at `j` takes exactly one occurrence of it out of the multiset. */
  lemma RemoveAt<T>(s: seq<T>, j: nat)
    requires j < |s|
    ensures multiset(s[..j] + s[j + 1..]) == multiset(s) - multiset{s[j]}
  {
    assert s == s[..j] + [s[j]] + s[j + 1..];
  }
}
