/** Two facts about sequence slicing used by the proofs that text is built in order. */
module Seqs {

  /** Cutting a sequence at n and putting the two parts back together gives it back. */
  lemma SplitAt<T>(s: seq<T>, n: nat)
    requires n <= |s|
    ensures s == s[..n] + s[n..]
  {
  }

  /** Dropping the last element of a concatenation drops the last element of its
      second part, and that element is the last element of the whole. */
  lemma DropLast<T>(s: seq<T>, t: seq<T>)
    requires t != []
    ensures (s + t)[..|s + t| - 1] == s + t[..|t| - 1] && (s + t)[|s + t| - 1] == t[|t| - 1]
  {
  }
}
