/** Facts about taking prefixes of sequences, stated once for every element type so that
    loops over sequences can step from one prefix to the next. */
module Seqs {

  /** The prefix of length i + 1 is the prefix of length i followed by element i. */
  lemma TakeSnoc<T>(s: seq<T>, i: nat)
    requires i < |s|
    ensures s[..i + 1] == s[..i] + [s[i]]
  {
  }

  /** A non-empty sequence is its prefix without the last element, then that element. */
  lemma InitLast<T>(s: seq<T>)
    requires s != []
    ensures s == s[..|s| - 1] + [s[|s| - 1]]
  {
  }

  /** Taking the whole length gives the sequence back. */
  lemma TakeAll<T>(s: seq<T>)
    ensures s[..|s|] == s
  {
  }

  /** Dropping the appended element gives back the sequence. */
  lemma InitOfSnoc<T>(s: seq<T>, x: T)
    ensures (s + [x])[..|s|] == s
  {
  }
}
