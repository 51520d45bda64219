/**
 * Small facts about sequence slicing and concatenation, each proved on its own so that
 * the proofs that use them do not have to rediscover them next to recursive definitions.
 */
module Seqs {

  lemma SplitAt<T>(b: seq<T>, j: nat)
    requires j < |b|
    ensures b == b[..j] + ([b[j]] + b[j + 1..])
  {
  }

  lemma TakeDrop<T>(b: seq<T>, n: nat)
    requires n <= |b|
    ensures b == b[..n] + b[n..]
  {
  }

  /** Taking the head off a concatenation whose first part is not empty. */
  lemma HeadTail<T>(a: seq<T>, b: seq<T>)
    requires a != []
    ensures (a + b)[0] == a[0]
    ensures (a + b)[1..] == a[1..] + b
    ensures [a[0]] + a[1..] == a
  {
  }

  lemma AppendNil<T>(a: seq<T>)
    ensures a + [] == a && [] + a == a
  {
  }

  lemma Assoc<T>(a: seq<T>, b: seq<T>, c: seq<T>)
    ensures a + (b + c) == (a + b) + c
  {
  }

  /** Dropping or taking exactly the first part of a concatenation. */
  lemma DropPrefix<T>(a: seq<T>, b: seq<T>)
    ensures (a + b)[|a|..] == b && (a + b)[..|a|] == a
  {
  }

  /** A prefix one longer is the shorter prefix and one more item. */
  lemma SnocPrefix<T>(xs: seq<T>, i: nat)
    requires i < |xs|
    ensures xs[..i + 1] == xs[..i] + [xs[i]]
    ensures xs[..i + 1][..i] == xs[..i]
  {
  }

  /** Every prefix of the full length is the whole sequence, and the last item goes last. */
  lemma Whole<T>(xs: seq<T>)
    ensures xs[..|xs|] == xs
    ensures xs != [] ==> xs == xs[..|xs| - 1] + [xs[|xs| - 1]]
  {
  }

  /** The suffixes of the tail are the suffixes of the sequence that start one later. */
  lemma TailSuffixes<T>(s: seq<T>)
    requires s != []
    ensures s[0..] == s
    ensures forall i :: 0 <= i < |s| - 1 ==> s[1..][i..] == s[i + 1..]
  {
  }
}
