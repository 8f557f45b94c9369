// Small facts about sequences that the proofs of the other modules cite by
// name, so that each equation is proved once, away from the larger contexts
// that would make it expensive.
module Seqs {
  /** Overwriting element i swaps it for y in the multiset. */
  lemma MultisetUpdate<T>(s: seq<T>, i: nat, y: T)
    requires i < |s|
    ensures multiset(s[i := y]) == multiset(s) - multiset{s[i]} + multiset{y}
  {
    var a, c := s[..i], s[i + 1..];
    assert s == a + [s[i]] + c;
    assert s[i := y] == a + [y] + c;
  }

  /** Inserting y at i adds y to the multiset. */
  lemma MultisetInsert<T>(s: seq<T>, i: nat, y: T)
    requires i <= |s|
    ensures multiset(s[..i] + [y] + s[i..]) == multiset(s) + multiset{y}
  {
    assert s == s[..i] + s[i..];
  }

  /** Cutting a sequence after its element i. */
  lemma SplitAt<T>(s: seq<T>, i: nat)
    requires i < |s|
    ensures s[..i] + [s[i]] == s[..i + 1]
    ensures s[..i + 1] + s[i + 1..] == s
  {
  }

  /** Taking one more element of b behind a. */
  lemma PrefixStep<T>(a: seq<T>, b: seq<T>, j: nat)
    requires j < |b|
    ensures b[j] in a + b
    ensures a + b[..j] + [b[j]] == a + b[..j + 1]
    ensures a + b[..j] + [b[j]] + b[j + 1..] == a + b
  {
    SplitAt(b, j);
    assert (a + b)[|a| + j] == b[j];
  }

  /** Concatenation is associative. */
  lemma AppendAssoc<T>(a: seq<T>, b: seq<T>, c: seq<T>)
    ensures a + (b + c) == (a + b) + c
  {
  }

  /** A non-empty sequence is its first element followed by the rest. */
  lemma ConsSplit<T>(s: seq<T>)
    requires s != []
    ensures [s[0]] + s[1..] == s && |s| == |s[1..]| + 1
  {
  }

  /** A non-empty sequence is its front followed by its last element. */
  lemma LastSplit<T>(s: seq<T>)
    requires s != []
    ensures s[..|s| - 1] + [s[|s| - 1]] == s
  {
  }

  /** Dropping the last element of a + b drops the last element of b. */
  lemma AppendDropLast<T>(a: seq<T>, b: seq<T>)
    requires b != []
    ensures (a + b)[..|a + b| - 1] == a + b[..|b| - 1]
    ensures (a + b)[|a + b| - 1] == b[|b| - 1]
  {
  }

  /** A sequence is its first i elements followed by the rest. */
  lemma TakeDrop<T>(s: seq<T>, i: nat)
    requires i <= |s|
    ensures s[..i] + s[i..] == s
  {
  }
}
