/** Facts about sequences that the proofs of the other modules lean on. */
module Seqs {
  /** Concatenation is associative. */
  lemma Assoc<T>(a: seq<T>, b: seq<T>, c: seq<T>)
    ensures a + b + c == a + (b + c)
  {
  }

  /** A non-empty sequence is its head followed by its tail. */
  lemma Uncons<T>(s: seq<T>)
    requires s != []
    ensures [s[0]] + s[1..] == s
  {
  }

  /** A sequence is its prefix followed by the rest. */
  lemma Split<T>(s: seq<T>, n: nat)
    requires n <= |s|
    ensures s[..n] + s[n..] == s
  {
  }

  /** Concatenation of four is associative. */
  lemma Regroup<T>(a: seq<T>, b: seq<T>, c: seq<T>, d: seq<T>)
    ensures a + b + c + d == a + (b + c + d)
  {
  }

  /** A slice that lies wholly in the second part of a concatenation. */
  lemma SliceOfAppend<T>(p: seq<T>, q: seq<T>, s: seq<T>, a: nat, b: nat, a': nat, b': nat)
    requires s == p + q && a == |p| + a' && b == |p| + b' && a' <= b' <= |q|
    ensures s[a..b] == q[a'..b']
  {
    assert forall j :: 0 <= j < b - a ==> s[a..b][j] == q[a'..b'][j];
  }

  /** Appending to a sequence leaves a prefix of it alone and extends the matching suffix. */
  lemma Extend<T>(s: seq<T>, e: seq<T>, n: nat)
    requires n <= |s|
    ensures (s + e)[..n] == s[..n] && (s + e)[n..] == s[n..] + e
  {
  }
}
