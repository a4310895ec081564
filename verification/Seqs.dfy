/** Small facts about sequences, stated once so that proofs can name them. */
module Seqs {

  lemma Assoc<T>(a: seq<T>, b: seq<T>, c: seq<T>)
    ensures (a + b) + c == a + (b + c)
  {
  }

  lemma ConsTail<T>(s: seq<T>)
    requires s != []
    ensures [s[0]] + s[1..] == s
  {
  }

  lemma SnocInit<T>(a: seq<T>, x: T)
    ensures (a + [x])[..|a + [x]| - 1] == a && (a + [x])[|a + [x]| - 1] == x && |a + [x]| == |a| + 1
  {
  }

  lemma InitLast<T>(s: seq<T>)
    requires s != []
    ensures s[..|s| - 1] + [s[|s| - 1]] == s
  {
  }

  lemma Join<T>(s: seq<T>, a: nat, b: nat)
    requires a <= b <= |s|
    ensures s[..a] + s[a..b] == s[..b]
  {
  }

  lemma TakeOfTake<T>(s: seq<T>, a: nat, b: nat)
    requires a <= b <= |s|
    ensures s[..b][..a] == s[..a]
  {
  }

  lemma ConcatPrefix<T>(a: seq<T>, b: seq<T>)
    ensures a <= a + b && (a + b)[..|a|] == a && (a + b)[|a|..] == b
  {
  }

  lemma PrefixTrans<T>(a: seq<T>, b: seq<T>, c: seq<T>)
    requires a <= b <= c
    ensures a <= c
  {
  }

  lemma PrefixOfSnoc<T>(a: seq<T>, x: T, k: nat)
    requires k <= |a|
    ensures (a + [x])[..k] == a[..k]
  {
  }

  lemma TakeAll<T>(a: seq<T>)
    ensures a[..|a|] == a
  {
  }
}
