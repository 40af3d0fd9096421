/** Facts about sequences, stated once for every element type. */
module Seqs {
  lemma ConcatAssoc<T>(a: seq<T>, b: seq<T>, c: seq<T>)
    ensures a + (b + c) == (a + b) + c
  {
  }

  lemma SplitLast<T>(s: seq<T>)
    requires s != []
    ensures s == s[..|s| - 1] + [s[|s| - 1]]
  {
  }

  lemma AppendEmpty<T>(s: seq<T>)
    ensures s + [] == s && [] + s == s
  {
  }

  lemma TakeAll<T>(s: seq<T>)
    ensures s[..|s|] == s
  {
  }

  lemma TakeTake<T>(s: seq<T>, i: nat, j: nat)
    requires i <= j <= |s|
    ensures s[..j][..i] == s[..i]
  {
  }

  lemma SplitThree<T>(s: seq<T>, i: nat, n: nat)
    requires i + n <= |s|
    ensures s == s[..i] + s[i..][..n] + s[i..][n..]
  {
  }

  lemma SnocIndex<T>(s: seq<T>, x: T)
    ensures |s + [x]| == |s| + 1 && (s + [x])[|s|] == x
    ensures forall i :: 0 <= i < |s| ==> (s + [x])[i] == s[i]
  {
  }
}
