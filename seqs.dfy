/** Facts about sequence concatenation, stated over an abstract element
    type so that proving them never looks inside the elements. */
module Seqs {
  lemma AppendAssoc<T>(a: seq<T>, b: seq<T>, c: seq<T>)
    ensures a + (b + c) == (a + b) + c
  {
  }

  lemma AppendEmpty<T>(a: seq<T>)
    ensures a + [] == a && [] + a == a
  {
  }

  lemma SnocParts<T>(a: seq<T>, x: T)
    ensures |a + [x]| == |a| + 1 && (a + [x])[..|a|] == a && (a + [x])[|a|] == x
  {
  }

  lemma TakeDrop<T>(a: seq<T>, n: nat)
    requires n <= |a|
    ensures a[..n] + a[n..] == a
  {
  }

  lemma ConsSplit<T>(x: T, a: seq<T>, n: nat)
    requires 1 <= n <= |a| + 1
    ensures ([x] + a)[..n] == [x] + a[..n - 1] && ([x] + a)[n..] == a[n - 1..]
  {
  }

  lemma SnocSplit<T>(a: seq<T>)
    requires a != []
    ensures a[..|a| - 1] + [a[|a| - 1]] == a
  {
  }
}
