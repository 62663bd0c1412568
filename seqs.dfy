/** Facts about sequences of any element type, stated generically so that they stay cheap to use on lists of strings. */
module Seqs {

  /** Concatenation is associative. */
  lemma ConcatAssoc<T>(x: seq<T>, y: seq<T>, z: seq<T>)
    ensures (x + y) + z == x + (y + z)
  {
  }

  lemma ConcatEmpty<T>(x: seq<T>)
    ensures [] + x == x && x + [] == x
  {
  }

  /** Extending a prefix by one element. */
  lemma TakeStep<T>(s: seq<T>, i: nat)
    requires i < |s|
    ensures s[..i + 1] == s[..i] + [s[i]]
    ensures s[..i + 1][..i] == s[..i] && s[..i + 1][i] == s[i]
  {
  }

  lemma TakeAll<T>(s: seq<T>)
    ensures s[..|s|] == s
  {
  }

  /** The last element and the rest of a concatenation whose second part is not empty. */
  lemma ConcatLast<T>(a: seq<T>, b: seq<T>)
    requires b != []
    ensures (a + b)[..|a + b| - 1] == a + b[..|b| - 1]
    ensures (a + b)[|a + b| - 1] == b[|b| - 1]
  {
  }

  /** A sequence of two or more elements is its first element, its middle and its last element. */
  lemma SplitAround<T>(t: seq<T>)
    requires |t| >= 2
    ensures t == [t[0]] + t[1..|t| - 1] + [t[|t| - 1]]
  {
  }

  lemma PrefixOfConcat<T>(x: seq<T>, y: seq<T>)
    ensures (x + y)[..|x|] == x
  {
  }

  /** A suffix of the second part is a suffix of the concatenation. */
  lemma SuffixOfConcat<T>(x: seq<T>, y: seq<T>, z: seq<T>)
    requires |z| <= |y| && y[|y| - |z|..] == z
    ensures |z| <= |x + y| && (x + y)[|x + y| - |z|..] == z
  {
    assert (x + y)[|x + y| - |z|..] == y[|y| - |z|..];
  }

  /** A non-empty first part splits into its head and the rest of the concatenation. */
  lemma ConsConcat<T>(a: seq<T>, b: seq<T>)
    requires a != []
    ensures a == [a[0]] + a[1..]
    ensures a + b == [a[0]] + (a[1..] + b)
  {
  }
}
