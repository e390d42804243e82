/** Small facts about sequence slicing and concatenation, shared by the modules that reason about prefixes of a stream. */
module Seqs {

  /** The first `n + 1` elements are the first `n` and then element `n`. */
  lemma PrefixSnoc<T>(s: seq<T>, n: nat)
    requires n < |s|
    ensures s[..n + 1] == s[..n] + [s[n]]
  {
  }

  /** The prefix of a sequence as long as the sequence is the sequence itself. */
  lemma PrefixAll<T>(s: seq<T>)
    ensures s[..|s|] == s
  {
  }

  /** The first `|a|` elements of `a + b` are `a`. */
  lemma ConcatPrefix<T>(a: seq<T>, b: seq<T>)
    ensures (a + b)[..|a|] == a
  {
  }

  /** The elements of `a + b` before index `|a|` are those of `a`. */
  lemma ConcatElements<T>(a: seq<T>, b: seq<T>)
    ensures forall i :: 0 <= i < |a| ==> (a + b)[i] == a[i]
  {
  }

  /** A prefix of a prefix is a prefix. */
  lemma PrefixOfPrefix<T>(s: seq<T>, n: nat, k: nat)
    requires k <= n <= |s|
    ensures s[..n][..k] == s[..k]
  {
  }

  /** Concatenation is associative. */
  lemma Associative<T>(a: seq<T>, b: seq<T>, c: seq<T>)
    ensures (a + b) + c == a + (b + c)
  {
  }

  /** A non-empty sequence is its first element followed by the rest. */
  lemma HeadTail<T>(s: seq<T>)
    requires s != []
    ensures s == [s[0]] + s[1..]
  {
  }

  /** A non-empty sequence is everything but its last element, followed by that element. */
  lemma InitLast<T>(s: seq<T>)
    requires s != []
    ensures s == s[..|s| - 1] + [s[|s| - 1]]
  {
  }

  /** The head and tail of `[x] + t`. */
  lemma ConsParts<T>(x: T, t: seq<T>)
    ensures ([x] + t)[0] == x && ([x] + t)[1..] == t
  {
  }

  /** Head and tail of a concatenation whose first part is non-empty. */
  lemma ConcatHeadTail<T>(a: seq<T>, b: seq<T>)
    requires a != []
    ensures (a + b)[0] == a[0] && (a + b)[1..] == a[1..] + b
    ensures [a[0]] + (a[1..] + b) == a + b
  {
  }

  /** The empty sequence is a unit of concatenation. */
  lemma EmptyConcat<T>(a: seq<T>)
    ensures [] + a == a && a + [] == a
  {
  }
}
