/**
 * Small facts about taking and dropping elements of sequences, stated once
 * for any element type so that the proofs that use them never compare two
 * sequences of strings element by element.
 */
module Sequences {

  /** Dropping the first of `[first] + rest` leaves `rest`. */
  lemma DropHead<T>(first: T, rest: seq<T>)
    ensures ([first] + rest)[1..] == rest
  {
  }

  /** Dropping the first element commutes with appending one at the back. */
  lemma DropHeadOfAppend<T>(s: seq<T>, last: T)
    requires s != []
    ensures (s + [last])[1..] == s[1..] + [last]
  {
  }

  /** Dropping the first of `[first] + middle + [last]` leaves `middle + [last]`. */
  lemma DropFirst<T>(first: T, middle: seq<T>, last: T)
    ensures ([first] + middle + [last])[1..] == middle + [last]
  {
  }

  /** Taking every element gives the whole sequence back. */
  lemma TakeAll<T>(s: seq<T>)
    ensures s[..|s|] == s
  {
  }

  /** Taking no element of `s` after `a` leaves `a`. */
  lemma AppendTakeNone<T>(a: seq<T>, s: seq<T>)
    ensures a + s[..0] == a
  {
  }

  /** Taking one more element of `s` after `a` appends that element. */
  lemma AppendTakeNext<T>(a: seq<T>, s: seq<T>, i: nat)
    requires i < |s|
    ensures a + s[..i + 1] == (a + s[..i]) + [s[i]]
  {
    assert s[..i + 1] == s[..i] + [s[i]];
  }

  /** The first `n` elements of the first `n + 1`. */
  lemma TakeOfTake<T>(s: seq<T>, n: nat)
    requires n < |s|
    ensures s[..n + 1][..n] == s[..n]
  {
  }
}
