/**
 * Sequence helpers for the currying model: reversal (the body of a function
 * value receives its arguments in reverse declaration order) and element-wise
 * mapping (used to state that argument handles are only forwarded).
 */
module Seqs {

  /** The elements of `s` in reverse order. */
  function Reverse<T>(s: seq<T>): (r: seq<T>)
    ensures |r| == |s|
    ensures forall i :: 0 <= i < |s| ==> r[i] == s[|s| - 1 - i]
  {
    if s == [] then [] else Reverse(s[1..]) + [s[0]]
  }

  /** `g` applied to every element of `s`, element by element, keeping the order. */
  function Map<A, B>(g: A -> B, s: seq<A>): (r: seq<B>)
    ensures |r| == |s|
    ensures forall i :: 0 <= i < |s| ==> r[i] == g(s[i])
  {
    if s == [] then [] else [g(s[0])] + Map(g, s[1..])
  }

  /** Mapping distributes over concatenation. */
  lemma MapAppend<A, B>(g: A -> B, a: seq<A>, b: seq<A>)
    ensures Map(g, a + b) == Map(g, a) + Map(g, b)
  {
  }

  /** Mapping commutes with reversal. */
  lemma MapReverse<A, B>(g: A -> B, s: seq<A>)
    ensures Map(g, Reverse(s)) == Reverse(Map(g, s))
  {
  }
}
