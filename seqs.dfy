/** Sequence helpers shared by the chunker and the question pipeline. */
module Seqs {

  /** The concatenation of the inner sequences, in order (Python's repeated `extend`). */
  function Flatten<T>(xss: seq<seq<T>>): seq<T> {
    if xss == [] then [] else xss[0] + Flatten(xss[1..])
  }

  lemma {:induction false} FlattenAppend<T>(xss: seq<seq<T>>, xs: seq<T>)
    ensures Flatten(xss + [xs]) == Flatten(xss) + xs
  {
    if xss == [] {
      assert [] + [xs] == [xs];
    } else {
      assert (xss + [xs])[1..] == xss[1..] + [xs];
      FlattenAppend(xss[1..], xs);
    }
  }

  /** Two inner sequences in front are concatenated in front. */
  lemma FlattenPair<T>(a: seq<T>, b: seq<T>, rest: seq<seq<T>>)
    ensures Flatten([a, b] + rest) == a + b + Flatten(rest)
  {
    var xss := [a, b] + rest;
    assert xss[1..][1..] == rest;
    assert Flatten(xss[1..]) == b + Flatten(rest);
  }
}
