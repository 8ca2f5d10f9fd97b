/** Streams of bytes given piece by piece. */
module Pieces {
  function Flatten(b: seq<seq<bv8>>): seq<bv8> {
    if b == [] then [] else Flatten(b[..|b| - 1]) + b[|b| - 1]
  }

  lemma FlattenNothing()
    ensures Flatten([]) == []
  {
  }

  lemma {:induction false} FlattenFront(d: seq<bv8>, b: seq<seq<bv8>>)
    ensures Flatten([d] + b) == d + Flatten(b)
  {
    if b == [] {
      assert ([d] + b)[..0] == [];
    } else {
      assert ([d] + b)[..|b|] == [d] + b[..|b| - 1];
      FlattenFront(d, b[..|b| - 1]);
    }
  }

  /** One more piece. */
  lemma FlattenNext(b: seq<seq<bv8>>, k: nat)
    requires k < |b|
    ensures Flatten(b[..k + 1]) == Flatten(b[..k]) + b[k]
  {
    assert b[..k + 1][..k] == b[..k];
  }
}
