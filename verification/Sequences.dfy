// Regrouping of joined sequences, which the verifier wants spelled out.
module Sequences {
  lemma Associate<T>(a: seq<T>, b: seq<T>, c: seq<T>)
    ensures a + b + c == a + (b + c)
  {
  }

  lemma Regroup<T>(a: seq<T>, b: seq<T>, c: seq<T>, d: seq<T>)
    ensures a + (b + c) + d == (a + b) + c + d == a + b + (c + d) == a + (b + (c + d))
  {
    assert a + b + c + d == a + (b + (c + d));
  }
}
