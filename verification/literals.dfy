/**
 * Proof support only: this module models nothing of the repository. It states
 * facts about short sequence displays once, for any element type, so that the
 * demonstration lemmas elsewhere can rewrite their concrete data with them
 * instead of having the solver compare records of strings element by element.
 */
module Literals {

  lemma Append1<T>(a: T, b: T)
    ensures [] + [a] == [a]
    ensures [a] + [b] == [a, b]
  {
  }

  lemma Append2<T>(a: T, b: T, c: T)
    ensures [a, b] + [c] == [a, b, c]
    ensures [a] + [b, c] == [a, b, c]
  {
  }

  lemma Append3<T>(a: T, b: T, c: T, d: T)
    ensures [a, b, c] + [d] == [a, b, c, d]
    ensures [a] + [b, c, d] == [a, b, c, d]
  {
  }

  lemma Slices1<T>(a: T)
    ensures [a][1..] == [] && [a][..0] == []
  {
  }

  lemma Slices2<T>(a: T, b: T)
    ensures [a, b][1..] == [b] && [a, b][..1] == [a]
  {
  }

  lemma Slices3<T>(a: T, b: T, c: T)
    ensures [a, b, c][1..] == [b, c] && [a, b, c][..2] == [a, b]
  {
  }

  lemma Slices4<T>(a: T, b: T, c: T, d: T)
    ensures [a, b, c, d][1..] == [b, c, d] && [a, b, c, d][..3] == [a, b, c]
  {
  }
}
