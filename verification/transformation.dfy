/**
  The transformation algebra the scene graph is parameterised over.

  The hierarchy only ever composes transformations and starts chains from a
  default-constructed value, so the model keeps the algebra abstract: a
  transformation is the word of elementary steps it is made of, and composing
  two transformations concatenates their words (the free monoid). Composition
  is therefore associative and the default value is an identity, and nothing
  else about transformations is assumed.
*/
module Transformation {

  /** An elementary, uninterpreted transformation step. */
  type Step = nat

  datatype Transform = Transform(word: seq<Step>)

  /** The default-constructed transformation. */
  function Identity(): Transform {
    Transform([])
  }

  /** `Transformation::compose(a, b)`: first `b`, then `a` on top of it. */
  function Compose(a: Transform, b: Transform): Transform {
    Transform(a.word + b.word)
  }

  lemma {:induction false} ComposeAssociative(a: Transform, b: Transform, c: Transform)
    ensures Compose(Compose(a, b), c) == Compose(a, Compose(b, c))
  {
    assert (a.word + b.word) + c.word == a.word + (b.word + c.word);
  }

  lemma {:induction false} IdentityIsLeftUnit(a: Transform)
    ensures Compose(Identity(), a) == a
  {
    assert [] + a.word == a.word;
  }
}
