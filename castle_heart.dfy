/** `Utilities.SharedHeartConnection`: whether two entities belong to the same castle, judged
    by the castle heart each one is connected to. */
module CastleHeart {
  import opened Ecs

  /** The `CastleHeartConnection` component: the heart entity an entity is connected to. */
  datatype CastleHeartConnection = CastleHeartConnection(heart: Entity)

  /** `input` and `output` are the two entities' `CastleHeartConnection` components, `None`
      when an entity does not have one. */
  function SharedHeartConnection(input: Option<CastleHeartConnection>, output: Option<CastleHeartConnection>): (r: bool)
    ensures r <==> input.Some? && output.Some? && input.value.heart == output.value.heart
  {
    match (input, output)
    case (Some(a), Some(b)) => a.heart == b.heart
    case _ => false
  }

  /** An entity without a heart connection shares a heart with nothing, not even itself. */
  lemma WithoutConnectionNeverShared(input: Option<CastleHeartConnection>, output: Option<CastleHeartConnection>)
    requires input.None? || output.None?
    ensures !SharedHeartConnection(input, output)
  {
  }

  /** Every connected entity shares a heart with itself. */
  lemma SharedReflexive(c: CastleHeartConnection)
    ensures SharedHeartConnection(Some(c), Some(c))
  {
  }

  /** The test does not depend on which entity is the input. */
  lemma SharedSymmetric(input: Option<CastleHeartConnection>, output: Option<CastleHeartConnection>)
    ensures SharedHeartConnection(input, output) == SharedHeartConnection(output, input)
  {
  }

  /** Sharing a heart is transitive: on connected entities it is an equivalence. */
  lemma SharedTransitive(a: Option<CastleHeartConnection>, b: Option<CastleHeartConnection>, c: Option<CastleHeartConnection>)
    requires SharedHeartConnection(a, b) && SharedHeartConnection(b, c)
    ensures SharedHeartConnection(a, c)
  {
  }
}
