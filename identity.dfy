/** The identity transform, next to an arbitrary other transform whose action is given as a
    function. The vectors it acts on are doubles in the source; here their type is a
    parameter. */
module Transforms {
  datatype Transform<!V> = Identity | Other(action: V -> V)

  /** What a transform does to a vector. */
  function Meaning<V>(t: Transform<V>, v: V): V {
    match t
    case Identity => v
    case Other(action) => action(v)
  }

  /** `isIdentity` of the identity. */
  function IsIdentity<V>(t: Transform<V>): (r: bool)
    requires t.Identity?
    ensures r
  {
    true
  }

  /** `apply`: the vector is returned unchanged. */
  function Apply<V>(t: Transform<V>, vector: V): (r: V)
    requires t.Identity?
    ensures r == vector && r == Meaning(t, vector)
  {
    vector
  }

  /** `inverse`: the identity is its own inverse. */
  function Inverse<V>(t: Transform<V>): (r: Transform<V>)
    requires t.Identity?
    ensures r == t && r.Identity?
  {
    t
  }

  /** `combine`: combining with another identity gives this identity, with anything else the
      other transform. */
  function Combine<V>(t: Transform<V>, other: Transform<V>): (r: Transform<V>)
    requires t.Identity?
    ensures other.Identity? ==> r == t
    ensures !other.Identity? ==> r == other
  {
    if other.Identity? then t else other
  }

  /** Applying the identity and then its inverse gives back the vector. */
  lemma InverseRoundTrip<V>(t: Transform<V>, v: V)
    requires t.Identity?
    ensures Meaning(Inverse(t), Apply(t, v)) == v
  {
  }

  /** Combining with the identity on either side does not change what a transform does. */
  lemma CombineIsComposition<V>(t: Transform<V>, other: Transform<V>, v: V)
    requires t.Identity?
    ensures Meaning(Combine(t, other), v) == Meaning(other, Meaning(t, v))
    ensures Meaning(Combine(t, other), v) == Meaning(t, Meaning(other, v))
  {
  }
}
