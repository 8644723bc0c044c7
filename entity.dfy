/**
 * The entity identifier: a transparent one-field wrapper around an integer
 * (src/ecdb_core/src/entity.rs). There is no generation or version tag, so an
 * identifier is exactly its integer.
 */
module Entity {

  datatype EntityID = EntityID(id: nat)

  /** `EntityID::new`: wraps an integer, which `as_usize` gives back unchanged. */
  function New(id: nat): (e: EntityID)
    ensures AsUsize(e) == id
  {
    EntityID(id)
  }

  /** `EntityID::as_usize`: unwraps the integer, which is all the identifier holds. */
  function AsUsize(e: EntityID): (n: nat)
    ensures e == EntityID(n)
  {
    e.id
  }

  /** Wrapping the unwrapped integer gives back the same identifier. */
  lemma NewOfAsUsize(e: EntityID)
    ensures New(AsUsize(e)) == e
  {
  }

  /** Unwrapping a freshly wrapped integer gives the integer back. */
  lemma AsUsizeOfNew(n: nat)
    ensures AsUsize(New(n)) == n
  {
  }

  /** Different integers give different identifiers, and equal ones equal identifiers. */
  lemma NewInjective(m: nat, n: nat)
    ensures New(m) == New(n) <==> m == n
  {
  }

  /**
   * An identifier carries nothing besides its integer: two identifiers with the
   * same integer are the same identifier, so a recycled id cannot be told apart
   * from its earlier use.
   */
  lemma NoGeneration(a: EntityID, b: EntityID)
    ensures a == b <==> AsUsize(a) == AsUsize(b)
  {
  }
}
