/**
 * The lightweight entity identifier of the earlier ECS core: a `u64`
 * newtype whose derived equality and ordering are those of the integer.
 */
module EcsId {
  const U64_LIMIT: int := 0x1_0000_0000_0000_0000

  type U64 = x: int | 0 <= x < U64_LIMIT

  datatype EntityId = EntityId(id: U64)

  /** `Entity::PLACEHOLDER`. */
  const PLACEHOLDER: EntityId := EntityId(0)

  /** `Entity::from_int`: `to_int` reads the integer back. */
  function FromInt(n: U64): (e: EntityId)
    ensures ToInt(e) == n
  {
    EntityId(n)
  }

  /** `Entity::to_int`: `from_int` rebuilds the entity from it. */
  function ToInt(e: EntityId): (n: U64)
    ensures EntityId(n) == e
  {
    e.id
  }

  /** The derived `Ord`: compare the integers. */
  predicate Less(a: EntityId, b: EntityId)
    ensures Less(a, b) ==> a != b
    ensures Less(a, b) || a == b || b.id < a.id
  {
    a.id < b.id
  }

  /** `from_int` and `to_int` are inverse to each other; the placeholder is 0. */
  lemma RoundTrips(n: U64, e: EntityId)
    ensures ToInt(FromInt(n)) == n && FromInt(ToInt(e)) == e
    ensures ToInt(PLACEHOLDER) == 0
  {
  }

  /** Equality and order of entities are those of their integers. */
  lemma OrderOfIntegers(a: EntityId, b: EntityId)
    ensures a == b <==> ToInt(a) == ToInt(b)
    ensures Less(a, b) <==> ToInt(a) < ToInt(b)
    ensures Less(a, b) || a == b || Less(b, a)
  {
  }
}
