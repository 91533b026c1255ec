/**
 * Version stamps of a connector instance's three persisted facets, and the
 * null-tolerant comparison the change detector applies to them.
 */
module Stamps {

  /** A possibly absent value; `None` stands for a Java `null`. */
  datatype Option<T> = None | Some(value: T)

  /** A present version stamp. Its own total order is the order of integers. */
  type Stamp = int

  /** The stamps of one instance: checkpoint, schedule and configuration. */
  datatype ConnectorStamps = ConnectorStamps(
    checkpoint: Option<Stamp>,
    schedule: Option<Stamp>,
    configuration: Option<Stamp>)

  /** The stamp's own `compareTo`: negative, zero or positive. */
  function StampCompareTo(a: Stamp, b: Stamp): (r: int)
    ensures r < 0 <==> a < b
    ensures r == 0 <==> a == b
  {
    if a < b then -1 else if a == b then 0 else 1
  }

  /**
   * Compares the in-memory stamp with the persistent one. An absent stamp
   * sorts below every present stamp; two absent stamps are equal.
   */
  function CompareStamps(memoryStamp: Option<Stamp>, persistentStamp: Option<Stamp>): (r: int)
    ensures r == 0 <==> memoryStamp == persistentStamp
    ensures memoryStamp.None? && persistentStamp.Some? ==> r < 0
    ensures memoryStamp.Some? && persistentStamp.None? ==> r > 0
    ensures memoryStamp.Some? && persistentStamp.Some? ==>
              (r < 0 <==> memoryStamp.value < persistentStamp.value)
  {
    if memoryStamp.None? && persistentStamp.None? then 0
    else if memoryStamp.None? then -1
    else if persistentStamp.None? then 1
    else StampCompareTo(memoryStamp.value, persistentStamp.value)
  }

  /** Swapping the arguments reverses the direction of the comparison. */
  lemma CompareStampsAntisymmetric(a: Option<Stamp>, b: Option<Stamp>)
    ensures CompareStamps(a, b) < 0 <==> CompareStamps(b, a) > 0
    ensures CompareStamps(a, b) == 0 <==> CompareStamps(b, a) == 0
  {
  }
}
