/**
 * Pieces shared by every hash map: the stored entry, key sameness, the
 * exceptions the maps raise, and the size check done at construction.
 */
module Base {

  /** An entry as stored in a slot or a bucket: the hash code computed when the
      entry was created, the key and the value. */
  datatype HashEntry<K, V> = HashEntry(hashValue: int, key: K, value: V)

  /** The two exceptions the maps raise. */
  datatype Error = KeyError | ValueError

  datatype Result<T> = Ok(value: T) | Err(error: Error)

  /** Keys are immutable values here, so "the same object" and "equal" coincide. */
  predicate IsSame<K(==)>(k1: K, k2: K)
  {
    k1 == k2
  }

  /** The check every map performs on `initial_size` before allocating anything:
      a positive integer is accepted as the initial size, anything else is a
      ValueError. */
  function CheckInitialSize(initialSize: int): (r: Result<int>)
    ensures r.Ok? <==> initialSize > 0
    ensures r.Ok? ==> r.value == initialSize
    ensures r.Err? ==> r.error == ValueError
  {
    if initialSize > 0 then Ok(initialSize) else Err(ValueError)
  }
}
