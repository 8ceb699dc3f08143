/**
 * The key-value blob store both storage files persist through, seen one key
 * at a time and as already-decoded values, plus the shape every operation's
 * specification takes.
 */
module Storage {
  import opened Wrappers

  /**
   * What `AsyncStorage.getItem(key)` yields once decoded: nothing (a missing
   * key, or the empty string, which the source's truthiness test treats the
   * same), a value that decodes to `T`, or a blob that does not.
   */
  datatype Blob<+T> = Absent | Stored(value: T) | Undecodable

  /** The exception `JSON.parse` (or a later access to the parsed value) throws on an undecodable blob. */
  datatype StoreError = DecodeFailed

  /**
   * Decoding a key's blob the way both `read()` and `getWatchlist()` do:
   * a missing key reads as `empty`, and nothing catches a decode failure.
   */
  function Load<T>(b: Blob<T>, empty: T): Result<T, StoreError> {
    match b
    case Absent => Ok(empty)
    case Stored(v) => Ok(v)
    case Undecodable => Err(DecodeFailed)
  }

  /**
   * The outcome of one read-modify-write operation on a decoded value: the
   * value the operation returns to its caller, and whether it writes that
   * value back to the store.
   */
  datatype Step<S> = Step(state: S, persist: bool)
}
