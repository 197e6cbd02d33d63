/** Types shared by both hash-ring variants: ring positions, the error kinds
    both packages declare, the node handle, and failure-carrying wrappers. */
module RingBase {

  /** Go's `uint64`: a ring position. */
  newtype uint64 = x: int | 0 <= x < 0x1_0000_0000_0000_0000

  datatype Option<+T> = None | Some(value: T)

  /** The four sentinel errors both packages declare; a returned error is
      identified by the sentinel it wraps (what `errors.Is` observes). */
  datatype Error = NoConnectedNodes | NodeExists | NodeNotFound | InHashingKey

  /** A value or the error kind that replaced it. */
  datatype Result<+R> = Ok(value: R) | Err(error: Error)

  /** The `error` result of an operation that returns nothing else, or a
      run-time panic raised before the operation changed anything. */
  datatype Status = Success | Failure(error: Error) | Panicked

  /** A cache node handle; the ring only ever asks it for its identifier. */
  datatype Node = Node(id: string)

  /** A configured hash function: hashing a string either yields a 64-bit
      position or fails (`hash.Write` returned an error). */
  type Hasher = string -> Option<uint64>
}
