/**
 * The chat's one entity, `Message`, and the outcome values the capability
 * interfaces return.
 *
 * A message is a datatype value: once built it cannot change, and the only
 * way to get a different message is to build a new one.
 */
module Domain {
  import opened Octets

  /** An instant, as nanoseconds since the Unix epoch (time.Time without its monotonic reading and zone). */
  type Time = int

  const Int64Min: int := -0x8000_0000_0000_0000
  const Int64Span: int := 0x1_0000_0000_0000_0000

  /** The instant of Go's zero `time.Time`, 0001-01-01 00:00:00 UTC. */
  const ZeroTime: Time := -62_135_596_800 * 1_000_000_000

  /** `domain.Message`: sender name, text and creation instant, the three JSON fields. */
  datatype Message = Message(sender: Bytes, content: Bytes, timestamp: Time)

  /** The zero value `var m domain.Message` that a failed unmarshal leaves behind. */
  const ZeroMessage: Message := Message([], [], ZeroTime)

  /**
   * `t.UnixNano()`: the nanosecond count computed in int64 arithmetic, so an
   * instant outside the years 1678..2262 wraps around.
   */
  function UnixNano(t: Time): (n: int)
    ensures Int64Min <= n < -Int64Min
    ensures (n - t) % Int64Span == 0
    ensures Int64Min <= t < -Int64Min ==> n == t
  {
    (t - Int64Min) % Int64Span + Int64Min
  }

  /** A Go `error` the model does not look inside, except Badger's "key not found". */
  datatype Error = KeyNotFound | Other(code: nat)

  /** A Go `error` return value: nil, or an error. */
  datatype Status = Ok | Err(error: Error)
}
