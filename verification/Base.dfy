/** Small types shared by every module. */
module Base {
  datatype Option<+T> = None | Some(value: T)

  datatype Result<+T, +E> = Ok(value: T) | Err(error: E)

  /** Go's uint64, the type of a customer id. */
  type uint64 = x: int | 0 <= x < 0x1_0000_0000_0000_0000

  /** Go's int64, the type of the expiry settings and of time.Duration. */
  type int64 = x: int | -0x8000_0000_0000_0000 <= x < 0x8000_0000_0000_0000

  /** Instants and durations are counted in nanoseconds. */
  const SECOND: int := 1_000_000_000

  /** The largest whole number of seconds a time.Duration holds. */
  const MAX_SECONDS: int := 9_223_372_036

  /** int64 arithmetic wraps. */
  function Wrap(x: int): (r: int64)
    ensures exists m: int :: r == x - m * 0x1_0000_0000_0000_0000
  {
    var r := (x + 0x8000_0000_0000_0000) % 0x1_0000_0000_0000_0000 - 0x8000_0000_0000_0000;
    assert r == x - ((x + 0x8000_0000_0000_0000) / 0x1_0000_0000_0000_0000) * 0x1_0000_0000_0000_0000;
    r
  }

  /** time.Duration(e) * time.Second. */
  function Seconds(e: int64): int64
  {
    Wrap(e * SECOND)
  }

  /** A duration is exact precisely up to MAX_SECONDS either way; beyond it is off by whole multiples of 2^64 ns. */
  lemma SecondsExact(e: int64)
    ensures Seconds(e) == e * SECOND <==> -MAX_SECONDS <= e <= MAX_SECONDS
    ensures e > MAX_SECONDS ==> Seconds(e) <= e * SECOND - 0x1_0000_0000_0000_0000
  {
    var m: int :| Seconds(e) == e * SECOND - m * 0x1_0000_0000_0000_0000;
    if e > MAX_SECONDS {
      assert m >= 1;
    }
  }
}
