/** How long Redis keeps an entry: getRandomExpiration, and what go-redis makes of its result. */
module Expiry {
  import opened Base

  /** redsync.WithExpiry(5 * time.Second): how long a mutex is kept. */
  const LEASE: int := 5 * SECOND

  /** rand.Int63n(10): the extra seconds an entry may be given. */
  const JITTER: nat := 10

  /** getRandomExpiration: both the sum and the product are int64 arithmetic. */
  function RandomExpiration(expiration: int64, jitter: nat): int64
    requires jitter < JITTER
  {
    Seconds(Wrap(expiration + jitter))
  }

  /** The time to live that a Set asks for; go-redis sends none when the duration is not positive. */
  function TimeToLive(expiration: int64, jitter: nat): Option<int>
    requires jitter < JITTER
  {
    var d := RandomExpiration(expiration, jitter);
    if d > 0 then Some(d) else None
  }

  /** Every Set asks for some time to live. */
  predicate AlwaysExpires(expiration: int64)
  {
    forall j: nat :: j < JITTER ==> TimeToLive(expiration, j).Some?
  }

  /** The longest time to live a Set may ask for, over the first n extra seconds. */
  function Longest(expiration: int64, n: nat): (r: int)
    requires n <= JITTER
    ensures 0 <= r
  {
    if n == 0 then 0
    else
      var before, d := Longest(expiration, n - 1), RandomExpiration(expiration, n - 1);
      if before < d then d else before
  }

  lemma {:induction false} LongestIsLongest(expiration: int64, n: nat)
    requires n <= JITTER
    ensures forall j: nat :: j < n ==> RandomExpiration(expiration, j) <= Longest(expiration, n)
    ensures Longest(expiration, n) > 0 ==>
              exists j: nat :: j < n && TimeToLive(expiration, j) == Some(Longest(expiration, n))
  {
    if n == 0 {
    } else {
      LongestIsLongest(expiration, n - 1);
      if Longest(expiration, n) > Longest(expiration, n - 1) {
        assert TimeToLive(expiration, n - 1) == Some(Longest(expiration, n));
      }
    }
  }

  ghost predicate IsLongestLife(expiration: int64, x: int)
  {
    && 0 <= x && (forall j: nat :: j < JITTER ==> RandomExpiration(expiration, j) <= x)
    && (x > 0 ==> exists j: nat :: j < JITTER && TimeToLive(expiration, j) == Some(x))
  }

  /** The longest time to live a Set may ask for. */
  ghost function LongestLife(expiration: int64): (x: int)
    ensures IsLongestLife(expiration, x)
  {
    LongestIsLongest(expiration, JITTER);
    assert IsLongestLife(expiration, Longest(expiration, JITTER));
    var x :| IsLongestLife(expiration, x);
    x
  }

  lemma LongestIsPositive(expiration: int64) returns (j: nat)
    requires AlwaysExpires(expiration)
    ensures LongestLife(expiration) > 0
    ensures j < JITTER && TimeToLive(expiration, j) == Some(LongestLife(expiration))
  {
    assert TimeToLive(expiration, 0).Some?;
    assert RandomExpiration(expiration, 0) <= LongestLife(expiration);
    j :| j < JITTER && TimeToLive(expiration, j) == Some(LongestLife(expiration));
  }

  /** The setting is at least one second and no jitter takes it past what a Duration holds. */
  predicate Fits(expiration: int64)
  {
    1 <= expiration && expiration + JITTER - 1 <= MAX_SECONDS
  }

  predicate InSeconds(expiration: int64, jitter: nat)
    requires jitter < JITTER
  {
    TimeToLive(expiration, jitter) == Some((expiration + jitter) * SECOND)
  }

  lemma JitterIsExact(expiration: int64, jitter: nat)
    requires jitter < JITTER && -MAX_SECONDS <= expiration + jitter <= MAX_SECONDS
    ensures RandomExpiration(expiration, jitter) == (expiration + jitter) * SECOND
  {
    SecondsExact(expiration + jitter);
  }

  lemma FittingIsExact(expiration: int64, jitter: nat)
    requires Fits(expiration) && jitter < JITTER
    ensures InSeconds(expiration, jitter)
    ensures RandomExpiration(expiration, jitter) == (expiration + jitter) * SECOND
  {
    JitterIsExact(expiration, jitter);
  }

  lemma FittingLongest(expiration: int64)
    requires Fits(expiration)
    ensures AlwaysExpires(expiration) && LongestLife(expiration) == (expiration + JITTER - 1) * SECOND
  {
    forall j: nat | j < JITTER ensures TimeToLive(expiration, j).Some? { FittingIsExact(expiration, j); }
    var j := LongestIsPositive(expiration);
    FittingIsExact(expiration, j);
    FittingIsExact(expiration, JITTER - 1);
    assert RandomExpiration(expiration, JITTER - 1) <= LongestLife(expiration);
  }

  /** Too large a setting: with the largest jitter the product wraps below what was asked for. */
  lemma TooLarge(expiration: int64)
    requires expiration + JITTER - 1 > MAX_SECONDS
    ensures exists j: nat :: j < JITTER && !InSeconds(expiration, j)
  {
    if expiration > MAX_SECONDS {
      assert !InSeconds(expiration, 0);
    } else {
      SecondsExact(expiration + JITTER - 1);
      assert !InSeconds(expiration, JITTER - 1);
    }
  }

  /**
    Every Set asks for the configured seconds plus its jitter, hence for E to E + 9 seconds, if and only if
    the setting fits. A setting of zero, or one whose product wraps, can store entries without any expiry.
   */
  lemma ExpiryInRangeExactly(expiration: int64)
    ensures (forall j: nat :: j < JITTER ==> InSeconds(expiration, j)) <==> Fits(expiration)
    ensures Fits(expiration) ==>
              AlwaysExpires(expiration) && LongestLife(expiration) == (expiration + JITTER - 1) * SECOND
  {
    if Fits(expiration) {
      forall j: nat | j < JITTER ensures InSeconds(expiration, j) { FittingIsExact(expiration, j); }
      FittingLongest(expiration);
    } else if expiration < 1 {
      assert !InSeconds(expiration, 0);
    } else {
      TooLarge(expiration);
    }
  }

  lemma WrapsToNone(expiration: int64)
    requires expiration <= MAX_SECONDS < expiration + JITTER - 1
    ensures TimeToLive(expiration, JITTER - 1).None?
  {
    SecondsExact(expiration + JITTER - 1);
  }

  lemma NothingToNone(expiration: int64)
    requires -MAX_SECONDS <= expiration < 1
    ensures TimeToLive(expiration, 0).None?
  {
    JitterIsExact(expiration, 0);
  }

  /** For every setting whose own duration is exact, each Set asks for an expiry precisely when the setting fits. */
  lemma AlwaysExpiresExactly(expiration: int64)
    requires -MAX_SECONDS <= expiration <= MAX_SECONDS
    ensures AlwaysExpires(expiration) <==> Fits(expiration)
  {
    if Fits(expiration) {
      FittingLongest(expiration);
    } else if expiration < 1 {
      NothingToNone(expiration);
    } else {
      WrapsToNone(expiration);
    }
  }

  /** Zero asks for no expiry, and so does the first setting that wraps. */
  lemma SomeSettingsNeverExpire()
    ensures TimeToLive(0, 0).None? && TimeToLive(MAX_SECONDS - 8, 9).None?
  {
    SecondsExact(MAX_SECONDS + 1);
  }
}
