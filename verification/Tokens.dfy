/** JSON web tokens: minting with Go's int64 durations, parsing with golang-jwt's error bits, the two gates. */
module Tokens {
  import opened Base

  /** exp is the NumericDate of section 4.1.4 of RFC 7519: whole seconds. */
  datatype Claims = Claims(customer: uint64, refresh: bool, exp: int)

  /** A presented string: not a token, or a signed one whose algorithm may not be an HMAC. */
  datatype Wire = Malformed | Signed(hmac: bool, secret: string, claims: Claims)

  datatype Flag = MalformedFlag | UnverifiableFlag | SignatureFlag | ExpiredFlag

  datatype AuthError = InvalidToken | TokenExpired

  datatype AuthResponse = AuthResponse(customer: uint64, expired: bool)

  datatype ServiceError = Infrastructure | CustomerNotFound | CustomerInactive | AuthenticationFailed

  datatype Pair = Pair(access: Claims, refresh: Claims)

  function NewClaims(customer: uint64, now: int, e: int64, refresh: bool): Claims
  {
    Claims(customer, refresh, (now + Seconds(e)) / SECOND)
  }

  function NewPair(customer: uint64, now: int, accessExpiry: int64, refreshExpiry: int64): Pair
  {
    Pair(NewClaims(customer, now, accessExpiry, false), NewClaims(customer, now, refreshExpiry, true))
  }

  /** The error bits of ParseWithClaims; claims are validated before the signature, both bits may be set. */
  function ParseErrors(secret: string, w: Wire, now: int): set<Flag>
  {
    if w.Malformed? then {MalformedFlag}
    else if !w.hmac then {UnverifiableFlag}
    else
      (if now < w.claims.exp * SECOND then {} else {ExpiredFlag}) +
      (if w.secret == secret then {} else {SignatureFlag})
  }

  function Auth(secret: string, w: Wire, now: int): Result<AuthResponse, AuthError>
  {
    var errors := ParseErrors(secret, w, now);
    if errors == {ExpiredFlag} then Ok(AuthResponse(0, true))
    else if errors != {} then Err(InvalidToken)
    else if w.claims.refresh then Err(InvalidToken)
    else Ok(AuthResponse(w.claims.customer, false))
  }

  /** RefreshToken up to its repository call: the customer to look up, or the error to return. */
  function RefreshGate(secret: string, w: Wire, now: int): Result<uint64, AuthError>
  {
    var errors := ParseErrors(secret, w, now);
    if errors == {ExpiredFlag} then Err(TokenExpired)
    else if errors != {} then Err(InvalidToken)
    else if !w.claims.refresh then Err(InvalidToken)
    else Ok(w.claims.customer)
  }

  /** Login after its repository call: whom to mint for, or the error to return. */
  function LoginDecision(exist: bool, id: uint64, active: bool, passwordMatches: bool): Result<uint64, ServiceError>
  {
    if !exist then Err(CustomerNotFound)
    else if !active then Err(CustomerInactive)
    else if passwordMatches then Ok(id)
    else Err(AuthenticationFailed)
  }

  /** RefreshToken after its repository call. */
  function RefreshDecision(customer: uint64, exist: bool, active: bool): Result<uint64, ServiceError>
  {
    if !exist then Err(CustomerNotFound)
    else if !active then Err(CustomerInactive)
    else Ok(customer)
  }

  function Present(secret: string, c: Claims): Wire
  {
    Signed(true, secret, c)
  }

  ghost predicate LiveAt(c: Claims, now: int)
  {
    now < c.exp * SECOND
  }

  /** exp is the whole second at or just below the requested instant. */
  lemma ExpWithinASecond(customer: uint64, now: int, e: int64, refresh: bool)
    ensures var x := NewClaims(customer, now, e, refresh).exp * SECOND; x <= now + Seconds(e) < x + SECOND
  {
  }

  /**
    The round trip: a token asked to live e >= 1 seconds is live at every instant up to e - 1 seconds
    after minting exactly when the duration does not wrap, and then it is dead from e seconds on.
   */
  lemma MintedLifetime(customer: uint64, t0: int, e: int64, refresh: bool)
    requires 1 <= e
    ensures (forall t :: t <= t0 + (e - 1) * SECOND ==> LiveAt(NewClaims(customer, t0, e, refresh), t))
            <==> e <= MAX_SECONDS
    ensures e <= MAX_SECONDS ==>
              forall t :: t >= t0 + e * SECOND ==> !LiveAt(NewClaims(customer, t0, e, refresh), t)
  {
    SecondsExact(e);
    ExpWithinASecond(customer, t0, e, refresh);
    if e > MAX_SECONDS {
      assert !LiveAt(NewClaims(customer, t0, e, refresh), t0 + (e - 1) * SECOND);
    }
  }

  /**
    What the two gates make of a minted pair. Before expiry each accepts its own kind as the customer it
    was minted for and refuses the other kind; after expiry both report expiry, whichever kind is shown.
   */
  lemma PairAtTheGates(secret: string, customer: uint64, t0: int, ea: int64, er: int64, t: int)
    requires 1 <= ea <= MAX_SECONDS && 1 <= er <= MAX_SECONDS
    ensures var p := NewPair(customer, t0, ea, er);
            var a, r := Present(secret, p.access), Present(secret, p.refresh);
            && (t <= t0 + (ea - 1) * SECOND ==>
                  Auth(secret, a, t) == Ok(AuthResponse(customer, false)) &&
                  RefreshGate(secret, a, t) == Err(InvalidToken))
            && (t <= t0 + (er - 1) * SECOND ==>
                  RefreshGate(secret, r, t) == Ok(customer) &&
                  Auth(secret, r, t) == Err(InvalidToken))
            && (t >= t0 + ea * SECOND ==>
                  Auth(secret, a, t) == Ok(AuthResponse(0, true)) &&
                  RefreshGate(secret, a, t) == Err(TokenExpired))
            && (t >= t0 + er * SECOND ==>
                  Auth(secret, r, t) == Ok(AuthResponse(0, true)) &&
                  RefreshGate(secret, r, t) == Err(TokenExpired))
  {
    MintedLifetime(customer, t0, ea, false);
    MintedLifetime(customer, t0, er, true);
  }

  /**
    A gate lets a string through exactly when it is an HMAC token under the service's own secret, of the
    gate's kind and not yet expired; it reports expiry exactly for our own expired tokens; and it calls
    everything else invalid.
   */
  lemma GatesExactly(secret: string, w: Wire, now: int, customer: uint64)
    ensures Auth(secret, w, now) == Ok(AuthResponse(customer, false)) <==>
            w.Signed? && w.hmac && w.secret == secret && LiveAt(w.claims, now) &&
            !w.claims.refresh && w.claims.customer == customer
    ensures Auth(secret, w, now) == Ok(AuthResponse(0, true)) <==>
            w.Signed? && w.hmac && w.secret == secret && !LiveAt(w.claims, now)
    ensures Auth(secret, w, now).Ok? && Auth(secret, w, now).value.expired ==> Auth(secret, w, now).value.customer == 0
    ensures Auth(secret, w, now).Err? ==> Auth(secret, w, now) == Err(InvalidToken)
    ensures RefreshGate(secret, w, now) == Ok(customer) <==>
            w.Signed? && w.hmac && w.secret == secret && LiveAt(w.claims, now) &&
            w.claims.refresh && w.claims.customer == customer
    ensures RefreshGate(secret, w, now) == Err(TokenExpired) <==>
            w.Signed? && w.hmac && w.secret == secret && !LiveAt(w.claims, now)
  {
    assert ExpiredFlag in {ExpiredFlag} && SignatureFlag !in {ExpiredFlag} && UnverifiableFlag !in {ExpiredFlag};
    assert SignatureFlag in {SignatureFlag} && MalformedFlag in {MalformedFlag} &&
      UnverifiableFlag in {UnverifiableFlag};
  }
}
