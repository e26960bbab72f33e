/** Authentication through the caches: positive answers are exact for ever, and so are the tokens built on them. */
module AuthAnswers {
  import opened Base
  import opened Keys
  import opened Customers
  import opened Tokens
  import opened CacheProtocol
  import opened Provenance

  /** At some moment so far the customer carried this email. */
  ghost predicate OnceHadEmail(s: World, id: uint64, email: string)
  {
    exists j :: 0 <= j < |s.hist| && id in s.hist[j].table && s.hist[j].table[id].personal.email == email
  }

  /**
    Under any interleaving, expiry or staleness, a positive answer anywhere in the system is true of the
    database now: a check names a customer with that active flag, and credentials carry the id, flag and
    hash of one customer, who carried the email asked for at some moment.
   */
  lemma PositiveAnswersStand(cfg: Config, run: Run, i: nat, k: Key, e: Stamped)
    requires IsRun(cfg, run) && i < |run.states| && Held(run.states[i], k, e)
    ensures k.CheckKey? && e.value.Check? && e.value.exist ==>
              CheckTrue(Database(run.states[i]), k.id, e.value.active)
    ensures k.CredKey? && e.value.Cred? && e.value.exist ==>
              CredTrue(Database(run.states[i]), e.value.id, e.value.active, e.value.hash) &&
              OnceHadEmail(run.states[i], e.value.id, k.email)
  {
    NoInventedValues(cfg, run, i, k, e);
    OrderlyAt(cfg, run, i);
    assert Preserved(run.states[i].hist[e.at].table, Database(run.states[i]));
  }

  /** The value of an account key is an account value, and so on: no request is handed another family's answer. */
  lemma AnswersFitTheirKeys(cfg: Config, run: Run, i: nat, k: Key, e: Stamped)
    requires IsRun(cfg, run) && i < |run.states| && Held(run.states[i], k, e)
    ensures match k
            case PersonalKey(_) => e.value.Personal?
            case ShippingKey(_) => e.value.Shipping?
            case CheckKey(_) => e.value.Check?
            case CredKey(_) => e.value.Cred?
  {
    NoInventedValues(cfg, run, i, k, e);
  }

  /** A login in the run that mints: the request, its answer and the customer. */
  ghost predicate LoginMints(cfg: Config, s: World, rid: nat, email: string, password: string, id: uint64)
  {
    && rid in s.readers && s.readers[rid].stage.Done?
    && s.readers[rid].purpose == Login(email, password)
    && Decision(cfg, s.readers[rid]) == Ok(id)
  }

  lemma {:induction false} LoginsReadCredentials(cfg: Config, run: Run, i: nat, rid: nat)
    requires IsRun(cfg, run) && i < |run.states| && rid in run.states[i].readers
    requires run.states[i].readers[rid].purpose.Login?
    ensures run.states[i].readers[rid].key == CredKey(run.states[i].readers[rid].purpose.email)
  {
    if i == 0 {
    } else {
      assert StepAt(cfg, run, i - 1);
      var s := run.states[i - 1];
      if rid in s.readers && s.readers[rid].purpose == run.states[i].readers[rid].purpose {
        LoginsReadCredentials(cfg, run, i - 1, rid);
      }
    }
  }

  /**
    Login soundness through the caches: whoever a login mints for exists and is active now, the password
    matches the customer's current hash, and the given email was the customer's at some moment.
   */
  lemma LoginIsSound(cfg: Config, run: Run, i: nat, rid: nat, email: string, password: string, id: uint64)
    requires IsRun(cfg, run) && i < |run.states|
    requires LoginMints(cfg, run.states[i], rid, email, password, id)
    ensures var t := Database(run.states[i]);
            CheckTrue(t, id, true) && cfg.matches(password, t[id].hash) && OnceHadEmail(run.states[i], id, email)
  {
    var r := run.states[i].readers[rid];
    LoginsReadCredentials(cfg, run, i, rid);
    assert ReaderHolds(run.states[i], rid, r.key, r.stage.out.e);
    PositiveAnswersStand(cfg, run, i, r.key, r.stage.out.e);
  }

  /** There is a customer with this email who is active or not, and whose hash the password matches or not. */
  ghost predicate Somebody(t: Table, email: string, active: bool, password: string,
                           matches: (string, string) -> bool, matching: bool, id: uint64)
  {
    CheckTrue(t, id, active) && t[id].personal.email == email && matches(password, t[id].hash) == matching
  }

  /**
    A finished login decides by the table as it was when the database gave the answer in its hands: it mints
    exactly for the active customer who then had the email, if the password matches, and else it says which of
    the three was not so.
   */
  lemma LoginDecidesByTable(cfg: Config, run: Run, i: nat, rid: nat, email: string, password: string, e: Stamped)
    requires IsRun(cfg, run) && i < |run.states| && rid in run.states[i].readers
    requires run.states[i].readers[rid].purpose == Login(email, password)
    requires run.states[i].readers[rid].stage == Done(Got(e))
    ensures e.at < |run.states[i].hist|
    ensures var t := run.states[i].hist[e.at].table;
            var decision := Decision(cfg, run.states[i].readers[rid]);
            && (forall id: uint64 :: decision == Ok(id) <==> Somebody(t, email, true, password, cfg.matches, true, id))
            && (decision == Err(CustomerNotFound) <==> !HasEmail(t, email))
            && (decision == Err(CustomerInactive) <==>
                  exists id :: CheckTrue(t, id, false) && t[id].personal.email == email)
            && (decision == Err(AuthenticationFailed) <==>
                  exists id :: Somebody(t, email, true, password, cfg.matches, false, id))
  {
    var s := run.states[i];
    LoginsReadCredentials(cfg, run, i, rid);
    assert ReaderHolds(s, rid, CredKey(email), e);
    NoInventedValues(cfg, run, i, CredKey(email), e);
    UniqueAt(cfg, run, i, e.at);
    var t := s.hist[e.at].table;
    if HasEmail(t, email) {
      var id :| id in t && t[id].personal.email == email;
      CredAnswer(t, email, id);
      assert Somebody(t, email, t[id].active, password, cfg.matches, cfg.matches(password, t[id].hash), id);
    }
  }

  /** Every table of the history is unique. */
  lemma {:induction false} UniqueAt(cfg: Config, run: Run, i: nat, j: nat)
    requires IsRun(cfg, run) && i < |run.states| && j < |run.states[i].hist|
    ensures Unique(run.states[i].hist[j].table)
  {
    OrderlyAt(cfg, run, i);
    if j == |run.states[i].hist| - 1 {
    } else if i == 0 {
    } else {
      assert StepAt(cfg, run, i - 1);
      UniqueAt(cfg, run, i - 1, j);
    }
  }

  /** Likewise a finished refresh decides by the table of its answer. */
  lemma RefreshDecidesByTable(cfg: Config, run: Run, i: nat, rid: nat, e: Stamped)
    requires IsRun(cfg, run) && i < |run.states| && rid in run.states[i].readers
    requires run.states[i].readers[rid].purpose.Refresh? && run.states[i].readers[rid].stage == Done(Got(e))
    ensures e.at < |run.states[i].hist|
    ensures var t := run.states[i].hist[e.at].table;
            var r := run.states[i].readers[rid];
            && r.key.CheckKey?
            && (Decision(cfg, r) == Ok(r.key.id) <==> CheckTrue(t, r.key.id, true))
            && (Decision(cfg, r) == Err(CustomerNotFound) <==> r.key.id !in t)
            && (Decision(cfg, r) == Err(CustomerInactive) <==> CheckTrue(t, r.key.id, false))
  {
    AccountableAt(cfg, run, i);
    assert Refreshes(run.states[i], rid);
    var r := run.states[i].readers[rid];
    assert ReaderHolds(run.states[i], rid, r.key, e);
    NoInventedValues(cfg, run, i, r.key, e);
  }

  // ---- Tokens

  ghost predicate Refreshes(s: World, rid: nat)
  {
    rid in s.readers && s.readers[rid].purpose.Refresh? ==>
      var r := s.readers[rid];
      && r.purpose.token < |s.tokens|
      && s.tokens[r.purpose.token].claims.refresh
      && r.key == CheckKey(s.tokens[r.purpose.token].claims.customer)
  }

  ghost predicate TokenGood(s: World, t: nat)
    requires Sane(s)
  {
    t < |s.tokens| ==>
      && CheckTrue(Database(s), s.tokens[t].claims.customer, true)
      && (s.tokens[t].parent.Some? ==>
            var p := s.tokens[t].parent.value;
            p < t && s.tokens[p].claims.refresh && s.tokens[p].claims.customer == s.tokens[t].claims.customer)
  }

  ghost predicate SignupGood(s: World, sid: nat)
    requires Sane(s)
  {
    sid in s.signups ==> CheckTrue(Database(s), s.signups[sid], true)
  }

  ghost predicate Accountable(s: World)
    requires Sane(s)
  {
    && (forall rid: nat :: Refreshes(s, rid))
    && (forall t: nat :: TokenGood(s, t))
    && (forall sid: nat :: SignupGood(s, sid))
  }

  /** Whoever a finished request mints for is in the database, active; a refresh mints for its token's customer. */
  lemma MintedForCustomer(cfg: Config, run: Run, i: nat, rid: nat)
    requires IsRun(cfg, run) && i < |run.states| && rid in run.states[i].readers
    requires run.states[i].readers[rid].stage.Done? && Decision(cfg, run.states[i].readers[rid]).Ok?
    ensures var s := run.states[i]; var r := s.readers[rid];
            && CheckTrue(Database(s), Decision(cfg, r).value, true)
            && (r.purpose.Refresh? ==> r.key == CheckKey(Decision(cfg, r).value))
  {
    var s := run.states[i];
    var r := s.readers[rid];
    assert ReaderHolds(s, rid, r.key, r.stage.out.e);
    if r.purpose.Login? { LoginsReadCredentials(cfg, run, i, rid); }
    PositiveAnswersStand(cfg, run, i, r.key, r.stage.out.e);
  }

  lemma RefreshesStep(cfg: Config, s: World, l: Label, rid: nat)
    requires Sane(s) && Enabled(cfg, s, l) && Refreshes(s, rid)
    ensures Refreshes(Next(cfg, s, l), rid)
  {
    if l.Start? && l.rid == rid && l.purpose.Refresh? {
      GatesExactly(cfg.secret, Present(cfg.secret, s.tokens[l.purpose.token].claims), Clock(s), l.key.id);
    }
  }

  lemma TokenGoodStep(cfg: Config, run: Run, i: nat, t: nat)
    requires IsRun(cfg, run) && i < |run.labels| && Accountable(run.states[i])
    ensures TokenGood(run.states[i + 1], t)
  {
    var s, l := run.states[i], run.labels[i];
    assert StepAt(cfg, run, i);
    OrderlyAt(cfg, run, i);
    OrderlyStep(cfg, s, l);
    assert TokenGood(s, t);
    if t < |s.tokens| {
      assert TokensAfter(cfg, s, l)[t] == s.tokens[t];
    } else if l.Grant? {
      assert SignupGood(s, l.sid);
    } else if l.Finish? && Decision(cfg, s.readers[l.rid]).Ok? {
      MintedForCustomer(cfg, run, i, l.rid);
      assert Refreshes(s, l.rid);
    }
  }

  lemma SignupGoodStep(cfg: Config, s: World, l: Label, sid: nat)
    requires Orderly(s) && Enabled(cfg, s, l) && SignupGood(s, sid)
    ensures SignupGood(Next(cfg, s, l), sid)
  {
    OrderlyStep(cfg, s, l);
  }

  lemma {:induction false} AccountableAt(cfg: Config, run: Run, i: nat)
    requires IsRun(cfg, run) && i < |run.states|
    ensures Accountable(run.states[i])
  {
    if i == 0 {
    } else {
      assert StepAt(cfg, run, i - 1);
      var s, l, u := run.states[i - 1], run.labels[i - 1], run.states[i];
      AccountableAt(cfg, run, i - 1);
      OrderlyAt(cfg, run, i - 1);
      forall rid: nat ensures Refreshes(u, rid) { RefreshesStep(cfg, s, l, rid); }
      forall t: nat ensures TokenGood(u, t) { TokenGoodStep(cfg, run, i - 1, t); }
      forall sid: nat ensures SignupGood(u, sid) { SignupGoodStep(cfg, s, l, sid); }
    }
  }

  /** The token a refresh chain started from. */
  ghost function Root(s: World, t: nat): (r: nat)
    requires Sane(s) && t < |s.tokens| && forall u: nat :: TokenGood(s, u)
    ensures r <= t
    decreases t
  {
    assert TokenGood(s, t);
    if s.tokens[t].parent.None? then t else Root(s, s.tokens[t].parent.value)
  }

  lemma {:induction false} ChainKeepsCustomer(s: World, t: nat)
    requires Sane(s) && t < |s.tokens| && forall u: nat :: TokenGood(s, u)
    ensures s.tokens[Root(s, t)].parent.None?
    ensures s.tokens[Root(s, t)].claims.customer == s.tokens[t].claims.customer
    decreases t
  {
    assert TokenGood(s, t);
    if s.tokens[t].parent.None? {
    } else {
      ChainKeepsCustomer(s, s.tokens[t].parent.value);
    }
  }

  /**
    In every run every token ever minted names a customer who is in the database and active now, and every
    chain of refreshes keeps the customer its first login or sign-up was for.
   */
  lemma TokensNameActiveCustomers(cfg: Config, run: Run, i: nat, t: nat)
    requires IsRun(cfg, run) && i < |run.states| && t < |run.states[i].tokens|
    ensures forall u: nat :: TokenGood(run.states[i], u)
    ensures var s := run.states[i]; var c := s.tokens[t].claims.customer;
            && CheckTrue(Database(s), c, true)
            && s.tokens[Root(s, t)].parent.None?
            && s.tokens[Root(s, t)].claims.customer == c
  {
    AccountableAt(cfg, run, i);
    assert TokenGood(run.states[i], t);
    ChainKeepsCustomer(run.states[i], t);
  }

  /** Every string that carries the service's own signature is a token minted in this run. */
  ghost predicate OnlyMinted(cfg: Config, s: World, w: Wire)
  {
    w.Signed? && w.secret == cfg.secret ==> exists t :: 0 <= t < |s.tokens| && s.tokens[t].claims == w.claims
  }

  /** So whoever Auth accepts a string for, in any run at any moment, is in the database and active right now. */
  lemma WhoIsAuthenticatedIsActive(cfg: Config, run: Run, i: nat, w: Wire, customer: uint64)
    requires IsRun(cfg, run) && i < |run.states| && OnlyMinted(cfg, run.states[i], w)
    requires Auth(cfg.secret, w, Clock(run.states[i])) == Ok(AuthResponse(customer, false))
    ensures CheckTrue(Database(run.states[i]), customer, true)
  {
    var s := run.states[i];
    GatesExactly(cfg.secret, w, Clock(s), customer);
    var t :| 0 <= t < |s.tokens| && s.tokens[t].claims == w.claims;
    AccountableAt(cfg, run, i);
    assert TokenGood(s, t);
  }

  /** This step mints a pair for the customer: after a sign-up, or when a login or refresh returns. */
  ghost predicate Mints(cfg: Config, s: World, l: Label, customer: uint64)
  {
    || (l.Grant? && l.sid in s.signups && s.signups[l.sid] == customer)
    || (l.Finish? && l.rid in s.readers && s.readers[l.rid].stage.Done? &&
        Decision(cfg, s.readers[l.rid]) == Ok(customer))
  }

  /** Tokens come into being in no other way, and a refreshed pair remembers the token it was refreshed with. */
  lemma TokensAreMintedExactly(cfg: Config, s: World, l: Label)
    requires Sane(s) && Enabled(cfg, s, l)
    ensures Next(cfg, s, l).tokens != s.tokens <==> exists c :: Mints(cfg, s, l, c)
    ensures forall c :: Mints(cfg, s, l, c) ==>
              var t, n := Next(cfg, s, l), |s.tokens|;
              var p := NewPair(c, Clock(s), cfg.accessExpiry, cfg.refreshExpiry);
              var parent := if l.Finish? && s.readers[l.rid].purpose.Refresh?
                            then Some(s.readers[l.rid].purpose.token) else None;
              t.tokens == s.tokens + [Minted(p.access, parent), Minted(p.refresh, parent)]
  {
    if l.Grant? {
      assert Mints(cfg, s, l, s.signups[l.sid]);
    } else if l.Finish? && Decision(cfg, s.readers[l.rid]).Ok? {
      assert Mints(cfg, s, l, Decision(cfg, s.readers[l.rid]).value);
    }
  }

  lemma {:induction false} TokensAreKept(cfg: Config, run: Run, i: nat, j: nat)
    requires IsRun(cfg, run) && i <= j < |run.states|
    ensures run.states[i].tokens <= run.states[j].tokens
    decreases j
  {
    if i == j {
    } else {
      assert StepAt(cfg, run, j - 1);
      TokensAreKept(cfg, run, i, j - 1);
    }
  }

  /**
    A pair minted at one step is honoured at every later state of the run: the access token by Auth and the
    refresh token by RefreshToken's gate, each as that customer until a second before its expiry and as
    expired from its expiry on, and the customer is in the database and active all along.
   */
  lemma MintedPairsAreHonoured(cfg: Config, run: Run, i: nat, j: nat, customer: uint64)
    requires IsRun(cfg, run) && i < j < |run.states| && Mints(cfg, run.states[i], run.labels[i], customer)
    requires 1 <= cfg.accessExpiry <= MAX_SECONDS && 1 <= cfg.refreshExpiry <= MAX_SECONDS
    ensures var s, t := run.states[i], run.states[j];
            var n, age := |s.tokens|, Clock(t) - Clock(s);
            && n + 1 < |t.tokens|
            && var a, r := Present(cfg.secret, t.tokens[n].claims), Present(cfg.secret, t.tokens[n + 1].claims);
            && CheckTrue(Database(t), customer, true)
            && (age <= (cfg.accessExpiry - 1) * SECOND ==>
                  Auth(cfg.secret, a, Clock(t)) == Ok(AuthResponse(customer, false)))
            && (age >= cfg.accessExpiry * SECOND ==> Auth(cfg.secret, a, Clock(t)) == Ok(AuthResponse(0, true)))
            && (age <= (cfg.refreshExpiry - 1) * SECOND ==> RefreshGate(cfg.secret, r, Clock(t)) == Ok(customer))
            && (age >= cfg.refreshExpiry * SECOND ==> RefreshGate(cfg.secret, r, Clock(t)) == Err(TokenExpired))
  {
    var s, t := run.states[i], run.states[j];
    var n := |s.tokens|;
    assert StepAt(cfg, run, i);
    TokensAreKept(cfg, run, i + 1, j);
    var p := NewPair(customer, Clock(s), cfg.accessExpiry, cfg.refreshExpiry);
    assert run.states[i + 1].tokens[n].claims == p.access && run.states[i + 1].tokens[n + 1].claims == p.refresh;
    AccountableAt(cfg, run, j);
    assert TokenGood(t, n);
    PairAtTheGates(cfg.secret, customer, Clock(s), cfg.accessExpiry, cfg.refreshExpiry, Clock(t));
  }

  // ---- The closed system: the only checks of customers are those of RefreshToken

  ghost predicate Closed(cfg: Config, run: Run)
  {
    IsRun(cfg, run) && forall i :: 0 <= i < |run.labels| ==> !OutsideCheck(run.labels[i])
  }

  ghost predicate OutsideCheck(l: Label)
  {
    l.Start? && l.key.CheckKey? && l.purpose.Browse?
  }

  lemma {:induction false} ChecksAreRefreshes(cfg: Config, run: Run, i: nat, rid: nat)
    requires Closed(cfg, run) && i < |run.states| && rid in run.states[i].readers
    requires run.states[i].readers[rid].key.CheckKey?
    ensures run.states[i].readers[rid].purpose.Refresh?
  {
    if i == 0 {
    } else {
      assert StepAt(cfg, run, i - 1);
      assert !OutsideCheck(run.labels[i - 1]);
      var s := run.states[i - 1];
      if rid in s.readers && s.readers[rid].purpose == run.states[i].readers[rid].purpose
         && s.readers[rid].key == run.states[i].readers[rid].key {
        ChecksAreRefreshes(cfg, run, i - 1, rid);
      }
    }
  }

  /** In a closed run no negative check, and no check of an inactive customer, is ever stored or in hand anywhere. */
  lemma {:induction false} ChecksArePositive(cfg: Config, run: Run, i: nat, id: uint64, e: Stamped)
    requires Closed(cfg, run) && i < |run.states| && Held(run.states[i], CheckKey(id), e)
    ensures e.value == Check(true, true)
  {
    if i == 0 {
    } else {
      assert StepAt(cfg, run, i - 1);
      var s, l := run.states[i - 1], run.labels[i - 1];
      Flow(cfg, s, l, CheckKey(id), e);
      if Held(s, CheckKey(id), e) {
        ChecksArePositive(cfg, run, i - 1, id, e);
      } else {
        ChecksAreRefreshes(cfg, run, i - 1, l.rid);
        AccountableAt(cfg, run, i - 1);
        assert Refreshes(s, l.rid) && TokenGood(s, s.readers[l.rid].purpose.token);
      }
    }
  }

  /** A check query always has an answer. */
  lemma {:induction false} ChecksAreFound(cfg: Config, run: Run, i: nat, rid: nat)
    requires IsRun(cfg, run) && i < |run.states| && rid in run.states[i].readers
    requires run.states[i].readers[rid].key.CheckKey? || run.states[i].readers[rid].key.CredKey?
    ensures run.states[i].readers[rid].stage != Leave(NotFound) && run.states[i].readers[rid].stage != Done(NotFound)
  {
    if i == 0 {
    } else {
      assert StepAt(cfg, run, i - 1);
      var s := run.states[i - 1];
      if rid in s.readers && s.readers[rid].key == run.states[i].readers[rid].key {
        ChecksAreFound(cfg, run, i - 1, rid);
      }
    }
  }

  /** At step j the call of request rid for its mutex, or to the database, failed, and the request still runs at i. */
  ghost predicate FailedAt(run: Run, j: nat, i: nat, rid: nat)
    requires j < i <= |run.labels| < |run.states|
  {
    && (run.labels[j] == Step(rid, AcquireFail) || run.labels[j] == Step(rid, QueryFail))
    && forall m :: j <= m <= i ==> rid in run.states[m].readers
  }

  ghost predicate CallFailed(run: Run, i: nat, rid: nat)
    requires i <= |run.labels| < |run.states|
  {
    exists j :: 0 <= j < i && FailedAt(run, j, i, rid)
  }

  /** A request fails only when its Lock or its database query did: failures of Redis and local calls are survived. */
  lemma {:induction false} FailuresAreCalls(cfg: Config, run: Run, i: nat, rid: nat)
    requires IsRun(cfg, run) && i < |run.states| && rid in run.states[i].readers
    requires run.states[i].readers[rid].stage == Leave(Failed) || run.states[i].readers[rid].stage == Done(Failed)
    ensures CallFailed(run, i, rid)
  {
    if i == 0 {
    } else {
      assert StepAt(cfg, run, i - 1);
      var s, l := run.states[i - 1], run.labels[i - 1];
      if l == Step(rid, AcquireFail) || l == Step(rid, QueryFail) {
        assert FailedAt(run, i - 1, i, rid);
      } else {
        FailuresAreCalls(cfg, run, i - 1, rid);
        var j :| 0 <= j < i - 1 && FailedAt(run, j, i - 1, rid);
        assert FailedAt(run, j, i, rid);
      }
    }
  }

  /**
    In a closed run, RefreshToken on a token that verifies and is not expired either mints for that token's
    customer or fails after its own call for the mutex or to the database failed.
   */
  lemma RefreshFailsOnlyByInfrastructure(cfg: Config, run: Run, i: nat, rid: nat)
    requires Closed(cfg, run) && i < |run.states| && rid in run.states[i].readers
    requires run.states[i].readers[rid].purpose.Refresh? && run.states[i].readers[rid].stage.Done?
    ensures var s := run.states[i]; var r := s.readers[rid];
            && r.purpose.token < |s.tokens|
            && ((r.stage.out == Failed && CallFailed(run, i, rid)) ||
                Decision(cfg, r) == Ok(s.tokens[r.purpose.token].claims.customer))
  {
    var s := run.states[i];
    var r := s.readers[rid];
    AccountableAt(cfg, run, i);
    assert Refreshes(s, rid);
    ChecksAreFound(cfg, run, i, rid);
    if r.stage.out.Failed? {
      FailuresAreCalls(cfg, run, i, rid);
    } else if r.stage.out.Got? {
      assert ReaderHolds(s, rid, r.key, r.stage.out.e);
      ChecksArePositive(cfg, run, i, r.key.id, r.stage.out.e);
    }
  }
}
