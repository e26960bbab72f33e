/** JWTAuthService: authentication, sign-up, login and refresh over the cached repository. */
module AuthService {
  import opened Base
  import opened Keys
  import opened Customers
  import opened Tokens
  import opened Repositories
  import opened Cluster
  import opened AuthProxy

  /** A service call fails at its token, in its own decision, or in the repository underneath. */
  datatype Failure = AtGate(gate: AuthError) | AtService(service: ServiceError) | InRepository(repo: RepoError) | NoId

  /** On the database's own answer for the email, Login decides as the table says. */
  lemma LoginFollowsTable(t: Table, email: string, password: string, c: Value, matches: (string, string) -> bool)
    requires Unique(t) && c.Cred? && Answer(t, CredKey(email)) == Some(c)
    ensures var decision := LoginDecision(c.exist, c.id, c.active, matches(password, c.hash));
            && (decision.Ok? <==>
                  exists id :: CheckTrue(t, id, true) && t[id].personal.email == email && matches(password, t[id].hash))
            && (decision == Err(CustomerNotFound) <==> !HasEmail(t, email))
            && (decision == Err(CustomerInactive) <==>
                  exists id :: CheckTrue(t, id, false) && t[id].personal.email == email)
            && (decision == Err(AuthenticationFailed) <==>
                  exists id :: CheckTrue(t, id, true) && t[id].personal.email == email &&
                               !matches(password, t[id].hash))
  {
    CredAnswer(t, email, c.id);
    if c.exist {
      assert c.id in t && t[c.id].personal.email == email;
    }
  }

  /** And so does RefreshToken on the database's own answer for the customer its token names. */
  lemma RefreshFollowsTable(t: Table, id: uint64, c: Value)
    requires c.Check? && Answer(t, CheckKey(id)) == Some(c)
    ensures var decision := RefreshDecision(id, c.exist, c.active);
            && (decision.Ok? <==> CheckTrue(t, id, true)) && (decision.Ok? ==> decision.value == id)
            && (decision == Err(CustomerNotFound) <==> id !in t)
            && (decision == Err(CustomerInactive) <==> CheckTrue(t, id, false))
  {
  }

  class JWTAuthService {
    const secret: string
    const accessExpiry: int64
    const refreshExpiry: int64
    const repo: JWTAuthRepoCache

    constructor (secret: string, accessExpiry: int64, refreshExpiry: int64, repo: JWTAuthRepoCache)
      ensures this.secret == secret && this.accessExpiry == accessExpiry && this.refreshExpiry == refreshExpiry &&
              this.repo == repo
    {
      this.secret, this.accessExpiry, this.refreshExpiry, this.repo := secret, accessExpiry, refreshExpiry, repo;
    }

    /** The pair both decisions end in: its lifetimes are those of PairAtTheGates. */
    method NewTokenPair(customer: uint64, now: int) returns (p: Pair)
      ensures p == NewPair(customer, now, accessExpiry, refreshExpiry)
      ensures p.access.customer == p.refresh.customer == customer && !p.access.refresh && p.refresh.refresh
    {
      p := Pair(NewClaims(customer, now, accessExpiry, false), NewClaims(customer, now, refreshExpiry, true));
    }

    /** What the service returns for a decision. */
    function Outcome(decision: Result<uint64, ServiceError>, now: int): Result<Pair, Failure>
    {
      if decision.Ok? then Ok(NewPair(decision.value, now, accessExpiry, refreshExpiry))
      else Err(AtService(decision.error))
    }

    /** The repository fails a service call exactly when a Lock or the database did, and that is what is reported. */
    twostate predicate FailsBelow(r: Result<Pair, Failure>)
      reads repo, repo.account, repo.account.reader, repo.account.reader.rc, repo.account.reader.db
    {
      var reader := repo.account.reader;
      && (r == Err(InRepository(CacheError)) <==> reader.rc.refusals > old(reader.rc.refusals))
      && (r == Err(InRepository(DatabaseError)) <==> reader.db.faults > old(reader.db.faults))
      && r != Err(InRepository(NotFound)) && r != Err(InRepository(DuplicateEntry))
    }

    /**
      SignUp fills in the id and the active flag and creates the customer. Tokens come out only for the
      customer just created, who was not there before, is active, and whose hash matches the password.
     */
    method SignUp(customer: Customer, nextId: Option<uint64>, now: int, ghost nodes: set<LocalCacheCleaner>,
                  ghost excused: set<string>)
      returns (r: Result<Pair, Failure>)
      requires repo.Valid() && Coherent(repo.db, repo.rc, nodes, excused)
      modifies repo.db
      ensures Coherent(repo.db, repo.rc, nodes, excused)
      ensures r.Ok? ==>
                && nextId.Some? && nextId.value !in old(repo.db.rows) && CheckTrue(repo.db.rows, nextId.value, true)
                && repo.db.rows[nextId.value].personal == customer.personal
                && repo.db.rows[nextId.value].shipping == customer.shipping
                && repo.repo.matches(customer.password, repo.db.rows[nextId.value].hash)
                && repo.db.rows - {nextId.value} == old(repo.db.rows)
                && r.value == NewPair(nextId.value, now, accessExpiry, refreshExpiry)
      ensures nextId.None? ==> r == Err(NoId) && repo.db.rows == old(repo.db.rows)
      ensures nextId.Some? && repo.db.faults == old(repo.db.faults) ==>
                if Admissible(old(repo.db.rows), customer.(id := nextId.value)) then r.Ok?
                else r == Err(InRepository(DuplicateEntry)) && repo.db.rows == old(repo.db.rows)
    {
      if nextId.None? { return Err(NoId); }
      var c := customer.(id := nextId.value, active := true);
      var err := repo.CreateCustomer(c, nodes, excused);
      if err.Some? { return Err(InRepository(err.value)); }
      assert repo.db.rows - {nextId.value} == old(repo.db.rows);
      var p := NewTokenPair(c.id, now);
      r := Ok(p);
    }

    /** What Login does, and what it decides on. */
    method Decide(email: string, password: string, now: int,
                  ghost me: LocalCacheCleaner, ghost nodes: set<LocalCacheCleaner>, ghost excused: set<string>)
      returns (r: Result<Pair, Failure>)
      requires repo.Valid() && Coherent(repo.db, repo.rc, nodes, excused) && me in nodes &&
               me.lc == repo.account.reader.lc
      modifies repo.rc`store, repo.rc`faults, repo.rc`refusals, repo.account.reader.lc, repo.db`faults
      ensures Coherent(repo.db, repo.rc, nodes, excused)
      ensures r.Ok? ==>
                var id := r.value.access.customer;
                && CheckTrue(repo.db.rows, id, true) && repo.repo.matches(password, repo.db.rows[id].hash)
                && (id, email) in repo.db.emails
                && r.value == NewPair(id, now, accessExpiry, refreshExpiry)
      ensures r == Err(AtService(CustomerInactive)) ==> exists id :: CheckTrue(repo.db.rows, id, false)
      ensures r == Err(AtService(AuthenticationFailed)) ==>
                exists id :: CheckTrue(repo.db.rows, id, true) && !repo.repo.matches(password, repo.db.rows[id].hash)
      ensures repo.account.reader.Quiet(CredKey(email)) ==>
                var seen := repo.account.reader.Seen(CredKey(email));
                && seen.Some? && seen.value.Cred?
                && var c := seen.value;
                   r == Outcome(LoginDecision(c.exist, c.id, c.active, repo.repo.matches(password, c.hash)), now)
      ensures FailsBelow(r) && (r.Ok? || r.error.AtService? || r.error.InRepository?)
    {
      var credentials := repo.GetCustomerCredentials(email, me, nodes, excused);
      if credentials.Err? { return Err(InRepository(credentials.error)); }
      var (exist, c) := credentials.value;
      var decision := LoginDecision(exist, c.id, c.active, repo.repo.matches(password, c.hash));
      if decision.Err? { return Err(AtService(decision.error)); }
      var p := NewTokenPair(decision.value, now);
      r := Ok(p);
    }

    /**
      Login: a pair comes out only for an active customer whose current hash matches the password and who had
      the email at some moment; and for an email not cached, with nothing failing, exactly when there is such
      a customer with that email.
     */
    method Login(email: string, password: string, now: int,
                 ghost me: LocalCacheCleaner, ghost nodes: set<LocalCacheCleaner>, ghost excused: set<string>)
      returns (r: Result<Pair, Failure>)
      requires repo.Valid() && Coherent(repo.db, repo.rc, nodes, excused) && me in nodes &&
               me.lc == repo.account.reader.lc
      modifies repo.rc`store, repo.rc`faults, repo.rc`refusals, repo.account.reader.lc, repo.db`faults
      ensures Coherent(repo.db, repo.rc, nodes, excused)
      ensures r.Ok? ==>
                var id := r.value.access.customer;
                && CheckTrue(repo.db.rows, id, true) && repo.repo.matches(password, repo.db.rows[id].hash)
                && (id, email) in repo.db.emails
                && r.value == NewPair(id, now, accessExpiry, refreshExpiry)
      ensures r == Err(AtService(CustomerInactive)) ==> exists id :: CheckTrue(repo.db.rows, id, false)
      ensures r == Err(AtService(AuthenticationFailed)) ==>
                exists id :: CheckTrue(repo.db.rows, id, true) && !repo.repo.matches(password, repo.db.rows[id].hash)
      ensures repo.account.reader.Uncached(CredKey(email)) ==>
                && (r.Ok? <==> exists id :: CheckTrue(repo.db.rows, id, true) &&
                                            repo.db.rows[id].personal.email == email &&
                                            repo.repo.matches(password, repo.db.rows[id].hash))
                && (r == Err(AtService(CustomerNotFound)) <==> !HasEmail(repo.db.rows, email))
                && (r == Err(AtService(CustomerInactive)) <==>
                      exists id :: CheckTrue(repo.db.rows, id, false) && repo.db.rows[id].personal.email == email)
                && (r == Err(AtService(AuthenticationFailed)) <==>
                      exists id :: CheckTrue(repo.db.rows, id, true) && repo.db.rows[id].personal.email == email &&
                                   !repo.repo.matches(password, repo.db.rows[id].hash))
      ensures repo.account.reader.Quiet(CredKey(email)) ==>
                var seen := repo.account.reader.Seen(CredKey(email));
                && seen.Some? && seen.value.Cred?
                && var c := seen.value;
                   r == Outcome(LoginDecision(c.exist, c.id, c.active, repo.repo.matches(password, c.hash)), now)
      ensures FailsBelow(r) && (r.Ok? || r.error.AtService? || r.error.InRepository?)
    {
      r := Decide(email, password, now, me, nodes, excused);
      if repo.account.reader.Uncached(CredKey(email)) {
        var seen := repo.account.reader.Seen(CredKey(email)).value;
        LoginFollowsTable(repo.db.rows, email, password, seen, repo.repo.matches);
      }
    }

    /**
      RefreshToken: a pair comes out only for the customer of a live refresh token of ours who is in the
      database and active; a string the gate refuses is refused before the repository is asked anything.
     */
    method RefreshToken(w: Wire, now: int,
                        ghost me: LocalCacheCleaner, ghost nodes: set<LocalCacheCleaner>, ghost excused: set<string>)
      returns (r: Result<Pair, Failure>)
      requires repo.Valid() && Coherent(repo.db, repo.rc, nodes, excused) && me in nodes &&
               me.lc == repo.account.reader.lc
      modifies repo.rc`store, repo.rc`faults, repo.rc`refusals, repo.account.reader.lc, repo.db`faults
      ensures Coherent(repo.db, repo.rc, nodes, excused)
      ensures r.Ok? ==>
                && w.Signed? && w.hmac && w.secret == secret && LiveAt(w.claims, now) && w.claims.refresh
                && CheckTrue(repo.db.rows, w.claims.customer, true)
                && r.value == NewPair(w.claims.customer, now, accessExpiry, refreshExpiry)
      ensures RefreshGate(secret, w, now).Err? ==>
                r == Err(AtGate(RefreshGate(secret, w, now).error)) && repo.rc.store == old(repo.rc.store) &&
                repo.account.reader.lc.store == old(repo.account.reader.lc.store)
      ensures r == Err(AtService(CustomerInactive)) ==> w.Signed? && CheckTrue(repo.db.rows, w.claims.customer, false)
      ensures RefreshGate(secret, w, now).Ok? &&
              repo.account.reader.Uncached(CheckKey(RefreshGate(secret, w, now).value)) ==>
                var id := RefreshGate(secret, w, now).value;
                && (r.Ok? <==> CheckTrue(repo.db.rows, id, true))
                && (r == Err(AtService(CustomerNotFound)) <==> id !in repo.db.rows)
                && (r == Err(AtService(CustomerInactive)) <==> CheckTrue(repo.db.rows, id, false))
      ensures RefreshGate(secret, w, now).Ok? &&
              repo.account.reader.Quiet(CheckKey(RefreshGate(secret, w, now).value)) ==>
                var id := RefreshGate(secret, w, now).value;
                var seen := repo.account.reader.Seen(CheckKey(id));
                && seen.Some? && seen.value.Check?
                && r == Outcome(RefreshDecision(id, seen.value.exist, seen.value.active), now)
      ensures FailsBelow(r)
      ensures RefreshGate(secret, w, now).Ok? ==> r.Ok? || r.error.AtService? || r.error.InRepository?
    {
      var gate := RefreshGate(secret, w, now);
      if gate.Err? { return Err(AtGate(gate.error)); }
      GatesExactly(secret, w, now, gate.value);
      var check := repo.CheckCustomer(gate.value, me, nodes, excused);
      if check.Err? { return Err(InRepository(check.error)); }
      if repo.account.reader.Uncached(CheckKey(gate.value)) {
        RefreshFollowsTable(repo.db.rows, gate.value, Check(check.value.0, check.value.1));
      }
      var decision := RefreshDecision(gate.value, check.value.0, check.value.1);
      if decision.Err? { return Err(AtService(decision.error)); }
      var p := NewTokenPair(decision.value, now);
      r := Ok(p);
    }
  }
}
