/**
  The closed system as a labelled state machine: any number of service nodes, each with its own local
  cache, one Redis, one database, any number of concurrent requests, and the tokens they mint.

  Every Redis, database, local-cache, lock and publish call is one atomic step; requests interleave
  freely. A request that stops for ever between two steps is a request whose next call failed or hung.
  Step number n is the step that produces history moment n, so stamps order events strictly:
  a write stamped w is visible to a database read stamped r exactly when w <= r.
 */
module CacheProtocol {
  import opened Base
  import opened Keys
  import opened Customers
  import opened Tokens
  import opened Expiry

  /** expiry is the configured seconds, whatever they are; localLife bounds a local entry's life, in nanoseconds. */
  datatype Config = Config(expiry: int64, localLife: nat, secret: string,
                           accessExpiry: int64, refreshExpiry: int64,
                           matches: (string, string) -> bool)

  /** A value and the step at which the database gave it. */
  datatype Stamped = Stamped(value: Value, at: nat)

  /** expires: the instant after which the entry is gone, if it was given one. */
  datatype RedisEntry = RedisEntry(e: Stamped, expires: Option<int>)

  datatype LocalEntry = LocalEntry(e: Stamped, setAt: int)

  datatype Lease = Lease(holder: nat, since: int)

  datatype Outcome = Got(e: Stamped) | NotFound | Failed

  /** Where a read stands: the call it is about to make. */
  datatype Stage =
    | TryLocal
    | TryRedis
    | Locking
    | Recheck
    | Query(faulted: bool)
    | Fill(e: Stamped)
    | Copy(e: Stamped, hitAt: nat)
    | Leave(out: Outcome)
    | Done(out: Outcome)

  datatype Purpose = Browse | Login(email: string, password: string) | Refresh(token: nat)

  /** lock: when the mutex was acquired, while held; since: when the value in hand was acquired. */
  datatype Reader = Reader(node: nat, key: Key, purpose: Purpose, stage: Stage, lock: Option<int>, since: int)

  /** An update that has written the database: its steps so far, and the nodes its invalidation reached. */
  datatype Writer = Writer(key: Key, wroteAt: nat, deletedAt: Option<nat>, delivered: set<nat>, applied: set<nat>)

  datatype Minted = Minted(claims: Claims, parent: Option<nat>)

  datatype Moment = Moment(table: Table, clock: int)

  datatype World = World(hist: seq<Moment>,
                         redis: map<Key, RedisEntry>,
                         local: map<(nat, Key), LocalEntry>,
                         leases: map<Key, Lease>,
                         readers: map<nat, Reader>,
                         writers: map<nat, Writer>,
                         signups: map<nat, uint64>,
                         tokens: seq<Minted>)

  /**
    One call of a read, with its outcome. The four getters, repo/proxy/account.go:40-113 and
    repo/proxy/auth.go:53-136, make the same calls in the same order; lines are those of the first.
   */
  datatype Op =
    | LocalHit | LocalMiss                        // 44-47: a miss is "not there" or an error
    | RedisHit | RedisMiss                        // 49-50
    | Acquire | AcquireFail                       // 57-60
    | RecheckHit | RecheckMiss | RecheckFault     // 63-64
    | QueryOk | QueryFail                         // 69-72: the database, before the unlock on return
    | FillOk(jitter: nat) | FillFail              // 74: a failed Set is only logged
    | CopyOk | CopyFail                           // 52 and 65: likewise
    | Release(ok: bool)                           // 61: the deferred Unlock

  datatype Label =
    | Tick(d: nat)
    // Redis expiry or eviction, local eviction, the end of a mutex's lease
    | RedisDrop(k: Key) | LocalDrop(n: nat, k: Key) | LeaseLapse(k: Key)
    // a read, from its call to its return; a login or refresh mints on return (service/auth/impl.go:88-139)
    | Start(rid: nat, node: nat, key: Key, purpose: Purpose) | Step(rid: nat, op: Op) | Finish(rid: nat)
    // CreateCustomer, then newTokenPair (service/auth/impl.go:78-84)
    | SignUp(sid: nat, id: uint64, row: Row) | Grant(sid: nat)
    // an update's database write, Redis Delete and Publish (repo/proxy/account.go:117-125)
    | Write(wid: nat, id: uint64, change: Change) | Delete(wid: nat) | Publish(wid: nat, to: set<nat>)
    // a node's delete task runs (infra/cache/cleaner.go:53-56 and 66-76)
    | Invalidate(wid: nat, n: nat)

  // ---- Looking at a state

  ghost predicate Sane(s: World)
  {
    s.hist != []
  }

  /** The number of the step about to be taken. */
  ghost function Now(s: World): nat
  {
    |s.hist|
  }

  ghost function Database(s: World): Table
    requires Sane(s)
  {
    s.hist[|s.hist| - 1].table
  }

  ghost function Clock(s: World): int
    requires Sane(s)
  {
    s.hist[|s.hist| - 1].clock
  }

  ghost predicate LiveInRedis(s: World, k: Key)
    requires Sane(s)
  {
    k in s.redis && (s.redis[k].expires.Some? ==> Clock(s) < s.redis[k].expires.value)
  }

  ghost predicate LiveInLocal(cfg: Config, s: World, n: nat, k: Key)
    requires Sane(s)
  {
    (n, k) in s.local && Clock(s) <= s.local[(n, k)].setAt + cfg.localLife
  }

  // ---- When a step may be taken

  /** A call may always fail, so a miss is always possible; only a faultless recheck tells the truth. */
  ghost predicate OpEnabled(cfg: Config, s: World, r: Reader, op: Op)
    requires Sane(s)
  {
    match op
    case LocalHit => r.stage.TryLocal? && LiveInLocal(cfg, s, r.node, r.key)
    case LocalMiss => r.stage.TryLocal?
    case RedisHit => r.stage.TryRedis? && LiveInRedis(s, r.key)
    case RedisMiss => r.stage.TryRedis?
    case Acquire => r.stage.Locking? && r.key !in s.leases
    case AcquireFail => r.stage.Locking?
    case RecheckHit => r.stage.Recheck? && LiveInRedis(s, r.key)
    case RecheckMiss => r.stage.Recheck? && r.key !in s.redis
    case RecheckFault => r.stage.Recheck?
    case QueryOk => r.stage.Query?
    case QueryFail => r.stage.Query?
    case FillOk(j) => r.stage.Fill? && j < JITTER
    case FillFail => r.stage.Fill?
    case CopyOk => r.stage.Copy?
    case CopyFail => r.stage.Copy?
    case Release(_) => r.stage.Leave?
  }

  /** Login reads the credentials of its email; RefreshToken checks the customer its token names. */
  ghost predicate PurposeFits(cfg: Config, s: World, key: Key, purpose: Purpose)
    requires Sane(s)
  {
    match purpose
    case Browse => true
    case Login(email, _) => key == CredKey(email)
    case Refresh(t) =>
      t < |s.tokens| && key.CheckKey? &&
      RefreshGate(cfg.secret, Present(cfg.secret, s.tokens[t].claims), Clock(s)) == Ok(key.id)
  }

  ghost predicate Enabled(cfg: Config, s: World, l: Label)
    requires Sane(s)
  {
    match l
    case Tick(_) => true
    case RedisDrop(k) => k in s.redis
    case LocalDrop(n, k) => (n, k) in s.local
    case LeaseLapse(k) => k in s.leases && Clock(s) >= s.leases[k].since + LEASE
    case Start(rid, _, key, purpose) => rid !in s.readers && PurposeFits(cfg, s, key, purpose)
    case Step(rid, op) => rid in s.readers && OpEnabled(cfg, s, s.readers[rid], op)
    case Finish(rid) => rid in s.readers && s.readers[rid].stage.Done?
    case SignUp(sid, id, row) => sid !in s.signups && row.active && Allowed(Database(s), Insert(id, row))
    case Grant(sid) => sid in s.signups
    case Write(wid, id, change) => wid !in s.writers && Allowed(Database(s), Update(id, change))
    case Delete(wid) => wid in s.writers && s.writers[wid].deletedAt.None?
    case Publish(wid, _) => wid in s.writers && s.writers[wid].deletedAt.Some? && s.writers[wid].delivered == {}
    case Invalidate(wid, n) => wid in s.writers && n in s.writers[wid].delivered && n !in s.writers[wid].applied
  }

  // ---- What a step does, component by component

  ghost function TableAfter(s: World, l: Label): Table
    requires Sane(s)
  {
    match l
    case SignUp(_, id, row) => Apply(Database(s), Insert(id, row))
    case Write(_, id, change) => Apply(Database(s), Update(id, change))
    case _ => Database(s)
  }

  ghost function ExpiresAt(cfg: Config, clock: int, jitter: nat): Option<int>
    requires jitter < JITTER
  {
    var ttl := TimeToLive(cfg.expiry, jitter);
    if ttl.Some? then Some(clock + ttl.value) else None
  }

  ghost function RedisAfter(cfg: Config, s: World, l: Label): map<Key, RedisEntry>
    requires Sane(s) && Enabled(cfg, s, l)
  {
    match l
    case RedisDrop(k) => s.redis - {k}
    case Delete(wid) => s.redis - {s.writers[wid].key}
    case Step(rid, FillOk(j)) =>
      var r := s.readers[rid];
      s.redis[r.key := RedisEntry(r.stage.e, ExpiresAt(cfg, Clock(s), j))]
    case _ => s.redis
  }

  ghost function LocalAfter(cfg: Config, s: World, l: Label): map<(nat, Key), LocalEntry>
    requires Sane(s) && Enabled(cfg, s, l)
  {
    match l
    case LocalDrop(n, k) => s.local - {(n, k)}
    case Invalidate(wid, n) => s.local - {(n, s.writers[wid].key)}
    case Step(rid, CopyOk) =>
      var r := s.readers[rid];
      s.local[(r.node, r.key) := LocalEntry(r.stage.e, Clock(s))]
    case _ => s.local
  }

  /** redsync releases a mutex only while it still carries this holder's value. */
  ghost function LeasesAfter(cfg: Config, s: World, l: Label): map<Key, Lease>
    requires Sane(s) && Enabled(cfg, s, l)
  {
    match l
    case LeaseLapse(k) => s.leases - {k}
    case Step(rid, Acquire) => s.leases[s.readers[rid].key := Lease(rid, Clock(s))]
    case Step(rid, Release(ok)) =>
      var k := s.readers[rid].key;
      if ok && k in s.leases && s.leases[k].holder == rid then s.leases - {k} else s.leases
    case _ => s.leases
  }

  ghost function Exit(r: Reader, out: Outcome): Stage
  {
    if r.lock.Some? then Leave(out) else Done(out)
  }

  ghost function ReaderAfter(cfg: Config, s: World, r: Reader, op: Op): Reader
    requires Sane(s) && OpEnabled(cfg, s, r, op)
  {
    match op
    case LocalHit => r.(stage := Done(Got(s.local[(r.node, r.key)].e)), since := Clock(s))
    case LocalMiss => r.(stage := TryRedis)
    case RedisHit => r.(stage := Copy(s.redis[r.key].e, Now(s)), since := Clock(s))
    case RedisMiss => r.(stage := Locking)
    case Acquire => r.(stage := Recheck, lock := Some(Clock(s)))
    case AcquireFail => r.(stage := Done(Failed))
    case RecheckHit => r.(stage := Copy(s.redis[r.key].e, Now(s)), since := Clock(s))
    case RecheckMiss => r.(stage := Query(false))
    case RecheckFault => r.(stage := Query(true))
    case QueryOk =>
      var a := Answer(Database(s), r.key);
      if a.Some? then r.(stage := Fill(Stamped(a.value, Now(s))), since := Clock(s))
      else r.(stage := Exit(r, NotFound))
    case QueryFail => r.(stage := Exit(r, Failed))
    case FillOk(_) => r.(stage := Exit(r, Got(r.stage.e)))
    case FillFail => r.(stage := Exit(r, Got(r.stage.e)))
    case CopyOk => r.(stage := Exit(r, Got(r.stage.e)))
    case CopyFail => r.(stage := Exit(r, Got(r.stage.e)))
    case Release(_) => r.(stage := Done(r.stage.out), lock := None)
  }

  ghost function ReadersAfter(cfg: Config, s: World, l: Label): map<nat, Reader>
    requires Sane(s) && Enabled(cfg, s, l)
  {
    match l
    case Start(rid, node, key, purpose) => s.readers[rid := Reader(node, key, purpose, TryLocal, None, Clock(s))]
    case Step(rid, op) => s.readers[rid := ReaderAfter(cfg, s, s.readers[rid], op)]
    case Finish(rid) => s.readers - {rid}
    case _ => s.readers
  }

  ghost function WritersAfter(cfg: Config, s: World, l: Label): map<nat, Writer>
    requires Sane(s) && Enabled(cfg, s, l)
  {
    match l
    case Write(wid, id, change) => s.writers[wid := Writer(ChangedKey(id, change), Now(s), None, {}, {})]
    case Delete(wid) => s.writers[wid := s.writers[wid].(deletedAt := Some(Now(s)))]
    case Publish(wid, to) => s.writers[wid := s.writers[wid].(delivered := to)]
    case Invalidate(wid, n) => s.writers[wid := s.writers[wid].(applied := s.writers[wid].applied + {n})]
    case _ => s.writers
  }

  ghost function SignupsAfter(cfg: Config, s: World, l: Label): map<nat, uint64>
    requires Sane(s) && Enabled(cfg, s, l)
  {
    match l
    case SignUp(sid, id, _) => s.signups[sid := id]
    case Grant(sid) => s.signups - {sid}
    case _ => s.signups
  }

  /** What a finished request comes to: the customer it mints a pair for, or nothing. */
  ghost function Decision(cfg: Config, r: Reader): Result<uint64, ServiceError>
    requires r.stage.Done?
  {
    match (r.purpose, r.stage.out)
    case (Login(_, password), Got(Stamped(Cred(exist, id, active, hash), _))) =>
      LoginDecision(exist, id, active, cfg.matches(password, hash))
    case (Refresh(_), Got(Stamped(Check(exist, active), _))) =>
      if r.key.CheckKey? then RefreshDecision(r.key.id, exist, active) else Err(Infrastructure)
    case _ => Err(Infrastructure)
  }

  ghost function PairOf(cfg: Config, s: World, customer: uint64, parent: Option<nat>): seq<Minted>
    requires Sane(s)
  {
    var p := NewPair(customer, Clock(s), cfg.accessExpiry, cfg.refreshExpiry);
    [Minted(p.access, parent), Minted(p.refresh, parent)]
  }

  ghost function TokensAfter(cfg: Config, s: World, l: Label): seq<Minted>
    requires Sane(s) && Enabled(cfg, s, l)
  {
    match l
    case Grant(sid) => s.tokens + PairOf(cfg, s, s.signups[sid], None)
    case Finish(rid) =>
      var r := s.readers[rid];
      if Decision(cfg, r).Ok? then
        var parent := if r.purpose.Refresh? then Some(r.purpose.token) else None;
        s.tokens + PairOf(cfg, s, Decision(cfg, r).value, parent)
      else s.tokens
    case _ => s.tokens
  }

  ghost function Next(cfg: Config, s: World, l: Label): World
    requires Sane(s) && Enabled(cfg, s, l)
  {
    World(s.hist + [Moment(TableAfter(s, l), Clock(s) + if l.Tick? then l.d else 0)],
          RedisAfter(cfg, s, l),
          LocalAfter(cfg, s, l),
          LeasesAfter(cfg, s, l),
          ReadersAfter(cfg, s, l),
          WritersAfter(cfg, s, l),
          SignupsAfter(cfg, s, l),
          TokensAfter(cfg, s, l))
  }

  // ---- Runs

  /** Caches, requests and tokens are empty; the table may already hold customers. */
  ghost predicate Init(s: World)
  {
    && |s.hist| == 1 && Unique(s.hist[0].table)
    && s.redis == map[] && s.local == map[] && s.leases == map[]
    && s.readers == map[] && s.writers == map[] && s.signups == map[] && s.tokens == []
  }

  datatype Run = Run(states: seq<World>, labels: seq<Label>)

  ghost predicate IsRun(cfg: Config, run: Run)
  {
    && |run.states| == |run.labels| + 1
    && Init(run.states[0])
    && (forall i :: 0 <= i < |run.states| ==> Sane(run.states[i]))
    && forall i :: 0 <= i < |run.labels| ==> StepAt(cfg, run, i)
  }

  ghost predicate StepAt(cfg: Config, run: Run, i: nat)
    requires i < |run.labels| && |run.states| == |run.labels| + 1
  {
    && Sane(run.states[i])
    && Enabled(cfg, run.states[i], run.labels[i])
    && run.states[i + 1] == Next(cfg, run.states[i], run.labels[i])
  }
}
