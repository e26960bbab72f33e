/**
  The same machine with Redis reads that may be served by replicas, lagging as far as they like: a look at
  Redis may return any entry that Redis ever held. (That it may find nothing is in the machine already, as
  RedisMiss and RecheckFault.) What holds of the values does not need one linearizable Redis.
 */
module ReplicaReads {
  import opened Base
  import opened Keys
  import opened Customers
  import opened CacheProtocol
  import opened Provenance
  import opened AuthAnswers

  /** ever: all entries that Redis has held so far. */
  datatype Replicated = Replicated(world: World, ever: set<(Key, Stamped)>)

  datatype ReplicaLabel = Main(l: Label) | FromReplica(rid: nat, e: Stamped)

  ghost function Entries(s: World): set<(Key, Stamped)>
  {
    set k | k in s.redis :: (k, s.redis[k].e)
  }

  ghost predicate LooksAtRedis(s: World, rid: nat)
  {
    rid in s.readers && (s.readers[rid].stage.TryRedis? || s.readers[rid].stage.Recheck?)
  }

  ghost predicate MayStep(cfg: Config, r: Replicated, l: ReplicaLabel)
    requires Sane(r.world)
  {
    match l
    case Main(m) => Enabled(cfg, r.world, m)
    case FromReplica(rid, e) => LooksAtRedis(r.world, rid) && (r.world.readers[rid].key, e) in r.ever
  }

  /** A hit on a replica is a hit like any other, but for the value. */
  ghost function Hit(s: World, rid: nat, e: Stamped): World
    requires Sane(s) && rid in s.readers
  {
    s.(hist := s.hist + [Moment(Database(s), Clock(s))],
       readers := s.readers[rid := s.readers[rid].(stage := Copy(e, Now(s)), since := Clock(s))])
  }

  ghost function AfterStep(cfg: Config, r: Replicated, l: ReplicaLabel): Replicated
    requires Sane(r.world) && MayStep(cfg, r, l)
  {
    match l
    case Main(m) => var t := Next(cfg, r.world, m); Replicated(t, r.ever + Entries(t))
    case FromReplica(rid, e) => Replicated(Hit(r.world, rid, e), r.ever)
  }

  datatype ReplicaRun = ReplicaRun(states: seq<Replicated>, labels: seq<ReplicaLabel>)

  ghost predicate StepOf(cfg: Config, run: ReplicaRun, i: nat)
    requires i < |run.labels| && |run.states| == |run.labels| + 1
  {
    && Sane(run.states[i].world) && MayStep(cfg, run.states[i], run.labels[i])
    && run.states[i + 1] == AfterStep(cfg, run.states[i], run.labels[i])
  }

  ghost predicate IsReplicaRun(cfg: Config, run: ReplicaRun)
  {
    && |run.states| == |run.labels| + 1
    && Init(run.states[0].world) && run.states[0].ever == {}
    && forall i :: 0 <= i < |run.labels| ==> StepOf(cfg, run, i)
  }

  lemma {:induction false} EntriesAreRemembered(cfg: Config, run: ReplicaRun, i: nat, j: nat, k: Key, e: Stamped)
    requires IsReplicaRun(cfg, run) && i <= j < |run.states| && InRedis(run.states[i].world, k, e)
    ensures (k, e) in run.states[j].ever
    decreases j
  {
    if j == 0 {
    } else {
      assert StepOf(cfg, run, j - 1);
      if i < j {
        EntriesAreRemembered(cfg, run, i, j - 1, k, e);
      } else if run.labels[j - 1].FromReplica? {
        assert InRedis(run.states[j - 1].world, k, e);
        EntriesAreRemembered(cfg, run, j - 1, j - 1, k, e);
      } else {
        assert (k, e) in Entries(run.states[j].world);
      }
    }
  }

  /** A request that looks at Redis may be handed any entry that Redis held for its key at any earlier moment. */
  lemma ReplicasMayLag(cfg: Config, run: ReplicaRun, i: nat, j: nat, rid: nat, e: Stamped)
    requires IsReplicaRun(cfg, run) && i <= j < |run.labels| && LooksAtRedis(run.states[j].world, rid)
    requires InRedis(run.states[i].world, run.states[j].world.readers[rid].key, e)
    ensures Sane(run.states[j].world) && MayStep(cfg, run.states[j], FromReplica(rid, e))
    ensures var r := run.states[j].world.readers[rid];
            ToLocal(AfterStep(cfg, run.states[j], FromReplica(rid, e)).world, rid, r.node, r.key, e)
  {
    assert StepOf(cfg, run, j);
    EntriesAreRemembered(cfg, run, i, j, run.states[j].world.readers[rid].key, e);
  }

  /** Held somewhere now, or in Redis at some time. */
  ghost predicate HeldOrEver(r: Replicated, k: Key, e: Stamped)
  {
    Held(r.world, k, e) || (k, e) in r.ever
  }

  lemma HitFlow(s: World, rid: nat, k: Key, e: Stamped, x: Stamped)
    requires Sane(s) && rid in s.readers && Held(Hit(s, rid, x), k, e)
    ensures Held(s, k, e) || (k == s.readers[rid].key && e == x)
  {
    var t := Hit(s, rid, x);
    if o: nat :| ReaderHolds(t, o, k, e) {
      if o != rid { assert ReaderHolds(s, o, k, e); }
    } else if n: nat :| (n, k) in t.local && t.local[(n, k)].e == e {
      assert s.local[(n, k)].e == e;
    }
  }

  lemma GenuineStays(s: World, t: World, k: Key, e: Stamped)
    requires Genuine(s, k, e) && |s.hist| <= |t.hist| && t.hist[..|s.hist|] == s.hist
    ensures Genuine(t, k, e)
  {
    assert t.hist[..|s.hist|][e.at] == t.hist[e.at];
  }

  lemma ReplicaFlow(cfg: Config, r: Replicated, l: ReplicaLabel, k: Key, e: Stamped)
    requires Sane(r.world) && MayStep(cfg, r, l) && HeldOrEver(AfterStep(cfg, r, l), k, e)
    ensures HeldOrEver(r, k, e) || Genuine(AfterStep(cfg, r, l).world, k, e)
  {
    match l
    case Main(m) =>
      var t := Next(cfg, r.world, m);
      if Held(t, k, e) || (k, e) in Entries(t) {
        assert Held(t, k, e);
        Flow(cfg, r.world, m, k, e);
      }
    case FromReplica(rid, x) =>
      if Held(Hit(r.world, rid, x), k, e) {
        HitFlow(r.world, rid, k, e, x);
      }
  }

  /**
    No invented values, whatever the replicas serve: every value in Redis, now or ever, in any local cache or
    in the hands of a request was the database's answer for that very key at the step it is stamped with.
   */
  lemma {:induction false} NoInventedValuesFromReplicas(cfg: Config, run: ReplicaRun, i: nat, k: Key, e: Stamped)
    requires IsReplicaRun(cfg, run) && i < |run.states| && HeldOrEver(run.states[i], k, e)
    ensures Genuine(run.states[i].world, k, e)
  {
    if i == 0 {
    } else {
      assert StepOf(cfg, run, i - 1);
      var r, l := run.states[i - 1], run.labels[i - 1];
      ReplicaFlow(cfg, r, l, k, e);
      if HeldOrEver(r, k, e) {
        NoInventedValuesFromReplicas(cfg, run, i - 1, k, e);
        GenuineStays(r.world, run.states[i].world, k, e);
      }
    }
  }

  ghost predicate AskedInVainAt(run: ReplicaRun, j: nat, i: nat, rid: nat, k: Key)
    requires j < i <= |run.labels| < |run.states|
  {
    && Sane(run.states[j].world) && run.labels[j] == Main(Step(rid, QueryOk))
    && (forall m :: j <= m <= i ==> rid in run.states[m].world.readers && run.states[m].world.readers[rid].key == k)
    && Answer(Database(run.states[j].world), k) == None
  }

  /** "Not found" is true as well: only the database is believed about that. */
  lemma {:induction false} NotFoundIsTrueWithReplicas(cfg: Config, run: ReplicaRun, i: nat, rid: nat)
    requires IsReplicaRun(cfg, run) && i < |run.states| && rid in run.states[i].world.readers
    requires ToldNotFound(run.states[i].world.readers[rid].stage)
    ensures exists j :: 0 <= j < i && AskedInVainAt(run, j, i, rid, run.states[i].world.readers[rid].key)
  {
    if i == 0 {
    } else {
      assert StepOf(cfg, run, i - 1);
      var s, k := run.states[i - 1].world, run.states[i].world.readers[rid].key;
      if run.labels[i - 1].Main? { NotFoundStep(cfg, s, run.labels[i - 1].l, rid); }
      if ToldNotFound(s.readers[rid].stage) {
        NotFoundIsTrueWithReplicas(cfg, run, i - 1, rid);
        var j :| 0 <= j < i - 1 && AskedInVainAt(run, j, i - 1, rid, k);
        assert AskedInVainAt(run, j, i, rid, k);
      } else {
        assert AskedInVainAt(run, i - 1, i, rid, k);
      }
    }
  }

  lemma HitIsOrderly(s: World, rid: nat, e: Stamped)
    requires Orderly(s) && rid in s.readers
    ensures Orderly(Hit(s, rid, e))
  {
    var t := Hit(s, rid, e);
    forall i | 0 <= i < |t.hist| ensures t.hist[i].clock <= Clock(t) && Preserved(t.hist[i].table, Database(t)) {
      if i < |s.hist| { assert t.hist[i] == s.hist[i]; }
    }
  }

  lemma {:induction false} OrderlyWithReplicas(cfg: Config, run: ReplicaRun, i: nat)
    requires IsReplicaRun(cfg, run) && i < |run.states|
    ensures Orderly(run.states[i].world)
  {
    if i == 0 {
    } else {
      assert StepOf(cfg, run, i - 1);
      OrderlyWithReplicas(cfg, run, i - 1);
      match run.labels[i - 1]
      case Main(m) => OrderlyStep(cfg, run.states[i - 1].world, m);
      case FromReplica(rid, e) => HitIsOrderly(run.states[i - 1].world, rid, e);
    }
  }

  /** Positive authentication answers stay true of the database now, whatever the replicas serve. */
  lemma PositiveAnswersStandWithReplicas(cfg: Config, run: ReplicaRun, i: nat, k: Key, e: Stamped)
    requires IsReplicaRun(cfg, run) && i < |run.states| && HeldOrEver(run.states[i], k, e)
    ensures var s := run.states[i].world;
            && Orderly(s)
            && (k.CheckKey? && e.value.Check? && e.value.exist ==> CheckTrue(Database(s), k.id, e.value.active))
            && (k.CredKey? && e.value.Cred? && e.value.exist ==>
                  CredTrue(Database(s), e.value.id, e.value.active, e.value.hash) &&
                  OnceHadEmail(s, e.value.id, k.email))
  {
    var s := run.states[i].world;
    NoInventedValuesFromReplicas(cfg, run, i, k, e);
    OrderlyWithReplicas(cfg, run, i);
    assert Preserved(s.hist[e.at].table, Database(s));
  }

  lemma {:induction false} LoginsReadCredentialsWithReplicas(cfg: Config, run: ReplicaRun, i: nat, rid: nat)
    requires IsReplicaRun(cfg, run) && i < |run.states| && rid in run.states[i].world.readers
    requires run.states[i].world.readers[rid].purpose.Login?
    ensures var r := run.states[i].world.readers[rid]; r.key == CredKey(r.purpose.email)
  {
    if i == 0 {
    } else {
      assert StepOf(cfg, run, i - 1);
      var s, t := run.states[i - 1].world, run.states[i].world;
      if rid in s.readers && s.readers[rid].purpose == t.readers[rid].purpose {
        LoginsReadCredentialsWithReplicas(cfg, run, i - 1, rid);
      }
    }
  }

  /** And so logins are sound all the same. */
  lemma LoginIsSoundWithReplicas(cfg: Config, run: ReplicaRun, i: nat, rid: nat,
                                 email: string, password: string, id: uint64)
    requires IsReplicaRun(cfg, run) && i < |run.states|
    requires LoginMints(cfg, run.states[i].world, rid, email, password, id)
    ensures var s := run.states[i].world;
            && Sane(s) && CheckTrue(Database(s), id, true)
            && cfg.matches(password, Database(s)[id].hash) && OnceHadEmail(s, id, email)
  {
    var s := run.states[i].world;
    var r := s.readers[rid];
    LoginsReadCredentialsWithReplicas(cfg, run, i, rid);
    assert ReaderHolds(s, rid, r.key, r.stage.out.e);
    PositiveAnswersStandWithReplicas(cfg, run, i, r.key, r.stage.out.e);
  }
}
