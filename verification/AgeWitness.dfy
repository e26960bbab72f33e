/** The age bound is attained when entries always expire; and when they need not, there is no bound at all. */
module AgeWitness {
  import opened Base
  import opened Customers
  import opened Expiry
  import opened CacheProtocol
  import opened BoundedAge
  import opened StaleWitness

  ghost predicate Timely(cfg: Config, d: nat, s: World)
  {
    exists run: Run :: PromptRun(cfg, run, d) && Last(run) == s
  }

  lemma ExtendInTime(cfg: Config, d: nat, run: Run, l: Label) returns (r: Run)
    requires PromptRun(cfg, run, d) && Enabled(cfg, Last(run), l) && Prompt(Last(run), l, d)
    ensures PromptRun(cfg, r, d) && Last(r) == Next(cfg, Last(run), l)
    ensures r.labels == run.labels + [l] && |r.states| == |run.states| + 1
    ensures forall i :: 0 <= i < |run.states| ==> r.states[i] == run.states[i]
  {
    r := Extend(cfg, run, l);
    forall i | 0 <= i < |r.labels| ensures Prompt(r.states[i], r.labels[i], d) {
      if i < |run.labels| { assert Prompt(run.states[i], run.labels[i], d); }
    }
  }

  lemma TakeInTime(cfg: Config, d: nat, s: World, l: Label) returns (t: World)
    requires Timely(cfg, d, s) && Sane(s) && Enabled(cfg, s, l) && Prompt(s, l, d)
    ensures Timely(cfg, d, t) && t == Next(cfg, s, l)
  {
    var run: Run :| PromptRun(cfg, run, d) && Last(run) == s;
    var r := ExtendInTime(cfg, d, run, l);
    t := Last(r);
  }

  /** A prompt run gets to this state, in which request rid is about to return a value of this age. */
  ghost predicate Returning(cfg: Config, d: nat, s: World, rid: nat, e: Stamped, age: int)
  {
    && Timely(cfg, d, s) && Sane(s) && rid in s.readers && s.readers[rid].stage == Done(Got(e))
    && Prompt(s, Finish(rid), d) && e.at < |s.hist| && Clock(s) - s.hist[e.at].clock == age
  }

  /** The value was read from the database at step 6, when the clock stood at 0. */
  ghost predicate Old(s: World, e: Stamped)
  {
    Sane(s) && e.at < |s.hist| && s.hist[e.at].clock == 0
  }

  /** Request rid for the key, on node 0, at this stage; it acquired its value at since. */
  ghost predicate Here(s: World, clock: int, rid: nat, stage: Stage, since: int)
  {
    && Sane(s) && Clock(s) == clock && rid in s.readers && s.readers[rid].key == THE_KEY && s.readers[rid].node == 0
    && s.readers[rid].stage == stage && s.readers[rid].since == since && s.readers.Keys <= {0, 1, 2}
  }

  ghost predicate MayReturn(cfg: Config, d: nat, age: int)
  {
    exists s, rid, e :: Returning(cfg, d, s, rid, e, age)
  }

  lemma Wait(cfg: Config, d: nat, s: World, x: nat, clock: int, rid: nat, stage: Stage, since: int) returns (t: World)
    requires Timely(cfg, d, s) && Here(s, clock, rid, stage, since)
    ensures Timely(cfg, d, t) && Here(t, clock + x, rid, stage, since)
    ensures t.redis == s.redis && t.local == s.local && t.readers == s.readers
    ensures forall e :: Old(s, e) ==> Old(t, e)
  {
    t := TakeInTime(cfg, d, s, Tick(x));
    assert forall i :: 0 <= i < |s.hist| ==> t.hist[i] == s.hist[i];
  }

  lemma Begin(cfg: Config, d: nat) returns (s: World)
    ensures Timely(cfg, d, s) && Here(s, 0, 0, TryLocal, 0) && Now(s) == 2
    ensures Database(s) == map[1 := THE_ROW] && s.redis == map[] && s.local == map[] && s.leases == map[]
    ensures s.readers.Keys == {0}
  {
    s := World([Moment(map[1 := THE_ROW], 0)], map[], map[], map[], map[], map[], map[], []);
    var run := Run([s], []);
    assert PromptRun(cfg, run, d) && Last(run) == s;
    s := TakeInTime(cfg, d, s, Start(0, 0, THE_KEY, Browse));
  }

  /** One call of request rid that stores nothing. */
  lemma Call(cfg: Config, d: nat, s: World, rid: nat, op: Op) returns (t: World)
    requires Timely(cfg, d, s) && Sane(s) && rid in s.readers && OpEnabled(cfg, s, s.readers[rid], op)
    requires !op.FillOk? && !op.CopyOk? && !op.Release?
    ensures Timely(cfg, d, t) && Sane(t) && Clock(t) == Clock(s) && Database(t) == Database(s) && Now(t) == Now(s) + 1
    ensures t.redis == s.redis && t.local == s.local && (!op.Acquire? ==> t.leases == s.leases)
    ensures t.readers == s.readers[rid := ReaderAfter(cfg, s, s.readers[rid], op)]
    ensures forall e :: Old(s, e) ==> Old(t, e)
    ensures op.QueryOk? && Clock(s) == 0 ==> t.hist[Now(s)].clock == 0
  {
    t := TakeInTime(cfg, d, s, Step(rid, op));
    assert forall i :: 0 <= i < |s.hist| ==> t.hist[i] == s.hist[i];
  }

  lemma ReadDatabase(cfg: Config, d: nat) returns (s: World, e: Stamped)
    ensures Timely(cfg, d, s) && Here(s, 0, 0, Fill(e), 0) && Old(s, e) && s.readers.Keys == {0} && s.local == map[]
  {
    s := Begin(cfg, d);
    s := Call(cfg, d, s, 0, LocalMiss);
    s := Call(cfg, d, s, 0, RedisMiss);
    s := Call(cfg, d, s, 0, Acquire);
    s := Call(cfg, d, s, 0, RecheckMiss);
    e := Stamped(Personal(THE_ROW.personal), Now(s));
    s := Call(cfg, d, s, 0, QueryOk);
  }

  /** A later request starts. */
  lemma Join(cfg: Config, d: nat, s: World, rid: nat) returns (t: World)
    requires Timely(cfg, d, s) && Sane(s) && rid !in s.readers && s.readers.Keys <= {0, 1, 2} && rid <= 2
    ensures Timely(cfg, d, t) && Here(t, Clock(s), rid, TryLocal, Clock(s))
    ensures t.redis == s.redis && t.local == s.local && t.readers.Keys == s.readers.Keys + {rid}
    ensures t.readers[rid].lock.None?
    ensures forall e :: Old(s, e) ==> Old(t, e)
  {
    t := TakeInTime(cfg, d, s, Start(rid, 0, THE_KEY, Browse));
    assert forall i :: 0 <= i < |s.hist| ==> t.hist[i] == s.hist[i];
  }

  lemma DoFill(cfg: Config, d: nat, s: World, clock: int, e: Stamped, j: nat) returns (t: World)
    requires Timely(cfg, d, s) && Here(s, clock, 0, Fill(e), 0) && Old(s, e) && clock <= d && j < JITTER
    ensures Timely(cfg, d, t) && Sane(t) && Clock(t) == clock && Old(t, e)
    ensures t.local == s.local && t.readers.Keys == s.readers.Keys
    ensures THE_KEY in t.redis && t.redis[THE_KEY] == RedisEntry(e, ExpiresAt(cfg, clock, j))
  {
    t := TakeInTime(cfg, d, s, Step(0, FillOk(j)));
    assert forall i :: 0 <= i < |s.hist| ==> t.hist[i] == s.hist[i];
  }

  /** The fill comes as late as it may, and asks for the longest expiry there is. */
  lemma FillAtLast(cfg: Config, d: nat, s: World, e: Stamped) returns (t: World)
    requires Timely(cfg, d, s) && Here(s, d, 0, Fill(e), 0) && Old(s, e) && AlwaysExpires(cfg.expiry)
    ensures Timely(cfg, d, t) && Sane(t) && Clock(t) == d && Old(t, e)
    ensures t.local == s.local && t.readers.Keys == s.readers.Keys
    ensures THE_KEY in t.redis && t.redis[THE_KEY] == RedisEntry(e, Some(d + RedisLife(cfg)))
  {
    var j := LatestExpiry(cfg, d);
    t := DoFill(cfg, d, s, d, e, j);
  }

  /** The copy comes as late as it may after the hit. */
  lemma CopyAtLast(cfg: Config, d: nat, s: World, clock: int, e: Stamped, hitAt: nat) returns (t: World)
    requires Timely(cfg, d, s) && Here(s, clock + d, 1, Copy(e, hitAt), clock) && Old(s, e)
    ensures Timely(cfg, d, t) && Sane(t) && Clock(t) == clock + d && Old(t, e) && t.readers.Keys == s.readers.Keys
    ensures (0, THE_KEY) in t.local && t.local[(0, THE_KEY)] == LocalEntry(e, clock + d)
  {
    t := TakeInTime(cfg, d, s, Step(1, CopyOk));
    assert forall i :: 0 <= i < |s.hist| ==> t.hist[i] == s.hist[i];
  }

  /** Redis holds the value until the very end of its life; then it is hit. */
  lemma HitAtLast(cfg: Config, d: nat) returns (s: World, e: Stamped)
    requires AlwaysExpires(cfg.expiry)
    ensures Timely(cfg, d, s) && Sane(s) && Old(s, e) && 2 !in s.readers && s.readers.Keys <= {0, 1, 2}
    ensures 1 in s.readers && s.readers[1].stage.Copy? && s.local == map[]
    ensures Here(s, d + RedisLife(cfg) - 1, 1, Copy(e, s.readers[1].stage.hitAt), d + RedisLife(cfg) - 1)
  {
    var _ := LongestIsPositive(cfg.expiry);
    s, e := ReadDatabase(cfg, d);
    s := Wait(cfg, d, s, d, 0, 0, Fill(e), 0);
    s := FillAtLast(cfg, d, s, e);
    s := Join(cfg, d, s, 1);
    s := Wait(cfg, d, s, RedisLife(cfg) - 1, d, 1, TryLocal, d);
    s := Call(cfg, d, s, 1, LocalMiss);
    s := Call(cfg, d, s, 1, RedisHit);
  }

  /** The copy is made, lives out its life, and is hit at the end of it. */
  lemma LocalHitAtLast(cfg: Config, d: nat) returns (s: World, e: Stamped)
    requires AlwaysExpires(cfg.expiry)
    ensures Timely(cfg, d, s) && Old(s, e)
    ensures var c := 2 * d + RedisLife(cfg) - 1 + cfg.localLife; Here(s, c, 2, Done(Got(e)), c)
  {
    var c := d + RedisLife(cfg) - 1;
    s, e := HitAtLast(cfg, d);
    var stage := s.readers[1].stage;
    s := Wait(cfg, d, s, d, c, 1, stage, c);
    s := CopyAtLast(cfg, d, s, c, e, stage.hitAt);
    s := Join(cfg, d, s, 2);
    s := Wait(cfg, d, s, cfg.localLife, c + d, 2, TryLocal, c + d);
    s := Call(cfg, d, s, 2, LocalHit);
  }

  /**
    The age bound is attained: for every configuration whose entries always expire, and every delay d, there
    is a prompt run in which a request is about to return a value whose age is the bound less one nanosecond.
   */
  lemma AgeBoundIsAttained(cfg: Config, d: nat)
    requires AlwaysExpires(cfg.expiry)
    ensures MayReturn(cfg, d, RedisLife(cfg) + cfg.localLife + 3 * d - 1)
  {
    var s, e := LocalHitAtLast(cfg, d);
    var c := 2 * d + RedisLife(cfg) - 1 + cfg.localLife;
    s := Wait(cfg, d, s, d, c, 2, Done(Got(e)), c);
    assert Old(s, e) && Returning(cfg, d, s, 2, e, RedisLife(cfg) + cfg.localLife + 3 * d - 1);
  }

  // ---- Settings under which an entry may be given no expiry

  lemma CopyAtOnce(cfg: Config, d: nat, s: World, clock: int, e: Stamped, hitAt: nat) returns (t: World)
    requires Timely(cfg, d, s) && Here(s, clock, 1, Copy(e, hitAt), clock) && Old(s, e) && s.readers[1].lock.None?
    ensures Timely(cfg, d, t) && Sane(t) && Clock(t) == clock && Old(t, e)
    ensures 1 in t.readers && t.readers[1].stage == Done(Got(e)) && t.readers[1].since == clock
  {
    t := TakeInTime(cfg, d, s, Step(1, CopyOk));
    assert forall i :: 0 <= i < |s.hist| ==> t.hist[i] == s.hist[i];
  }

  /** An entry without expiry is served at every age. */
  lemma AnyAge(cfg: Config, d: nat, j: nat, age: nat)
    requires j < JITTER && TimeToLive(cfg.expiry, j).None?
    ensures MayReturn(cfg, d, age)
  {
    var s, e := ReadDatabase(cfg, d);
    s := DoFill(cfg, d, s, 0, e, j);
    s := Join(cfg, d, s, 1);
    s := Wait(cfg, d, s, age, 0, 1, TryLocal, 0);
    s := Call(cfg, d, s, 1, LocalMiss);
    s := Call(cfg, d, s, 1, RedisHit);
    s := CopyAtOnce(cfg, d, s, age, e, s.readers[1].stage.hitAt);
    assert Returning(cfg, d, s, 1, e, age);
  }

  lemma AgeIsBelow(cfg: Config, d: nat, s: World, rid: nat, e: Stamped, age: int)
    requires AlwaysExpires(cfg.expiry) && Returning(cfg, d, s, rid, e, age)
    ensures age < RedisLife(cfg) + cfg.localLife + 3 * d
  {
    var run: Run :| PromptRun(cfg, run, d) && Last(run) == s;
    var r := ExtendInTime(cfg, d, run, Finish(rid));
    ReturnedValuesAreYoung(cfg, r, d, |run.labels|, e);
  }

  ghost predicate AgesBelow(cfg: Config, d: nat, bound: int)
  {
    forall age :: MayReturn(cfg, d, age) ==> age < bound
  }

  /**
    Exactly when there is a bound on the age of what is returned, whatever the delay d: when every expiry
    that getRandomExpiration may give for the setting is positive. It is for a setting that Fits; it is not
    for zero, nor just past the largest Duration.
   */
  lemma AgeIsBoundedExactly(cfg: Config, d: nat)
    ensures (exists bound :: AgesBelow(cfg, d, bound)) <==> AlwaysExpires(cfg.expiry)
  {
    if AlwaysExpires(cfg.expiry) {
      forall age | MayReturn(cfg, d, age) ensures age < RedisLife(cfg) + cfg.localLife + 3 * d {
        var s, rid, e :| Returning(cfg, d, s, rid, e, age);
        AgeIsBelow(cfg, d, s, rid, e, age);
      }
      assert AgesBelow(cfg, d, RedisLife(cfg) + cfg.localLife + 3 * d);
    } else if bound :| AgesBelow(cfg, d, bound) {
      var j: nat :| j < JITTER && TimeToLive(cfg.expiry, j).None?;
      var age: nat := if bound < 0 then 0 else bound;
      AnyAge(cfg, d, j, age);
    }
  }
}
