/** Both enclosing interleavings really happen: concrete runs that leave a cache wrong after everything is settled. */
module StaleWitness {
  import opened Base
  import opened Keys
  import opened Customers
  import opened CacheProtocol
  import opened Coalescing
  import opened Staleness

  const THE_ROW: Row := Row(true, PersonalInfo("a", "b", "old"), ShippingInfo("c", "d"), "h")

  const THE_CHANGE: Change := PersonalChange(PersonalInfo("", "", "new"))

  const THE_KEY: Key := PersonalKey(1)

  ghost function Last(run: Run): World
    requires run.states != []
  {
    run.states[|run.states| - 1]
  }

  ghost predicate Reached(cfg: Config, s: World)
  {
    exists run: Run :: IsRun(cfg, run) && Last(run) == s
  }

  /** Reached by a run without an enclosing fill of the key. */
  ghost predicate Clean(cfg: Config, s: World)
  {
    exists run: Run :: IsRun(cfg, run) && Last(run) == s && NoEnclosingFill(run, THE_KEY, |run.labels|)
  }

  lemma Extend(cfg: Config, run: Run, l: Label) returns (r: Run)
    requires IsRun(cfg, run) && Enabled(cfg, Last(run), l)
    ensures IsRun(cfg, r) && Last(r) == Next(cfg, Last(run), l)
    ensures r.labels == run.labels + [l] && |r.states| == |run.states| + 1
    ensures forall i :: 0 <= i < |run.states| ==> r.states[i] == run.states[i]
  {
    r := Run(run.states + [Next(cfg, Last(run), l)], run.labels + [l]);
    forall i | 0 <= i < |r.labels| ensures StepAt(cfg, r, i) {
      if i < |run.labels| { assert StepAt(cfg, run, i); }
    }
  }

  /** The last step of a witness. */
  lemma Finally(cfg: Config, s: World, l: Label) returns (t: World)
    requires Clean(cfg, s) && Sane(s) && Enabled(cfg, s, l)
    ensures Reached(cfg, t) && t == Next(cfg, s, l)
  {
    var run: Run :| IsRun(cfg, run) && Last(run) == s;
    var r := Extend(cfg, run, l);
    t := Last(r);
  }

  lemma Take(cfg: Config, s: World, l: Label) returns (t: World)
    requires Clean(cfg, s) && Sane(s) && Enabled(cfg, s, l) && !EnclosingFill(s, l, THE_KEY)
    ensures Clean(cfg, t) && t == Next(cfg, s, l)
  {
    var run: Run :| IsRun(cfg, run) && Last(run) == s && NoEnclosingFill(run, THE_KEY, |run.labels|);
    var r := Extend(cfg, run, l);
    t := Last(r);
    forall i | 0 <= i < |r.labels| ensures !EnclosingFill(r.states[i], r.labels[i], THE_KEY) {
      if i < |run.labels| { assert !EnclosingFill(run.states[i], run.labels[i], THE_KEY); }
    }
  }

  /**
    Request rid for the key stands at this stage on node 0; no update has happened, and Redis holds at most
    the key.
   */
  ghost predicate Reading(s: World, now: nat, rid: nat, stage: Stage, locked: bool)
  {
    && Sane(s) && Now(s) == now && Clock(s) == 0 && Database(s) == map[1 := THE_ROW] && s.writers == map[]
    && s.redis.Keys <= {THE_KEY} && s.local == map[] && (locked || rid > 0 || s.leases == map[])
    && rid in s.readers && s.readers[rid].key == THE_KEY && s.readers[rid].node == 0
    && s.readers[rid].stage == stage && s.readers[rid].lock == if locked then Some(0) else None
  }

  lemma ReadStep(cfg: Config, s: World, rid: nat, op: Op, now: nat, stage: Stage, locked: bool) returns (t: World)
    requires Clean(cfg, s) && Reading(s, now, rid, stage, locked)
    requires !op.FillOk? && !op.CopyOk? && !op.Release? && OpEnabled(cfg, s, s.readers[rid], op)
    ensures Clean(cfg, t) && t.redis == s.redis && t.readers.Keys == s.readers.Keys
    ensures var q := ReaderAfter(cfg, s, s.readers[rid], op); Reading(t, now + 1, rid, q.stage, q.lock.Some?)
  {
    t := Take(cfg, s, Step(rid, op));
  }

  lemma Begin(cfg: Config) returns (s: World)
    ensures Clean(cfg, s) && Reading(s, 2, 0, TryLocal, false) && s.redis == map[] && s.readers.Keys == {0}
  {
    s := World([Moment(map[1 := THE_ROW], 0)], map[], map[], map[], map[], map[], map[], []);
    var run := Run([s], []);
    assert IsRun(cfg, run) && Last(run) == s && NoEnclosingFill(run, THE_KEY, |run.labels|);
    s := Take(cfg, s, Start(0, 0, THE_KEY, Browse));
  }

  lemma MissEverywhere(cfg: Config, s: World) returns (t: World)
    requires Clean(cfg, s) && Reading(s, 2, 0, TryLocal, false) && s.redis == map[]
    ensures Clean(cfg, t) && Reading(t, 4, 0, Locking, false) && t.redis == map[] && t.readers.Keys == s.readers.Keys
  {
    t := ReadStep(cfg, s, 0, LocalMiss, 2, TryLocal, false);
    t := ReadStep(cfg, t, 0, RedisMiss, 3, TryRedis, false);
  }

  /** Request 0 misses everywhere and takes the mutex. */
  lemma ReadToMutex(cfg: Config, s: World) returns (t: World)
    requires Clean(cfg, s) && Reading(s, 2, 0, TryLocal, false) && s.redis == map[]
    ensures Clean(cfg, t) && Reading(t, 5, 0, Recheck, true) && t.redis == map[] && t.readers.Keys == s.readers.Keys
  {
    t := MissEverywhere(cfg, s);
    t := ReadStep(cfg, t, 0, Acquire, 4, Locking, false);
  }

  /** Then it rechecks Redis and reads the database. */
  lemma ReadToFill(cfg: Config, s: World) returns (t: World)
    requires Clean(cfg, s) && Reading(s, 5, 0, Recheck, true) && s.redis == map[]
    ensures Clean(cfg, t) && Reading(t, 7, 0, Fill(Stamped(Personal(THE_ROW.personal), 6)), true)
    ensures t.readers.Keys == s.readers.Keys
  {
    t := ReadStep(cfg, s, 0, RecheckMiss, 5, Recheck, true);
    t := ReadStep(cfg, t, 0, QueryOk, 6, Query(false), true);
  }

  /** An update of the same customer is under way, this far, while the requests stand still. */
  ghost predicate Updating(s: World, now: nat, u: Writer, rs: map<nat, Reader>)
  {
    && Sane(s) && Now(s) == now && Clock(s) == 0 && Database(s) == map[1 := Merge(THE_ROW, THE_CHANGE)]
    && s.redis.Keys <= {THE_KEY} && (u.deletedAt.Some? ==> s.redis == map[])
    && s.writers == map[0 := u] && s.readers == rs
  }

  lemma WriteRow(cfg: Config, s: World, now: nat, rid: nat, stage: Stage, locked: bool) returns (t: World)
    requires Clean(cfg, s) && Reading(s, now, rid, stage, locked)
    ensures Clean(cfg, t) && Updating(t, now + 1, Writer(THE_KEY, now, None, {}, {}), s.readers)
  {
    t := Take(cfg, s, Write(0, 1, THE_CHANGE));
  }

  lemma DeleteShared(cfg: Config, s: World, now: nat, w: nat, rs: map<nat, Reader>) returns (t: World)
    requires Clean(cfg, s) && Updating(s, now, Writer(THE_KEY, w, None, {}, {}), rs)
    ensures Clean(cfg, t) && Updating(t, now + 1, Writer(THE_KEY, w, Some(now), {}, {}), rs)
  {
    t := Take(cfg, s, Delete(0));
    assert t.redis == map[];
  }

  lemma DeleteAndPublish(cfg: Config, s: World, now: nat, w: nat, rs: map<nat, Reader>) returns (t: World)
    requires Clean(cfg, s) && Updating(s, now, Writer(THE_KEY, w, None, {}, {}), rs)
    ensures Clean(cfg, t) && Updating(t, now + 2, Writer(THE_KEY, w, Some(now), {0}, {}), rs)
  {
    t := DeleteShared(cfg, s, now, w, rs);
    t := Take(cfg, t, Publish(0, {0}));
  }

  lemma HandleInvalidation(cfg: Config, s: World, now: nat, w: nat, d: nat, rs: map<nat, Reader>) returns (t: World)
    requires Clean(cfg, s) && Updating(s, now, Writer(THE_KEY, w, Some(d), {0}, {}), rs)
    ensures Clean(cfg, t) && Updating(t, now + 1, Writer(THE_KEY, w, Some(d), {0}, {0}), rs)
  {
    assert s.writers[0].applied + {0} == {0};
    t := Take(cfg, s, Invalidate(0, 0));
  }

  /** All of it: written, deleted, published and handled while request rid stands still. */
  lemma WholeUpdate(cfg: Config, s: World, now: nat, rid: nat, stage: Stage, locked: bool) returns (t: World)
    requires Clean(cfg, s) && Reading(s, now, rid, stage, locked)
    ensures Clean(cfg, t)
    ensures Updating(t, now + 4, Writer(THE_KEY, now, Some(now + 1), {0}, {0}), s.readers)
  {
    t := WriteRow(cfg, s, now, rid, stage, locked);
    t := DeleteAndPublish(cfg, t, now + 1, now, s.readers);
    t := HandleInvalidation(cfg, t, now + 3, now, now + 1, s.readers);
  }

  /** The only request there is has held the mutex since time 0, and it still is time 0. */
  ghost predicate Holding(s: World)
  {
    Sane(s) && Clock(s) == 0 && s.readers.Keys == {0} && s.readers[0].key == THE_KEY && s.readers[0].lock == Some(0)
  }

  /** Request 0 has read the database, and then the whole update passes. */
  lemma ReadThenUpdate(cfg: Config) returns (s: World)
    ensures Clean(cfg, s) && Holding(s)
    ensures Updating(s, 11, Writer(THE_KEY, 7, Some(8), {0}, {0}), s.readers)
    ensures s.readers[0].stage == Fill(Stamped(Personal(THE_ROW.personal), 6))
  {
    s := Begin(cfg);
    s := ReadToMutex(cfg, s);
    s := ReadToFill(cfg, s);
    s := WholeUpdate(cfg, s, 7, 0, Fill(Stamped(Personal(THE_ROW.personal), 6)), true);
  }

  /** Request 0 stores its value after the node has handled the invalidation. */
  lemma FillLate(cfg: Config, s: World, e: Stamped) returns (t: World)
    requires Clean(cfg, s) && 0 in s.readers && e == Stamped(Personal(THE_ROW.personal), 6)
    requires Updating(s, 11, Writer(THE_KEY, 7, Some(8), {0}, {0}), s.readers)
    requires Holding(s) && s.readers[0].stage == Fill(e)
    ensures Holding(t)
    ensures Reached(cfg, t) && RedisOverdue(t, THE_KEY) && Sane(t) && Database(t) == Database(s)
    ensures t.redis[THE_KEY].e == e && t.writers == s.writers
  {
    assert SpanEncloses(s, 0, THE_KEY, e);
    FillMakesOverdue(cfg, s, Step(0, FillOk(0)), THE_KEY);
    t := Finally(cfg, s, Step(0, FillOk(0)));
  }

  /**
    A run in which an enclosing fill leaves Redis holding the old email although the only update there ever
    was has written, deleted, published, and been handled by the node: the exclusion is needed, and the
    mutex, which the reader took at time 0, still holds and is well within its lease, does not provide it.
   */
  lemma EnclosureLeavesRedisWrong(cfg: Config)
    ensures exists s: World ::
              && Reached(cfg, s) && RedisOverdue(s, THE_KEY)
              && Answer(Database(s), THE_KEY) != Some(s.redis[THE_KEY].e.value)
              && s.writers == map[0 := Writer(THE_KEY, 7, Some(8), {0}, {0})]
              && Holding(s) && WithinLease(s)
  {
    var e := Stamped(Personal(THE_ROW.personal), 6);
    var s := ReadThenUpdate(cfg);
    s := FillLate(cfg, s, e);
  }

  /** Request 0 fills Redis while nothing is updated, and request 1 starts. */
  lemma FillEarly(cfg: Config, s: World, e: Stamped) returns (t: World)
    requires Clean(cfg, s) && Reading(s, 7, 0, Fill(e), true) && s.readers.Keys == {0}
    ensures Clean(cfg, t) && Reading(t, 9, 1, TryLocal, false)
    ensures LiveInRedis(t, THE_KEY) && t.redis[THE_KEY].e == e
  {
    assert forall w: nat :: !SpanEncloses(s, w, THE_KEY, e);
    t := Take(cfg, s, Step(0, FillOk(1)));
    t := Take(cfg, t, Start(1, 0, THE_KEY, Browse));
  }

  /** Request 1 hits the entry. */
  lemma HitToCopy(cfg: Config, s: World, e: Stamped) returns (t: World)
    requires Clean(cfg, s) && Reading(s, 9, 1, TryLocal, false) && LiveInRedis(s, THE_KEY) && s.redis[THE_KEY].e == e
    ensures Clean(cfg, t) && Reading(t, 11, 1, Copy(e, 10), false)
  {
    t := ReadStep(cfg, s, 1, LocalMiss, 9, TryLocal, false);
    t := ReadStep(cfg, t, 1, RedisHit, 10, TryRedis, false);
  }

  /** Request 1 stores its hit after the node has handled the invalidation. */
  lemma CopyLate(cfg: Config, s: World, e: Stamped) returns (t: World)
    requires Clean(cfg, s) && 1 in s.readers && e == Stamped(Personal(THE_ROW.personal), 6)
    requires Updating(s, 15, Writer(THE_KEY, 11, Some(12), {0}, {0}), s.readers)
    requires s.readers[1].key == THE_KEY && s.readers[1].node == 0 && s.readers[1].stage == Copy(e, 10)
    ensures Clean(cfg, t) && LocalOverdue(t, 0, THE_KEY) && Sane(t) && Database(t) == Database(s)
    ensures t.local[(0, THE_KEY)].e == e && t.writers == s.writers
  {
    assert CopyEncloses(s, 0, 0, THE_KEY, e, 10);
    CopyMakesOverdue(cfg, s, Step(1, CopyOk), 0, THE_KEY);
    t := Take(cfg, s, Step(1, CopyOk));
  }

  /**
    A run without any enclosing fill in which an enclosing copy leaves the node's local cache holding the old
    email after the node has handled the only invalidation there will ever be: the second exclusion is needed
    as well as the first.
   */
  lemma EnclosureLeavesLocalWrong(cfg: Config)
    ensures exists s: World ::
              && Clean(cfg, s) && LocalOverdue(s, 0, THE_KEY)
              && Answer(Database(s), THE_KEY) != Some(s.local[(0, THE_KEY)].e.value)
              && s.writers == map[0 := Writer(THE_KEY, 11, Some(12), {0}, {0})]
  {
    var e := Stamped(Personal(THE_ROW.personal), 6);
    var s := Begin(cfg);
    s := ReadToMutex(cfg, s);
    s := ReadToFill(cfg, s);
    s := FillEarly(cfg, s, e);
    s := HitToCopy(cfg, s, e);
    s := WholeUpdate(cfg, s, 11, 1, Copy(e, 10), false);
    s := CopyLate(cfg, s, e);
  }
}
