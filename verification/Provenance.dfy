/** Where values come from: nothing is ever served that the database did not say for that very key. */
module Provenance {
  import opened Base
  import opened Keys
  import opened Customers
  import opened CacheProtocol

  ghost predicate StageHolds(st: Stage, e: Stamped)
  {
    match st
    case Fill(x) => x == e
    case Copy(x, _) => x == e
    case Leave(Got(x)) => x == e
    case Done(Got(x)) => x == e
    case _ => false
  }

  ghost predicate ReaderHolds(s: World, rid: nat, k: Key, e: Stamped)
  {
    rid in s.readers && s.readers[rid].key == k && StageHolds(s.readers[rid].stage, e)
  }

  /** The value sits under k in Redis, in some local cache, or in the hands of a request for k. */
  ghost predicate Held(s: World, k: Key, e: Stamped)
  {
    || (k in s.redis && s.redis[k].e == e)
    || (exists n: nat :: (n, k) in s.local && s.local[(n, k)].e == e)
    || (exists rid: nat :: ReaderHolds(s, rid, k, e))
  }

  /** The database gave this value for this key at the step it is stamped with. */
  ghost predicate Genuine(s: World, k: Key, e: Stamped)
  {
    e.at < |s.hist| && Answer(s.hist[e.at].table, k) == Some(e.value)
  }

  ghost predicate IsQuery(s: World, l: Label, k: Key)
  {
    l.Step? && l.op.QueryOk? && l.rid in s.readers && s.readers[l.rid].key == k
  }

  /** A value in hand after a step of its request was in hand, in Redis or local before, or was just queried. */
  lemma ReaderFlow(cfg: Config, s: World, l: Label, rid: nat, k: Key, e: Stamped)
    requires Sane(s) && Enabled(cfg, s, l)
    requires ReaderHolds(Next(cfg, s, l), rid, k, e)
    ensures Held(s, k, e) || (IsQuery(s, l, k) && e.at == Now(s) && Answer(Database(s), k) == Some(e.value))
  {
    if l.Step? && l.rid == rid {
      var r := s.readers[rid];
      if l.op.LocalHit? {
        assert s.local[(r.node, k)].e == e;
      } else if l.op.RedisHit? || l.op.RecheckHit? {
        assert s.redis[k].e == e;
      } else if !l.op.QueryOk? {
        assert ReaderHolds(s, rid, k, e);
      }
    } else {
      assert ReaderHolds(s, rid, k, e);
    }
  }

  ghost predicate InRedis(s: World, k: Key, e: Stamped)
  {
    k in s.redis && s.redis[k].e == e
  }

  ghost predicate InLocal(s: World, n: nat, k: Key, e: Stamped)
  {
    (n, k) in s.local && s.local[(n, k)].e == e
  }

  /** On its way from the database to Redis. */
  ghost predicate ToRedis(s: World, rid: nat, k: Key, e: Stamped)
  {
    rid in s.readers && s.readers[rid].key == k && s.readers[rid].stage == Fill(e)
  }

  /** On its way from Redis to this node's local cache. */
  ghost predicate ToLocal(s: World, rid: nat, n: nat, k: Key, e: Stamped)
  {
    && rid in s.readers && s.readers[rid].key == k && s.readers[rid].node == n
    && s.readers[rid].stage.Copy? && s.readers[rid].stage.e == e
  }

  lemma OneWayToLocal(cfg: Config, s: World, l: Label, k: Key, e: Stamped, n: nat)
    requires Sane(s) && Enabled(cfg, s, l)
    ensures InLocal(Next(cfg, s, l), n, k, e) && !InLocal(s, n, k, e) ==>
              l.Step? && l.op.CopyOk? && ToLocal(s, l.rid, n, k, e)
  {
  }

  lemma OneWayFromRedis(cfg: Config, s: World, l: Label, k: Key, e: Stamped, rid: nat, n: nat)
    requires Sane(s) && Enabled(cfg, s, l)
    requires ToLocal(Next(cfg, s, l), rid, n, k, e) && !ToLocal(s, rid, n, k, e)
    ensures (l == Step(rid, RedisHit) || l == Step(rid, RecheckHit)) && InRedis(s, k, e)
  {
    assert l.Step? && l.rid == rid;
  }

  /**
    Values flow one way only. What is new in Redis was on its way from the database; what is on that way is
    the database's answer at the step it set out; what is new in a local cache was on its way from Redis; and
    what is on that way was in Redis when it set out. So nothing is written back on a local hit, and no local
    cache is filled from the database.
   */
  lemma OneWay(cfg: Config, s: World, l: Label, k: Key, e: Stamped)
    requires Sane(s) && Enabled(cfg, s, l)
    ensures var t := Next(cfg, s, l);
            && (InRedis(t, k, e) && !InRedis(s, k, e) ==> l.Step? && l.op.FillOk? && ToRedis(s, l.rid, k, e))
            && (forall rid: nat :: ToRedis(t, rid, k, e) && !ToRedis(s, rid, k, e) ==>
                  l == Step(rid, QueryOk) && e.at == Now(s) && Answer(Database(s), k) == Some(e.value))
            && (forall n: nat :: InLocal(t, n, k, e) && !InLocal(s, n, k, e) ==>
                  l.Step? && l.op.CopyOk? && ToLocal(s, l.rid, n, k, e))
            && (forall rid: nat, n: nat :: ToLocal(t, rid, n, k, e) && !ToLocal(s, rid, n, k, e) ==>
                  (l == Step(rid, RedisHit) || l == Step(rid, RecheckHit)) && InRedis(s, k, e))
  {
    var t := Next(cfg, s, l);
    forall rid: nat | ToRedis(t, rid, k, e) && !ToRedis(s, rid, k, e)
      ensures l == Step(rid, QueryOk) && e.at == Now(s) && Answer(Database(s), k) == Some(e.value)
    {
      assert l.Step? && l.rid == rid;
    }
    forall n: nat | InLocal(t, n, k, e) && !InLocal(s, n, k, e)
      ensures l.Step? && l.op.CopyOk? && ToLocal(s, l.rid, n, k, e)
    {
      OneWayToLocal(cfg, s, l, k, e, n);
    }
    forall rid: nat, n: nat | ToLocal(t, rid, n, k, e) && !ToLocal(s, rid, n, k, e)
      ensures (l == Step(rid, RedisHit) || l == Step(rid, RecheckHit)) && InRedis(s, k, e)
    {
      OneWayFromRedis(cfg, s, l, k, e, rid, n);
    }
  }

  /** Whatever is held after a step was held before it, or was just read from the database. */
  lemma Flow(cfg: Config, s: World, l: Label, k: Key, e: Stamped)
    requires Sane(s) && Enabled(cfg, s, l) && Held(Next(cfg, s, l), k, e)
    ensures Held(s, k, e) || (IsQuery(s, l, k) && e.at == Now(s) && Answer(Database(s), k) == Some(e.value))
  {
    var t := Next(cfg, s, l);
    if k in t.redis && t.redis[k].e == e {
      if !(k in s.redis && s.redis[k].e == e) {
        assert ReaderHolds(s, l.rid, k, e);
      }
    } else if n: nat :| (n, k) in t.local && t.local[(n, k)].e == e {
      if !((n, k) in s.local && s.local[(n, k)].e == e) {
        assert ReaderHolds(s, l.rid, k, e);
      }
    } else {
      var rid: nat :| ReaderHolds(t, rid, k, e);
      ReaderFlow(cfg, s, l, rid, k, e);
    }
  }

  /**
    No invented values: in every run, with any failures, lapses, drops and interleavings, every value in
    Redis, in any local cache or in the hands of a request, to be returned or not, was the database's
    answer for that very key at an earlier step, negative answers included.
   */
  lemma {:induction false} NoInventedValues(cfg: Config, run: Run, i: nat, k: Key, e: Stamped)
    requires IsRun(cfg, run) && i < |run.states| && Held(run.states[i], k, e)
    ensures Genuine(run.states[i], k, e)
  {
    if i == 0 {
    } else {
      assert StepAt(cfg, run, i - 1);
      var s, l := run.states[i - 1], run.labels[i - 1];
      Flow(cfg, s, l, k, e);
      if Held(s, k, e) {
        NoInventedValues(cfg, run, i - 1, k, e);
      }
    }
  }

  // ---- "Not found"

  /** At step j the request asked the database for k and it had no answer; the request has been running since. */
  ghost predicate AskedInVain(run: Run, j: nat, i: nat, rid: nat, k: Key)
    requires j < i <= |run.labels| < |run.states|
  {
    && Sane(run.states[j]) && run.labels[j] == Step(rid, QueryOk)
    && (forall m :: j <= m <= i ==> rid in run.states[m].readers && run.states[m].readers[rid].key == k)
    && Answer(Database(run.states[j]), k) == None
  }

  ghost predicate ToldNotFound(st: Stage)
  {
    (st.Leave? && st.out.NotFound?) || (st.Done? && st.out.NotFound?)
  }

  lemma NotFoundStep(cfg: Config, s: World, l: Label, rid: nat)
    requires Sane(s) && Enabled(cfg, s, l) && rid in Next(cfg, s, l).readers
    requires ToldNotFound(Next(cfg, s, l).readers[rid].stage)
    ensures rid in s.readers && s.readers[rid].key == Next(cfg, s, l).readers[rid].key
    ensures ToldNotFound(s.readers[rid].stage) ||
            (l == Step(rid, QueryOk) && Answer(Database(s), s.readers[rid].key) == None)
  {
  }

  /**
    Nor is "not found" ever invented: a request that is about to be told so asked the database itself, and the
    database had no answer for its key at that very step.
   */
  lemma {:induction false} NotFoundIsTrue(cfg: Config, run: Run, i: nat, rid: nat)
    requires IsRun(cfg, run) && i < |run.states| && rid in run.states[i].readers
    requires ToldNotFound(run.states[i].readers[rid].stage)
    ensures exists j :: 0 <= j < i && AskedInVain(run, j, i, rid, run.states[i].readers[rid].key)
  {
    if i == 0 {
    } else {
      assert StepAt(cfg, run, i - 1);
      var s, l := run.states[i - 1], run.labels[i - 1];
      var k := run.states[i].readers[rid].key;
      NotFoundStep(cfg, s, l, rid);
      if ToldNotFound(s.readers[rid].stage) {
        NotFoundIsTrue(cfg, run, i - 1, rid);
        var j :| 0 <= j < i - 1 && AskedInVain(run, j, i - 1, rid, k);
        assert AskedInVain(run, j, i, rid, k);
      } else {
        assert AskedInVain(run, i - 1, i, rid, k);
      }
    }
  }

  // ---- The database over time

  /** Time does not run backwards, no customer is lost, and no active flag or hash ever changes. */
  ghost predicate Orderly(s: World)
  {
    && Sane(s)
    && Unique(Database(s))
    && forall i :: 0 <= i < |s.hist| ==>
         s.hist[i].clock <= Clock(s) && Preserved(s.hist[i].table, Database(s))
  }

  lemma OrderlyStep(cfg: Config, s: World, l: Label)
    requires Orderly(s) && Enabled(cfg, s, l)
    ensures Orderly(Next(cfg, s, l))
    ensures Preserved(Database(s), Database(Next(cfg, s, l)))
  {
    if l.SignUp? {
      ApplyKeeps(Database(s), Insert(l.id, l.row));
    } else if l.Write? {
      ApplyKeeps(Database(s), Update(l.id, l.change));
    }
    var t := Next(cfg, s, l);
    forall i | 0 <= i < |t.hist| ensures Preserved(t.hist[i].table, Database(t)) {
      if i < |s.hist| {
        assert t.hist[i] == s.hist[i];
        assert Preserved(s.hist[i].table, Database(s));
      }
    }
  }

  lemma {:induction false} OrderlyAt(cfg: Config, run: Run, i: nat)
    requires IsRun(cfg, run) && i < |run.states|
    ensures Orderly(run.states[i])
  {
    if i == 0 {
    } else {
      assert StepAt(cfg, run, i - 1);
      OrderlyAt(cfg, run, i - 1);
      OrderlyStep(cfg, run.states[i - 1], run.labels[i - 1]);
    }
  }
}
