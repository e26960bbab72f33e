/** Exactly when an entry can outlive the invalidation that was meant for it. */
module Staleness {
  import opened Base
  import opened Keys
  import opened Customers
  import opened CacheProtocol
  import opened Provenance

  /** An update of k that wrote the database after the value was read from it. */
  ghost predicate Newer(s: World, w: nat, k: Key, e: Stamped)
  {
    w in s.writers && s.writers[w].key == k && e.at < s.writers[w].wroteAt
  }

  ghost predicate Deleted(s: World, w: nat)
  {
    w in s.writers && s.writers[w].deletedAt.Some?
  }

  ghost predicate AppliedAt(s: World, w: nat, n: nat)
  {
    w in s.writers && n in s.writers[w].applied
  }

  /** Redis holds a value although a newer update has already done its Delete. */
  ghost predicate RedisOverdue(s: World, k: Key)
  {
    k in s.redis && exists w: nat :: Newer(s, w, k, s.redis[k].e) && Deleted(s, w)
  }

  /** A node holds a value although it has already handled the invalidation of a newer update. */
  ghost predicate LocalOverdue(s: World, n: nat, k: Key)
  {
    (n, k) in s.local && exists w: nat :: Newer(s, w, k, s.local[(n, k)].e) && AppliedAt(s, w, n)
  }

  /** Between the database read and this moment lie both the database write and the Redis Delete of one update. */
  ghost predicate SpanEncloses(s: World, w: nat, k: Key, e: Stamped)
  {
    && w in s.writers && s.writers[w].key == k && s.writers[w].deletedAt.Some?
    && e.at < s.writers[w].wroteAt < s.writers[w].deletedAt.value < Now(s)
  }

  /** The step is a Redis Set whose request's span, from database read to Set, encloses an update of k. */
  ghost predicate EnclosingFill(s: World, l: Label, k: Key)
  {
    && l.Step? && l.op.FillOk? && l.rid in s.readers
    && s.readers[l.rid].key == k && s.readers[l.rid].stage.Fill?
    && exists w: nat :: SpanEncloses(s, w, k, s.readers[l.rid].stage.e)
  }

  /**
    Between the Redis hit and this moment lie both the Redis Delete of an update newer than the value and
    the node's handling of its invalidation.
   */
  ghost predicate CopyEncloses(s: World, w: nat, n: nat, k: Key, e: Stamped, hitAt: nat)
  {
    Newer(s, w, k, e) && s.writers[w].deletedAt.Some? && hitAt < s.writers[w].deletedAt.value && AppliedAt(s, w, n)
  }

  ghost predicate EnclosingCopy(s: World, l: Label, n: nat, k: Key)
  {
    && l.Step? && l.op.CopyOk? && l.rid in s.readers
    && s.readers[l.rid].node == n && s.readers[l.rid].key == k && s.readers[l.rid].stage.Copy?
    && exists w: nat ::
         CopyEncloses(s, w, n, k, s.readers[l.rid].stage.e, s.readers[l.rid].stage.hitAt)
  }

  ghost predicate NoEnclosingFill(run: Run, k: Key, i: nat)
    requires i <= |run.labels| <= |run.states|
  {
    forall j :: 0 <= j < i ==> !EnclosingFill(run.states[j], run.labels[j], k)
  }

  ghost predicate NoEnclosingCopy(run: Run, n: nat, k: Key, i: nat)
    requires i <= |run.labels| <= |run.states|
  {
    forall j :: 0 <= j < i ==> !EnclosingCopy(run.states[j], run.labels[j], n, k)
  }

  // ---- The steps of an update happen in order

  ghost predicate WriterOrdered(s: World, w: nat)
    requires w in s.writers
  {
    var u := s.writers[w];
    && u.wroteAt < Now(s)
    && (u.deletedAt.Some? ==> u.wroteAt < u.deletedAt.value < Now(s))
    && (u.deletedAt.None? ==> u.delivered == {} && u.applied == {})
  }

  lemma {:induction false} WritersOrdered(cfg: Config, run: Run, i: nat, w: nat)
    requires IsRun(cfg, run) && i < |run.states| && w in run.states[i].writers
    ensures WriterOrdered(run.states[i], w)
  {
    if i == 0 {
    } else {
      assert StepAt(cfg, run, i - 1);
      if w in run.states[i - 1].writers {
        WritersOrdered(cfg, run, i - 1, w);
      }
    }
  }

  // ---- Redis

  lemma {:induction false} RedisNotOverdue(cfg: Config, run: Run, k: Key, i: nat)
    requires IsRun(cfg, run) && i < |run.states| && NoEnclosingFill(run, k, i)
    ensures !RedisOverdue(run.states[i], k)
  {
    if i == 0 {
    } else {
      assert StepAt(cfg, run, i - 1);
      var s, l, t := run.states[i - 1], run.labels[i - 1], run.states[i];
      RedisNotOverdue(cfg, run, k, i - 1);
      if RedisOverdue(t, k) {
        var w: nat :| Newer(t, w, k, t.redis[k].e) && Deleted(t, w);
        assert w in s.writers && Deleted(s, w);
        WritersOrdered(cfg, run, i - 1, w);
        if k in s.redis && s.redis[k] == t.redis[k] {
          assert Newer(s, w, k, s.redis[k].e);
        } else {
          assert SpanEncloses(s, w, k, s.readers[l.rid].stage.e);
        }
      }
    }
  }

  lemma FillMakesOverdue(cfg: Config, s: World, l: Label, k: Key)
    requires Sane(s) && Enabled(cfg, s, l) && EnclosingFill(s, l, k)
    ensures RedisOverdue(Next(cfg, s, l), k)
  {
    var w: nat :| SpanEncloses(s, w, k, s.readers[l.rid].stage.e);
    var t := Next(cfg, s, l);
    assert Newer(t, w, k, t.redis[k].e) && Deleted(t, w);
  }

  /**
    Redis staleness, exactly. In every run, of any number of readers and updaters in any interleaving,
    Redis comes to hold a value of k that a finished Delete of k should have removed if and only if some
    reader's span from database read to Redis Set encloses both the write and the Delete of one update.
   */
  lemma RedisStalenessExact(cfg: Config, run: Run, k: Key)
    requires IsRun(cfg, run)
    ensures (exists i :: 0 <= i < |run.states| && RedisOverdue(run.states[i], k)) <==>
            (exists j :: 0 <= j < |run.labels| && EnclosingFill(run.states[j], run.labels[j], k))
  {
    if i :| 0 <= i < |run.states| && RedisOverdue(run.states[i], k) {
      if NoEnclosingFill(run, k, i) { RedisNotOverdue(cfg, run, k, i); }
    }
    if j :| 0 <= j < |run.labels| && EnclosingFill(run.states[j], run.labels[j], k) {
      assert StepAt(cfg, run, j);
      FillMakesOverdue(cfg, run.states[j], run.labels[j], k);
      assert RedisOverdue(run.states[j + 1], k);
    }
  }

  // ---- Local caches

  /** A Redis hit in hand: every newer update had not yet done its Delete when the hit was made. */
  ghost predicate HitFresh(s: World, k: Key, e: Stamped, hitAt: nat)
  {
    forall w: nat :: Newer(s, w, k, e) && Deleted(s, w) ==> hitAt < s.writers[w].deletedAt.value
  }

  ghost predicate CopiesFresh(s: World, k: Key)
  {
    forall rid: nat :: rid in s.readers && s.readers[rid].key == k && s.readers[rid].stage.Copy? ==>
      s.readers[rid].stage.hitAt < Now(s) && HitFresh(s, k, s.readers[rid].stage.e, s.readers[rid].stage.hitAt)
  }

  lemma HitStaysFresh(cfg: Config, s: World, l: Label, k: Key, e: Stamped, hitAt: nat)
    requires Sane(s) && Enabled(cfg, s, l) && hitAt < Now(s) && HitFresh(s, k, e, hitAt)
    ensures HitFresh(Next(cfg, s, l), k, e, hitAt)
  {
    var t := Next(cfg, s, l);
    forall w: nat | Newer(t, w, k, e) && Deleted(t, w) ensures hitAt < t.writers[w].deletedAt.value {
      if Deleted(s, w) { assert Newer(s, w, k, e); }
    }
  }

  lemma {:induction false} HitsFresh(cfg: Config, run: Run, k: Key, i: nat)
    requires IsRun(cfg, run) && i < |run.states| && NoEnclosingFill(run, k, i)
    ensures CopiesFresh(run.states[i], k)
  {
    if i == 0 {
    } else {
      assert StepAt(cfg, run, i - 1);
      var s, l, t := run.states[i - 1], run.labels[i - 1], run.states[i];
      HitsFresh(cfg, run, k, i - 1);
      forall rid: nat | rid in t.readers && t.readers[rid].key == k && t.readers[rid].stage.Copy?
        ensures t.readers[rid].stage.hitAt < Now(t)
        ensures HitFresh(t, k, t.readers[rid].stage.e, t.readers[rid].stage.hitAt)
      {
        if rid in s.readers && s.readers[rid] == t.readers[rid] {
          HitStaysFresh(cfg, s, l, k, s.readers[rid].stage.e, s.readers[rid].stage.hitAt);
        } else {
          RedisNotOverdue(cfg, run, k, i - 1);
          var e := t.readers[rid].stage.e;
          assert e == s.redis[k].e && t.writers == s.writers;
          assert forall w: nat :: Newer(t, w, k, e) && Deleted(t, w) ==> Newer(s, w, k, s.redis[k].e) && Deleted(s, w);
        }
      }
    }
  }

  lemma {:induction false} LocalNotOverdue(cfg: Config, run: Run, n: nat, k: Key, i: nat)
    requires IsRun(cfg, run) && i < |run.states|
    requires NoEnclosingFill(run, k, i) && NoEnclosingCopy(run, n, k, i)
    ensures !LocalOverdue(run.states[i], n, k)
  {
    if i == 0 {
    } else {
      assert StepAt(cfg, run, i - 1);
      var s, l, t := run.states[i - 1], run.labels[i - 1], run.states[i];
      LocalNotOverdue(cfg, run, n, k, i - 1);
      if LocalOverdue(t, n, k) {
        var w: nat :| Newer(t, w, k, t.local[(n, k)].e) && AppliedAt(t, w, n);
        assert w in s.writers && AppliedAt(s, w, n);
        if (n, k) in s.local && s.local[(n, k)] == t.local[(n, k)] {
          assert Newer(s, w, k, s.local[(n, k)].e);
        } else {
          var r := s.readers[l.rid];
          WritersOrdered(cfg, run, i - 1, w);
          HitsFresh(cfg, run, k, i - 1);
          assert Newer(s, w, k, r.stage.e) && Deleted(s, w);
          assert CopyEncloses(s, w, n, k, r.stage.e, r.stage.hitAt);
        }
      }
    }
  }

  lemma CopyMakesOverdue(cfg: Config, s: World, l: Label, n: nat, k: Key)
    requires Sane(s) && Enabled(cfg, s, l) && EnclosingCopy(s, l, n, k)
    ensures LocalOverdue(Next(cfg, s, l), n, k)
  {
    var r := s.readers[l.rid];
    var w: nat :| CopyEncloses(s, w, n, k, r.stage.e, r.stage.hitAt);
    var t := Next(cfg, s, l);
    assert Newer(t, w, k, t.local[(n, k)].e) && AppliedAt(t, w, n);
  }

  /**
    Local staleness, exactly. In every run in which Redis stays free of overdue values of k, a node comes
    to hold a value of k although it has handled the invalidation of a newer update if and only if some
    reader's span on that node, from Redis hit to local Set, encloses both the Redis Delete of an update
    newer than its value and the node's handling of that update's invalidation.
   */
  lemma LocalStalenessExact(cfg: Config, run: Run, n: nat, k: Key)
    requires IsRun(cfg, run) && NoEnclosingFill(run, k, |run.labels|)
    ensures (exists i :: 0 <= i < |run.states| && LocalOverdue(run.states[i], n, k)) <==>
            (exists j :: 0 <= j < |run.labels| && EnclosingCopy(run.states[j], run.labels[j], n, k))
  {
    if i :| 0 <= i < |run.states| && LocalOverdue(run.states[i], n, k) {
      if NoEnclosingCopy(run, n, k, i) { LocalNotOverdue(cfg, run, n, k, i); }
    }
    if j :| 0 <= j < |run.labels| && EnclosingCopy(run.states[j], run.labels[j], n, k) {
      assert StepAt(cfg, run, j);
      CopyMakesOverdue(cfg, run.states[j], run.labels[j], n, k);
      assert LocalOverdue(run.states[j + 1], n, k);
    }
  }

  // ---- What this means for the values themselves

  /** A value that is no longer the database's answer has a newer update to blame, for either account key. */
  lemma {:induction false} OutOfDateHasWriter(cfg: Config, run: Run, i: nat, k: Key, e: Stamped)
    requires IsRun(cfg, run) && i < |run.states| && IsAccountKey(k)
    requires Genuine(run.states[i], k, e) && Answer(Database(run.states[i]), k) != Some(e.value)
    ensures exists w: nat :: Newer(run.states[i], w, k, e)
  {
    if i == 0 {
    } else {
      assert StepAt(cfg, run, i - 1);
      var s, l, t := run.states[i - 1], run.labels[i - 1], run.states[i];
      if Genuine(s, k, e) && Answer(Database(s), k) != Some(e.value) {
        OutOfDateHasWriter(cfg, run, i - 1, k, e);
        var w: nat :| Newer(s, w, k, e);
        assert Newer(t, w, k, e);
      } else {
        assert e.at < Now(s);
        assert t.hist[e.at] == s.hist[e.at];
        if l.SignUp? {
          OnlyItsOwnUpdate(Database(s), Insert(l.id, l.row), k);
        } else if l.Write? {
          OnlyItsOwnUpdate(Database(s), Update(l.id, l.change), k);
          assert Newer(t, l.wid, k, e);
        }
      }
    }
  }

  /**
    In runs without an enclosing fill, a Redis entry that differs from the database has an update of its
    key in flight: written, and none of the newer ones past its Delete. When no update of k is short of
    its Delete, Redis is simply right about k.
   */
  lemma StaleRedisHasUpdateInFlight(cfg: Config, run: Run, i: nat, k: Key)
    requires IsRun(cfg, run) && i < |run.states| && IsAccountKey(k) && NoEnclosingFill(run, k, i)
    requires k in run.states[i].redis && Answer(Database(run.states[i]), k) != Some(run.states[i].redis[k].e.value)
    ensures var s := run.states[i]; var e := s.redis[k].e;
            && (exists w: nat :: Newer(s, w, k, e))
            && (forall w: nat :: Newer(s, w, k, e) ==> !Deleted(s, w))
  {
    var e := run.states[i].redis[k].e;
    assert Held(run.states[i], k, e);
    NoInventedValues(cfg, run, i, k, e);
    OutOfDateHasWriter(cfg, run, i, k, e);
    RedisNotOverdue(cfg, run, k, i);
  }

  /**
    In runs without either enclosure, a local entry that differs from the database has newer updates, and
    the node has handled the invalidation of none of them: no wrong entry outlives its delete task.
   */
  lemma StaleLocalAwaitsInvalidation(cfg: Config, run: Run, i: nat, n: nat, k: Key)
    requires IsRun(cfg, run) && i < |run.states| && IsAccountKey(k)
    requires NoEnclosingFill(run, k, i) && NoEnclosingCopy(run, n, k, i)
    requires (n, k) in run.states[i].local
    requires Answer(Database(run.states[i]), k) != Some(run.states[i].local[(n, k)].e.value)
    ensures var s := run.states[i]; var e := s.local[(n, k)].e;
            && (exists w: nat :: Newer(s, w, k, e))
            && (forall w: nat :: Newer(s, w, k, e) ==> !AppliedAt(s, w, n))
  {
    var e := run.states[i].local[(n, k)].e;
    assert Held(run.states[i], k, e);
    NoInventedValues(cfg, run, i, k, e);
    OutOfDateHasWriter(cfg, run, i, k, e);
    LocalNotOverdue(cfg, run, n, k, i);
  }

  /** Every update of k so far has done its Delete, and this node has handled its invalidation. */
  ghost predicate Settled(s: World, n: nat, k: Key)
  {
    forall w: nat :: w in s.writers && s.writers[w].key == k ==> Deleted(s, w) && AppliedAt(s, w, n)
  }

  /**
    Whenever the updates of an account key have settled, a wrong entry, in Redis or on the node, is the mark
    of an enclosing fill or an enclosing copy; in every other run both caches are the database's own answer.
   */
  lemma SettledCachesAreRight(cfg: Config, run: Run, i: nat, n: nat, k: Key)
    requires IsRun(cfg, run) && i < |run.states| && IsAccountKey(k) && Settled(run.states[i], n, k)
    requires NoEnclosingFill(run, k, i)
    ensures var s := run.states[i];
            && (k in s.redis ==> Answer(Database(s), k) == Some(s.redis[k].e.value))
            && (NoEnclosingCopy(run, n, k, i) && (n, k) in s.local ==>
                  Answer(Database(s), k) == Some(s.local[(n, k)].e.value))
  {
    var s := run.states[i];
    if k in s.redis && Answer(Database(s), k) != Some(s.redis[k].e.value) {
      StaleRedisHasUpdateInFlight(cfg, run, i, k);
    }
    if NoEnclosingCopy(run, n, k, i) && (n, k) in s.local && Answer(Database(s), k) != Some(s.local[(n, k)].e.value) {
      StaleLocalAwaitsInvalidation(cfg, run, i, n, k);
    }
  }
}
