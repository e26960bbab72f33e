/** How old a returned value can be when calls inside a request are not delayed for ever. */
module BoundedAge {
  import opened Base
  import opened Keys
  import opened Expiry
  import opened CacheProtocol
  import opened Provenance

  /** The longest life a Redis entry is given: E + 9 seconds, when the setting fits. */
  ghost function RedisLife(cfg: Config): int
  {
    LongestLife(cfg.expiry)
  }

  lemma LatestExpiry(cfg: Config, clock: int) returns (j: nat)
    requires AlwaysExpires(cfg.expiry)
    ensures j < JITTER && ExpiresAt(cfg, clock, j) == Some(clock + RedisLife(cfg))
  {
    j := LongestIsPositive(cfg.expiry);
  }

  /** A request that stores or returns the value it acquired does so within d of acquiring it. */
  ghost predicate Prompt(s: World, l: Label, d: nat)
    requires Sane(s)
  {
    match l
    case Step(rid, op) =>
      (op.FillOk? || op.CopyOk?) && rid in s.readers ==> Clock(s) - s.readers[rid].since <= d
    case Finish(rid) =>
      rid in s.readers && s.readers[rid].stage.Done? && s.readers[rid].stage.out.Got? ==>
        Clock(s) - s.readers[rid].since <= d
    case _ => true
  }

  ghost predicate PromptRun(cfg: Config, run: Run, d: nat)
  {
    IsRun(cfg, run) && forall i :: 0 <= i < |run.labels| ==> Prompt(run.states[i], run.labels[i], d)
  }

  ghost function AskedAt(s: World, e: Stamped): int
    requires e.at < |s.hist|
  {
    s.hist[e.at].clock
  }

  ghost predicate RedisYoung(cfg: Config, s: World, d: nat, k: Key)
  {
    k in s.redis ==>
      s.redis[k].e.at < |s.hist| && s.redis[k].expires.Some? &&
      s.redis[k].expires.value <= AskedAt(s, s.redis[k].e) + d + RedisLife(cfg)
  }

  ghost predicate LocalYoung(cfg: Config, s: World, d: nat, n: nat, k: Key)
  {
    (n, k) in s.local ==>
      s.local[(n, k)].e.at < |s.hist| &&
      s.local[(n, k)].setAt < AskedAt(s, s.local[(n, k)].e) + 2 * d + RedisLife(cfg)
  }

  /** since, the moment a request acquired its value, against the moment the database was asked for it. */
  ghost predicate StageYoung(cfg: Config, s: World, d: nat, st: Stage, since: int)
  {
    match st
    case Fill(e) => e.at < |s.hist| && since <= AskedAt(s, e)
    case Copy(e, _) => e.at < |s.hist| && since < AskedAt(s, e) + d + RedisLife(cfg)
    case Leave(Got(e)) => e.at < |s.hist| && since < AskedAt(s, e) + 2 * d + RedisLife(cfg) + cfg.localLife
    case Done(Got(e)) => e.at < |s.hist| && since < AskedAt(s, e) + 2 * d + RedisLife(cfg) + cfg.localLife
    case _ => true
  }

  ghost predicate ReaderYoung(cfg: Config, s: World, d: nat, rid: nat)
  {
    rid in s.readers ==> StageYoung(cfg, s, d, s.readers[rid].stage, s.readers[rid].since)
  }

  ghost predicate Young(cfg: Config, s: World, d: nat)
  {
    && (forall k :: RedisYoung(cfg, s, d, k))
    && (forall n: nat, k :: LocalYoung(cfg, s, d, n, k))
    && (forall rid: nat :: ReaderYoung(cfg, s, d, rid))
  }

  lemma RedisStaysYoung(cfg: Config, s: World, l: Label, d: nat, k: Key)
    requires AlwaysExpires(cfg.expiry) && Sane(s) && Enabled(cfg, s, l) && Prompt(s, l, d) && Young(cfg, s, d)
    ensures RedisYoung(cfg, Next(cfg, s, l), d, k)
  {
    assert RedisYoung(cfg, s, d, k);
    if l.Step? {
      assert ReaderYoung(cfg, s, d, l.rid);
      if l.op.FillOk? { assert RandomExpiration(cfg.expiry, l.op.jitter) <= LongestLife(cfg.expiry); }
    }
  }

  lemma LocalStaysYoung(cfg: Config, s: World, l: Label, d: nat, n: nat, k: Key)
    requires Sane(s) && Enabled(cfg, s, l) && Prompt(s, l, d) && Young(cfg, s, d)
    ensures LocalYoung(cfg, Next(cfg, s, l), d, n, k)
  {
    assert LocalYoung(cfg, s, d, n, k);
    if l.Step? { assert ReaderYoung(cfg, s, d, l.rid); }
  }

  lemma OpStaysYoung(cfg: Config, s: World, d: nat, r: Reader, op: Op)
    requires RedisLife(cfg) > 0 && Sane(s) && OpEnabled(cfg, s, r, op)
    requires StageYoung(cfg, s, d, r.stage, r.since)
    requires RedisYoung(cfg, s, d, r.key) && LocalYoung(cfg, s, d, r.node, r.key)
    ensures var r' := ReaderAfter(cfg, s, r, op);
            || StageYoung(cfg, s, d, r'.stage, r'.since)
            || (r'.stage.Fill? && r'.stage.e.at == Now(s) && r'.since == Clock(s))
  {
  }

  lemma StageStaysYoung(cfg: Config, s: World, t: World, d: nat, st: Stage, since: int)
    requires Sane(s) && |t.hist| == |s.hist| + 1 && t.hist[..|s.hist|] == s.hist
    requires StageYoung(cfg, s, d, st, since)
    ensures StageYoung(cfg, t, d, st, since)
  {
    assert forall i :: 0 <= i < |s.hist| ==> t.hist[i] == s.hist[i];
  }

  lemma ReaderStaysYoung(cfg: Config, s: World, l: Label, d: nat, rid: nat)
    requires RedisLife(cfg) > 0 && Sane(s) && Enabled(cfg, s, l) && Young(cfg, s, d)
    ensures ReaderYoung(cfg, Next(cfg, s, l), d, rid)
  {
    var t := Next(cfg, s, l);
    if rid in t.readers && !t.readers[rid].stage.TryLocal? {
      var r, r' := s.readers[rid], t.readers[rid];
      assert ReaderYoung(cfg, s, d, rid);
      if l.Step? && l.rid == rid {
        assert RedisYoung(cfg, s, d, r.key) && LocalYoung(cfg, s, d, r.node, r.key);
        OpStaysYoung(cfg, s, d, r, l.op);
      }
      if StageYoung(cfg, s, d, r'.stage, r'.since) {
        StageStaysYoung(cfg, s, t, d, r'.stage, r'.since);
      }
    }
  }

  lemma {:induction false} YoungAt(cfg: Config, run: Run, d: nat, i: nat)
    requires PromptRun(cfg, run, d) && i < |run.states| && AlwaysExpires(cfg.expiry)
    ensures Young(cfg, run.states[i], d)
  {
    if i == 0 {
    } else {
      assert StepAt(cfg, run, i - 1);
      var s, l := run.states[i - 1], run.labels[i - 1];
      var _ := LongestIsPositive(cfg.expiry);
      YoungAt(cfg, run, d, i - 1);
      assert Prompt(s, l, d);
      forall k ensures RedisYoung(cfg, run.states[i], d, k) { RedisStaysYoung(cfg, s, l, d, k); }
      forall n: nat, k ensures LocalYoung(cfg, run.states[i], d, n, k) { LocalStaysYoung(cfg, s, l, d, n, k); }
      forall rid: nat ensures ReaderYoung(cfg, run.states[i], d, rid) { ReaderStaysYoung(cfg, s, l, d, rid); }
    }
  }

  /**
    Bounded age: whatever the interleaving, a value returned at time t was the database's answer for its
    key at a moment later than t - (R + L + 3 d), where R, the longest life Redis may be asked to give, is
    E + 9 seconds for every setting that fits. No chain of hits renews an entry.
   */
  lemma ReturnedValuesAreYoung(cfg: Config, run: Run, d: nat, i: nat, e: Stamped)
    requires PromptRun(cfg, run, d) && i < |run.labels| && AlwaysExpires(cfg.expiry)
    requires var s, l := run.states[i], run.labels[i];
             l.Finish? && l.rid in s.readers && s.readers[l.rid].stage == Done(Got(e))
    ensures var s := run.states[i];
            && Genuine(s, s.readers[run.labels[i].rid].key, e)
            && s.hist[e.at].clock > Clock(s) - (RedisLife(cfg) + cfg.localLife + 3 * d)
    ensures Fits(cfg.expiry) ==> RedisLife(cfg) == (cfg.expiry + 9) * SECOND
  {
    var s, rid := run.states[i], run.labels[i].rid;
    ExpiryInRangeExactly(cfg.expiry);
    assert StepAt(cfg, run, i);
    YoungAt(cfg, run, d, i);
    assert ReaderYoung(cfg, s, d, rid);
    assert Prompt(s, run.labels[i], d);
    assert ReaderHolds(s, rid, s.readers[rid].key, e);
    NoInventedValues(cfg, run, i, s.readers[rid].key, e);
  }
}
