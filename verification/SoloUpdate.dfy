/** An uninterrupted, faultless update in the interleaved machine does what the sequential update plan says. */
module SoloUpdate {
  import opened Base
  import opened Customers
  import opened CacheProtocol

  /** A call of update wid: its database write, its Redis Delete or its Publish. */
  ghost predicate OfUpdate(l: Label, wid: nat)
  {
    (l.Write? || l.Delete? || l.Publish?) && l.wid == wid
  }

  /** Three calls of one update, with no other step between them. */
  ghost predicate Consecutive(cfg: Config, s: World, a: Label, b: Label, c: Label, wid: nat)
  {
    && Sane(s) && wid !in s.writers
    && OfUpdate(a, wid) && Enabled(cfg, s, a)
    && OfUpdate(b, wid) && Enabled(cfg, Next(cfg, s, a), b)
    && OfUpdate(c, wid) && Enabled(cfg, Next(cfg, Next(cfg, s, a), b), c)
  }

  lemma FirstCall(cfg: Config, s: World, a: Label, wid: nat)
    requires Sane(s) && wid !in s.writers && OfUpdate(a, wid) && Enabled(cfg, s, a)
    ensures a.Write? && Allowed(Database(s), Update(a.id, a.change))
    ensures Next(cfg, s, a) ==
            s.(hist := s.hist + [Moment(Apply(Database(s), Update(a.id, a.change)), Clock(s))],
               writers := s.writers[wid := Writer(ChangedKey(a.id, a.change), Now(s), None, {}, {})])
  {
  }

  lemma SecondCall(cfg: Config, s: World, b: Label, wid: nat)
    requires Sane(s) && wid in s.writers && s.writers[wid].deletedAt.None? && OfUpdate(b, wid) && Enabled(cfg, s, b)
    ensures b == Delete(wid)
    ensures Next(cfg, s, b) ==
            s.(hist := s.hist + [Moment(Database(s), Clock(s))], redis := s.redis - {s.writers[wid].key},
               writers := s.writers[wid := s.writers[wid].(deletedAt := Some(Now(s)))])
  {
  }

  lemma ThirdCall(cfg: Config, s: World, c: Label, wid: nat)
    requires Sane(s) && wid in s.writers && s.writers[wid].deletedAt.Some? && OfUpdate(c, wid) && Enabled(cfg, s, c)
    ensures c.Publish?
    ensures Next(cfg, s, c) ==
            s.(hist := s.hist + [Moment(Database(s), Clock(s))],
               writers := s.writers[wid := s.writers[wid].(delivered := c.to)])
  {
  }

  /**
    The three calls can only be the write, the Delete and the Publish, in that order, and they leave what
    UpdatePlan names, with nothing else moved. The same plan is what the sequential proxy is proved against.
   */
  lemma UninterruptedUpdateFollowsPlan(cfg: Config, s: World, a: Label, b: Label, c: Label, wid: nat)
    requires Consecutive(cfg, s, a, b, c, wid)
    ensures a.Write? && b == Delete(wid) && c.Publish?
    ensures var plan := UpdatePlan(a.id, a.change);
            var t := Next(cfg, Next(cfg, Next(cfg, s, a), b), c);
            && Database(t) == Apply(Database(s), plan.statement) && Clock(t) == Clock(s)
            && t.redis == s.redis - {plan.removed} && t.local == s.local
            && t.writers == s.writers[wid := Writer(plan.announced, Now(s), Some(Now(s) + 1), c.to, {})]
            && t.leases == s.leases && t.readers == s.readers && t.signups == s.signups && t.tokens == s.tokens
  {
    FirstCall(cfg, s, a, wid);
    SecondCall(cfg, Next(cfg, s, a), b, wid);
    ThirdCall(cfg, Next(cfg, Next(cfg, s, a), b), c, wid);
  }

  /** An update can go through exactly when its statement leaves email and phone number unique. */
  lemma UpdateGoesThroughExactly(cfg: Config, s: World, wid: nat, id: uint64, change: Change, to: set<nat>)
    requires Sane(s) && wid !in s.writers && Unique(Database(s))
    ensures Unique(Apply(Database(s), UpdatePlan(id, change).statement)) <==>
            Consecutive(cfg, s, Write(wid, id, change), Delete(wid), Publish(wid, to), wid)
  {
    AllowedExactly(Database(s), Update(id, change));
    if Allowed(Database(s), Update(id, change)) {
      var s1 := Next(cfg, s, Write(wid, id, change));
      assert Enabled(cfg, s1, Delete(wid));
    }
  }
}
