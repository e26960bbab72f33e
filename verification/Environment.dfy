/** What may happen to the machine at any time without any request asking for it, and what each such step touches. */
module Environment {
  import opened Base
  import opened Keys
  import opened Customers
  import opened Tokens
  import opened Expiry
  import opened CacheProtocol

  /** Time passes, and nothing else. */
  lemma TimePasses(cfg: Config, s: World, d: nat)
    requires Sane(s)
    ensures Enabled(cfg, s, Tick(d))
    ensures Next(cfg, s, Tick(d)) == s.(hist := s.hist + [Moment(Database(s), Clock(s) + d)])
  {
  }

  /** Any entry, and only an entry, may be lost at any time, from Redis or from a local cache. */
  lemma EntriesMayGo(cfg: Config, s: World, n: nat, k: Key)
    requires Sane(s)
    ensures Enabled(cfg, s, RedisDrop(k)) <==> k in s.redis
    ensures Enabled(cfg, s, LocalDrop(n, k)) <==> (n, k) in s.local
    ensures k in s.redis ==>
              Next(cfg, s, RedisDrop(k)) == s.(hist := s.hist + [Moment(Database(s), Clock(s))], redis := s.redis - {k})
    ensures (n, k) in s.local ==>
              Next(cfg, s, LocalDrop(n, k)) ==
              s.(hist := s.hist + [Moment(Database(s), Clock(s))], local := s.local - {(n, k)})
  {
  }

  /** A mutex is lost to its lease from 5 seconds after it was taken, and not before. */
  lemma LeasesRunOutExactly(cfg: Config, s: World, k: Key)
    requires Sane(s)
    ensures Enabled(cfg, s, LeaseLapse(k)) <==> k in s.leases && s.leases[k].since + 5_000_000_000 <= Clock(s)
    ensures Enabled(cfg, s, LeaseLapse(k)) ==>
              Next(cfg, s, LeaseLapse(k)) ==
              s.(hist := s.hist + [Moment(Database(s), Clock(s))], leases := s.leases - {k})
  {
  }

  /** Every invalidation delivered to a node can be handled there, once, and removes that node's entry alone. */
  lemma InvalidationsAreHandledExactly(cfg: Config, s: World, wid: nat, n: nat)
    requires Sane(s) && wid in s.writers
    ensures var u := s.writers[wid];
            && (Enabled(cfg, s, Invalidate(wid, n)) <==> n in u.delivered && n !in u.applied)
            && (Enabled(cfg, s, Invalidate(wid, n)) ==>
                  Next(cfg, s, Invalidate(wid, n)) ==
                  s.(hist := s.hist + [Moment(Database(s), Clock(s))], local := s.local - {(n, u.key)},
                     writers := s.writers[wid := u.(applied := u.applied + {n})]))
  {
  }

  /** An update that has got this far can go on: to its Delete, and then to a Publish that reaches any nodes. */
  lemma UpdatesCanGoOn(cfg: Config, s: World, wid: nat, to: set<nat>)
    requires Sane(s) && wid in s.writers
    ensures s.writers[wid].deletedAt.None? ==> Enabled(cfg, s, Delete(wid))
    ensures s.writers[wid].deletedAt.Some? && s.writers[wid].delivered == {} ==> Enabled(cfg, s, Publish(wid, to))
  {
  }

  /**
    A new request can always start, of any kind the program makes: any read, a login with any password, and a
    refresh with a token of ours that RefreshToken lets through; it starts at its first call.
   */
  lemma RequestsCanStart(cfg: Config, s: World, rid: nat, node: nat, key: Key, email: string, password: string, t: nat)
    requires Sane(s) && rid !in s.readers
    ensures Enabled(cfg, s, Start(rid, node, key, Browse))
    ensures Enabled(cfg, s, Start(rid, node, CredKey(email), Login(email, password)))
    ensures t < |s.tokens| && s.tokens[t].claims.refresh && LiveAt(s.tokens[t].claims, Clock(s)) ==>
              Enabled(cfg, s, Start(rid, node, CheckKey(s.tokens[t].claims.customer), Refresh(t)))
    ensures Next(cfg, s, Start(rid, node, key, Browse)) ==
            s.(hist := s.hist + [Moment(Database(s), Clock(s))],
               readers := s.readers[rid := Reader(node, key, Browse, TryLocal, None, Clock(s))])
  {
    if t < |s.tokens| {
      GatesExactly(cfg.secret, Present(cfg.secret, s.tokens[t].claims), Clock(s), s.tokens[t].claims.customer);
    }
  }

  /** A sign-up goes through exactly when its id, email and phone number are new, and its pair can be minted then. */
  lemma SignUpsGoThroughExactly(cfg: Config, s: World, sid: nat, id: uint64, row: Row)
    requires Sane(s) && Unique(Database(s)) && sid !in s.signups && row.active
    ensures Enabled(cfg, s, SignUp(sid, id, row)) <==> id !in Database(s) && Unique(Database(s)[id := row])
    ensures Enabled(cfg, s, SignUp(sid, id, row)) ==>
              var t := Next(cfg, s, SignUp(sid, id, row));
              && Database(t) == Database(s)[id := row] && t.redis == s.redis && t.local == s.local
              && t.tokens == s.tokens && sid in t.signups && t.signups[sid] == id && Enabled(cfg, t, Grant(sid))
  {
    AllowedExactly(Database(s), Insert(id, row));
  }

  /** A request returns exactly when its last call is done, and once; so it, or a sign-up, mints at most one pair. */
  lemma RequestsReturnOnce(cfg: Config, s: World, rid: nat, sid: nat)
    requires Sane(s)
    ensures Enabled(cfg, s, Finish(rid)) <==> rid in s.readers && s.readers[rid].stage.Done?
    ensures Enabled(cfg, s, Finish(rid)) ==>
              var t := Next(cfg, s, Finish(rid));
              && t.readers == s.readers - {rid} && Database(t) == Database(s) && Clock(t) == Clock(s)
              && t.redis == s.redis && t.local == s.local && t.leases == s.leases
              && t.writers == s.writers && t.signups == s.signups
    ensures Enabled(cfg, s, Grant(sid)) <==> sid in s.signups
    ensures Enabled(cfg, s, Grant(sid)) ==>
              var t := Next(cfg, s, Grant(sid));
              && t.signups == s.signups - {sid} && Database(t) == Database(s) && Clock(t) == Clock(s)
              && t.redis == s.redis && t.local == s.local && t.readers == s.readers
  {
  }

  /** An entry leaves Redis only when it is lost, deleted by an update of its key, or replaced by a fill. */
  lemma RedisEntriesStay(cfg: Config, s: World, l: Label, k: Key)
    requires Sane(s) && Enabled(cfg, s, l) && k in s.redis
    ensures || (k in Next(cfg, s, l).redis && Next(cfg, s, l).redis[k] == s.redis[k])
            || l == RedisDrop(k)
            || (l.Delete? && s.writers[l.wid].key == k)
            || (l.Step? && l.op.FillOk? && s.readers[l.rid].key == k)
  {
  }

  /** And one leaves a local cache only when it is lost, invalidated there, or replaced by a copy. */
  lemma LocalEntriesStay(cfg: Config, s: World, l: Label, n: nat, k: Key)
    requires Sane(s) && Enabled(cfg, s, l) && (n, k) in s.local
    ensures || ((n, k) in Next(cfg, s, l).local && Next(cfg, s, l).local[(n, k)] == s.local[(n, k)])
            || l == LocalDrop(n, k)
            || (l.Invalidate? && l.n == n && s.writers[l.wid].key == k)
            || (l.Step? && l.op.CopyOk? && s.readers[l.rid].key == k && s.readers[l.rid].node == n)
  {
  }
}
