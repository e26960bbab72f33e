/** CustomerRepoCache over a cluster: reads that refine the plain repository, updates that keep every node right. */
module AccountProxy {
  import opened Base
  import opened Keys
  import opened Customers
  import opened Stores
  import opened Repositories
  import opened Coherence
  import opened Proxies
  import opened Cluster

  /** One local cache took a right value: every node is as right as before. */
  lemma NodesStayRight(db: Database, rc: RedisCache, c: LocalCacheCleaner, before: map<string, Value>,
                       excused: set<string>, k: Key, v: Value)
    requires LocalRight(before, db.View(), excused + c.Pending())
    requires c.lc.store == before || (Right(db.View(), k, v, excused) && c.lc.store == before[KeyString(k) := v])
    ensures LocalRight(c.lc.store, db.View(), excused + c.Pending())
  {
    if c.lc.store != before {
      LocalSet(before, db.View(), excused + c.Pending(), k, v);
    }
  }

  /** After a statement that ran or not, each node is right with the statement's own key among its excuses. */
  lemma StatementExcuses(t: Snapshot, u: Snapshot, s: Statement, store: map<string, Value>, excused: set<string>,
                         key: string)
    requires Sound(t) && LocalRight(store, t, excused) && s.Update? && key == KeyString(ChangedKey(s.id, s.change))
    requires u == t || (Allowed(t.table, s) && u == After(t, s))
    ensures LocalRight(store, u, excused + {key})
  {
    if u != t { StatementKeepsLocal(t, s, store, excused, excused + {key}); }
    else { LocalWeaken(store, t, excused, excused + {key}); }
  }

  /** Publishing a key makes it pending on every node. */
  lemma PublishCovers(log: seq<Option<seq<string>>>, cursor: nat, key: string)
    requires cursor <= |log|
    ensures PublishedFrom(log + [Some([key])], cursor) == PublishedFrom(log, cursor) + {key}
  {
    var after := log + [Some([key])];
    assert KeysOf(after[|log|]) == [key] && key in KeysOf(after[|log|]);
    forall k | k in PublishedFrom(log, cursor) ensures k in PublishedFrom(after, cursor) {
      var j :| cursor <= j < |log| && k in KeysOf(log[j]);
      assert k in KeysOf(after[j]);
    }
    forall k | k in PublishedFrom(after, cursor) ensures k in PublishedFrom(log, cursor) + {key} {
      var j :| cursor <= j < |after| && k in KeysOf(after[j]);
      if j < |log| { assert k in KeysOf(log[j]); }
    }
  }

  class CustomerRepoCache {
    const reader: ReadThrough
    const repo: CustomerRepository
    const rc: RedisCache
    const db: Database

    ghost predicate Valid()
    {
      reader.Valid() && reader.accounts == repo && reader.rc == rc && reader.db == db && repo.db == db
    }

    constructor (reader: ReadThrough)
      requires reader.Valid()
      ensures Valid() && this.reader == reader
    {
      this.reader, repo, rc, db := reader, reader.accounts, reader.rc, reader.db;
    }

    /** Fetch with every node of the cluster kept right; me is the node that reads. */
    method FetchIn(k: Key, ghost me: LocalCacheCleaner, ghost nodes: set<LocalCacheCleaner>, ghost excused: set<string>)
      returns (r: Result<Value, RepoError>)
      requires Valid() && Coherent(db, rc, nodes, excused) && me in nodes && me.lc == reader.lc
      modifies rc`store, rc`faults, rc`refusals, reader.lc, db`faults
      ensures Coherent(db, rc, nodes, excused) && me.Pending() == old(me.Pending())
      ensures r.Ok? ==> Right(db.View(), k, r.value, excused + me.Pending())
      ensures r == Err(NotFound) ==> Answer(db.rows, k) == None
      ensures reader.Undisturbed(k, r) && reader.FailsByItsCalls(r) && reader.Faults() >= old(reader.Faults())
    {
      r := reader.Fetch(k, excused, excused + me.Pending());
      forall c | c in nodes ensures LocalRight(c.lc.store, db.View(), excused + c.Pending()) {
        if c.lc == reader.lc && reader.lc.store != old(reader.lc.store) {
          NodesStayRight(db, rc, c, old(c.lc.store), excused, k, r.value);
        }
      }
    }

    /**
      Reads refine the plain repository: unless this customer's entry is excused or has an invalidation
      pending on this node, what is returned is the database's answer now; "not found" always is.
     */
    method GetCustomerPersonalInfo(id: uint64, ghost me: LocalCacheCleaner, ghost nodes: set<LocalCacheCleaner>,
                                   ghost excused: set<string>)
      returns (r: Result<PersonalInfo, RepoError>)
      requires Valid() && Coherent(db, rc, nodes, excused) && me in nodes && me.lc == reader.lc
      modifies rc`store, rc`faults, rc`refusals, reader.lc, db`faults
      ensures Coherent(db, rc, nodes, excused)
      ensures r.Ok? && KeyString(PersonalKey(id)) !in excused + me.Pending() ==>
                Answer(db.rows, PersonalKey(id)) == Some(Personal(r.value))
      ensures r == Err(NotFound) ==> Answer(db.rows, PersonalKey(id)) == None
      ensures reader.Undisturbed(PersonalKey(id), if r.Ok? then Ok(Personal(r.value)) else Err(r.error))
      ensures reader.FailsByItsCalls(if r.Ok? then Ok(Personal(r.value)) else Err(r.error))
      ensures reader.Faults() >= old(reader.Faults()) && me.Pending() == old(me.Pending())
    {
      var v := FetchIn(PersonalKey(id), me, nodes, excused);
      r := if v.Ok? then Ok(v.value.personal) else Err(v.error);
    }

    method GetCustomerShippingInfo(id: uint64, ghost me: LocalCacheCleaner, ghost nodes: set<LocalCacheCleaner>,
                                   ghost excused: set<string>)
      returns (r: Result<ShippingInfo, RepoError>)
      requires Valid() && Coherent(db, rc, nodes, excused) && me in nodes && me.lc == reader.lc
      modifies rc`store, rc`faults, rc`refusals, reader.lc, db`faults
      ensures Coherent(db, rc, nodes, excused)
      ensures r.Ok? && KeyString(ShippingKey(id)) !in excused + me.Pending() ==>
                Answer(db.rows, ShippingKey(id)) == Some(Shipping(r.value))
      ensures r == Err(NotFound) ==> Answer(db.rows, ShippingKey(id)) == None
      ensures reader.Undisturbed(ShippingKey(id), if r.Ok? then Ok(Shipping(r.value)) else Err(r.error))
      ensures reader.FailsByItsCalls(if r.Ok? then Ok(Shipping(r.value)) else Err(r.error))
      ensures reader.Faults() >= old(reader.Faults()) && me.Pending() == old(me.Pending())
    {
      var v := FetchIn(ShippingKey(id), me, nodes, excused);
      r := if v.Ok? then Ok(v.value.shipping) else Err(v.error);
    }

    /**
      Either getter, on a cluster with nothing excused. With no invalidation of the key pending here, no call
      failing and the mutex free, it returns exactly what the plain repository would.
     */
    method GetCustomer(k: Key, ghost me: LocalCacheCleaner, ghost nodes: set<LocalCacheCleaner>)
      returns (r: Result<Value, RepoError>)
      requires Valid() && Coherent(db, rc, nodes, {}) && me in nodes && me.lc == reader.lc && IsAccountKey(k)
      modifies rc`store, rc`faults, rc`refusals, reader.lc, db`faults
      ensures Coherent(db, rc, nodes, {})
      ensures r.Ok? && KeyString(k) !in me.Pending() ==> Answer(db.rows, k) == Some(r.value)
      ensures r == Err(NotFound) ==> Answer(db.rows, k) == None
      ensures reader.Faults() >= old(reader.Faults())
      ensures reader.Faults() == old(reader.Faults()) && MutexName(k) !in old(rc.store) &&
              KeyString(k) !in me.Pending() ==>
                r == Served(Answer(db.rows, k))
    {
      if k.PersonalKey? {
        var info := GetCustomerPersonalInfo(k.id, me, nodes, {});
        r := if info.Ok? then Ok(Personal(info.value)) else Err(info.error);
      } else {
        var info := GetCustomerShippingInfo(k.id, me, nodes, {});
        r := if info.Ok? then Ok(Shipping(info.value)) else Err(info.error);
      }
    }

    /** First step of an update: the database. Until the rest is done, its key is excused. */
    method WriteRow(id: uint64, change: Change, ghost nodes: set<LocalCacheCleaner>, ghost excused: set<string>)
      returns (err: Option<RepoError>)
      requires Valid() && Coherent(db, rc, nodes, excused)
      modifies db
      ensures Coherent(db, rc, nodes, excused + {KeyString(ChangedKey(id, change))}) && db.faults >= old(db.faults)
      ensures err.None? ==>
                Allowed(old(db.rows), Update(id, change)) && db.rows == Apply(old(db.rows), Update(id, change))
      ensures db.rows == old(db.rows) || db.rows == Apply(old(db.rows), Update(id, change))
      ensures db.faults == old(db.faults) ==>
                (err.None? <==> Allowed(old(db.rows), Update(id, change))) && (err.Some? ==> db.rows == old(db.rows))
    {
      ghost var key := KeyString(ChangedKey(id, change));
      ghost var t := db.View();
      err := repo.UpdateCustomer(id, change);
      if db.View() != t { StatementKeepsRedis(t, Update(id, change), rc.store, excused, excused + {key}); }
      else { RedisWeaken(rc.store, t, excused, excused + {key}); }
      forall c | c in nodes ensures LocalRight(c.lc.store, db.View(), excused + {key} + c.Pending()) {
        StatementExcuses(t, db.View(), Update(id, change), c.lc.store, excused + c.Pending(), key);
        LocalWeaken(c.lc.store, db.View(), excused + c.Pending() + {key}, excused + {key} + c.Pending());
      }
    }

    /** Second step: the Redis entry. */
    method DeleteShared(key: string, ghost nodes: set<LocalCacheCleaner>, ghost excused: set<string>)
      returns (failed: bool)
      requires Valid() && Coherent(db, rc, nodes, excused + {key})
      modifies rc`store, rc`faults
      ensures Coherent(db, rc, nodes, excused + {key})
      ensures !failed ==> RedisRight(rc.store, db.View(), excused - {key})
      ensures rc.store == old(rc.store) - {key} || (failed && rc.store == old(rc.store))
      ensures (failed <==> rc.faults > old(rc.faults)) && rc.faults >= old(rc.faults)
    {
      ghost var redis := rc.store;
      failed := rc.Delete(key);
      if rc.store != redis || !failed {
        RedisDelete(redis, db.View(), excused, key);
        RedisWeaken(rc.store, db.View(), excused - {key}, excused + {key});
      }
    }

    /** Last step: the invalidation of every node's local entry. */
    method Announce(key: string, ghost nodes: set<LocalCacheCleaner>, ghost excused: set<string>) returns (failed: bool)
      requires Valid() && Coherent(db, rc, nodes, excused + {key}) && RedisRight(rc.store, db.View(), excused - {key})
      modifies rc`published, rc`faults
      ensures Coherent(db, rc, nodes, if failed then excused + {key} else excused - {key})
      ensures !failed ==> rc.published == old(rc.published) + [Some([key])]
      ensures (failed <==> rc.faults > old(rc.faults)) && rc.faults >= old(rc.faults)
    {
      failed := rc.Publish([key]);
      forall c | c in nodes
        ensures LocalRight(c.lc.store, db.View(), (if failed then excused + {key} else excused - {key}) + c.Pending())
      {
        PublishCovers(old(rc.published), c.cursor, key);
        LocalWeaken(c.lc.store, db.View(), excused + {key} + old(c.Pending()),
                    (if failed then excused + {key} else excused - {key}) + c.Pending());
      }
    }

    /**
      Either update: write the database, delete the Redis entry, publish its key. An update that succeeds
      leaves the whole cluster right and even clears an old excuse for its key; one that fails after the
      database write leaves at most its own key excused; one the database refuses changes nothing.
     */
    method UpdateCustomer(id: uint64, change: Change, ghost nodes: set<LocalCacheCleaner>, ghost excused: set<string>)
      returns (err: Option<RepoError>)
      requires Valid() && Coherent(db, rc, nodes, excused)
      modifies db, rc`store, rc`published, rc`faults
      ensures Coherent(db, rc, nodes, if err.None? then excused - {KeyString(ChangedKey(id, change))}
                                      else excused + {KeyString(ChangedKey(id, change))})
      ensures err.None? ==>
                var plan := UpdatePlan(id, change);
                && Allowed(old(db.rows), plan.statement) && db.rows == Apply(old(db.rows), plan.statement)
                && rc.store == old(rc.store) - {KeyString(plan.removed)}
                && rc.published == old(rc.published) + [Some([KeyString(plan.announced)])]
      ensures db.faults >= old(db.faults) && rc.faults >= old(rc.faults)
      ensures db.faults == old(db.faults) && rc.faults == old(rc.faults) ==>
                (err.None? <==> Allowed(old(db.rows), UpdatePlan(id, change).statement))
      ensures db.faults == old(db.faults) && rc.faults == old(rc.faults) ==>
                (err.None? <==> Unique(Apply(old(db.rows), UpdatePlan(id, change).statement)))
      ensures db.rows == old(db.rows) || db.rows == Apply(old(db.rows), Update(id, change))
      ensures rc.store != old(rc.store) ==> db.rows == Apply(old(db.rows), Update(id, change))
      ensures rc.published != old(rc.published) ==> rc.store == old(rc.store) - {KeyString(ChangedKey(id, change))}
      ensures err.Some? && err != Some(CacheError) ==> rc.store == old(rc.store) && rc.published == old(rc.published)
      ensures db.faults == old(db.faults) && !Allowed(old(db.rows), Update(id, change)) ==>
                err.Some? && db.rows == old(db.rows) && rc.store == old(rc.store) && rc.published == old(rc.published)
    {
      AllowedExactly(db.rows, Update(id, change));
      var key := BuildKey(ChangedKey(id, change));
      err := WriteRow(id, change, nodes, excused);
      if err.Some? { return; }
      var failed := DeleteShared(key, nodes, excused);
      if failed { return Some(CacheError); }
      failed := Announce(key, nodes, excused);
      if failed { return Some(CacheError); }
    }
  }

  /** What a getter of this kind of data returns for the row. */
  function Seen(row: Row, change: Change): Value
  {
    if change.PersonalChange? then Personal(row.personal) else Shipping(row.shipping)
  }

  lemma AnswerAfterUpdate(t: Table, id: uint64, change: Change)
    ensures Answer(Apply(t, Update(id, change)), ChangedKey(id, change)) ==
            if id in t then Some(Seen(Merge(t[id], change), change)) else None
  {
  }

  /** A node works off its messages, and then one of its readers asks for a key. */
  method SettleThenRead(other: CustomerRepoCache, node: LocalCacheCleaner, k: Key, ghost nodes: set<LocalCacheCleaner>)
    returns (r: Result<Value, RepoError>)
    requires other.Valid() && Coherent(other.db, other.rc, nodes, {}) && IsAccountKey(k)
    requires node in nodes && node.lc == other.reader.lc
    modifies other.db`faults, other.rc`store, other.rc`faults, other.rc`refusals
    modifies node`cursor, node.pool`queue, node.pool`done, node.pool`results, node.pool`lost, node.lc
    ensures Coherent(other.db, other.rc, nodes, {}) && other.reader.Faults() >= old(other.reader.Faults())
    ensures r.Ok? && KeyString(k) !in node.pool.lost ==> Answer(other.db.rows, k) == Some(r.value)
    ensures r == Err(NotFound) ==> Answer(other.db.rows, k) == None
    ensures other.reader.Faults() == old(other.reader.Faults()) && MutexName(k) !in old(other.rc.store) &&
            KeyString(k) in old(node.Upcoming()) ==>
              KeyString(k) !in node.pool.lost && r == Served(Answer(other.db.rows, k))
  {
    Settle(other.db, other.rc, node, nodes, {});
    r := other.GetCustomer(k, node, nodes);
  }

  /**
    An update of either kind on one node reaches the readers of every other: once it has succeeded and a node
    has worked off its messages without giving up on the delete of its key, that node reads what the update
    left in the database. When no call fails and the key's mutex is free, the update succeeds if the database
    allows it, and then the node gives up on nothing and the read succeeds, whatever it gave up on before.
   */
  method UpdateThenRead(writer: CustomerRepoCache, other: CustomerRepoCache, node: LocalCacheCleaner,
                        id: uint64, change: Change, ghost nodes: set<LocalCacheCleaner>)
    returns (err: Option<RepoError>, r: Result<Value, RepoError>)
    requires writer.Valid() && other.Valid() && writer.db == other.db && writer.rc == other.rc
    requires Coherent(writer.db, writer.rc, nodes, {}) && node in nodes && node.lc == other.reader.lc
    modifies writer.db, writer.rc`store, writer.rc`published, writer.rc`faults, writer.rc`refusals
    modifies node`cursor, node.pool`queue, node.pool`done, node.pool`results, node.pool`lost, node.lc
    ensures err.None? && r.Ok? && KeyString(ChangedKey(id, change)) !in node.pool.lost ==>
              id in old(writer.db.rows) && r.value == Seen(Merge(old(writer.db.rows)[id], change), change)
    ensures err.None? && r == Err(NotFound) ==> id !in old(writer.db.rows)
    ensures other.reader.Faults() == old(other.reader.Faults()) &&
            Allowed(old(writer.db.rows), Update(id, change)) &&
            MutexName(ChangedKey(id, change)) !in old(writer.rc.store) ==>
              && err.None? && KeyString(ChangedKey(id, change)) !in node.pool.lost
              && (if id in old(writer.db.rows) then r.Ok? else r == Err(NotFound))
  {
    r := Err(CacheError);
    err := writer.UpdateCustomer(id, change, nodes, {});
    if err.None? {
      assert {} - {KeyString(ChangedKey(id, change))} == {};
      PublishCovers(old(writer.rc.published), node.cursor, KeyString(ChangedKey(id, change)));
      AnswerAfterUpdate(old(writer.db.rows), id, change);
      r := SettleThenRead(other, node, ChangedKey(id, change), nodes);
    }
  }
}
