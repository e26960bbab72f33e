/** Any number of nodes over one Redis and one database: the cleaner, the two proxies, and what they keep together. */
module Cluster {
  import opened Base
  import opened Customers
  import opened Stores
  import opened Repositories
  import opened WorkerPool
  import opened Coherence

  /** The keys a message asks to invalidate; a payload that does not decode asks nothing. */
  function KeysOf(message: Option<seq<string>>): seq<string>
  {
    if message.Some? then message.value else []
  }

  ghost function PublishedFrom(log: seq<Option<seq<string>>>, i: nat): set<string>
  {
    set j, k | i <= j < |log| && k in KeysOf(log[j]) :: k
  }

  /** What is still published from one message on is in that message or published from the next. */
  lemma NextMessage(log: seq<Option<seq<string>>>, i: nat)
    requires i < |log|
    ensures forall k :: k in PublishedFrom(log, i) ==> k in KeysOf(log[i]) || k in PublishedFrom(log, i + 1)
  {
    forall k | k in PublishedFrom(log, i) ensures k in KeysOf(log[i]) || k in PublishedFrom(log, i + 1) {
      var j :| i <= j < |log| && k in KeysOf(log[j]);
    }
  }

  ghost function Elements(s: seq<string>): set<string>
  {
    set k | k in s
  }

  /** One node's consumer of invalidation messages, subscribed and with its pool started. */
  class LocalCacheCleaner {
    const rc: RedisCache
    const lc: LocalCache
    const pool: Pool
    /** How many messages of the topic it has taken. */
    var cursor: nat

    ghost predicate Ready()
      reads this, rc, pool
    {
      pool.lc == lc && pool.Valid() && pool.state == 1 && !pool.cancelled && cursor <= |rc.published|
    }

    /** Keys with a delete still to be done here. */
    ghost function Upcoming(): set<string>
      reads this, rc, pool
    {
      PublishedFrom(rc.published, cursor) + Elements(pool.queue)
    }

    /** Those, and the keys whose latest delete was given up on. */
    ghost function Pending(): set<string>
      reads this, rc, pool
    {
      Upcoming() + pool.lost
    }

    /** Without faults no loss is added, and a delete that has been done has cleared the loss of its key. */
    twostate predicate ClearsLosses()
      reads this, rc, lc, pool
    {
      && lc.faults >= old(lc.faults)
      && (lc.faults == old(lc.faults) ==>
            pool.lost <= old(pool.lost) && forall k :: k in old(Upcoming()) && k in pool.lost ==> k in Upcoming())
    }

    /** NewLocalCacheCleaner, and SubscribeInvalidationEvent up to its loop. */
    constructor (rc: RedisCache, lc: LocalCache, numCPU: nat)
      requires numCPU >= 1
      ensures Ready() && this.rc == rc && this.lc == lc && cursor == |rc.published| && fresh(pool)
      ensures Pending() == {}
    {
      this.rc, this.lc, cursor := rc, lc, |rc.published|;
      var p := new Pool(numCPU, numCPU, lc);
      pool := p;
      new;
      pool.Start();
    }

    /** Submit a delete for each of the keys, in order. */
    method Submit(keys: seq<string>)
      requires Ready()
      modifies pool`queue, pool`done, pool`results, pool`lost, lc
      ensures Ready() && pool.KeepsCover()
      ensures forall k :: k in keys ==> k in pool.queue || k in pool.lost || k !in lc.store
      ensures lc.faults == old(lc.faults) ==> forall k :: k in keys && k in pool.lost ==> k in pool.queue
      ensures pool.done + pool.queue == old(pool.done) + old(pool.queue) + keys
    {
      for i := 0 to |keys|
        invariant Ready() && pool.KeepsCover()
        invariant forall j :: 0 <= j < i ==> keys[j] in pool.queue || keys[j] in pool.lost || keys[j] !in lc.store
        invariant lc.faults == old(lc.faults) ==>
          forall j :: 0 <= j < i && keys[j] in pool.lost ==> keys[j] in pool.queue
        invariant pool.done + pool.queue == old(pool.done) + old(pool.queue) + keys[..i]
      {
        var send: bool := *;
        var _ := pool.Do(Some(keys[i]), send);
        assert pool.done + pool.queue == (old(pool.done) + old(pool.queue) + keys[..i]) + [keys[i]];
        assert keys[..i + 1] == keys[..i] + [keys[i]];
      }
      assert keys[..|keys|] == keys;
    }

    /**
      One round of the loop: take the next message and submit a delete for each of its keys, in order; skip it
      if it does not decode.
     */
    method Consume()
      requires Ready() && cursor < |rc.published|
      modifies this`cursor, pool`queue, pool`done, pool`results, pool`lost, lc
      ensures Ready() && cursor == old(cursor) + 1
      ensures Shrunk(old(lc.store), lc.store)
      ensures forall k :: k in old(Pending()) ==> k in Pending() || k !in lc.store
      ensures match rc.published[old(cursor)]
              case Some(keys) => pool.done + pool.queue == old(pool.done) + old(pool.queue) + keys
              case None => pool.done + pool.queue == old(pool.done) + old(pool.queue)
      ensures ClearsLosses()
    {
      NextMessage(rc.published, cursor);
      Submit(KeysOf(rc.published[cursor]));
      cursor := cursor + 1;
    }

    /** A worker takes its turn. */
    method Work()
      requires Ready() && pool.queue != []
      modifies pool`queue, pool`done, pool`results, pool`lost, lc
      ensures Ready() && cursor == old(cursor)
      ensures Shrunk(old(lc.store), lc.store)
      ensures forall k :: k in old(Pending()) ==> k in Pending() || k !in lc.store
      ensures pool.queue == old(pool.queue)[1..]
      ensures ClearsLosses()
    {
      pool.Turn();
    }
  }

  /** Everything a cluster's objects keep between operations. */
  ghost predicate Coherent(db: Database, rc: RedisCache, nodes: set<LocalCacheCleaner>, excused: set<string>)
    reads db, rc, nodes, set c | c in nodes :: c.lc, set c | c in nodes :: c.pool
  {
    && Sound(db.View()) && RedisRight(rc.store, db.View(), excused)
    && (forall c :: c in nodes ==> c.rc == rc && c.Ready() && LocalRight(c.lc.store, db.View(), excused + c.Pending()))
    && (forall c, d :: c in nodes && d in nodes && c != d ==> c.pool != d.pool)
  }

  /** A service with one node, its caches empty. */
  method Boot(rows: Table, expiration: int64, numCPU: nat) returns (db: Database, rc: RedisCache, c: LocalCacheCleaner)
    requires Unique(rows) && numCPU >= 1
    ensures Coherent(db, rc, {c}, {}) && db.rows == rows && rc.expiration == expiration
    ensures rc.store == map[] && c.lc.store == map[] && c.Pending() == {}
    ensures fresh(db) && fresh(rc) && fresh(c) && fresh(c.lc) && fresh(c.pool)
  {
    db := new Database(rows);
    rc := new RedisCache(expiration);
    var lc := new LocalCache();
    c := new LocalCacheCleaner(rc, lc, numCPU);
  }

  /** Another node joins: its local cache is empty, and it has missed no message that could matter to it. */
  method AddNode(db: Database, rc: RedisCache, numCPU: nat, ghost nodes: set<LocalCacheCleaner>,
                 ghost excused: set<string>)
    returns (c: LocalCacheCleaner)
    requires Coherent(db, rc, nodes, excused) && numCPU >= 1
    ensures Coherent(db, rc, nodes + {c}, excused)
    ensures fresh(c) && fresh(c.lc) && fresh(c.pool) && c.lc.store == map[] && c.Pending() == {}
  {
    var lc := new LocalCache();
    c := new LocalCacheCleaner(rc, lc, numCPU);
  }

  /** Redis drops an entry that expired or for want of memory, or a mutex whose lease has run out. */
  method DropFromRedis(db: Database, rc: RedisCache, key: string, ghost nodes: set<LocalCacheCleaner>,
                       ghost excused: set<string>)
    requires Coherent(db, rc, nodes, excused)
    modifies rc`store
    ensures Coherent(db, rc, nodes, excused) && rc.store == old(rc.store) - {key}
  {
    rc.Drop(key);
  }

  /** A node's local cache evicts an entry. */
  method EvictFromLocal(db: Database, rc: RedisCache, c: LocalCacheCleaner, key: string,
                        ghost nodes: set<LocalCacheCleaner>, ghost excused: set<string>)
    requires Coherent(db, rc, nodes, excused) && c in nodes
    modifies c.lc`store
    ensures Coherent(db, rc, nodes, excused) && c.lc.store == old(c.lc.store) - {key}
  {
    c.lc.Evict(key);
  }

  /** One worker of one node takes a turn. */
  method WorkOnce(db: Database, rc: RedisCache, c: LocalCacheCleaner, ghost nodes: set<LocalCacheCleaner>,
                  ghost excused: set<string>)
    requires Coherent(db, rc, nodes, excused) && c in nodes && c.pool.queue != []
    modifies c.pool`queue, c.pool`done, c.pool`results, c.pool`lost, c.lc
    ensures Coherent(db, rc, nodes, excused) && c.ClearsLosses() && |c.pool.queue| < old(|c.pool.queue|)
  {
    c.Work();
  }

  /** The loop of one node takes a message. */
  method ConsumeOnce(db: Database, rc: RedisCache, c: LocalCacheCleaner, ghost nodes: set<LocalCacheCleaner>,
                     ghost excused: set<string>)
    requires Coherent(db, rc, nodes, excused) && c in nodes && c.cursor < |rc.published|
    modifies c`cursor, c.pool`queue, c.pool`done, c.pool`results, c.pool`lost, c.lc
    ensures Coherent(db, rc, nodes, excused) && c.ClearsLosses() && c.cursor == old(c.cursor) + 1
  {
    c.Consume();
  }

  /** The loop and the workers of one node at some moment of their own choosing: one message or one task. */
  method Advance(db: Database, rc: RedisCache, c: LocalCacheCleaner, ghost nodes: set<LocalCacheCleaner>,
                 ghost excused: set<string>)
    requires Coherent(db, rc, nodes, excused) && c in nodes
    modifies c`cursor, c.pool`queue, c.pool`done, c.pool`results, c.pool`lost, c.lc
    ensures Coherent(db, rc, nodes, excused)
    ensures c.ClearsLosses()
    ensures if old(c.pool.queue) != [] then c.cursor == old(c.cursor) && |c.pool.queue| < old(|c.pool.queue|)
            else c.cursor == if old(c.cursor) < |rc.published| then old(c.cursor) + 1 else old(c.cursor)
    ensures old(c.pool.queue) == [] && old(c.cursor) == |rc.published| ==> c.pool.queue == []
  {
    if c.pool.queue != [] {
      WorkOnce(db, rc, c, nodes, excused);
    } else if c.cursor < |rc.published| {
      ConsumeOnce(db, rc, c, nodes, excused);
    }
  }

  /** Let one node's loop and workers run until they have nothing left to do. */
  method Settle(db: Database, rc: RedisCache, c: LocalCacheCleaner, ghost nodes: set<LocalCacheCleaner>,
                ghost excused: set<string>)
    requires Coherent(db, rc, nodes, excused) && c in nodes
    modifies c`cursor, c.pool`queue, c.pool`done, c.pool`results, c.pool`lost, c.lc
    ensures Coherent(db, rc, nodes, excused)
    ensures c.Pending() == c.pool.lost && c.lc.faults >= old(c.lc.faults)
    ensures c.lc.faults == old(c.lc.faults) ==> c.pool.lost <= old(c.pool.lost) - old(c.Upcoming())
  {
    while c.pool.queue != [] || c.cursor < |rc.published|
      invariant Coherent(db, rc, nodes, excused) && c.ClearsLosses()
      decreases |rc.published| - c.cursor, |c.pool.queue|
    {
      Advance(db, rc, c, nodes, excused);
    }
  }
}
