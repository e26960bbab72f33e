/** The two caches as objects. A call may fail; a failed call is counted, and a failed write may have been applied. */
module Stores {
  import opened Base
  import opened Expiry
  import opened Customers

  datatype Fault = Unavailable | NotEncodable | CommandNotFound | MutexTaken

  /** What Redis keeps under a name: a cache entry with its time to live, or a mutex. */
  datatype Cell = Entry(value: Value, ttl: Option<int>) | Mutex(lease: int)

  /** An argument of json.Marshal. */
  datatype Raw = Encodable(value: Value) | Unencodable

  datatype Payload = SetPayload(key: string, val: Raw) | DeletePayload(key: string)

  /** opType is Go's int: 0 is SET, 1 is DELETE, anything else is unknown. */
  datatype RedisCmd = RedisCmd(opType: int, payload: Payload)

  /** How often redsync tries to take a mutex. */
  const TRIES: nat := 32

  const SET: int := 0
  const DELETE: int := 1

  // ---- The commands on values

  /** Some time to live that getRandomExpiration may give, or none, if the setting is such. */
  predicate InRange(ttl: Option<int>, expiration: int64)
  {
    exists j: nat :: j < JITTER && ttl == TimeToLive(expiration, j)
  }

  lemma RangeIsSeconds(ttl: Option<int>, expiration: int64)
    requires Fits(expiration) && InRange(ttl, expiration)
    ensures exists s: int :: expiration <= s <= expiration + 9 && ttl == Some(s * SECOND)
  {
    var j: nat :| j < JITTER && ttl == TimeToLive(expiration, j);
    FittingIsExact(expiration, j);
    assert expiration <= expiration + j <= expiration + 9 && ttl == Some((expiration + j) * SECOND);
  }

  lemma SecondsAreInRange(expiration: int64, s: int)
    requires Fits(expiration) && expiration <= s <= expiration + 9
    ensures InRange(Some(s * SECOND), expiration)
  {
    FittingIsExact(expiration, s - expiration);
  }

  /** For a setting that fits, it is E to E + 9 whole seconds. */
  lemma RangeInSeconds(ttl: Option<int>, expiration: int64)
    requires Fits(expiration)
    ensures InRange(ttl, expiration) <==>
              exists s: int :: expiration <= s <= expiration + 9 && ttl == Some(s * SECOND)
  {
    if InRange(ttl, expiration) {
      RangeIsSeconds(ttl, expiration);
    } else if s: int :| expiration <= s <= expiration + 9 && ttl == Some(s * SECOND) {
      SecondsAreInRange(expiration, s);
    }
  }

  ghost predicate AfterSet(before: map<string, Cell>, after: map<string, Cell>, key: string, v: Value,
                           expiration: int64)
  {
    exists ttl :: InRange(ttl, expiration) && after == before[key := Entry(v, ttl)]
  }

  predicate Known(cmd: RedisCmd)
  {
    cmd.opType == SET || cmd.opType == DELETE
  }

  /** The type assertion on the payload succeeds; it is only evaluated for known operations. */
  predicate Matches(cmd: RedisCmd)
  {
    (cmd.opType == SET ==> cmd.payload.SetPayload?) && (cmd.opType == DELETE ==> cmd.payload.DeletePayload?)
  }

  /** Why ExecPipeLine gives up on a command before sending anything. */
  function Refusal(cmd: RedisCmd): Option<Fault>
    requires Matches(cmd)
  {
    if !Known(cmd) then Some(CommandNotFound)
    else if cmd.opType == SET && cmd.payload.val.Unencodable? then Some(NotEncodable)
    else None
  }

  /** A command is refused only when its operation is unknown, or it is a SET whose value cannot be encoded. */
  lemma RefusedExactly(cmd: RedisCmd)
    requires Matches(cmd)
    ensures Refusal(cmd) == Some(CommandNotFound) <==> cmd.opType != 0 && cmd.opType != 1
    ensures Refusal(cmd) == Some(NotEncodable) <==>
            cmd.opType == 0 && cmd.payload == SetPayload(cmd.payload.key, Unencodable)
    ensures Refusal(cmd).None? <==>
            || cmd.opType == 1
            || (cmd.opType == 0 && cmd.payload.SetPayload? && cmd.payload.val.Encodable?)
  {
  }

  /** One command run on its own: what a Set or a Delete that does not fail may leave. */
  ghost predicate RunsAs(before: map<string, Cell>, after: map<string, Cell>, cmd: RedisCmd, expiration: int64)
    requires Matches(cmd) && Refusal(cmd).None?
  {
    if cmd.opType == SET then AfterSet(before, after, cmd.payload.key, cmd.payload.val.value, expiration)
    else after == before - {cmd.payload.key}
  }

  ghost predicate Sendable(cmds: seq<RedisCmd>)
  {
    forall i :: 0 <= i < |cmds| ==> Matches(cmds[i]) && Refusal(cmds[i]).None?
  }

  /** path lists the stores that the commands, run one by one, may leave behind. */
  ghost predicate Path(path: seq<map<string, Cell>>, cmds: seq<RedisCmd>, expiration: int64)
    requires Sendable(cmds)
  {
    |path| == |cmds| + 1 && forall i :: 0 <= i < |cmds| ==> RunsAs(path[i], path[i + 1], cmds[i], expiration)
  }

  /** Likewise when any of the commands may have been lost on the way. */
  ghost predicate LossyPath(path: seq<map<string, Cell>>, cmds: seq<RedisCmd>, expiration: int64)
    requires Sendable(cmds)
  {
    |path| == |cmds| + 1 &&
    forall i :: 0 <= i < |cmds| ==> path[i + 1] == path[i] || RunsAs(path[i], path[i + 1], cmds[i], expiration)
  }

  ghost predicate OneByOne(before: map<string, Cell>, after: map<string, Cell>, cmds: seq<RedisCmd>, expiration: int64)
    requires Sendable(cmds)
  {
    exists path :: Path(path, cmds, expiration) && path[0] == before && path[|cmds|] == after
  }

  ghost predicate PartlyOneByOne(before: map<string, Cell>, after: map<string, Cell>, cmds: seq<RedisCmd>,
                                 expiration: int64)
    requires Sendable(cmds)
  {
    exists path :: LossyPath(path, cmds, expiration) && path[0] == before && path[|cmds|] == after
  }

  ghost predicate HoldsLast(store: map<string, Cell>, cmd: RedisCmd, expiration: int64)
    requires Matches(cmd) && Refusal(cmd).None?
  {
    if cmd.opType == SET then
      cmd.payload.key in store && store[cmd.payload.key].Entry? &&
      store[cmd.payload.key].value == cmd.payload.val.value && InRange(store[cmd.payload.key].ttl, expiration)
    else cmd.payload.key !in store
  }

  /** The last command on a key decides what the batch leaves there, and every time to live it leaves is in range. */
  lemma {:induction false} LastCommandWins(path: seq<map<string, Cell>>, cmds: seq<RedisCmd>, expiration: int64,
                                           i: nat, n: nat)
    requires Sendable(cmds) && Path(path, cmds, expiration) && i < n <= |cmds|
    requires forall j :: i < j < n ==> cmds[j].payload.key != cmds[i].payload.key
    ensures HoldsLast(path[n], cmds[i], expiration)
    decreases n
  {
    assert RunsAs(path[n - 1], path[n], cmds[n - 1], expiration);
    if i == n - 1 {
    } else {
      LastCommandWins(path, cmds, expiration, i, n - 1);
    }
  }

  /** A key without a command in the batch keeps what it had, whatever is lost. */
  lemma {:induction false} UntouchedKeysKeep(path: seq<map<string, Cell>>, cmds: seq<RedisCmd>, expiration: int64,
                                             key: string, n: nat)
    requires Sendable(cmds) && LossyPath(path, cmds, expiration) && n <= |cmds|
    requires forall j :: 0 <= j < n ==> cmds[j].payload.key != key
    ensures key in path[n] <==> key in path[0]
    ensures key in path[0] ==> path[n][key] == path[0][key]
    decreases n
  {
    if n == 0 {
    } else {
      assert path[n] == path[n - 1] || RunsAs(path[n - 1], path[n], cmds[n - 1], expiration);
      UntouchedKeysKeep(path, cmds, expiration, key, n - 1);
    }
  }

  // ---- The pipeline

  /** A queued command: the key, and what is to be stored there or nothing. */
  datatype Queued = Queued(key: string, put: Option<Cell>)

  function Effect(store: map<string, Cell>, q: Queued): map<string, Cell>
  {
    if q.put.Some? then store[q.key := q.put.value] else store - {q.key}
  }

  /** q is the client command queued for cmd, with some time to live in range. */
  predicate Carries(q: Queued, cmd: RedisCmd, expiration: int64)
    requires Matches(cmd) && Refusal(cmd).None?
  {
    && q.key == cmd.payload.key
    && if cmd.opType == SET then
         q.put.Some? && q.put.value.Entry? && q.put.value.value == cmd.payload.val.value &&
         InRange(q.put.value.ttl, expiration)
       else q.put.None?
  }

  lemma CarriedOut(store: map<string, Cell>, q: Queued, cmd: RedisCmd, expiration: int64)
    requires Matches(cmd) && Refusal(cmd).None? && Carries(q, cmd, expiration)
    ensures RunsAs(store, Effect(store, q), cmd, expiration)
  {
    if cmd.opType == SET {
      assert q.put == Some(Entry(cmd.payload.val.value, q.put.value.ttl));
    }
  }

  // ---- Redis

  class RedisCache {
    var store: map<string, Cell>
    /** The messages of the invalidation topic, oldest first; one that is not a list of keys is None. */
    var published: seq<Option<seq<string>>>
    const expiration: int64
    ghost var faults: nat
    /** How many calls of Lock came back with an error. */
    ghost var refusals: nat

    constructor (expiration: int64)
      ensures this.expiration == expiration && store == map[] && published == []
    {
      this.expiration := expiration;
      store, published, faults, refusals := map[], [], 0, 0;
    }

    /** Whether the network lets a call down is not ours to say. */
    method Flaky() returns (failed: bool)
      modifies this`faults
      ensures failed <==> faults > old(faults)
      ensures faults >= old(faults)
    {
      failed := *;
      faults := if failed then faults + 1 else faults;
    }

    method DrawTimeToLive() returns (ttl: Option<int>)
      ensures InRange(ttl, expiration)
    {
      var extra: int := *;
      extra := extra % JITTER;
      ttl := TimeToLive(expiration, extra);
    }

    method Get(key: string) returns (r: Result<Option<Cell>, Fault>)
      modifies this`faults
      ensures r.Err? <==> faults > old(faults)
      ensures faults >= old(faults)
      ensures r.Ok? ==> r.value == if key in store then Some(store[key]) else None
    {
      var failed := Flaky();
      if failed { return Err(Unavailable); }
      r := Ok(if key in store then Some(store[key]) else None);
    }

    method Set(key: string, val: Value) returns (failed: bool)
      modifies this`store, this`faults
      ensures failed <==> faults > old(faults)
      ensures faults >= old(faults)
      ensures AfterSet(old(store), store, key, val, expiration) || (failed && store == old(store))
    {
      failed := Flaky();
      var applied: bool := *;
      if !failed || applied {
        var ttl := DrawTimeToLive();
        store := store[key := Entry(val, ttl)];
      }
    }

    method Delete(key: string) returns (failed: bool)
      modifies this`store, this`faults
      ensures failed <==> faults > old(faults)
      ensures faults >= old(faults)
      ensures store == old(store) - {key} || (failed && store == old(store))
    {
      failed := Flaky();
      var applied: bool := *;
      if !failed || applied {
        store := store - {key};
      }
    }

    method Publish(keys: seq<string>) returns (failed: bool)
      modifies this`published, this`faults
      ensures failed <==> faults > old(faults)
      ensures faults >= old(faults)
      ensures published == old(published) + [Some(keys)] || (failed && published == old(published))
    {
      failed := Flaky();
      var applied: bool := *;
      if !failed || applied {
        published := published + [Some(keys)];
      }
    }

    /**
      redsync: SET NX with the lease under the mutex's name, in the same keyspace as the entries, tried up to
      32 times with a pause in between. A mutex that somebody else holds may be gone after a pause: released,
      or its lease over. A try that fails may have taken the mutex all the same.
     */
    method Lock(name: string) returns (err: Option<Fault>, ghost waitedOut: bool)
      modifies this`store, this`faults, this`refusals
      ensures refusals == old(refusals) + if err.Some? then 1 else 0
      ensures faults >= old(faults) && store - {name} == old(store) - {name}
      ensures err.None? ==> name in store && store[name] == Mutex(LEASE) && (name !in old(store) || waitedOut)
      ensures waitedOut ==> name in old(store) || faults > old(faults)
      ensures name !in old(store) && faults == old(faults) ==> err.None?
      ensures err.Some? && name in store && faults == old(faults) ==> store == old(store)
    {
      waitedOut := false;
      for tries := 0 to TRIES
        invariant faults >= old(faults) && store - {name} == old(store) - {name} && refusals == old(refusals)
        invariant waitedOut ==> name in old(store) || faults > old(faults)
        invariant !waitedOut && name in old(store) ==> name in store
        invariant faults == old(faults) && name in store ==> store == old(store)
        invariant tries > 0 && faults == old(faults) ==> name in old(store)
      {
        var failed := Flaky();
        var applied: bool := *;
        var free := name !in store;
        if free && (!failed || applied) {
          store := store[name := Mutex(LEASE)];
        }
        if free && !failed { return None, waitedOut; }
        var gone: bool := *;
        if gone {
          waitedOut := waitedOut || name in store;
          store := store - {name};
        }
      }
      refusals := refusals + 1;
      err := Some(MutexTaken);
    }

    /** A release that fails may have taken effect; else it leaves the mutex to its lease. */
    method Unlock(name: string) returns (failed: bool)
      modifies this`store, this`faults
      ensures failed <==> faults > old(faults)
      ensures faults >= old(faults)
      ensures store == old(store) - {name} || (failed && store == old(store))
    {
      failed := Flaky();
      var applied: bool := *;
      if !failed || applied {
        store := store - {name};
      }
    }

    /** Redis drops an entry: it expired, or memory ran short. */
    method Drop(key: string)
      modifies this`store
      ensures store == old(store) - {key}
    {
      store := store - {key};
    }

    /**
      A pipeline. Either every command is accepted and sent, or the first one that cannot be sent decides the
      error and nothing is done. What was sent leaves the store as running the commands one by one would; when
      Redis reports an error for any of them, some may have been lost.
     */
    method ExecPipeLine(cmds: seq<RedisCmd>) returns (err: Option<Fault>)
      requires forall i :: 0 <= i < |cmds| ==> Matches(cmds[i])
      modifies this`store, this`faults
      ensures faults >= old(faults)
      ensures err.None? <==> Sendable(cmds) && faults == old(faults)
      ensures err.None? ==> OneByOne(old(store), store, cmds, expiration)
      ensures Sendable(cmds) && err.Some? ==>
                err == Some(Unavailable) && PartlyOneByOne(old(store), store, cmds, expiration)
      ensures !Sendable(cmds) ==> store == old(store) && faults == old(faults)
      ensures !Sendable(cmds) ==> exists i :: 0 <= i < |cmds| && err.Some? && Refusal(cmds[i]) == err &&
                                              forall j :: 0 <= j < i ==> Refusal(cmds[j]).None?
    {
      var pipeline: seq<Queued> := [];
      for i := 0 to |cmds|
        invariant |pipeline| == i && store == old(store) && faults == old(faults)
        invariant forall j :: 0 <= j < i ==> Refusal(cmds[j]).None? && Carries(pipeline[j], cmds[j], expiration)
      {
        var cmd := cmds[i];
        if cmd.opType == SET {
          if cmd.payload.val.Unencodable? { return Some(NotEncodable); }
          var ttl := DrawTimeToLive();
          pipeline := pipeline + [Queued(cmd.payload.key, Some(Entry(cmd.payload.val.value, ttl)))];
        } else if cmd.opType == DELETE {
          pipeline := pipeline + [Queued(cmd.payload.key, None)];
        } else {
          return Some(CommandNotFound);
        }
      }
      var failed := Exec(pipeline, cmds);
      err := if failed then Some(Unavailable) else None;
    }

    /** Send the queued commands in order; it fails when any of them does, and that one may have been applied. */
    method Exec(pipeline: seq<Queued>, ghost cmds: seq<RedisCmd>) returns (failed: bool)
      requires Sendable(cmds) && |pipeline| == |cmds|
      requires forall i :: 0 <= i < |cmds| ==> Carries(pipeline[i], cmds[i], expiration)
      modifies this`store, this`faults
      ensures (failed <==> faults > old(faults)) && faults >= old(faults)
      ensures !failed ==> OneByOne(old(store), store, cmds, expiration)
      ensures PartlyOneByOne(old(store), store, cmds, expiration)
    {
      failed := false;
      ghost var path := [store];
      for i := 0 to |pipeline|
        invariant (failed <==> faults > old(faults)) && faults >= old(faults)
        invariant |path| == i + 1 && path[0] == old(store) && path[i] == store
        invariant forall j :: 0 <= j < i ==>
          (!failed && RunsAs(path[j], path[j + 1], cmds[j], expiration)) ||
          (failed && (path[j + 1] == path[j] || RunsAs(path[j], path[j + 1], cmds[j], expiration)))
      {
        var lost := Flaky();
        var applied: bool := *;
        if !lost || applied {
          CarriedOut(store, pipeline[i], cmds[i], expiration);
          store := Effect(store, pipeline[i]);
        }
        failed := failed || lost;
        path := path + [store];
      }
      assert LossyPath(path, cmds, expiration);
      assert !failed ==> Path(path, cmds, expiration);
    }
  }

  // ---- A node's local cache

  class LocalCache {
    var store: map<string, Value>
    ghost var faults: nat

    constructor ()
      ensures store == map[]
    {
      store, faults := map[], 0;
    }

    method Flaky() returns (failed: bool)
      modifies this`faults
      ensures faults == old(faults) + if failed then 1 else 0
    {
      failed := *;
      faults := if failed then faults + 1 else faults;
    }

    method Get(key: string) returns (r: Result<Option<Value>, Fault>)
      modifies this`faults
      ensures faults == old(faults) + if r.Err? then 1 else 0
      ensures r.Ok? ==> r.value == if key in store then Some(store[key]) else None
    {
      var failed := Flaky();
      if failed { return Err(Unavailable); }
      r := Ok(if key in store then Some(store[key]) else None);
    }

    method Set(key: string, val: Value) returns (failed: bool)
      modifies this
      ensures faults == old(faults) + if failed then 1 else 0
      ensures store == if failed then old(store) else old(store)[key := val]
    {
      failed := Flaky();
      if !failed {
        store := store[key := val];
      }
    }

    /** Deleting what is not there is no error. */
    method Delete(key: string) returns (failed: bool)
      modifies this
      ensures faults == old(faults) + if failed then 1 else 0
      ensures store == if failed then old(store) else old(store) - {key}
    {
      failed := Flaky();
      if !failed {
        store := store - {key};
      }
    }

    /** The cache evicts an entry on its own account. */
    method Evict(key: string)
      modifies this`store
      ensures store == old(store) - {key}
    {
      store := store - {key};
    }
  }
}
