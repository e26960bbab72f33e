/** The cache proxies as objects: their bodies run without interleaving, while calls may fail anywhere. */
module Proxies {
  import opened Base
  import opened Keys
  import opened Customers
  import opened Stores
  import opened Repositories
  import opened Coherence

  /** What an undisturbed read returns for a database answer. */
  ghost function Served(a: Option<Value>): Result<Value, RepoError>
  {
    if a.Some? then Ok(a.value) else Err(NotFound)
  }

  /** The read path that the four getters share: local, Redis, mutex, Redis again, database. */
  class ReadThrough {
    const accounts: CustomerRepository
    const auths: JWTAuthRepository
    const lc: LocalCache
    const rc: RedisCache
    const db: Database

    ghost predicate Valid()
    {
      accounts.db == db && auths.db == db
    }

    constructor (accounts: CustomerRepository, auths: JWTAuthRepository, lc: LocalCache, rc: RedisCache)
      requires accounts.db == auths.db
      ensures Valid() && this.lc == lc && this.rc == rc && db == accounts.db && this.accounts == accounts &&
              this.auths == auths
    {
      this.accounts, this.auths, this.lc, this.rc, this.db := accounts, auths, lc, rc, accounts.db;
    }

    /** The repository call of each getter, as the value that getter caches. */
    method Query(k: Key) returns (r: Result<Value, RepoError>)
      requires Valid() && Sound(db.View())
      modifies db`faults
      ensures db.faults >= old(db.faults)
      ensures r == Err(DatabaseError) <==> db.faults > old(db.faults)
      ensures r != Err(DatabaseError) ==> r == Served(Answer(db.rows, k))
    {
      match k
      case PersonalKey(id) =>
        var info := accounts.GetCustomerPersonalInfo(id);
        r := if info.Ok? then Ok(Personal(info.value)) else Err(info.error);
      case ShippingKey(id) =>
        var info := accounts.GetCustomerShippingInfo(id);
        r := if info.Ok? then Ok(Shipping(info.value)) else Err(info.error);
      case CheckKey(id) =>
        var check := auths.CheckCustomer(id);
        r := if check.Ok? then Ok(Check(check.value.0, check.value.1)) else Err(check.error);
      case CredKey(email) =>
        var credentials := auths.GetCustomerCredentials(email);
        r := if credentials.Ok? then Ok(CredentialsValue(credentials.value)) else Err(credentials.error);
    }

    ghost function Faults(): nat
      reads lc, rc, db
    {
      lc.faults + rc.faults + db.faults
    }

    ghost function InLocal(k: Key): Option<Value>
      reads lc
    {
      if KeyString(k) in lc.store then Some(lc.store[KeyString(k)]) else None
    }

    ghost function InRedis(k: Key): Option<Value>
      reads rc
    {
      if KeyString(k) in rc.store && rc.store[KeyString(k)].Entry? then Some(rc.store[KeyString(k)].value) else None
    }

    /** What the read plan says a read of k returns, from what the caches held before. */
    twostate function Seen(k: Key): Option<Value>
      reads lc, rc, db
    {
      ReadPlan(old(InLocal(k)), old(InRedis(k)), Answer(db.rows, k)).result
    }

    /** Nothing failed, and the mutex was free in case it came to that. */
    twostate predicate Quiet(k: Key)
      reads lc, rc, db
    {
      && Faults() == old(Faults())
      && (MutexName(k) !in old(rc.store) || old(InLocal(k)).Some? || old(InRedis(k)).Some?)
    }

    /** When all is quiet, a read returns and writes exactly what its plan says. */
    twostate predicate Undisturbed(k: Key, r: Result<Value, RepoError>)
      reads lc, rc, db
    {
      Quiet(k) ==>
        var plan := ReadPlan(old(InLocal(k)), old(InRedis(k)), Answer(db.rows, k));
        && r == Served(plan.result)
        && lc.store == (if plan.toLocal.Some? then old(lc.store)[KeyString(k) := plan.toLocal.value] else old(lc.store))
        && (if plan.toRedis.Some?
            then AfterSet(old(rc.store), rc.store, KeyString(k), plan.toRedis.value, rc.expiration)
            else rc.store == old(rc.store))
    }

    /**
      A read fails exactly when its Lock, or its database query, has failed; that a cache did not answer, or
      could not be written, fails nothing.
     */
    twostate predicate FailsByItsCalls(r: Result<Value, RepoError>)
      reads rc, db
    {
      && db.faults >= old(db.faults) && rc.refusals >= old(rc.refusals)
      && (r == Err(CacheError) <==> rc.refusals > old(rc.refusals))
      && (r == Err(DatabaseError) <==> db.faults > old(db.faults))
      && r != Err(DuplicateEntry)
    }

    /** And neither cache held an entry for the key. */
    twostate predicate Uncached(k: Key)
      reads lc, rc, db
    {
      && Faults() == old(Faults()) && MutexName(k) !in old(rc.store)
      && KeyString(k) !in old(rc.store) && KeyString(k) !in old(lc.store)
    }

    /** Both caches are right, the local one with more excuses. */
    ghost predicate BothRight(excused: set<string>, excusedHere: set<string>)
      reads lc, rc, db
    {
      && Sound(db.View()) && excused <= excusedHere
      && RedisRight(rc.store, db.View(), excused) && LocalRight(lc.store, db.View(), excusedHere)
    }

    /** A Redis value in hand, copied to the local cache before it is returned. */
    method CopyToLocal(k: Key, v: Value, ghost excused: set<string>, ghost excusedHere: set<string>)
      requires BothRight(excused, excusedHere) && Right(db.View(), k, v, excused)
      modifies lc
      ensures BothRight(excused, excusedHere) && lc.faults >= old(lc.faults)
      ensures lc.store == old(lc.store)[KeyString(k) := v] || (lc.faults > old(lc.faults) && lc.store == old(lc.store))
    {
      LocalSet(lc.store, db.View(), excusedHere, k, v);
      var _ := lc.Set(KeyString(k), v);
    }

    /** The part under the mutex, from the second look at Redis to the fill. */
    method Refill(k: Key, ghost excused: set<string>, ghost excusedHere: set<string>)
      returns (r: Result<Value, RepoError>)
      requires Valid() && BothRight(excused, excusedHere)
      modifies rc`store, rc`faults, lc, db`faults
      ensures BothRight(excused, excusedHere) && Faults() >= old(Faults())
      ensures rc.faults >= old(rc.faults) && lc.faults >= old(lc.faults) && db.faults >= old(db.faults)
      ensures r.Ok? ==> Right(db.View(), k, r.value, excused)
      ensures r == Err(NotFound) ==> Answer(db.rows, k) == None
      ensures r.Err? ==> r == Err(NotFound) || r == Err(DatabaseError)
      ensures r == Err(DatabaseError) <==> db.faults > old(db.faults)
      ensures lc.store == old(lc.store) || (r.Ok? && lc.store == old(lc.store)[KeyString(k) := r.value])
      ensures rc.store == old(rc.store) ||
              (r.Ok? && AfterSet(old(rc.store), rc.store, KeyString(k), r.value, rc.expiration))
      ensures rc.faults == old(rc.faults) && old(InRedis(k)).Some? ==>
                && r == Ok(old(InRedis(k)).value) && rc.store == old(rc.store) && db.faults == old(db.faults)
                && (lc.faults == old(lc.faults) ==> lc.store == old(lc.store)[KeyString(k) := r.value])
      ensures Faults() == old(Faults()) && KeyString(k) !in old(rc.store) ==>
                && r == Served(Answer(db.rows, k)) && lc.store == old(lc.store)
                && (r.Ok? ==> AfterSet(old(rc.store), rc.store, KeyString(k), r.value, rc.expiration))
    {
      var again := rc.Get(KeyString(k));
      if again.Ok? && again.value.Some? {
        CopyToLocal(k, again.value.value.value, excused, excusedHere);
        return Ok(again.value.value.value);
      }
      r := Query(k);
      if r.Err? { return; }
      AnswerIsRight(db.View(), k, r.value, excused);
      ghost var before := rc.store;
      var _ := rc.Set(KeyString(k), r.value);
      if rc.store != before {
        RedisSet(before, rc.store, db.View(), excused, k, r.value, rc.expiration);
      }
    }

    /**
      Take the mutex, refill, release. Apart from the mutex the store is as before or has the entry returned,
      whatever fails; and no mutex is left that was not there before, unless a call of Lock or the release
      failed, after which it may be.
     */
    method Coalesce(k: Key, ghost excused: set<string>, ghost excusedHere: set<string>)
      returns (r: Result<Value, RepoError>, ghost released: bool)
      requires Valid() && BothRight(excused, excusedHere)
      modifies rc`store, rc`faults, rc`refusals, lc, db`faults
      ensures BothRight(excused, excusedHere) && Faults() >= old(Faults())
      ensures r.Ok? ==> Right(db.View(), k, r.value, excused)
      ensures r == Err(NotFound) ==> Answer(db.rows, k) == None
      ensures lc.store == old(lc.store) || (r.Ok? && lc.store == old(lc.store)[KeyString(k) := r.value])
      ensures rc.faults >= old(rc.faults) && (!released ==> rc.faults > old(rc.faults))
      ensures FailsByItsCalls(r)
      ensures released && MutexName(k) in rc.store ==> MutexName(k) in old(rc.store)
      ensures Filled(old(rc.store), rc.store, k, r, rc.expiration)
      ensures Faults() == old(Faults()) && MutexName(k) !in old(rc.store) && KeyString(k) !in old(rc.store) ==>
                && r == Served(Answer(db.rows, k)) && lc.store == old(lc.store)
                && (if r.Ok? then AfterSet(old(rc.store), rc.store, KeyString(k), r.value, rc.expiration)
                    else rc.store == old(rc.store))
    {
      RedisLock(rc.store, db.View(), excused, k);
      KeysAreSeparate(k, k);
      var mutex := BuildMutexName(k, KeyString(k));
      ghost var waitedOut;
      var lockError;
      lockError, waitedOut := rc.Lock(mutex);
      released := rc.faults == old(rc.faults);
      if lockError.Some? { return Err(CacheError), released; }
      label locked:
      r := Refill(k, excused, excusedHere);
      label filled:
      var unlockFailed := rc.Unlock(mutex);
      released := !unlockFailed;
      UnlockRestores(old(rc.store), old@locked(rc.store), old@filled(rc.store), rc.store, k, r, rc.expiration);
    }

    /** The part after the local cache did not answer: Redis, and then the mutex. */
    method FetchShared(k: Key, key: string, ghost excused: set<string>, ghost excusedHere: set<string>)
      returns (r: Result<Value, RepoError>)
      requires Valid() && BothRight(excused, excusedHere) && key == KeyString(k)
      modifies rc`store, rc`faults, rc`refusals, lc, db`faults
      ensures BothRight(excused, excusedHere) && Faults() >= old(Faults())
      ensures r.Ok? ==> Right(db.View(), k, r.value, excused)
      ensures r == Err(NotFound) ==> Answer(db.rows, k) == None
      ensures lc.store == old(lc.store) || (r.Ok? && lc.store == old(lc.store)[key := r.value])
      ensures rc.faults == old(rc.faults) && MutexName(k) in rc.store ==> MutexName(k) in old(rc.store)
      ensures FailsByItsCalls(r)
      ensures Faults() == old(Faults()) && (MutexName(k) !in old(rc.store) || old(InRedis(k)).Some?) ==>
                var plan := ReadPlan(None, old(InRedis(k)), Answer(db.rows, k));
                && r == Served(plan.result)
                && lc.store == (if plan.toLocal.Some? then old(lc.store)[key := plan.toLocal.value] else old(lc.store))
                && (if plan.toRedis.Some?
                    then AfterSet(old(rc.store), rc.store, key, plan.toRedis.value, rc.expiration)
                    else rc.store == old(rc.store))
    {
      var shared := rc.Get(key);
      if shared.Ok? && shared.value.Some? {
        CopyToLocal(k, shared.value.value.value, excused, excusedHere);
        return Ok(shared.value.value.value);
      }
      ghost var released;
      r, released := Coalesce(k, excused, excusedHere);
      KeysAreSeparate(k, k);
    }

    /**
      One read. It keeps both caches right whatever fails. A value it returns is right up to the local
      excuses, and "not found" is true.
     */
    method Fetch(k: Key, ghost excused: set<string>, ghost excusedHere: set<string>)
      returns (r: Result<Value, RepoError>)
      requires Valid() && BothRight(excused, excusedHere)
      modifies rc`store, rc`faults, rc`refusals, lc, db`faults
      ensures BothRight(excused, excusedHere) && Faults() >= old(Faults())
      ensures r.Ok? ==> Right(db.View(), k, r.value, excusedHere)
      ensures r == Err(NotFound) ==> Answer(db.rows, k) == None
      ensures lc.store == old(lc.store) ||
              (r.Ok? && Right(db.View(), k, r.value, excused) && lc.store == old(lc.store)[KeyString(k) := r.value])
      ensures rc.faults == old(rc.faults) && MutexName(k) in rc.store ==> MutexName(k) in old(rc.store)
      ensures Undisturbed(k, r) && FailsByItsCalls(r)
    {
      var key := BuildKey(k);
      var here := lc.Get(key);
      if here.Ok? && here.value.Some? { return Ok(here.value.value); }
      r := FetchShared(k, key, excused, excusedHere);
      if r.Ok? { RightWeaken(db.View(), k, r.value, excused, excusedHere); }
    }
  }

  /** Apart from the mutex of k, the store is as before or has just the entry returned. */
  ghost predicate Filled(before: map<string, Cell>, after: map<string, Cell>,
                         k: Key, r: Result<Value, RepoError>, expiration: int64)
  {
    || after - {MutexName(k)} == before - {MutexName(k)}
    || (r.Ok? &&
        AfterSet(before - {MutexName(k)}, after - {MutexName(k)}, KeyString(k), r.value, expiration))
  }

  lemma SetBesideMutex(before: map<string, Cell>, after: map<string, Cell>, k: Key, v: Value, expiration: int64)
    ensures AfterSet(before, after, KeyString(k), v, expiration) ==>
              AfterSet(before - {MutexName(k)}, after - {MutexName(k)}, KeyString(k), v, expiration)
  {
    KeysAreSeparate(k, k);
    if ttl :| InRange(ttl, expiration) && after == before[KeyString(k) := Entry(v, ttl)] {
      assert after - {MutexName(k)} == (before - {MutexName(k)})[KeyString(k) := Entry(v, ttl)];
    }
  }

  /** Between Lock and Unlock only the entry may change, so a release leaves just that change. */
  lemma UnlockRestores(before: map<string, Cell>, locked: map<string, Cell>, filled: map<string, Cell>,
                       after: map<string, Cell>, k: Key, r: Result<Value, RepoError>, expiration: int64)
    requires locked - {MutexName(k)} == before - {MutexName(k)}
    requires filled == locked || (r.Ok? && AfterSet(locked, filled, KeyString(k), r.value, expiration))
    requires after == filled || after == filled - {MutexName(k)}
    ensures Filled(before, after, k, r, expiration)
    ensures MutexName(k) !in before && MutexName(k) !in after ==>
              && (filled == locked ==> after == before)
              && (r.Ok? && AfterSet(locked, filled, KeyString(k), r.value, expiration) ==>
                    AfterSet(before, after, KeyString(k), r.value, expiration))
  {
    assert after - {MutexName(k)} == filled - {MutexName(k)};
    if r.Ok? && AfterSet(locked, filled, KeyString(k), r.value, expiration) {
      SetBesideMutex(locked, filled, k, r.value, expiration);
    }
    if MutexName(k) !in before && MutexName(k) !in after {
      assert before - {MutexName(k)} == before && after - {MutexName(k)} == after;
    }
  }
}
