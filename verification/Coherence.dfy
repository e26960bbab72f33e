/** When the entries of the two caches are right, on values. */
module Coherence {
  import opened Base
  import opened Keys
  import opened Customers
  import opened Stores

  /**
    An account entry is of its kind, and is the database's answer unless its key is excused; a positive
    authentication entry is true of the database, and credentials are those of a customer who had the email
    at some moment; a negative one promises nothing.
   */
  ghost predicate Right(t: Snapshot, k: Key, v: Value, excused: set<string>)
  {
    match k
    case PersonalKey(_) => v.Personal? && (KeyString(k) in excused || Answer(t.table, k) == Some(v))
    case ShippingKey(_) => v.Shipping? && (KeyString(k) in excused || Answer(t.table, k) == Some(v))
    case CheckKey(id) => v.Check? && (v.exist ==> CheckTrue(t.table, id, v.active))
    case CredKey(_) => v.Cred? && (v.exist ==> CredTrue(t.table, v.id, v.active, v.hash) && (v.id, k.email) in t.emails)
  }

  ghost predicate RedisRight(store: map<string, Cell>, t: Snapshot, excused: set<string>)
  {
    forall k: Key :: KeyString(k) in store ==>
      store[KeyString(k)].Entry? && Right(t, k, store[KeyString(k)].value, excused)
  }

  ghost predicate LocalRight(store: map<string, Value>, t: Snapshot, excused: set<string>)
  {
    forall k: Key :: KeyString(k) in store ==> Right(t, k, store[KeyString(k)], excused)
  }

  lemma AnswerIsRight(t: Snapshot, k: Key, v: Value, excused: set<string>)
    requires Sound(t) && Answer(t.table, k) == Some(v)
    ensures Right(t, k, v, excused)
  {
  }

  lemma RedisSet(store: map<string, Cell>, after: map<string, Cell>, t: Snapshot, excused: set<string>, k: Key,
                 v: Value, e: int64)
    requires RedisRight(store, t, excused) && Right(t, k, v, excused) && AfterSet(store, after, KeyString(k), v, e)
    ensures RedisRight(after, t, excused)
  {
    forall l: Key | KeyString(l) in after
      ensures after[KeyString(l)].Entry? && Right(t, l, after[KeyString(l)].value, excused)
    {
      KeysAreSeparate(k, l);
    }
  }

  /** Whatever becomes of a mutex touches no entry: its name is no entry's name. */
  lemma RedisLock(store: map<string, Cell>, t: Snapshot, excused: set<string>, k: Key)
    requires RedisRight(store, t, excused)
    ensures forall after: map<string, Cell> ::
              after - {MutexName(k)} == store - {MutexName(k)} ==> RedisRight(after, t, excused)
  {
    forall l: Key ensures KeyString(l) != MutexName(k) { KeysAreSeparate(l, k); }
    forall after: map<string, Cell>, l: Key |
      after - {MutexName(k)} == store - {MutexName(k)} && KeyString(l) in after
      ensures KeyString(l) in store && after[KeyString(l)] == store[KeyString(l)]
    {
      assert KeyString(l) in after - {MutexName(k)};
    }
  }

  lemma LocalSet(store: map<string, Value>, t: Snapshot, excused: set<string>, k: Key, v: Value)
    requires LocalRight(store, t, excused) && Right(t, k, v, excused)
    ensures LocalRight(store[KeyString(k) := v], t, excused)
  {
    forall l: Key | KeyString(l) in store[KeyString(k) := v]
      ensures Right(t, l, store[KeyString(k) := v][KeyString(l)], excused)
    {
      KeysAreSeparate(k, l);
    }
  }

  /** A statement leaves every entry right, except possibly the account entry it is about. */
  lemma StatementKeepsRight(t: Snapshot, s: Statement, k: Key, v: Value, excused: set<string>, also: set<string>)
    requires Sound(t) && Allowed(t.table, s) && Right(t, k, v, excused) && excused <= also
    requires s.Update? ==> KeyString(ChangedKey(s.id, s.change)) in also
    ensures Right(After(t, s), k, v, also)
  {
    ApplyKeeps(t.table, s);
    if IsAccountKey(k) && KeyString(k) !in also && Answer(Apply(t.table, s), k) != Answer(t.table, k) {
      OnlyItsOwnUpdate(t.table, s, k);
    }
  }

  lemma StatementKeepsRedis(t: Snapshot, s: Statement, store: map<string, Cell>, excused: set<string>,
                            also: set<string>)
    requires Sound(t) && Allowed(t.table, s) && RedisRight(store, t, excused) && excused <= also
    requires s.Update? ==> KeyString(ChangedKey(s.id, s.change)) in also
    ensures RedisRight(store, After(t, s), also)
  {
    forall k: Key | KeyString(k) in store
      ensures store[KeyString(k)].Entry? && Right(After(t, s), k, store[KeyString(k)].value, also)
    {
      StatementKeepsRight(t, s, k, store[KeyString(k)].value, excused, also);
    }
  }

  lemma StatementKeepsLocal(t: Snapshot, s: Statement, store: map<string, Value>, excused: set<string>,
                            also: set<string>)
    requires Sound(t) && Allowed(t.table, s) && LocalRight(store, t, excused) && excused <= also
    requires s.Update? ==> KeyString(ChangedKey(s.id, s.change)) in also
    ensures LocalRight(store, After(t, s), also)
  {
    forall k: Key | KeyString(k) in store ensures Right(After(t, s), k, store[KeyString(k)], also) {
      StatementKeepsRight(t, s, k, store[KeyString(k)], excused, also);
    }
  }

  /** Deleting the excused entry makes the rest right without the excuse. */
  lemma RedisDelete(store: map<string, Cell>, t: Snapshot, excused: set<string>, key: string)
    requires RedisRight(store, t, excused + {key})
    ensures RedisRight(store - {key}, t, excused - {key})
  {
  }

  lemma RightWeaken(t: Snapshot, k: Key, v: Value, excused: set<string>, also: set<string>)
    requires Right(t, k, v, excused) && excused <= also
    ensures Right(t, k, v, also)
  {
  }

  lemma RedisWeaken(store: map<string, Cell>, t: Snapshot, excused: set<string>, also: set<string>)
    requires RedisRight(store, t, excused) && excused <= also
    ensures RedisRight(store, t, also)
  {
    forall k: Key | KeyString(k) in store ensures Right(t, k, store[KeyString(k)].value, also) {
      assert Right(t, k, store[KeyString(k)].value, excused);
    }
  }

  lemma LocalWeaken(store: map<string, Value>, t: Snapshot, excused: set<string>, also: set<string>)
    requires LocalRight(store, t, excused) && excused <= also
    ensures LocalRight(store, t, also)
  {
    forall k: Key | KeyString(k) in store ensures Right(t, k, store[KeyString(k)], also) {
      assert Right(t, k, store[KeyString(k)], excused);
    }
  }
}
