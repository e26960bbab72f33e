/** JWTAuthRepoCache over a cluster: what its answers are worth, and that creating customers disturbs nothing. */
module AuthProxy {
  import opened Base
  import opened Keys
  import opened Customers
  import opened Stores
  import opened Repositories
  import opened Coherence
  import opened Cluster
  import opened AccountProxy

  class JWTAuthRepoCache {
    const account: CustomerRepoCache
    const repo: JWTAuthRepository
    const rc: RedisCache
    const db: Database

    ghost predicate Valid()
    {
      account.Valid() && account.reader.auths == repo && account.rc == rc && account.db == db && repo.db == db
    }

    /** The auth proxy of the node whose account proxy this is: the same caches, the other repository. */
    constructor (account: CustomerRepoCache)
      requires account.Valid()
      ensures Valid() && this.account == account
    {
      this.account, repo, rc, db := account, account.reader.auths, account.rc, account.db;
    }

    /** (exist, active). A positive answer is true of the database now; a negative one may be an old one. */
    method CheckCustomer(id: uint64, ghost me: LocalCacheCleaner, ghost nodes: set<LocalCacheCleaner>,
                         ghost excused: set<string>)
      returns (r: Result<(bool, bool), RepoError>)
      requires Valid() && Coherent(db, rc, nodes, excused) && me in nodes && me.lc == account.reader.lc
      modifies rc`store, rc`faults, rc`refusals, account.reader.lc, db`faults
      ensures Coherent(db, rc, nodes, excused)
      ensures r.Ok? && r.value.0 ==> CheckTrue(db.rows, id, r.value.1)
      ensures account.reader.Undisturbed(CheckKey(id), if r.Ok? then Ok(Check(r.value.0, r.value.1)) else Err(r.error))
      ensures account.reader.Quiet(CheckKey(id)) ==>
                r.Ok? && account.reader.Seen(CheckKey(id)) == Some(Check(r.value.0, r.value.1))
      ensures account.reader.FailsByItsCalls(if r.Ok? then Ok(Check(r.value.0, r.value.1)) else Err(r.error))
      ensures account.reader.Faults() >= old(account.reader.Faults()) && r != Err(NotFound)
    {
      var v := account.FetchIn(CheckKey(id), me, nodes, excused);
      r := if v.Ok? then Ok((v.value.exist, v.value.active)) else Err(v.error);
    }

    /**
      The credentials stored for an email, or none. Credentials found are those of a customer who holds them
      now and who had the email at some moment.
     */
    method GetCustomerCredentials(email: string, ghost me: LocalCacheCleaner, ghost nodes: set<LocalCacheCleaner>,
                                  ghost excused: set<string>)
      returns (r: Result<(bool, Credentials), RepoError>)
      requires Valid() && Coherent(db, rc, nodes, excused) && me in nodes && me.lc == account.reader.lc
      modifies rc`store, rc`faults, rc`refusals, account.reader.lc, db`faults
      ensures Coherent(db, rc, nodes, excused)
      ensures r.Ok? && r.value.0 ==>
                CredTrue(db.rows, r.value.1.id, r.value.1.active, r.value.1.hash) && (r.value.1.id, email) in db.emails
      ensures account.reader.Undisturbed(CredKey(email),
                if r.Ok? then Ok(Cred(r.value.0, r.value.1.id, r.value.1.active, r.value.1.hash)) else Err(r.error))
      ensures account.reader.Quiet(CredKey(email)) ==>
                r.Ok? && account.reader.Seen(CredKey(email)) ==
                         Some(Cred(r.value.0, r.value.1.id, r.value.1.active, r.value.1.hash))
      ensures r != Err(NotFound) && account.reader.FailsByItsCalls(
                if r.Ok? then Ok(Cred(r.value.0, r.value.1.id, r.value.1.active, r.value.1.hash)) else Err(r.error))
      ensures account.reader.Faults() >= old(account.reader.Faults())
    {
      var v := account.FetchIn(CredKey(email), me, nodes, excused);
      r := if v.Ok? then Ok((v.value.exist, MapCredentials(v.value))) else Err(v.error);
    }

    /** Straight to the repository. No cache is told, and none needs to be for what Coherent promises. */
    method CreateCustomer(customer: Customer, ghost nodes: set<LocalCacheCleaner>, ghost excused: set<string>)
      returns (err: Option<RepoError>)
      requires Valid() && Coherent(db, rc, nodes, excused)
      modifies db
      ensures Coherent(db, rc, nodes, excused)
      ensures err.None? ==> Created(old(db.rows), db.rows, customer, repo.matches)
      ensures db.rows == old(db.rows) || Created(old(db.rows), db.rows, customer, repo.matches)
      ensures db.faults >= old(db.faults)
      ensures db.faults == old(db.faults) ==>
                if Admissible(old(db.rows), customer) then err.None? else err == Some(DuplicateEntry)
    {
      ghost var t := db.View();
      err := repo.CreateCustomer(customer);
      if db.rows != t.table {
        ghost var hash :| Allowed(t.table, Insert(customer.id, NewRow(customer, hash))) &&
                          db.rows == Apply(t.table, Insert(customer.id, NewRow(customer, hash)));
        ghost var s := Insert(customer.id, NewRow(customer, hash));
        StatementKeepsRedis(t, s, rc.store, excused, excused);
        forall c | c in nodes ensures LocalRight(c.lc.store, db.View(), excused + c.Pending()) {
          StatementKeepsLocal(t, s, c.lc.store, excused + c.Pending(), excused + c.Pending());
        }
      }
    }
  }
}
