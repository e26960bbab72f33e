/** The two repositories over one customer table. */
module Repositories {
  import opened Base
  import opened Keys
  import opened Customers

  datatype RepoError = NotFound | DuplicateEntry | DatabaseError | CacheError

  datatype Customer = Customer(id: uint64, active: bool, password: string, personal: PersonalInfo,
                               shipping: ShippingInfo)

  datatype Credentials = Credentials(id: uint64, active: bool, hash: string)

  /** gorm's tag default:true: a false Active is a zero value, for which the column default is inserted. */
  const DEFAULT_ACTIVE: bool := true

  class Database {
    var rows: Table
    ghost var emails: set<(uint64, string)>
    ghost var faults: nat

    constructor (rows: Table)
      requires Unique(rows)
      ensures this.rows == rows && Sound(View())
    {
      this.rows, emails, faults := rows, EmailPairs(rows), 0;
    }

    ghost function View(): Snapshot
      reads this`rows, this`emails
    {
      Snapshot(rows, emails)
    }

    method Flaky() returns (failed: bool)
      modifies this`faults
      ensures failed <==> faults > old(faults)
      ensures faults >= old(faults)
    {
      failed := *;
      faults := if failed then faults + 1 else faults;
    }

    /**
      Run one statement. It takes effect only if it meets no unique key of another row, and then exactly
      as Apply says; a call that fails may have taken effect all the same.
     */
    method Execute(s: Statement) returns (err: Option<RepoError>)
      requires Sound(View())
      modifies this
      ensures Sound(View()) && Preserved(old(rows), rows) && emails == old(emails) + EmailPairs(rows)
      ensures faults >= old(faults)
      ensures err.None? ==> Allowed(old(rows), s) && rows == Apply(old(rows), s)
      ensures rows == old(rows) || (Allowed(old(rows), s) && rows == Apply(old(rows), s))
      ensures err == Some(DuplicateEntry) ==> !Allowed(old(rows), s)
      ensures err.Some? && faults == old(faults) ==> err == Some(DuplicateEntry)
      ensures err.None? || err == Some(DuplicateEntry) || err == Some(DatabaseError)
    {
      var failed := Flaky();
      var applied: bool := *;
      if failed && !applied { return Some(DatabaseError); }
      if !Allowed(rows, s) { return if failed then Some(DatabaseError) else Some(DuplicateEntry); }
      ApplyKeeps(rows, s);
      rows := Apply(rows, s);
      emails := emails + EmailPairs(rows);
      err := if failed then Some(DatabaseError) else None;
    }
  }

  class CustomerRepository {
    const db: Database

    constructor (db: Database)
      ensures this.db == db
    {
      this.db := db;
    }

    method GetCustomerPersonalInfo(id: uint64) returns (r: Result<PersonalInfo, RepoError>)
      modifies db`faults
      ensures db.faults >= old(db.faults)
      ensures r == Err(DatabaseError) <==> db.faults > old(db.faults)
      ensures r.Ok? ==> Answer(db.rows, PersonalKey(id)) == Some(Personal(r.value))
      ensures r == Err(NotFound) ==> Answer(db.rows, PersonalKey(id)) == None
      ensures r.Err? ==> r.error.NotFound? || r.error.DatabaseError?
    {
      var failed := db.Flaky();
      if failed { return Err(DatabaseError); }
      if id !in db.rows { return Err(NotFound); }
      r := Ok(db.rows[id].personal);
    }

    method GetCustomerShippingInfo(id: uint64) returns (r: Result<ShippingInfo, RepoError>)
      modifies db`faults
      ensures db.faults >= old(db.faults)
      ensures r == Err(DatabaseError) <==> db.faults > old(db.faults)
      ensures r.Ok? ==> Answer(db.rows, ShippingKey(id)) == Some(Shipping(r.value))
      ensures r == Err(NotFound) ==> Answer(db.rows, ShippingKey(id)) == None
      ensures r.Err? ==> r.error.NotFound? || r.error.DatabaseError?
    {
      var failed := db.Flaky();
      if failed { return Err(DatabaseError); }
      if id !in db.rows { return Err(NotFound); }
      r := Ok(db.rows[id].shipping);
    }

    /** Either update; a unique key met by an update is reported as the driver's own error. */
    method UpdateCustomer(id: uint64, change: Change) returns (err: Option<RepoError>)
      requires Sound(db.View())
      modifies db
      ensures Sound(db.View()) && Preserved(old(db.rows), db.rows)
      ensures db.emails == old(db.emails) + EmailPairs(db.rows)
      ensures db.faults >= old(db.faults)
      ensures err.None? ==>
                Allowed(old(db.rows), Update(id, change)) && db.rows == Apply(old(db.rows), Update(id, change))
      ensures db.rows == old(db.rows) ||
              (Allowed(old(db.rows), Update(id, change)) && db.rows == Apply(old(db.rows), Update(id, change)))
      ensures db.faults == old(db.faults) ==>
                && (err.None? <==> Allowed(old(db.rows), Update(id, change)))
                && (err.None? <==> Unique(Apply(old(db.rows), Update(id, change))))
      ensures err.None? || err == Some(DatabaseError)
    {
      AllowedExactly(db.rows, Update(id, change));
      err := db.Execute(Update(id, change));
      if err.Some? { err := Some(DatabaseError); }
    }
  }

  class JWTAuthRepository {
    const db: Database
    const matches: (string, string) -> bool

    constructor (db: Database, matches: (string, string) -> bool)
      ensures this.db == db && this.matches == matches
    {
      this.db, this.matches := db, matches;
    }

    /** exist and active; a customer who is not there is an answer, not an error. */
    method CheckCustomer(id: uint64) returns (r: Result<(bool, bool), RepoError>)
      modifies db`faults
      ensures db.faults >= old(db.faults)
      ensures r.Err? <==> db.faults > old(db.faults)
      ensures r.Err? ==> r.error == DatabaseError
      ensures r.Ok? ==> Answer(db.rows, CheckKey(id)) == Some(Check(r.value.0, r.value.1))
    {
      var failed := db.Flaky();
      if failed { return Err(DatabaseError); }
      if id !in db.rows { return Ok((false, false)); }
      r := Ok((true, db.rows[id].active));
    }

    /** bcrypt: some hash that matches the password, or an error, which is counted like any failed call. */
    method HashPassword(password: string) returns (r: Result<string, RepoError>)
      modifies db`faults
      ensures db.faults >= old(db.faults)
      ensures r.Ok? ==> matches(password, r.value)
      ensures r.Err? ==> r.error == DatabaseError && db.faults > old(db.faults)
    {
      var hash: string := *;
      if !matches(password, hash) {
        db.faults := db.faults + 1;
        return Err(DatabaseError);
      }
      r := Ok(hash);
    }

    method CreateCustomer(customer: Customer) returns (err: Option<RepoError>)
      requires Sound(db.View())
      modifies db
      ensures Sound(db.View()) && Preserved(old(db.rows), db.rows)
      ensures db.emails == old(db.emails) + EmailPairs(db.rows)
      ensures db.faults >= old(db.faults)
      ensures db.rows == old(db.rows) || Created(old(db.rows), db.rows, customer, matches)
      ensures err.None? ==> Created(old(db.rows), db.rows, customer, matches)
      ensures err == Some(DuplicateEntry) ==> !Admissible(old(db.rows), customer)
      ensures db.faults == old(db.faults) ==>
                if Admissible(old(db.rows), customer) then err.None? else err == Some(DuplicateEntry)
      ensures db.faults == old(db.faults) ==>
                (err.None? <==>
                  customer.id !in old(db.rows) && Unique(old(db.rows)[customer.id := NewRow(customer, "")]))
    {
      AllowedExactly(db.rows, Insert(customer.id, NewRow(customer, "")));
      var hashed := HashPassword(customer.password);
      if hashed.Err? { return Some(hashed.error); }
      err := db.Execute(Insert(customer.id, NewRow(customer, hashed.value)));
      assert db.rows == old(db.rows) || Created(old(db.rows), db.rows, customer, matches);
    }

    method GetCustomerCredentials(email: string) returns (r: Result<Option<Credentials>, RepoError>)
      requires Sound(db.View())
      modifies db`faults
      ensures db.faults >= old(db.faults)
      ensures r.Err? <==> db.faults > old(db.faults)
      ensures r.Err? ==> r.error == DatabaseError
      ensures r.Ok? ==> Answer(db.rows, CredKey(email)) == Some(CredentialsValue(r.value))
    {
      var failed := db.Flaky();
      if failed { return Err(DatabaseError); }
      if id :| id in db.rows && db.rows[id].personal.email == email {
        r := Ok(Some(Credentials(id, db.rows[id].active, db.rows[id].hash)));
      } else {
        r := Ok(None);
      }
    }
  }

  function NewRow(c: Customer, hash: string): Row
  {
    Row(if c.active then true else DEFAULT_ACTIVE, c.personal, c.shipping, hash)
  }

  /** Neither the id, the email nor the phone number is taken. */
  ghost predicate Admissible(t: Table, c: Customer)
  {
    Allowed(t, Insert(c.id, NewRow(c, "")))
  }

  /** The table gained exactly this customer, active, with a hash of the given password. */
  ghost predicate Created(before: Table, after: Table, c: Customer, matches: (string, string) -> bool)
  {
    exists hash :: matches(c.password, hash) && Allowed(before, Insert(c.id, NewRow(c, hash))) &&
                   after == Apply(before, Insert(c.id, NewRow(c, hash)))
  }

  /** RedisCustomerCredentials, with zero values when nothing was found. */
  function CredentialsValue(c: Option<Credentials>): Value
  {
    if c.Some? then Cred(true, c.value.id, c.value.active, c.value.hash) else Cred(false, 0, false, "")
  }

  /** mapCredentials: what callers get back from a stored value. */
  function MapCredentials(v: Value): Credentials
    requires v.Cred?
  {
    Credentials(v.id, v.active, v.hash)
  }
}
