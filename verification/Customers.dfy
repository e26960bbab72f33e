/** The customer table as a value: rows, uniqueness, merge updates, and what a history of them leaves behind. */
module Customers {
  import opened Base
  import opened Keys

  datatype PersonalInfo = PersonalInfo(firstName: string, lastName: string, email: string)

  datatype ShippingInfo = ShippingInfo(address: string, phoneNumber: string)

  datatype Row = Row(active: bool, personal: PersonalInfo, shipping: ShippingInfo, hash: string)

  type Table = map<uint64, Row>

  /** What the database may be asked for under a cache key, negative answers included. */
  datatype Value =
    | Personal(personal: PersonalInfo)
    | Shipping(shipping: ShippingInfo)
    | Check(exist: bool, active: bool)
    | Cred(exist: bool, id: uint64, active: bool, hash: string)

  datatype Change = PersonalChange(personal: PersonalInfo) | ShippingChange(shipping: ShippingInfo)

  /** One successful statement of either repository. */
  datatype Statement = Insert(id: uint64, row: Row) | Update(id: uint64, change: Change)

  ghost predicate HasEmail(t: Table, email: string)
  {
    exists id :: id in t && t[id].personal.email == email
  }

  /** Primary key, unique email, unique phone number. */
  ghost predicate Unique(t: Table)
  {
    forall a, b :: a in t && b in t && a != b ==>
      t[a].personal.email != t[b].personal.email &&
      t[a].shipping.phoneNumber != t[b].shipping.phoneNumber
  }

  /**
    The database's answer for a key. An account query finds nothing for a missing customer; an
    authentication query always answers, negatively when nothing matches.
   */
  ghost function Answer(t: Table, k: Key): Option<Value>
  {
    match k
    case PersonalKey(id) => if id in t then Some(Personal(t[id].personal)) else None
    case ShippingKey(id) => if id in t then Some(Shipping(t[id].shipping)) else None
    case CheckKey(id) => Some(if id in t then Check(true, t[id].active) else Check(false, false))
    case CredKey(email) =>
      if HasEmail(t, email) then
        var id :| id in t && t[id].personal.email == email;
        Some(Cred(true, id, t[id].active, t[id].hash))
      else
        Some(Cred(false, 0, false, ""))
  }

  /** Credentials are found exactly when someone has the email, and they are that one customer's. */
  lemma CredAnswer(t: Table, email: string, id: uint64)
    requires Unique(t)
    ensures Answer(t, CredKey(email)) == Some(Cred(false, 0, false, "")) <==> !HasEmail(t, email)
    ensures id in t && t[id].personal.email == email ==>
              Answer(t, CredKey(email)) == Some(Cred(true, id, t[id].active, t[id].hash))
  {
  }

  /** gorm's struct update leaves a column alone when the new value is the zero value. */
  function Keep(previous: string, value: string): string
  {
    if value == "" then previous else value
  }

  function Merge(row: Row, change: Change): Row
  {
    match change
    case PersonalChange(p) =>
      row.(personal := PersonalInfo(Keep(row.personal.firstName, p.firstName),
                                    Keep(row.personal.lastName, p.lastName),
                                    Keep(row.personal.email, p.email)))
    case ShippingChange(s) =>
      row.(shipping := ShippingInfo(Keep(row.shipping.address, s.address),
                                    Keep(row.shipping.phoneNumber, s.phoneNumber)))
  }

  /** An update of a missing id touches no row and is no error. */
  function Apply(t: Table, s: Statement): Table
  {
    match s
    case Insert(id, row) => t[id := row]
    case Update(id, change) => if id in t then t[id := Merge(t[id], change)] else t
  }

  /** The statement meets no unique key of another row. */
  predicate Allowed(t: Table, s: Statement)
  {
    match s
    case Insert(id, row) =>
      id !in t &&
      forall o :: o in t ==>
        t[o].personal.email != row.personal.email && t[o].shipping.phoneNumber != row.shipping.phoneNumber
    case Update(id, change) =>
      id in t ==>
        forall o :: o in t && o != id ==>
          t[o].personal.email != Merge(t[id], change).personal.email &&
          t[o].shipping.phoneNumber != Merge(t[id], change).shipping.phoneNumber
  }

  /** The key whose answer a change is about, and which the update invalidates. */
  function ChangedKey(id: uint64, change: Change): Key
  {
    if change.PersonalChange? then PersonalKey(id) else ShippingKey(id)
  }

  /** Every statement kept uniqueness, every customer stays, and no one's active flag or hash moves. */
  lemma ApplyKeeps(t: Table, s: Statement)
    requires Unique(t) && Allowed(t, s)
    ensures Unique(Apply(t, s))
    ensures Preserved(t, Apply(t, s))
  {
    if s.Insert? { InsertKeeps(t, s.id, s.row); } else { UpdateKeeps(t, s.id, s.change); }
  }

  lemma InsertKeeps(t: Table, id: uint64, row: Row)
    requires Unique(t) && Allowed(t, Insert(id, row))
    ensures Unique(t[id := row]) && Preserved(t, t[id := row])
  {
  }

  lemma UpdateKeeps(t: Table, id: uint64, change: Change)
    requires Unique(t) && Allowed(t, Update(id, change))
    ensures Unique(Apply(t, Update(id, change))) && Preserved(t, Apply(t, Update(id, change)))
  {
    if id in t {
      var row := Merge(t[id], change);
      assert Apply(t, Update(id, change)) == t[id := row] && row.active == t[id].active && row.hash == t[id].hash;
    }
  }

  /** And no statement is refused that would keep it: the database accepts exactly what breaks no unique key. */
  lemma AllowedExactly(t: Table, s: Statement)
    requires Unique(t)
    ensures s.Update? ==> (Allowed(t, s) <==> Unique(Apply(t, s)))
    ensures s.Insert? ==> (Allowed(t, s) <==> s.id !in t && Unique(Apply(t, s)))
  {
    var u := Apply(t, s);
    if s.Update? && s.id in t && Unique(u) {
      forall o | o in t && o != s.id
        ensures t[o].personal.email != u[s.id].personal.email
        ensures t[o].shipping.phoneNumber != u[s.id].shipping.phoneNumber
      {
        assert u[o] == t[o];
      }
    } else if s.Insert? && s.id !in t && Unique(u) {
      forall o | o in t
        ensures t[o].personal.email != s.row.personal.email && t[o].shipping.phoneNumber != s.row.shipping.phoneNumber
      {
        assert u[o] == t[o] && u[s.id] == s.row;
      }
    }
    if Allowed(t, s) { ApplyKeeps(t, s); }
  }

  ghost predicate Preserved(t: Table, u: Table)
  {
    forall id :: id in t ==> id in u && u[id].active == t[id].active && u[id].hash == t[id].hash
  }

  /** The customer exists now, with exactly this active flag. */
  ghost predicate CheckTrue(t: Table, id: uint64, active: bool)
  {
    id in t && t[id].active == active
  }

  ghost predicate CredTrue(t: Table, id: uint64, active: bool, hash: string)
  {
    CheckTrue(t, id, active) && t[id].hash == hash
  }

  /** The answer to an account query moves only by an update of that very kind and id. */
  lemma OnlyItsOwnUpdate(t: Table, s: Statement, k: Key)
    requires IsAccountKey(k)
    requires Allowed(t, s)
    requires Answer(t, k).Some? && Answer(Apply(t, s), k) != Answer(t, k)
    ensures s.Update? && ChangedKey(s.id, s.change) == k
  {
  }

  // ---- The table with a memory of emails

  /** The table now, and every pair of a customer and an email it ever held. */
  datatype Snapshot = Snapshot(table: Table, emails: set<(uint64, string)>)

  ghost function EmailPairs(t: Table): set<(uint64, string)>
  {
    set id | id in t :: (id, t[id].personal.email)
  }

  ghost predicate Sound(v: Snapshot)
  {
    Unique(v.table) && EmailPairs(v.table) <= v.emails
  }

  ghost function After(v: Snapshot, s: Statement): Snapshot
  {
    Snapshot(Apply(v.table, s), v.emails + EmailPairs(Apply(v.table, s)))
  }

  // ---- Reading through two caches

  /** What a read comes to: its result, None for "not found", and what it leaves in each cache. */
  datatype ReadEffect = ReadEffect(result: Option<Value>, toLocal: Option<Value>, toRedis: Option<Value>)

  /**
    An undisturbed read: a local entry is returned and nothing written; else a Redis entry is returned and
    copied to the local cache only; else the database's answer is returned and put in Redis only.
   */
  function ReadPlan(local: Option<Value>, redis: Option<Value>, answer: Option<Value>): ReadEffect
  {
    if local.Some? then ReadEffect(local, None, None)
    else if redis.Some? then ReadEffect(redis, redis, None)
    else ReadEffect(answer, None, answer)
  }

  /** What an update that goes through comes to: its statement, and the key it removes from Redis and announces. */
  datatype UpdateEffect = UpdateEffect(statement: Statement, removed: Key, announced: Key)

  function UpdatePlan(id: uint64, change: Change): UpdateEffect
  {
    UpdateEffect(Update(id, change), ChangedKey(id, change), ChangedKey(id, change))
  }

  // ---- Histories of statements

  function Replay(t: Table, h: seq<Statement>): Table
  {
    if h == [] then t else Apply(Replay(t, h[..|h| - 1]), h[|h| - 1])
  }

  ghost predicate AllAllowed(t: Table, h: seq<Statement>)
  {
    forall i :: 0 <= i < |h| ==> Allowed(Replay(t, h[..i]), h[i])
  }

  datatype Field = FirstName | LastName | Email | Address | PhoneNumber

  function Column(row: Row, f: Field): string
  {
    match f
    case FirstName => row.personal.firstName
    case LastName => row.personal.lastName
    case Email => row.personal.email
    case Address => row.shipping.address
    case PhoneNumber => row.shipping.phoneNumber
  }

  /** What a statement writes into a field of a customer; "" when it writes nothing there. */
  function Written(s: Statement, id: uint64, f: Field): string
  {
    if s.Insert? || s.id != id then ""
    else
      match (s.change, f)
      case (PersonalChange(p), FirstName) => p.firstName
      case (PersonalChange(p), LastName) => p.lastName
      case (PersonalChange(p), Email) => p.email
      case (ShippingChange(p), Address) => p.address
      case (ShippingChange(p), PhoneNumber) => p.phoneNumber
      case _ => ""
  }

  ghost predicate Untouched(h: seq<Statement>, from: nat, id: uint64, f: Field)
  {
    forall i :: from <= i < |h| ==> Written(h[i], id, f) == ""
  }

  /** w is the last non-empty value the history writes from this position on, or the initial one when it writes none. */
  ghost predicate LastWritten(w: string, initial: string, h: seq<Statement>, from: nat, id: uint64, f: Field)
  {
    || (w == initial && Untouched(h, from, id, f))
    || exists i :: from <= i < |h| && w == Written(h[i], id, f) != "" && Untouched(h, i + 1, id, f)
  }

  lemma LastWrittenSnoc(w: string, initial: string, h: seq<Statement>, s: Statement, from: nat, id: uint64, f: Field)
    requires LastWritten(w, initial, h, from, id, f) && Written(s, id, f) == ""
    ensures LastWritten(w, initial, h + [s], from, id, f)
  {
    var g := h + [s];
    if i :| from <= i < |h| && w == Written(h[i], id, f) != "" && Untouched(h, i + 1, id, f) {
      assert g[i] == h[i];
    }
  }

  /** The customer's row is this one from position p of the history on: there at the start, or inserted then. */
  ghost predicate Begins(t: Table, h: seq<Statement>, id: uint64, p: nat, row: Row)
  {
    || (p == 0 && id in t && row == t[id])
    || (0 < p <= |h| && h[p - 1] == Insert(id, row))
  }

  lemma AllAllowedPrefix(t: Table, h: seq<Statement>)
    requires AllAllowed(t, h) && h != []
    ensures AllAllowed(t, h[..|h| - 1]) && Allowed(Replay(t, h[..|h| - 1]), h[|h| - 1])
  {
    var g := h[..|h| - 1];
    forall i | 0 <= i < |g| ensures Allowed(Replay(t, g[..i]), g[i]) {
      assert g[..i] == h[..i];
    }
  }

  /** Id, email and phone number stay unique, and no customer, active flag or password hash is lost. */
  lemma {:induction false} HistoriesKeep(t: Table, h: seq<Statement>)
    requires Unique(t) && AllAllowed(t, h)
    ensures Unique(Replay(t, h)) && Preserved(t, Replay(t, h))
  {
    if h == [] {
    } else {
      AllAllowedPrefix(t, h);
      HistoriesKeep(t, h[..|h| - 1]);
      ApplyKeeps(Replay(t, h[..|h| - 1]), h[|h| - 1]);
    }
  }

  lemma OneStatement(t: Table, s: Statement, id: uint64, f: Field)
    requires Allowed(t, s) && id in t
    ensures id in Apply(t, s)
    ensures Column(Apply(t, s)[id], f) == if Written(s, id, f) == "" then Column(t[id], f) else Written(s, id, f)
  {
  }

  lemma FieldFolds(t: Table, g: seq<Statement>, s: Statement, id: uint64, f: Field, p: nat, row: Row)
    requires id in Replay(t, g) && Allowed(Replay(t, g), s) && Begins(t, g, id, p, row)
    requires LastWritten(Column(Replay(t, g)[id], f), Column(row, f), g, p, id, f)
    ensures id in Replay(t, g + [s])
    ensures LastWritten(Column(Replay(t, g + [s])[id], f), Column(row, f), g + [s], p, id, f)
  {
    var h := g + [s];
    assert h[..|h| - 1] == g;
    OneStatement(Replay(t, g), s, id, f);
    if Written(s, id, f) == "" {
      LastWrittenSnoc(Column(Replay(t, g)[id], f), Column(row, f), g, s, p, id, f);
    } else {
      assert Written(h[|g|], id, f) != "" && Untouched(h, |g| + 1, id, f);
    }
  }

  lemma BeginsBefore(t: Table, g: seq<Statement>, s: Statement, id: uint64)
    ensures (exists p: nat, row :: Begins(t, g, id, p, row)) ==> exists p: nat, row :: Begins(t, g + [s], id, p, row)
    ensures s.Insert? && s.id == id ==> Begins(t, g + [s], id, |g| + 1, s.row)
    ensures forall p: nat, row :: Begins(t, g + [s], id, p, row) ==>
              Begins(t, g, id, p, row) || (p == |g| + 1 && s == Insert(id, row))
  {
    if p: nat, row :| Begins(t, g, id, p, row) {
      assert Begins(t, g + [s], id, p, row);
    }
  }

  /** A customer is there after a history exactly when there at the start or inserted on the way. */
  lemma {:induction false} ThereExactly(t: Table, h: seq<Statement>, id: uint64)
    ensures id in Replay(t, h) <==> exists p: nat, row :: Begins(t, h, id, p, row)
  {
    if h == [] {
      assert id in t ==> Begins(t, h, id, 0, t[id]);
    } else {
      var g, s := h[..|h| - 1], h[|h| - 1];
      assert h == g + [s];
      ThereExactly(t, g, id);
      BeginsBefore(t, g, s, id);
    }
  }

  lemma {:induction false} FieldsFold(t: Table, h: seq<Statement>, id: uint64, f: Field, p: nat, row: Row)
    requires AllAllowed(t, h) && Begins(t, h, id, p, row)
    ensures id in Replay(t, h) && LastWritten(Column(Replay(t, h)[id], f), Column(row, f), h, p, id, f)
  {
    if h == [] {
    } else {
      var g, s := h[..|h| - 1], h[|h| - 1];
      assert h == g + [s];
      AllAllowedPrefix(t, h);
      BeginsBefore(t, g, s, id);
      if p <= |g| {
        FieldsFold(t, g, id, f, p, row);
        FieldFolds(t, g, s, id, f, p, row);
      }
    }
  }

  /**
    After any history of successful statements, a customer is there exactly when there at the start or
    inserted on the way; and every field then holds the last non-empty value written into it since, or the
    one it began with.
   */
  lemma HistoriesFold(t: Table, h: seq<Statement>, id: uint64, f: Field)
    requires AllAllowed(t, h)
    ensures id in Replay(t, h) <==> exists p: nat, row :: Begins(t, h, id, p, row)
    ensures forall p: nat, row :: Begins(t, h, id, p, row) ==>
              LastWritten(Column(Replay(t, h)[id], f), Column(row, f), h, p, id, f)
  {
    ThereExactly(t, h, id);
    forall p: nat, row | Begins(t, h, id, p, row)
      ensures LastWritten(Column(Replay(t, h)[id], f), Column(row, f), h, p, id, f)
    {
      FieldsFold(t, h, id, f, p, row);
    }
  }

  ghost predicate OnlyKind(h: seq<Statement>, personal: bool)
  {
    forall i :: 0 <= i < |h| ==> h[i].Update? && h[i].change.PersonalChange? == personal
  }

  /** Updates of one kind never change the other kind, for any customer. */
  lemma {:induction false} KindsAreIndependent(t: Table, h: seq<Statement>, id: uint64, personal: bool)
    requires OnlyKind(h, personal)
    ensures personal ==> Answer(Replay(t, h), ShippingKey(id)) == Answer(t, ShippingKey(id))
    ensures !personal ==> Answer(Replay(t, h), PersonalKey(id)) == Answer(t, PersonalKey(id))
  {
    if h == [] {
    } else {
      KindsAreIndependent(t, h[..|h| - 1], id, personal);
    }
  }
}
