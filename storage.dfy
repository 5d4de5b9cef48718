/** An in-memory stand-in for the parts of the framework's ORM that the
    username field relies on: rows of the owning models, the user table,
    and the one kind of statement the field issues, a bulk
    `filter(...).update(...)`. Queries run against these maps instead of a
    database. */
module Storage {

  datatype Option<+T> = None | Some(value: T)

  type Pk = int
  type ModelName = string

  /** One stored row: its character columns by name, and its foreign keys by
      relation name (`None` is a null key). */
  datatype Row = Row(text: map<string, string>, refs: map<string, Option<Pk>>)

  /** A model's table, by primary key. */
  type Table = map<Pk, Row>

  /** Every owning model's table, and the user table as id to username. */
  datatype Store = Store(tables: map<ModelName, Table>, users: map<Pk, string>)

  /** The value of column `k`, or `None` when the row has no such column. */
  function Lookup(m: map<string, string>, k: string): Option<string>
  {
    if k in m then Some(m[k]) else None
  }

  /** The row's foreign key `source` holds `userId`: the filter `source=userId`. */
  predicate RefersTo(row: Row, source: string, userId: Pk)
  {
    source in row.refs && row.refs[source] == Some(userId)
  }

  /** The table `t` after `filter(source=userId).update(target=value)`. */
  function UpdateWhere(t: Table, source: string, userId: Pk, target: string, value: string): (r: Table)
    ensures r.Keys == t.Keys
    ensures forall pk :: pk in t ==> r[pk].refs == t[pk].refs
    ensures forall pk, f :: pk in t ==>
      Lookup(r[pk].text, f) == if f == target && RefersTo(t[pk], source, userId) then Some(value) else Lookup(t[pk].text, f)
  {
    map pk | pk in t :: if RefersTo(t[pk], source, userId) then t[pk].(text := t[pk].text[target := value]) else t[pk]
  }

  /** The bulk statements the field issues. */
  datatype Update =
    | UpdateRows(model: ModelName, source: string, userId: Pk, target: string, value: string)
    | UpdateUser(userId: Pk, username: string)

  /** The store after one statement. A statement against a table the store
      does not hold, or a user id it does not hold, matches no row. */
  function Apply(s: Store, u: Update): Store
  {
    match u
    case UpdateRows(model, source, userId, target, value) =>
      if model in s.tables then s.(tables := s.tables[model := UpdateWhere(s.tables[model], source, userId, target, value)])
      else s
    case UpdateUser(userId, username) =>
      if userId in s.users then s.(users := s.users[userId := username]) else s
  }

  /** The store after the statements `us`, executed in order. */
  function ApplyAll(s: Store, us: seq<Update>): Store
    decreases |us|
  {
    if us == [] then s else Apply(ApplyAll(s, us[..|us| - 1]), us[|us| - 1])
  }

  lemma ApplyAllSnoc(s: Store, us: seq<Update>, u: Update)
    ensures ApplyAll(s, us + [u]) == Apply(ApplyAll(s, us), u)
  {
    assert (us + [u])[..|us|] == us;
  }

  /** The database: its tables, changed in place by each statement, and the
      statements issued so far, in order. */
  class Database {
    var tables: map<ModelName, Table>
    var users: map<Pk, string>
    ghost var issued: seq<Update>

    function State(): Store
      reads this
    {
      Store(tables, users)
    }

    constructor (s: Store)
      ensures State() == s && issued == []
    {
      tables, users, issued := s.tables, s.users, [];
    }

    /** Runs one bulk statement. */
    method Execute(u: Update)
      modifies this
      ensures State() == Apply(old(State()), u)
      ensures issued == old(issued) + [u]
    {
      match u {
        case UpdateRows(model, source, userId, target, value) =>
          if model in tables {
            tables := tables[model := UpdateWhere(tables[model], source, userId, target, value)];
          }
        case UpdateUser(userId, username) =>
          if userId in users {
            users := users[userId := username];
          }
      }
      issued := issued + [u];
    }
  }
}
