/** `UsernameField`: a character field that keeps a copy of the related
    user's username on the owning record, filled on first save and truncated
    (never rejected) to the field's `max_length`; a registry of every
    concrete model that declares one; and the two maintenance operations
    driven by that registry, `rename_username` and `lint`. */
module UsernameField {
  import opened Storage

  const DefaultPopulateFrom: string := "user"
  const DefaultMaxLength: int := 30
  /** `lint` checks only entries whose `max_length` is at least this. */
  const LintMinLength: int := 30

  /** Python's `s[:n]`: the first `n` characters, or all but the last `-n`
      when `n` is negative. */
  function Truncate(s: string, n: int): (r: string)
    ensures r <= s
    ensures n >= 0 ==> |r| == if n < |s| then n else |s|
    ensures n < 0 ==> |r| == if |s| + n > 0 then |s| + n else 0
  {
    if n >= |s| then s
    else if n >= 0 then s[..n]
    else if |s| + n > 0 then s[..|s| + n]
    else ""
  }

  /** A non-negative bound leaves a string that fits untouched and cuts one
      that does not. */
  lemma TruncateFits(s: string, n: int)
    requires n >= 0
    ensures Truncate(s, n) == s <==> |s| <= n
  {
  }

  // ----- The field's configuration -----

  /** The options a field is declared with (`self.populate_from`,
      `self.max_length`). */
  datatype Field = Field(populateFrom: string, maxLength: int)

  /** `UsernameField(populate_from=..., max_length=...)`, `None` standing
      for an option the declaration leaves out. */
  function Init(populateFrom: Option<string>, maxLength: Option<int>): (f: Field)
    ensures populateFrom.None? ==> f.populateFrom == DefaultPopulateFrom
    ensures populateFrom.Some? ==> f.populateFrom == populateFrom.value
    ensures maxLength.None? ==> f.maxLength == DefaultMaxLength
    ensures maxLength.Some? ==> f.maxLength == maxLength.value
  {
    Field(
      match populateFrom case Some(p) => p case None => DefaultPopulateFrom,
      match maxLength case Some(n) => n case None => DefaultMaxLength)
  }

  // ----- Save-time population -----

  /** What reading the relation off a record yields: the related user's
      username, no related object, or a key naming a user that does not
      exist (`ObjectDoesNotExist`). */
  datatype Relation = Present(username: string) | Null | Dangling

  /** Follows the foreign key `fk` into the user table. */
  function Resolve(fk: Option<Pk>, users: map<Pk, string>): (r: Relation)
    ensures r.Null? <==> fk.None?
    ensures r.Dangling? <==> fk.Some? && fk.value !in users
    ensures r.Present? ==> fk.Some? && fk.value in users && r.username == users[fk.value]
  {
    match fk
    case None => Null
    case Some(id) => if id in users then Present(users[id]) else Dangling
  }

  /** The field's value after `pre_save`, from its value before and what the
      relation resolves to. */
  function Populate(current: string, rel: Relation, maxLength: int): (v: string)
    ensures v == current || (current == "" && (v == "" || (rel.Present? && v <= rel.username)))
    ensures current == "" && maxLength >= 0 ==> |v| <= maxLength
  {
    if current != "" then current
    else match rel
      case Present(username) => Truncate(username, maxLength)
      case Null => ""
      case Dangling => current
  }

  /** A non-empty value is never overwritten, whatever the relation says. */
  lemma PopulateKeepsValue(current: string, rel: Relation, maxLength: int)
    requires current != ""
    ensures Populate(current, rel, maxLength) == current
  {
  }

  /** An empty value with a related user becomes a prefix of its username of
      length `min(|username|, maxLength)`. */
  lemma PopulateFromUser(username: string, maxLength: int)
    requires maxLength >= 0
    ensures var v := Populate("", Present(username), maxLength);
      v <= username && |v| == (if maxLength < |username| then maxLength else |username|)
  {
  }

  /** An empty value stays empty when the relation is null or dangling. */
  lemma PopulateWithoutUser(rel: Relation, maxLength: int)
    requires !rel.Present?
    ensures Populate("", rel, maxLength) == ""
  {
  }

  /** Saving twice is saving once: against the same relation always, and
      against any relation once the first save left a value. */
  lemma PopulateIdempotent(current: string, rel: Relation, rel': Relation, maxLength: int)
    ensures Populate(Populate(current, rel, maxLength), rel, maxLength) == Populate(current, rel, maxLength)
    ensures Populate(current, rel, maxLength) != "" ==>
      Populate(Populate(current, rel, maxLength), rel', maxLength) == Populate(current, rel, maxLength)
  {
  }

  /** An in-memory record of a model that declares the field: its character
      attributes and its foreign keys. */
  class Instance {
    var text: map<string, string>
    var refs: map<string, Option<Pk>>

    constructor (text: map<string, string>, refs: map<string, Option<Pk>>)
      ensures this.text == text && this.refs == refs
    {
      this.text, this.refs := text, refs;
    }

    /** `pre_save(obj, add)` for `field` attached under attribute `name`,
        with the relation read against `users`. Only an empty value is
        filled; a dangling key is swallowed. Returns the attribute's value
        after the call. `add` is not consulted. */
    method PreSave(field: Field, name: string, users: map<Pk, string>, add: bool) returns (value: string)
      requires name in text
      requires text[name] == "" ==> field.populateFrom in refs
      modifies this
      ensures refs == old(refs)
      ensures text == old(text)[name := value]
      ensures value == text[name]
      ensures old(text)[name] != "" ==> text == old(text)
      ensures old(text)[name] == "" ==>
        value == Populate("", Resolve(refs[field.populateFrom], users), field.maxLength)
    {
      if text[name] == "" {
        var user := Resolve(refs[field.populateFrom], users);
        match user {
          case Null =>
            text := text[name := ""];
          case Present(username) =>
            text := text[name := Truncate(username, field.maxLength)];
          case Dangling =>
        }
      }
      value := text[name];
    }
  }

  // ----- The registry -----

  /** A model class being built: its name and whether it is abstract. */
  datatype ModelClass = ModelClass(name: ModelName, isAbstract: bool)

  /** `(model, source, target, max_length)`. */
  datatype Entry = Entry(model: ModelName, source: string, target: string, maxLength: int)

  /** No two entries write the same column of the same model: what the
      registry holds when each model class is built once. */
  ghost predicate Unique(entries: seq<Entry>)
  {
    forall i, j :: 0 <= i < j < |entries| ==>
      entries[i].model != entries[j].model || entries[i].target != entries[j].target
  }

  /** `UsernameField.instances`, the list shared by every field. It only
      grows. */
  class Registry {
    var instances: seq<Entry>

    constructor ()
      ensures instances == []
    {
      instances := [];
    }

    /** `contribute_to_class(cls, name)`: registers `field` attached to
        `cls` as `name`, unless `cls` is abstract. */
    method ContributeToClass(field: Field, cls: ModelClass, name: string)
      modifies this
      ensures cls.isAbstract ==> instances == old(instances)
      ensures !cls.isAbstract ==>
        instances == old(instances) + [Entry(cls.name, field.populateFrom, name, field.maxLength)]
      ensures old(instances) <= instances
    {
      if !cls.isAbstract {
        instances := instances + [Entry(cls.name, field.populateFrom, name, field.maxLength)];
      }
    }
  }

  /** Registering a model class whose column is not yet registered keeps
      the registry free of duplicates. */
  lemma RegisterKeepsUnique(entries: seq<Entry>, e: Entry)
    requires Unique(entries)
    requires forall i :: 0 <= i < |entries| ==> entries[i].model != e.model || entries[i].target != e.target
    ensures Unique(entries + [e])
  {
  }

  // ----- rename_username -----

  /** The bulk update issued for one registry entry. */
  function EntryUpdate(e: Entry, userId: Pk, username: string): (u: Update)
    ensures u.UpdateRows? && u.model == e.model && u.source == e.source && u.target == e.target && u.userId == userId
    ensures u.value <= username
    ensures e.maxLength >= 0 ==> |u.value| <= e.maxLength
  {
    UpdateRows(e.model, e.source, userId, e.target, Truncate(username, e.maxLength))
  }

  /** One bulk update per entry, in registry order. */
  function EntryUpdates(entries: seq<Entry>, userId: Pk, username: string): (r: seq<Update>)
    ensures |r| == |entries|
    ensures forall i :: 0 <= i < |entries| ==> r[i] == EntryUpdate(entries[i], userId, username)
    decreases |entries|
  {
    if entries == [] then []
    else EntryUpdates(entries[..|entries| - 1], userId, username) + [EntryUpdate(entries[|entries| - 1], userId, username)]
  }

  /** One more entry adds its bulk update at the end of the plan, and to
      the store it leaves. */
  lemma EntryUpdatesStep(s: Store, entries: seq<Entry>, i: nat, userId: Pk, username: string)
    requires i < |entries|
    ensures EntryUpdates(entries[..i + 1], userId, username) ==
      EntryUpdates(entries[..i], userId, username) + [EntryUpdate(entries[i], userId, username)]
    ensures ApplyAll(s, EntryUpdates(entries[..i + 1], userId, username)) ==
      Apply(ApplyAll(s, EntryUpdates(entries[..i], userId, username)), EntryUpdate(entries[i], userId, username))
  {
    assert entries[..i + 1][..i] == entries[..i];
    ApplyAllSnoc(s, EntryUpdates(entries[..i], userId, username), EntryUpdate(entries[i], userId, username));
  }

  /** The statements `rename_username(userId, username)` issues: the
      registry's entries in order, then the user row with the full name. */
  function RenamePlan(entries: seq<Entry>, userId: Pk, username: string): (r: seq<Update>)
    ensures |r| == |entries| + 1
    ensures forall i :: 0 <= i < |entries| ==>
      r[i] == UpdateRows(entries[i].model, entries[i].source, userId, entries[i].target, Truncate(username, entries[i].maxLength))
    ensures r[|entries|] == UpdateUser(userId, username)
  {
    EntryUpdates(entries, userId, username) + [UpdateUser(userId, username)]
  }

  /** The loop of `rename_username`: one bulk update per entry, in order. */
  method UpdateEntries(entries: seq<Entry>, db: Database, userId: Pk, username: string)
    modifies db
    ensures db.issued == old(db.issued) + EntryUpdates(entries, userId, username)
    ensures db.State() == ApplyAll(old(db.State()), EntryUpdates(entries, userId, username))
  {
    ghost var s0, log0 := db.State(), db.issued;
    var i := 0;
    while i < |entries|
      invariant 0 <= i <= |entries|
      invariant db.issued == log0 + EntryUpdates(entries[..i], userId, username)
      invariant db.State() == ApplyAll(s0, EntryUpdates(entries[..i], userId, username))
    {
      EntryUpdatesStep(s0, entries, i, userId, username);
      db.Execute(EntryUpdate(entries[i], userId, username));
      i := i + 1;
    }
    assert entries[..i] == entries;
  }

  /** `rename_username(user_id, username)` over the registry and the
      database: every entry's copies first, the user row last. */
  method RenameUsername(registry: Registry, db: Database, userId: Pk, username: string)
    modifies db
    ensures db.issued == old(db.issued) + RenamePlan(registry.instances, userId, username)
    ensures db.State() == ApplyAll(old(db.State()), RenamePlan(registry.instances, userId, username))
  {
    UpdateEntries(registry.instances, db, userId, username);
    ApplyAllSnoc(old(db.State()), EntryUpdates(registry.instances, userId, username), UpdateUser(userId, username));
    db.Execute(UpdateUser(userId, username));
  }

  /** Entry `e` writes column `field` of `row`, a row of `model`, when
      `userId` is renamed. */
  predicate Writes(e: Entry, model: ModelName, row: Row, userId: Pk, field: string)
  {
    e.model == model && e.target == field && RefersTo(row, e.source, userId)
  }

  /** The last entry that writes column `field` of `row`: the one whose
      value the column ends with. */
  function LastWriter(entries: seq<Entry>, model: ModelName, row: Row, userId: Pk, field: string): (r: Option<nat>)
    ensures r.Some? ==> r.value < |entries| && Writes(entries[r.value], model, row, userId, field)
    ensures r.Some? ==> forall j :: r.value < j < |entries| ==> !Writes(entries[j], model, row, userId, field)
    ensures r.None? ==> forall j :: 0 <= j < |entries| ==> !Writes(entries[j], model, row, userId, field)
    decreases |entries|
  {
    if entries == [] then None
    else if Writes(entries[|entries| - 1], model, row, userId, field) then Some(|entries| - 1)
    else LastWriter(entries[..|entries| - 1], model, row, userId, field)
  }

  /** The per-entry updates change no table's set of rows, no foreign key,
      and not the user table. */
  lemma {:induction false} EntryUpdatesFrame(s: Store, entries: seq<Entry>, userId: Pk, username: string)
    ensures var r := ApplyAll(s, EntryUpdates(entries, userId, username));
      r.users == s.users && r.tables.Keys == s.tables.Keys &&
      forall m :: m in s.tables ==> r.tables[m].Keys == s.tables[m].Keys
    decreases |entries|
  {
    if entries != [] {
      var front := entries[..|entries| - 1];
      EntryUpdatesFrame(s, front, userId, username);
      ApplyAllSnoc(s, EntryUpdates(front, userId, username), EntryUpdate(entries[|entries| - 1], userId, username));
    }
  }

  /** After the per-entry updates, column `field` of row `pk` of `model`
      holds the truncation of its last writer, or its old value. */
  lemma {:induction false} EntryUpdatesAt(s: Store, entries: seq<Entry>, userId: Pk, username: string,
                                          model: ModelName, pk: Pk, field: string)
    requires model in s.tables && pk in s.tables[model]
    ensures var r := ApplyAll(s, EntryUpdates(entries, userId, username));
      model in r.tables && pk in r.tables[model] &&
      r.tables[model][pk].refs == s.tables[model][pk].refs &&
      Lookup(r.tables[model][pk].text, field) ==
        match LastWriter(entries, model, s.tables[model][pk], userId, field)
        case Some(i) => Some(Truncate(username, entries[i].maxLength))
        case None => Lookup(s.tables[model][pk].text, field)
    decreases |entries|
  {
    if entries != [] {
      var front := entries[..|entries| - 1];
      var e := entries[|entries| - 1];
      var row := s.tables[model][pk];
      EntryUpdatesAt(s, front, userId, username, model, pk, field);
      var mid := ApplyAll(s, EntryUpdates(front, userId, username));
      ApplyAllSnoc(s, EntryUpdates(front, userId, username), EntryUpdate(e, userId, username));
      EntryUpdateAt(mid, e, userId, username, model, pk, field);
      assert Writes(e, model, mid.tables[model][pk], userId, field) == Writes(e, model, row, userId, field);
      if !Writes(e, model, row, userId, field) {
        assert LastWriter(entries, model, row, userId, field) == LastWriter(front, model, row, userId, field);
        forall i | 0 <= i < |front| ensures front[i] == entries[i] { }
      }
    }
  }

  /** One entry's bulk update on one row: the entry's column gets the
      truncated name if the row names the user; nothing else changes. */
  lemma EntryUpdateAt(s: Store, e: Entry, userId: Pk, username: string, model: ModelName, pk: Pk, field: string)
    requires model in s.tables && pk in s.tables[model]
    ensures var r := Apply(s, EntryUpdate(e, userId, username));
      model in r.tables && pk in r.tables[model] &&
      r.tables[model][pk].refs == s.tables[model][pk].refs &&
      Lookup(r.tables[model][pk].text, field) ==
        if Writes(e, model, s.tables[model][pk], userId, field) then Some(Truncate(username, e.maxLength))
        else Lookup(s.tables[model][pk].text, field)
  {
  }

  /** `rename_username` leaves the set of tables, each table's rows and
      every foreign key as they were, and gives the user row, if there is
      one, the full new name. */
  lemma RenameUsernameFrame(s: Store, entries: seq<Entry>, userId: Pk, username: string)
    ensures var r := ApplyAll(s, RenamePlan(entries, userId, username));
      r.users == (if userId in s.users then s.users[userId := username] else s.users) &&
      r.tables.Keys == s.tables.Keys &&
      (forall m :: m in s.tables ==> r.tables[m].Keys == s.tables[m].Keys) &&
      (forall m, pk :: m in s.tables && pk in s.tables[m] ==> r.tables[m][pk].refs == s.tables[m][pk].refs)
  {
    var ups := EntryUpdates(entries, userId, username);
    ApplyAllSnoc(s, ups, UpdateUser(userId, username));
    EntryUpdatesFrame(s, entries, userId, username);
    forall m, pk | m in s.tables && pk in s.tables[m]
      ensures ApplyAll(s, ups).tables[m][pk].refs == s.tables[m][pk].refs
    {
      EntryUpdatesAt(s, entries, userId, username, m, pk, "");
    }
  }

  /** After `rename_username`, a column holds the new name truncated by the
      last entry that writes it, and any column no entry writes is as it
      was. */
  lemma RenameUsernameAt(s: Store, entries: seq<Entry>, userId: Pk, username: string,
                         model: ModelName, pk: Pk, field: string)
    requires model in s.tables && pk in s.tables[model]
    ensures var r := ApplyAll(s, RenamePlan(entries, userId, username));
      model in r.tables && pk in r.tables[model] &&
      Lookup(r.tables[model][pk].text, field) ==
        match LastWriter(entries, model, s.tables[model][pk], userId, field)
        case Some(i) => Some(Truncate(username, entries[i].maxLength))
        case None => Lookup(s.tables[model][pk].text, field)
  {
    ApplyAllSnoc(s, EntryUpdates(entries, userId, username), UpdateUser(userId, username));
    EntryUpdatesAt(s, entries, userId, username, model, pk, field);
  }

  /** With a duplicate-free registry, every row whose key names the user
      ends with that entry's truncation of the new name, in every entry's
      column. */
  lemma RenameUsernameEntry(s: Store, entries: seq<Entry>, userId: Pk, username: string, i: nat, pk: Pk)
    requires Unique(entries) && i < |entries|
    requires entries[i].model in s.tables && pk in s.tables[entries[i].model]
    requires RefersTo(s.tables[entries[i].model][pk], entries[i].source, userId)
    ensures var r := ApplyAll(s, RenamePlan(entries, userId, username));
      entries[i].model in r.tables && pk in r.tables[entries[i].model] &&
      Lookup(r.tables[entries[i].model][pk].text, entries[i].target) == Some(Truncate(username, entries[i].maxLength))
  {
    var e := entries[i];
    RenameUsernameAt(s, entries, userId, username, e.model, pk, e.target);
    assert Writes(e, e.model, s.tables[e.model][pk], userId, e.target);
  }

  // ----- lint -----

  /** What `lint` reports for one entry: skipped because the column may
      hold a truncated name, nothing wrong, or the rows whose copy is stale. */
  datatype Report = NotChecked | Consistent | Inconsistent(pks: set<Pk>)

  /** The rows a report names. */
  function Flagged(r: Report): set<Pk>
  {
    if r.Inconsistent? then r.pks else {}
  }

  /** A model's table, an absent one being empty. */
  function TableOf(s: Store, model: ModelName): Table
  {
    if model in s.tables then s.tables[model] else map[]
  }

  /** The username of the user the row's key `source` names, if that user
      exists. */
  function RelatedUsername(row: Row, source: string, users: map<Pk, string>): Option<string>
  {
    if source in row.refs && row.refs[source].Some? && row.refs[source].value in users
    then Some(users[row.refs[source].value])
    else None
  }

  /** The row's copy in column `e.target` differs from its related user's
      current username. */
  predicate Stale(row: Row, e: Entry, users: map<Pk, string>): (b: bool)
    ensures b <==> exists id :: RefersTo(row, e.source, id) && id in users && Lookup(row.text, e.target) != Some(users[id])
  {
    if e.source in row.refs && row.refs[e.source].Some? && row.refs[e.source].value in users then
      var id := row.refs[e.source].value;
      assert RefersTo(row, e.source, id);
      Lookup(row.text, e.target) != Some(users[id])
    else false
  }

  /** `lint`'s verdict on one entry. */
  function CheckEntry(e: Entry, s: Store): (r: Report)
    ensures r.NotChecked? <==> e.maxLength < LintMinLength
    ensures r.Inconsistent? ==> r.pks != {}
    ensures forall pk :: pk in Flagged(r) <==>
      e.maxLength >= LintMinLength && pk in TableOf(s, e.model) && Stale(TableOf(s, e.model)[pk], e, s.users)
  {
    if e.maxLength < LintMinLength then NotChecked
    else
      var t := TableOf(s, e.model);
      var stale := set pk | pk in t && Stale(t[pk], e, s.users);
      if stale == {} then Consistent else Inconsistent(stale)
  }

  /** `lint()`: one verdict per registry entry, in registry order. */
  function Lint(entries: seq<Entry>, s: Store): (r: seq<Report>)
    ensures |r| == |entries|
    ensures forall i :: 0 <= i < |entries| ==> r[i] == CheckEntry(entries[i], s)
    decreases |entries|
  {
    if entries == [] then [] else [CheckEntry(entries[0], s)] + Lint(entries[1..], s)
  }

  /** A copy filled by `pre_save` from an empty value is `Stale` exactly
      when its user exists and a non-negative `max_length` cut the name. */
  lemma SavedCopyStale(row: Row, e: Entry, users: map<Pk, string>)
    requires e.maxLength >= 0 && e.source in row.refs
    requires Lookup(row.text, e.target) == Some(Populate("", Resolve(row.refs[e.source], users), e.maxLength))
    ensures Stale(row, e, users) <==>
      RelatedUsername(row, e.source, users).Some? && |RelatedUsername(row, e.source, users).value| > e.maxLength
  {
    var rel := Resolve(row.refs[e.source], users);
    if rel.Present? {
      TruncateFits(rel.username, e.maxLength);
    }
  }

  /** In an entry `lint` checks, a copy filled by `pre_save` from an empty
      value is flagged exactly when its user exists and `max_length` cut the
      name. */
  lemma SavedCopyFlagged(s: Store, e: Entry, pk: Pk)
    requires e.maxLength >= LintMinLength
    requires e.model in s.tables && pk in s.tables[e.model]
    requires e.source in s.tables[e.model][pk].refs
    requires var row := s.tables[e.model][pk];
      Lookup(row.text, e.target) == Some(Populate("", Resolve(row.refs[e.source], s.users), e.maxLength))
    ensures var row := s.tables[e.model][pk];
      pk in Flagged(CheckEntry(e, s)) <==>
        RelatedUsername(row, e.source, s.users).Some? && |RelatedUsername(row, e.source, s.users).value| > e.maxLength
  {
    SavedCopyStale(s.tables[e.model][pk], e, s.users);
  }

  /** Once a user is renamed, `lint` flags a row that names the user in a
      checked entry exactly when the entry's `max_length` cut the new name. */
  lemma RenameThenLint(s: Store, entries: seq<Entry>, userId: Pk, username: string, i: nat, pk: Pk)
    requires Unique(entries) && i < |entries|
    requires userId in s.users
    requires entries[i].maxLength >= LintMinLength
    requires entries[i].model in s.tables && pk in s.tables[entries[i].model]
    requires RefersTo(s.tables[entries[i].model][pk], entries[i].source, userId)
    ensures var r := ApplyAll(s, RenamePlan(entries, userId, username));
      pk in Flagged(Lint(entries, r)[i]) <==> |username| > entries[i].maxLength
  {
    var e := entries[i];
    var r := ApplyAll(s, RenamePlan(entries, userId, username));
    RenameUsernameFrame(s, entries, userId, username);
    RenameUsernameEntry(s, entries, userId, username, i, pk);
    TruncateFits(username, e.maxLength);
    var row := r.tables[e.model][pk];
    assert RelatedUsername(row, e.source, r.users) == Some(username);
  }
}
