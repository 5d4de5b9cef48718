# django-usernamefield, modelled in Dafny

`UsernameField` is a character field for the Django ORM. It keeps a denormalised copy of
`User.username` on another model's rows. The model covers its four behaviours:

- **Save-time population** (`pre_save`). The copy is filled only while it is empty. The related
  user's username is cut to `max_length`, never rejected. A null relation gives `''`. A foreign key
  naming a user that does not exist raises `ObjectDoesNotExist`, which is swallowed and leaves the
  value as it was.
- **The registry** (`instances`, `contribute_to_class`). This is one list shared by every field. A
  `(model, source, target, max_length)` entry is appended for each concrete model that declares a
  field. Abstract models are skipped.
- **`rename_username(user_id, username)`**. For each registry entry, in order, it bulk-updates the
  entry's column on every row whose foreign key names the user, writing the name cut to that
  entry's `max_length`. The user row is written last, with the full name.
- **`lint()`**. Entries with `max_length < 30` are skipped. For the others it reports the rows
  whose copy differs from the related user's current username.

Files:

- `storage.dfy`, module `Storage`: an in-memory stand-in for the ORM. A row has character columns
  (`text`) and foreign keys (`refs`, where `None` is a null key). A table maps primary keys to rows,
  and a `Store` holds every model's table plus the user table (id to username). There is one kind
  of statement (`Update`): a bulk `filter(...).update(...)` on a model, or on the user table.
  `Apply`/`ApplyAll` give the store after one statement or after a sequence of them. The
  `Database` class holds the tables as mutable maps, together with a ghost `issued` log of statements
  in the order they ran, so the order of writes is observable.
- `username_field.dfy`, module `UsernameField`: the field. It has the declaration defaults, Python's
  slice `s[:n]` (`Truncate`), relation resolution, `pre_save` as a method on a mutable record
  (`Instance`), the registry as a class over `seq<Entry>`, `rename_username` as a loop over the
  registry, `lint` as a read-only function, and the lemmas relating these.

Modelling choices:

- `max_length` is an unbounded `int` with Python slice semantics. A negative bound drops characters
  from the end (`Truncate`).
- `self.name` is set by the framework's own `contribute_to_class`. `PreSave` takes it as the
  parameter `name`.
- The relation named by `populate_from` is read as the record's foreign key and looked up in the
  user table (`Resolve`): a null key gives `Null`, a missing user gives `Dangling`, and otherwise
  the result is `Present(username)`.
- A statement against a table the store does not hold matches no row. So does a user id the user
  table does not hold.
- `lint`'s database-side comparison `exclude(source__username=F(target))` becomes the predicate
  `Stale`. A row is flagged exactly when its key names an existing user and its copy differs from
  that user's username. Rows whose key is null or dangling are never flagged.

## Model

| member | source | states |
|---|---|---|
| `UsernameField.Truncate` | django_usernamefield/__init__.py:47 | `s[:n]` is a prefix of `s`, of length `min(|s|, n)` for `n >= 0` and `max(|s| + n, 0)` for negative `n` |
| `UsernameField.TruncateFits` | django_usernamefield/__init__.py:24-26 | with a non-negative bound, truncation leaves the name unchanged exactly when it fits |
| `UsernameField.Init` | django_usernamefield/__init__.py:31-34 | `populate_from` defaults to `"user"` and `max_length` to 30; values that are given are kept |
| `UsernameField.Resolve` | django_usernamefield/__init__.py:41-49 | reading the relation yields `Null` exactly for a null key, `Dangling` exactly for a key naming no user, and otherwise the user's username |
| `UsernameField.Populate` | django_usernamefield/__init__.py:39-49 | the value after `pre_save` is the old one, or, when the old one was empty, `''` or a prefix of the related username; a write from an empty value is at most `max_length` long for a non-negative bound |
| `UsernameField.PopulateKeepsValue` | django_usernamefield/__init__.py:39-51 | a non-empty value is returned unchanged, whatever the relation |
| `UsernameField.PopulateFromUser` | django_usernamefield/__init__.py:46-47 | an empty value with a related user becomes a prefix of the username, of length `min(|username|, max_length)` |
| `UsernameField.PopulateWithoutUser` | django_usernamefield/__init__.py:44-49 | an empty value stays `''` when the relation is null or dangling, and nothing escapes |
| `UsernameField.PopulateIdempotent` | django_usernamefield/__init__.py:39-47 | a second `pre_save` against the same relation changes nothing; once a value is set, no relation changes it |
| `UsernameField.Instance.PreSave` | django_usernamefield/__init__.py:38-51 | only the field's attribute may change; a non-empty value leaves the record as it was; an empty one becomes the populated value; the return value is the attribute's value after the call |
| `UsernameField.Registry.constructor` | django_usernamefield/__init__.py:29 | the registry starts empty |
| `UsernameField.Registry.ContributeToClass` | django_usernamefield/__init__.py:53-57 | an abstract model leaves the registry unchanged; otherwise exactly `(model, populate_from, name, max_length)` is appended; the old registry is always a prefix of the new one |
| `UsernameField.RegisterKeepsUnique` | django_usernamefield/__init__.py:53-57 | appending an entry for a column not yet registered keeps the registry free of duplicate `(model, target)` pairs |
| `UsernameField.EntryUpdate` | django_usernamefield/__init__.py:69-71 | an entry's statement updates that entry's model and column on rows whose source names the user, with a prefix of the new name at most `max_length` long |
| `UsernameField.EntryUpdates` | django_usernamefield/__init__.py:68-71 | the i-th statement is entry i's bulk update, so there is one per entry, in registry order |
| `UsernameField.RenamePlan` | django_usernamefield/__init__.py:68-73 | the statements are, in order, one per registry entry (its column set to the name cut to its `max_length`, on rows whose source names the user), and then the user row with the full name |
| `UsernameField.UpdateEntries` | django_usernamefield/__init__.py:68-71 | the loop issues exactly the per-entry statements, in registry order, and the database ends as those statements leave it |
| `UsernameField.RenameUsername` | django_usernamefield/__init__.py:62-73 | the statements issued are exactly `RenamePlan`, with the user row last, and the database ends as executing them in order leaves it |
| `UsernameField.LastWriter` | django_usernamefield/__init__.py:68-71 | picks out the last entry that writes a given column of a given row (same model, same target, source naming the user), or no entry when none does |
| `UsernameField.EntryUpdateAt` | django_usernamefield/__init__.py:69-71 | one entry's bulk update sets that entry's column to the truncated name on rows naming the user; keys and all other columns and rows are unchanged |
| `UsernameField.EntryUpdatesFrame` | django_usernamefield/__init__.py:68-71 | the per-entry updates leave the user table, the set of tables and every table's set of rows unchanged |
| `UsernameField.EntryUpdatesAt` | django_usernamefield/__init__.py:68-71 | after the per-entry updates, each column of each row holds the truncation made by its last writer, or its old value if no entry writes it; foreign keys are unchanged |
| `UsernameField.RenameUsernameFrame` | django_usernamefield/__init__.py:68-73 | after a rename, the user row (if any) holds the full new name and no other user changes; the sets of tables and rows and every foreign key are unchanged |
| `UsernameField.RenameUsernameAt` | django_usernamefield/__init__.py:68-73 | after a rename, every column holds its last writer's truncation of the new name, and a column no entry writes for that row (a different source, another field) is unchanged |
| `UsernameField.RenameUsernameEntry` | django_usernamefield/__init__.py:68-71 | with a duplicate-free registry, every row whose source names the user ends with `username[:max_length]` in every entry's column |
| `UsernameField.Stale` | django_usernamefield/__init__.py:83-85 | a row is stale exactly when its source key names an existing user and its copy is not that user's username |
| `UsernameField.CheckEntry` | django_usernamefield/__init__.py:77-88 | an entry is skipped exactly when `max_length < 30`; a reported set is never empty; the flagged rows are exactly the rows whose copy differs from their related user's username |
| `UsernameField.Lint` | django_usernamefield/__init__.py:76-91 | one verdict per registry entry, in registry order; `lint` is a function of the store, so it changes nothing |
| `UsernameField.SavedCopyStale` | django_usernamefield/__init__.py:83-85 | with a non-negative `max_length`, a copy that `pre_save` filled from an empty value is `Stale` exactly when its user exists and `max_length` cut the name |
| `UsernameField.SavedCopyFlagged` | django_usernamefield/__init__.py:77-88 | in an entry `lint` checks (`max_length >= 30`), a copy that `pre_save` filled from an empty value is flagged exactly when its user exists and `max_length` cut the name |
| `UsernameField.RenameThenLint` | django_usernamefield/__init__.py:68-88 | after a rename, a checked entry's row naming the user is flagged exactly when the new name is longer than that entry's `max_length` |
| `Storage.UpdateWhere` | django_usernamefield/__init__.py:69-71 | `filter(source=user_id).update(target=value)` keeps every row and foreign key, sets the target column on exactly the matching rows and leaves every other column |
| `Storage.Database.Execute` | django_usernamefield/__init__.py:69-73 | running a bulk statement moves the database to `Apply` of it and appends it to the issued log |

## Left out

- The ORM itself (`objects.filter/.update/.exclude`, `F` expressions, `values_list`, `exists`) is replaced by operations on maps in `Storage`. The SQL treatment of null and dangling keys inside `lint`'s `exclude` query is not modelled. `Stale` never flags such rows.
- `lint`'s `print` output (lines 79-80 and 90-91) is not modelled. The report is returned as data (`Report`), and the row count printed is the size of the flagged set.
- The inherited `CharField` behaviour, and the `super().__init__` and `super().contribute_to_class` calls (lines 36 and 59), are framework code and not part of this model. That includes how `self.name` gets set, and keyword options other than `populate_from` and `max_length`.
- The unused `cache` import (line 2) and `setup.py` (package metadata only) are not modelled.
- Atomicity and concurrency: `rename_username` runs its statements with no transaction, and the shared list has no lock. The model is sequential. The `issued` log and `UpdateEntries`'s loop invariant describe the intermediate states a crash could leave.
- The framework's cache of an already-fetched related object is not modelled: `PreSave` reads the relation against the user table it is given. Likewise, a null key on a non-nullable relation (which the framework reports as `ObjectDoesNotExist`) is treated as `Null`. Both paths leave the value `''`.
- `Instance.PreSave` requires the field's attribute to exist, and the relation to exist when the value is empty. In Python a missing one raises `AttributeError`, which `pre_save` does not catch. A `None` value in the character column (a nullable field) is not modelled: values are strings.
- String semantics: `Truncate` cuts a sequence of Unicode characters. A Python 2 byte `str` or a narrow build would cut bytes or UTF-16 code units instead. `Stale` compares exactly, whereas the database compares by its collation, which may ignore case or trailing spaces. Neither is modelled.
- `Instance.PreSave` takes the unused `add` argument and ignores it, as the source does.
- `RenameUsernameEntry`, `RenameThenLint`: they assume a registry without two entries for the same `(model, target)`. That holds when every model class is built once. Without it, `RenameUsernameAt` states the exact outcome: the last such entry wins.
