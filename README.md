# Architecture name cache and link validation (Open Build Service API models)

This project models two pieces of the Open Build Service API's ActiveRecord models in Dafny and proves properties of them.

**The architecture cache** (`src/api/app/models/architecture.rb`) is a class-level Ruby `Hash` from architecture name to architecture record.
- `Architecture.archcache` fills it on first use from `find(:all)`. Every later call returns the same hash.
- The `after_create`, `after_update` and `after_destroy` hooks change it in place:
  - create stores the record under its name;
  - update drops the first entry, in iteration order, whose record has this record's id, then stores the record under its current name;
  - destroy deletes the name.

The model has three parts:
- `OrderedHash` models the Ruby `Hash` semantics the hooks rely on, as Ruby 1.9 and later define them. Keys keep their insertion order. Assigning to a key that is present keeps its place. A new key goes last. `delete` removes the key from the order.
- `Architecture.ArchCache` is a class with the hash and a `populated` flag (Ruby's "`@cache` is set"). It has one method per hook. Each method is proved against a pure function of the old state: `Load`, `Hash.Put`, `Rename` and `Hash.Delete`.
- Lemmas about those functions state what the cache promises:
  - the keys after population;
  - last-wins on duplicate names;
  - every key is the name of its record;
  - each id appears at most once;
  - what an update removes and keeps.

**The link validator** (`src/api/app/models/linked_project.rb`) is `validate_on_create`. It appends one message when the link's own project does not exist. It appends another when a stored link already has the same `(db_project_id, linked_db_project_id)` pair. `LinkedProjects.LinkedProject.ValidateOnCreate` appends to the record's error list. `CreateErrors` is the function that specifies it.

Inputs that come from outside the code are parameters:
- the records `find(:all)` returns (`store`, in its order);
- the stored link rows;
- whether each association of the new link loads a project. This is given as the project's id, or `None`.

## Behaviour of the code worth knowing

- A create under a name that is already a key overwrites that entry without any report (`architecture.rb:34`).
- An update receives no old name. It scans the entries for the record's id, and it always ends with the record stored under its current name (`architecture.rb:39-45`).
- `@cache = Hash.new` is set before the `find(:all)` loop (`architecture.rb:21-22`). A failure there would leave an empty hash that later calls treat as populated. This is noted under "Left out".

The duplicate-link query binds the association objects `self.db_project` and `self.linked_db_project`, not the raw foreign keys (`linked_project.rb:10`). A missing association is bound as SQL `NULL`, and `column = NULL` never matches a row. So when the project is missing, the duplicate check finds nothing. The two messages cannot both be added for one link: `MissingProjectIsOnlyError` proves this. The two conditionals are still independent, and `AppendedErrors` states what they add for every combination of the two conditions, missing-project first. The same rule means a link whose target does not load never counts as a duplicate.

## Model

| member | source | states |
|---|---|---|
| OrderedHash.Hash.Put | src/api/app/models/architecture.rb:34 | `hash[k] = v`: afterwards k maps to v. Every other key keeps its presence and value. A present key keeps its place in the order; a new key is appended. The result is still a well-formed hash. |
| OrderedHash.Empty | src/api/app/models/architecture.rb:21 | `Hash.new`: a well-formed hash with no keys and nothing in its key order. |
| OrderedHash.Hash.Delete | src/api/app/models/architecture.rb:50 | `hash.delete(k)`: k is no longer a key. All other entries are unchanged. The key order closes the gap where k stood. If k was absent, the hash is unchanged. |
| Architecture.Load | src/api/app/models/architecture.rb:21-24 | The hash that population builds is well formed, and every key is the name of the record it maps to. |
| Architecture.LoadKeys | src/api/app/models/architecture.rb:21-24 | After population the keys are exactly the names of the records in the store. |
| Architecture.LoadLastWins | src/api/app/models/architecture.rb:22-24 | For duplicate names, the record that comes last in `find(:all)` order is the one stored under that name. |
| Architecture.LoadValuesFromStore | src/api/app/models/architecture.rb:22-24 | Population stores only records that come from the store. |
| Architecture.LoadIdsUnique | src/api/app/models/architecture.rb:21-24 | If the store's ids are distinct, no id appears twice among the populated values. |
| Architecture.FirstIndexWithId | src/api/app/models/architecture.rb:39-44 | The scan of `each` returns the first position, in iteration order, whose record has the id. Every earlier position has another id. `None` means that no position has it. |
| Architecture.StaleKey | src/api/app/models/architecture.rb:39-44 | The key the update deletes holds a record with the id, and it is the key at the first position `FirstIndexWithId` finds in iteration order. `None` means no key holds it. When ids are unique, it is the only key holding the id. |
| Architecture.Rename | src/api/app/models/architecture.rb:39-45 | After an update the current name maps to the updated record. Every other surviving key is unchanged and was already present. Only the first entry with the id can be removed. An old name different from the new one no longer resolves. Names-match-keys is preserved. |
| Architecture.RenameIdsUnique | src/api/app/models/architecture.rb:39-45 | An update keeps every id at most once, even when the new name held another record, which is overwritten. Afterwards the updated id is held only by the new name. |
| Architecture.RenameInPlaceMovesLast | src/api/app/models/architecture.rb:39-45 | An update that keeps the name deletes and re-inserts the entry. The entry moves to the end of the iteration order, with the new record. |
| Architecture.RenameOfUnknownId | src/api/app/models/architecture.rb:39-45 | When no entry holds the id, the update is a plain store under the name. |
| Architecture.CreateIdsUnique | src/api/app/models/architecture.rb:34 | A create keeps ids unique when no other name already holds the new record's id. |
| Architecture.DestroyKeepsInvariants | src/api/app/models/architecture.rb:50 | Deleting a name preserves both names-match-keys and unique ids. |
| Architecture.ArchCache.constructor | src/api/app/models/architecture.rb:20 | The cache starts unset and empty. |
| Architecture.ArchCache.Current | src/api/app/models/architecture.rb:19-26 | What `archcache` would return is a well-formed hash whose keys name their records. |
| Architecture.ArchCache.Archcache | src/api/app/models/architecture.rb:19-26 | The first call fills the hash from the store with the population loop and marks it set. A later call returns the existing hash unchanged and does not depend on the store. When the store's ids are distinct, a first fill holds each id at most once. |
| Architecture.ArchCache.AfterCreate | src/api/app/models/architecture.rb:32-35 | The new state is the (populated) cache with the record stored under its name. Names-match-keys is kept. Unique ids are kept when no other name already holds the record's id. |
| Architecture.ArchCache.AfterUpdate | src/api/app/models/architecture.rb:37-46 | The id scan with `delete` and `break`, then the store under the name, yields exactly `Rename` of the (populated) cache. Names-match-keys is kept, and so are unique ids. |
| Architecture.ArchCache.AfterDestroy | src/api/app/models/architecture.rb:48-51 | The new state is the (populated) cache with the record's name deleted. Names-match-keys is kept, and so are unique ids. |
| LinkedProjects.AppendedErrors | src/api/app/models/linked_project.rb:5-13 | The two checks are independent. Each message is present exactly when its condition holds. At most two messages are added, and the missing-project message comes first. |
| LinkedProjects.AlreadyLinked | src/api/app/models/linked_project.rb:10 | The duplicate query finds a row exactly when both bound ids are present and the ordered pair is a stored row. A NULL bind never finds one. Columns are compared with `SqlEquals`, the definition of SQL's `=` under which NULL on either side matches nothing. |
| LinkedProjects.CreateErrors | src/api/app/models/linked_project.rb:5-13 | The missing-project message is added exactly when `db_project` does not load. The duplicate message is added exactly when the duplicate query finds a row. |
| LinkedProjects.NoErrorsIff | src/api/app/models/linked_project.rb:5-13 | No message is added if and only if the project exists and no stored link has the same pair. |
| LinkedProjects.DuplicateCheckIsDirectional | src/api/app/models/linked_project.rb:10 | A stored link (a, b) rejects (a, b). It rejects (b, a) only when a = b, and (a, c) only when c = b. |
| LinkedProjects.MissingProjectIsOnlyError | src/api/app/models/linked_project.rb:6-12 | With the project missing, the list of added messages is exactly the missing-project message. |
| LinkedProjects.DuplicateIsOnlyError | src/api/app/models/linked_project.rb:10-12 | With the project present and the pair already stored, the list of added messages is exactly the duplicate message. |
| LinkedProjects.LinkedProject.constructor | src/api/app/models/linked_project.rb:2-3 | A new link record holds its two associations and an empty error list. |
| LinkedProjects.LinkedProject.ValidateOnCreate | src/api/app/models/linked_project.rb:5-13 | The error list afterwards is the old list followed by `CreateErrors` for the record's associations. |

## Left out

- OrderedHash: the model assumes the insertion-ordered `Hash` of Ruby 1.9 and later. Ruby 1.8 iterates a `Hash` in bucket order, and under it the model does not say which of several entries with the same id `after_update` removes. With unique ids the resulting map does not depend on the order, since `StaleKey` is then the only key holding the id.
- RenameInPlaceMovesLast: the key order it states holds only under the insertion-ordered `Hash` of Ruby 1.9 and later. Under Ruby 1.8, where a re-inserted key lands in the order is not specified.
- The ActiveRecord associations of Architecture (`architecture.rb:3-16`) are declarations for the ORM. They do not touch the cache.
- The `logger.debug` calls (`architecture.rb:33, 38, 49`) are output only.
- The instance method `archcache` (`architecture.rb:28-30`) only delegates to the class method. The hook methods call `Archcache` directly.
- The SQL behind `find(:all)` and `LinkedProject.find(:first, ...)` is not modelled. Their results are parameters: the store's records in order, and the stored link rows, matched under SQL's rule that `NULL` equals nothing.
- Writes by outside callers through the hash `archcache` returns are not modelled. The code hands every caller the live `@cache` object, while `Archcache` returns a value. The hooks' own writes are modelled as assignments to the cache.
- A `find(:all)` that raises is not modelled. In the code, `@cache` is already set to an empty hash at that point, so later calls would return that empty hash.
- Concurrency is not modelled. The code has no locking, and the model is sequential.
- Object identity is not modelled. The cache holds value snapshots `Arch(id, name)`, while Ruby stores references to the records, so a cached object can be the very object being updated. The hooks compare ids and keys only, so the key logic is the same. `NamesMatch` is therefore about the name a record had when it was stored. In Ruby, if a cached object is renamed in memory and its save then fails, `after_update` never runs, and the old key maps to an object that carries the new name.
- When `errors.add` gets one string, as here, Rails 2 stores it in the attribute slot with a default message. The model records the string itself as the appended entry.
- "The validation runs only on create, not on update" comes from Rails' callback dispatch, which is not modelled. The source defines no update-time validation for links.
- `src/api/db/migrate/20110321000000_add_lock_flag.rb` (schema DDL) and `src/webui-testsuite/lib/OBSpages/ProjectPages/ProjectRawConfigPage.rb` (a UI test page object) are not part of this model.
