# Collection store model

A Dafny model of the `Collection<RecordType>` store of reactive-records
(`lib/Collection.d.ts`): an in-memory store that keeps records indexed by
primary key, a registry of named scopes (views) over those records, and the
persistence strategy the collection hands its remote operations to.

The source is a TypeScript declaration file: its behaviour is taken from the
doc-comments and signatures. The model is imperative where the source is: a
class `Collection` whose private `records` and `scopes` maps and whose
`persistenceStrategy` are fields that its methods reassign, and whose read
accessors are functions of those fields.

Files:

- `wrappers.dfy` — `Option` (the source's `undefined`) and `Result` (a call that throws).
- `seqs.dfy` — distinctness, removal and filtering on sequences.
- `ordered_map.dfy` — `OrderedMap`, the insertion-ordered keyed container that
  holds both the records (by primary key) and the scopes (by name). Replacing
  the value of a present key keeps its position; a new key goes last.
- `records.dfy` — primary keys, property values, records, scopes, the strategy
  handle, and the concatenation of scope items.
- `collection.dfy` — the `Collection` class.

Modelling decisions:

- Records are values: a primary key and a property bag. The abstract
  `recordClass` is a constructor parameter, `Props -> Record`, that builds a
  record from a property bag (and so fixes how its primary key is read).
- A regular expression tested against scope names is a parameter
  `matches: string -> bool`.
- Iteration order of `items`, `itemsPrimaryKeys`, `scopesNames` and
  `getScopesMatching` is insertion order, as for a JavaScript `Map`.
- `provideScope` without a name registers the scope under a name longer than
  every registered name, so the default name never collides.
- `unsetScope(s)` removes whatever scope is registered under `s.name`.
  Scopes are values here, so the model cannot ask whether the registered
  scope is the very object `s`; removing by name keeps the declared promise
  ("remove a scope from the collection") for every scope that is registered,
  including one whose params `provideScope` has since replaced.
- `set` adds or replaces (lib/Collection.d.ts:116-120). It is not modelled as
  a merge into the existing record.

## Model

| member | source | states |
|---|---|---|
| `Seqs.DistinctCardinality` | lib/Collection.d.ts:8-12 | a duplicate-free sequence has as many elements as its element set (used to equate the key count and the entry count) |
| `OrderedMaps.OrderedMap.Size` | lib/Collection.d.ts:111-115 | the number of entries equals the number of ordered keys |
| `OrderedMaps.OrderedMap.Put` | lib/Collection.d.ts:116-125 | add or replace: the key then holds the new value, every other key keeps its value, a replaced key keeps its position, a new key is appended, and the index stays duplicate-free |
| `OrderedMaps.OrderedMap.Delete` | lib/Collection.d.ts:138-142 | the key is then absent, every other key keeps its value, and deleting an absent key changes nothing |
| `OrderedMaps.DeleteAllGet` | lib/Collection.d.ts:143-147 | after deleting a list of keys none of them is present and every other key keeps its value |
| `OrderedMaps.ValuesHold` | lib/Collection.d.ts:82-86 | a value is listed exactly when some key holds it |
| `OrderedMaps.GetAll` | lib/Collection.d.ts:106-110 | every value returned is stored under a listed key, and every listed key that is present contributes its value |
| `Records.ConcatItemsAppend` | lib/Collection.d.ts:48-53 | concatenating the items of two lists of scopes is the concatenation of the two results |
| `Records.ConcatItemsLength` | lib/Collection.d.ts:48-53 | the concatenation keeps every item of every scope: its length is the sum of the scopes' item counts |
| `Records.ConcatItemsMembership` | lib/Collection.d.ts:48-53 | a record is in the concatenation exactly when some scope of the list holds it |
| `Records.ConcatItemsMembers` | lib/Collection.d.ts:48-53 | the same for every record at once: it is in the concatenation exactly when it is an item of a scope of the list |
| `Collections.LastWithKey` | lib/Collection.d.ts:133-137 | finds the last record of a list with a given key, and nothing exactly when no record has that key |
| `Collections.DeleteAllIndexed` | lib/Collection.d.ts:8-12 | deleting a list of keys keeps every remaining record indexed under its own primary key |
| `Collections.StoreAllIndexed` | lib/Collection.d.ts:8-12 | setting a list of records keeps every record indexed under its own primary key |
| `Collections.StoreAllGet` | lib/Collection.d.ts:133-137 | after setting a list of records each key holds the last record given for it, and keys not in the list keep their records |
| `Collections.Collection.constructor` | lib/Collection.d.ts:7-21 | a new collection has no records, no scopes, no persistence strategy, and the given record constructor; its (empty) store is indexed by primary key |
| `Collections.Collection.GetPersistenceStrategy` | lib/Collection.d.ts:22-26 | fails exactly when no strategy is set, and otherwise returns the one that is set |
| `Collections.Collection.SetPersistenceStrategy` | lib/Collection.d.ts:71-76 | the strategy is then set and returned by `GetPersistenceStrategy`; records and scopes are unchanged; returns the collection |
| `Collections.Collection.ScopesNames` | lib/Collection.d.ts:33-37 | the names of exactly the registered scopes, each once |
| `Collections.Collection.GetScope` | lib/Collection.d.ts:27-32 | a scope is found exactly when its name is registered, and it is the scope registered under that name (whose name it carries) |
| `Collections.Collection.GetScopesMatching` | lib/Collection.d.ts:38-43 | returns exactly the registered scopes whose name matches, each once, in registration order (the registry's values filtered by the name test) |
| `Collections.Collection.CombineScopeItems` | lib/Collection.d.ts:48-53 | is the concatenation, scope after scope in match order, of the items of the matching scopes: it holds exactly their items, with no deduplication (its length is the sum of their item counts) |
| `Collections.Collection.FreshScopeName` | lib/Collection.d.ts:54-60 | the default scope name is not the name of any registered scope |
| `Collections.Collection.ProvideScope` | lib/Collection.d.ts:54-60 | returns the scope registered under the name (with its params replaced when params are given, and the registry unchanged when not); otherwise registers and returns a new scope under the given or a fresh name, which `GetScope` then finds |
| `Collections.Collection.SetScope` | lib/Collection.d.ts:61-65 | `GetScope(scope.name)` then returns the scope; every other name is unchanged |
| `Collections.Collection.UnsetScope` | lib/Collection.d.ts:66-70 | the entry under the scope's name is then absent, every other name keeps its scope, and nothing changes when no scope is registered under that name; records and strategy are unchanged |
| `Collections.Collection.ItemsPrimaryKeys` | lib/Collection.d.ts:77-81 | the primary keys of exactly the stored records, each once |
| `Collections.Collection.Has` | lib/Collection.d.ts:87-92 | true exactly when the key is among the stored primary keys |
| `Collections.Collection.Get` | lib/Collection.d.ts:93-98 | returns a record exactly when `Has` holds, namely the record stored under the key; nothing otherwise |
| `Collections.Collection.Items` | lib/Collection.d.ts:82-86 | one record per stored key, in key order, each the record `Get` returns for that key; a record is listed exactly when some key holds it |
| `Collections.Collection.Size` | lib/Collection.d.ts:111-115 | equals the number of items, of primary keys and of map entries |
| `Collections.Collection.WherePropEq` | lib/Collection.d.ts:99-105 | exactly the stored records whose named property equals the value, each as often as among the items, in item order (the items filtered by the property test) |
| `Seqs.FilterAppend` | lib/Collection.d.ts:99-105 | filtering keeps order: filtering a concatenation is the concatenation of the filtered parts |
| `Seqs.FilterCons` | lib/Collection.d.ts:99-105 | filtering a sequence keeps its first element in front exactly when that element passes the test, then filters the rest |
| `Seqs.FilterSingle` | lib/Collection.d.ts:99-105 | filtering a single element keeps it exactly when it passes the test |
| `Collections.Collection.GetMany` | lib/Collection.d.ts:106-110 | every record returned is stored under a listed key, and every listed key that is present contributes its record |
| `Collections.Collection.Set` | lib/Collection.d.ts:116-120 | builds the record from the property bag; it is then stored under its primary key and every other key keeps its record; records stay indexed by their primary key |
| `Collections.Collection.SetRecord` | lib/Collection.d.ts:121-125 | the given record is stored under its primary key and returned; every other key keeps its record; records stay indexed by their primary key |
| `Collections.Collection.SetMany` | lib/Collection.d.ts:133-137 | returns the built records in list order; each key then holds the last record built for it and other keys are unchanged; records stay indexed by their primary key |
| `Collections.Collection.UpdateRecordPrimaryKey` | lib/Collection.d.ts:126-132 | when the old key is found, its record is then under the new key, the old key is gone, and other keys are unchanged; otherwise nothing changes |
| `Collections.Collection.Unset` | lib/Collection.d.ts:138-142 | the key is then absent, other keys unchanged, an absent key leaves the store unchanged; records stay indexed by their primary key; returns the collection |
| `Collections.Collection.UnsetMany` | lib/Collection.d.ts:143-147 | none of the listed keys is then present and every other key keeps its record; records stay indexed by their primary key; returns the collection |
| `Collections.Collection.Clear` | lib/Collection.d.ts:148-151 | no record remains (size 0, no items, no keys); scopes and strategy unchanged; returns the collection |
| `Collections.Collection.Reset` | lib/Collection.d.ts:168-171 | no record and no scope remain; the persistence strategy is unchanged |

## Left out

- `load`, `loadOne`, `saveOne`, `destroyOne` (lib/Collection.d.ts:152-167): asynchronous calls forwarded to an external persistence strategy whose code is not part of this model; promises, their ordering and their failures are not modelled.
- Regular-expression semantics: the name test is an arbitrary predicate parameter.
- The `Record` class: its construction from a property bag and how it reads its primary key are the `recordClass` parameter; `./internals` is not part of this model.
- Record identity: records are values, so "the same instance", in-place updates of a stored record and aliasing of returned records are not captured.
- Collections.Collection.UpdateRecordPrimaryKey: the record's own primary-key field is not changed (that is the record's business); only the index moves. So when the two keys differ, the model's call breaks the store's invariant "indexed by the records' primary key" (`IndexedByPk`, lib/Collection.d.ts:9-10): the moved record still has `pk == oldPk`. The model assumes the caller (the `Record` class, not part of this model) changes the record's own key and then calls this method; that pairing is not modelled.
- The `Scope` class (`./Scope` is not part of this model): a scope's items are a stored sequence, not recomputed from the store; a newly provided scope starts with no items.
- Collections.Collection.UnsetScope: removes by name; a rule that a stale scope object should not evict a different scope of the same name would need object identity, which values lack.
- Collections.Collection.GetMany: promises membership only, not the order of the result nor how missing keys are treated (the model keeps list order and omits missing keys), because the declaration states neither.
- Collections.Collection.FreshScopeName: the format of the default scope name is a choice of the model; only its freshness is stated.
- `getCombinedScopeItems` (lib/Collection.d.ts:44-47): typed `any`; nothing beyond `combineScopeItems` to model.
- Numbers: property values and numeric primary keys are unbounded integers, not floating point.
- The setter is named `SetPersistenceStrategy`; the source spells it `setPersistenceStratgy`.
