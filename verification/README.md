# People repository and in-memory collection, in Dafny

This project models the data-access core of a small people CRUD API:

- `collection`: an in-memory stand-in for a document-database collection. It holds one dictionary from id to person document and offers `find_one`, `find`, `insert_one`, `update_one`, `delete_one` and `delete_many`. `insert_one`, `update_one` and `delete_one` report an `OurResult`: an acknowledged flag, the affected id (`None` when there is none), a modified count and a deleted count. `delete_many` returns nothing.
- `PeopleRepository`: the façade over the collection. It offers `get`, `list`, `create`, `update` and `delete`. It stamps `created`/`updated` timestamps and a generated `_id` on create, and turns "nothing happened" results into a person-not-found error.

The source mutates one class-level dictionary in place. The model passes the store explicitly instead. Every mutating operation except `DeleteMany` returns a `Step(store, out)`: the store after the call, and either `Ok(value)` or `Raise(error)`. `DeleteMany` returns only the store, since `delete_many` returns `None`. Read operations return only their result, so they cannot change the store. The store is a `Persons(order, docs)` value. `docs` is the dictionary and `order` lists its keys in insertion order, because Python's `dict.values()` iterates in that order.

The model reproduces the source as written. That includes the inverted presence test in `update_one` and `delete_one`:

- on a stored id they change nothing and report zero counts, so the repository's `update`/`delete` raise not-found;
- on an absent id, `delete_one` reaches `del persons[id]` and raises a key error before changing anything; `update_one` reaches the lookup `persons[id]` and raises a key error only when a `$set` is given, and otherwise returns the default result.

A separate corrected variant (`CorrectedCollection`, `CorrectedRepository`) flips the two tests. `Session` runs sequences of repository calls under either behaviour, chosen by `Semantics`.

Files:

- `values.dfy`: field values, documents and field-name constants.
- `outcomes.dfy`: `Option`, the errors (`KeyError`, `NotFound`, `AssertionFailed`) and `Outcome`.
- `key_order.dfy`: distinct key sequences, the model of a dictionary's iteration order.
- `collection.dfy`: the collection.
- `repository.dfy`: the repository.
- `corrected.dfy`: the corrected update/delete.
- `session.dfy`: sequences of calls.

Three behaviours of the code a reader may not expect:

- Updating or deleting an unknown id raises a key error, not not-found. It reaches the failing lookup at people_api/repositories.py:61 and :73.
- `insert_one` does not require an `_id`. Without one it returns the default, unacknowledged result.
- `get` raises not-found for a stored empty document too, because it tests `if not document`. The lemma `GetNotFoundIff` shows this cannot happen while the store's id-equals-key invariant holds.

## Model

| member | source | states |
|---|---|---|
| Collection.FindOne | people_api/repositories.py:30-34 | `find_one` raises a key error for `"_id"` exactly when the filter has no `_id`; otherwise it returns a document exactly when the filter's id is stored, and that document is the one stored under the id; it has no store to change |
| Collection.FindOneMatchesListing | people_api/repositories.py:30-41 | `find_one` agrees with `find`'s listing: on the id at position `i` of the insertion order it returns the `i`-th document `find` lists, and on an id `find` does not list it returns `None` |
| Collection.FindOneReturnsRequestedId | people_api/repositories.py:30-34 | on a well-keyed store the document `find_one` returns carries `_id == id` and is non-empty |
| Collection.Find | people_api/repositories.py:37-41 | `find` returns one entry per stored key, in insertion order, each the stored document; its length is the number of ids, and every stored document appears |
| Collection.InsertOne | people_api/repositories.py:44-52 | acknowledged exactly when the document has an `_id` not yet stored; then the result is `(True, _id, 0, 0)` (with `_id` itself, `None` included), the key set grows by that id, the id maps to the document, and all other keys keep their documents; otherwise the store is unchanged and the result is `OurResult()`'s default `(False, None, 0, 0)` (lines 19-23) |
| Collection.InsertThenFindOne | people_api/repositories.py:44-52 | round trip: after inserting a document with a fresh `_id`, `find_one` on that id returns it, and every other id answers as before |
| Collection.InsertGrowsByOne | people_api/repositories.py:44-52 | an acknowledged insert grows the store by exactly one key; an unacknowledged one leaves its size alone |
| Collection.UpdateOne | people_api/repositories.py:55-65 | as written: the store never changes; it raises `KeyError(id)` exactly when the filter has an `_id` that is absent and `$set` is given; otherwise it returns the default result with modified count 0 |
| Collection.DeleteOne | people_api/repositories.py:68-77 | as written: the store never changes; it raises `KeyError(id)` exactly when the filter's `_id` is absent; otherwise it returns the default result with deleted count 0 |
| Collection.DeleteMany | people_api/repositories.py:80-82 | the store is empty afterwards, whatever the filter |
| Collection.OperationsPreserveWellKeyed | people_api/repositories.py:44-82 | insert, update, delete and delete-many all keep every stored document's `_id` equal to its key |
| KeyOrder.Without | people_api/repositories.py:73 | removing a key from the insertion order drops exactly that key and keeps the other keys in their order (`xs[..i] + xs[i+1..]` for the key at position `i`), keeps keys distinct, and changes nothing when the key is absent |
| PeopleRepository.Get | people_api/repositories.py:87-92 | `get` succeeds exactly when the id is stored with a non-empty (truthy) document, and then returns that document; its only error is `NotFound(id)` |
| PeopleRepository.GetNotFoundIff | people_api/repositories.py:87-92 | on a well-keyed store, `get` raises not-found exactly when the id is not stored; otherwise it returns the stored document |
| PeopleRepository.List | people_api/repositories.py:95-98 | `list` returns every stored person once, in the collection's order; an empty store gives an empty list |
| PeopleRepository.Stamped | people_api/repositories.py:103-105 | the created document keeps the input's other fields, has `created == updated` from one clock reading, and has `_id` set to the generated id |
| PeopleRepository.Create | people_api/repositories.py:101-112 | with a fresh id, `create` returns the stamped document, stores it under that id, and appends the id to the order; with a used id, the `assert` fails and the store is unchanged |
| PeopleRepository.CreateThenGet | people_api/repositories.py:101-112 | `create` with a fresh id keeps the store well keyed, grows it by exactly one, and `get` on the new id returns the created document with `created == updated` |
| PeopleRepository.Update | people_api/repositories.py:114-122 | as written: `update` never succeeds and never changes the store; it raises not-found for every stored id and a key error for every absent one |
| PeopleRepository.Delete | people_api/repositories.py:124-129 | as written: `delete` never succeeds and never changes the store; it raises not-found for every stored id and a key error for every absent one |
| PeopleRepository.ClearThenList | people_api/repositories.py:80-98 | after `delete_many` the store is empty and `get` raises not-found for any id |
| PeopleRepository.CreateGetDeleteScenario | people_api/repositories.py:101-129 | creating "Alice" in an empty store returns her with the generated id and `created == updated`; `get` returns the same document; the literal `delete` then raises not-found |
| CorrectedCollection.UpdateOne | people_api/repositories.py:55-65 | corrected: acknowledged exactly when the `_id` is stored and `$set` is given; then the `$set` fields are merged into that document only, with result `(True, id, modified 1)`; otherwise nothing changes |
| CorrectedCollection.DeleteOne | people_api/repositories.py:68-77 | corrected: acknowledged exactly when the `_id` is stored; then exactly that key is removed, from the documents and from the insertion order with the other keys' order kept, other documents are kept, and the result is `(True, id, deleted 1)`; otherwise nothing changes |
| CorrectedCollection.UpdatePreservesWellKeyed | people_api/repositories.py:59-61 | the corrected update keeps ids equal to keys when the `$set` fields do not include `_id` |
| CorrectedCollection.DeletePreservesWellKeyed | people_api/repositories.py:72-73 | the corrected delete keeps ids equal to keys |
| CorrectedRepository.Update | people_api/repositories.py:114-122 | corrected: succeeds exactly on a stored id, merging the fields plus a new `updated` stamp into that person only, with keys and their order unchanged; otherwise it raises `NotFound(id)` and leaves the store unchanged |
| CorrectedRepository.Delete | people_api/repositories.py:124-129 | corrected: succeeds exactly on a stored id, removing that person only, from the documents and from the insertion order with the other keys' order kept; otherwise it raises `NotFound(id)` and leaves the store unchanged |
| CorrectedRepository.UpdateThenGet | people_api/repositories.py:114-122 | after a corrected update of a stored person, `get` returns the old document overwritten by the new fields and `updated` stamp, and the store stays well keyed |
| CorrectedRepository.DeleteThenGet | people_api/repositories.py:124-129 | after a corrected delete of a stored person, `get` raises not-found for it, and the store has one person fewer |
| CorrectedRepository.AsWrittenVersusCorrected | people_api/repositories.py:59-77 | on a stored id, the literal update/delete raise not-found while the corrected ones succeed; on an absent id, the literal ones raise a key error while the corrected ones raise not-found |
| Session.RunKeys | people_api/repositories.py:80-129 | after any sequence of creates, updates, deletes and clears, the stored ids are exactly the live ids: created ids, minus deleted ones under the corrected semantics, reset by a clear |
| Session.ApplyPreservesWellKeyed | people_api/repositories.py:101-129 | one repository call keeps ids equal to keys (for the corrected update: provided it does not set `_id`) |
| Session.RunPreservesWellKeyed | people_api/repositories.py:101-129 | any sequence of repository calls keeps ids equal to keys |
| Session.AsWrittenKeepsRecords | people_api/repositories.py:55-77 | under the literal semantics, no call other than a clear ever removes or changes a stored person |
| Session.FreshCreatesGrow | people_api/repositories.py:101-112 | N creates with fresh, pairwise distinct generated ids all insert, growing the store by exactly N |

## Left out

- The schema layer (`PersonRead`, `PersonCreate`, `PersonUpdate`, `.dict()` and `PersonRead(**document)`): it is not part of this model. Documents are opaque field maps, and both conversions are the identity.
- `get_time` and `get_uuid`: they are not part of this model. Their results are the parameters `now` (an abstract integer instant) and `uuid` (a string). `create` does not require a fresh uuid. A used one yields `Raise(AssertionFailed)`, the failing `assert` at line 110.
- The exception classes: they are not part of this model. `PersonNotFoundException(id)` is the error `NotFound(id)`.
- The class-level mutable dictionary and Python reference aliasing: the store is an explicit value passed in and returned. In particular, `insert_one` storing the caller's dictionary by reference is not modelled. The core never mutates that dictionary afterwards.
- Python `TypeError` for an unhashable `_id` value: the `Value` type has only hashable cases.
- Field values are limited to text, integer, timestamp and `None`. Booleans and floats are left out, because Python treats `True`, `1` and `1.0` as the same dictionary key, and including them would need Python's cross-type key equality. Nested documents are not modelled, except the `$set` operator map of `update_one`.
- Concurrency, persistence and the transport layer: outside the core.

## Findings

| source | as written | input that shows it | evidently intended | confidence | as-written member | corrected member |
|---|---|---|---|---|---|---|
| people_api/repositories.py:59 | `if p_id not in cls.persons:` guards the merge into `cls.persons[p_id]` | a store holding id `I`, then `update(I, {...})`: raises not-found and nothing changes; `update(J, {...})` for an absent `J` raises `KeyError(J)` at line 61 | `if p_id in cls.persons:`, so a stored person is updated and an absent id gives not-found | high (not executed) | CorrectedRepository.AsWrittenVersusCorrected | CorrectedRepository.UpdateThenGet |
| people_api/repositories.py:72 | `if p_id not in cls.persons:` guards `del cls.persons[p_id]` | a store holding id `I`, then `delete(I)`: raises not-found and `I` stays stored; `delete(J)` for an absent `J` raises `KeyError(J)` at line 73 | `if p_id in cls.persons:`, so a stored person is removed and an absent id gives not-found | high (not executed) | CorrectedRepository.AsWrittenVersusCorrected | CorrectedRepository.DeleteThenGet |
