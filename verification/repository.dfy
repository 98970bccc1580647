/** `PeopleRepository`: the façade that turns collection results into
    person-not-found errors and stamps timestamps and ids on writes.

    The clock and the id generator are parameters: `now` is the instant
    `get_time()` returned and `uuid` the string `get_uuid()` returned. The
    schema layer's `.dict()` and `PersonRead(**document)` conversions are
    the identity on field maps here. */
module PeopleRepository {
  import opened Values
  import opened Outcomes
  import opened Collection

  /** `get`: the stored person, or not-found when `find_one` yields nothing
      or an empty (falsy) document. */
  function Get(s: Store, personId: Value): (r: Outcome<Record>)
    ensures r.Ok? <==> personId in s.docs && Truthy(s.docs[personId])
    ensures r.Ok? ==> r.value == s.docs[personId]
    ensures r.Raise? ==> r.error == NotFound(personId)
  {
    match FindOne(s, IdFilter(personId))
    case Raise(e) => Raise(e)
    case Ok(found) =>
      if found.None? || !Truthy(found.value) then Raise(NotFound(personId))
      else Ok(found.value)
  }

  /** `list`: every stored person, in the collection's iteration order. */
  method List(s: Store) returns (people: seq<Record>)
    ensures |people| == |s.order| == |s.docs|
    ensures forall i :: 0 <= i < |people| ==> people[i] == s.docs[s.order[i]]
    ensures forall k :: k in s.docs ==> s.docs[k] in people
  {
    people := Find(s);
  }

  /** The document `create` builds: the input fields, `created` and
      `updated` set from one clock reading, and the generated `_id`. */
  function Stamped(fields: Record, now: int, uuid: string): (doc: Record)
    ensures doc.Keys == fields.Keys + {CreatedField, UpdatedField, IdField}
    ensures doc[CreatedField] == doc[UpdatedField] == Stamp(now)
    ensures doc[IdField] == Text(uuid)
    ensures forall f :: f in fields && f !in {CreatedField, UpdatedField, IdField} ==>
      doc[f] == fields[f]
  {
    fields[CreatedField := Stamp(now)][UpdatedField := Stamp(now)][IdField := Text(uuid)]
  }

  /** `create`: inserts the stamped document and reads it back with `get`.
      With a fresh id the store grows by exactly that key and the stored
      document is returned; with an id already in use the insert is not
      acknowledged and the `assert` fails, leaving the store unchanged. */
  function Create(s: Store, fields: Record, now: int, uuid: string): (r: Step<Record>)
    ensures Text(uuid) !in s.docs ==>
      && r.out == Ok(Stamped(fields, now, uuid))
      && r.store.docs == s.docs[Text(uuid) := Stamped(fields, now, uuid)]
      && r.store.order == s.order + [Text(uuid)]
    ensures Text(uuid) in s.docs ==> r == Step(s, Raise(AssertionFailed))
  {
    var document := Stamped(fields, now, uuid);
    var inserted := InsertOne(s, document);
    var result := inserted.out.value;
    if !result.acknowledged then Step(inserted.store, Raise(AssertionFailed))
    else Step(inserted.store, Get(inserted.store, result.insertedId))
  }

  /** `update` as written: never succeeds. On a stored id the collection
      reports no modification, so not-found is raised; on an absent id the
      collection's lookup raises a key error. The store is never changed. */
  function Update(s: Store, personId: Value, fields: Record, now: int): (r: Step<()>)
    ensures r.store == s
    ensures personId in s.docs ==> r.out == Raise(NotFound(personId))
    ensures personId !in s.docs ==> r.out == Raise(KeyError(personId))
  {
    var document := fields[UpdatedField := Stamp(now)];
    var updated := UpdateOne(s, IdFilter(personId), map[SetOperator := document]);
    match updated.out
    case Raise(e) => Step(updated.store, Raise(e))
    case Ok(result) =>
      if result.modifiedCount == 0 then Step(updated.store, Raise(NotFound(personId)))
      else Step(updated.store, Ok(()))
  }

  /** `delete` as written: never succeeds, by the same inverted test. On a
      stored id not-found is raised; on an absent id a key error. */
  function Delete(s: Store, personId: Value): (r: Step<()>)
    ensures r.store == s
    ensures personId in s.docs ==> r.out == Raise(NotFound(personId))
    ensures personId !in s.docs ==> r.out == Raise(KeyError(personId))
  {
    var deleted := DeleteOne(s, IdFilter(personId));
    match deleted.out
    case Raise(e) => Step(deleted.store, Raise(e))
    case Ok(result) =>
      if result.deletedCount == 0 then Step(deleted.store, Raise(NotFound(personId)))
      else Step(deleted.store, Ok(()))
  }

  // ---------------------------------------------------------------------
  // Properties relating the operations

  /** On a well-keyed store `get` raises not-found exactly when the id is
      not stored; otherwise it returns the stored document. */
  lemma GetNotFoundIff(s: Store, personId: Value)
    requires WellKeyed(s)
    ensures Get(s, personId).Raise? <==> personId !in s.docs
    ensures personId in s.docs ==> Get(s, personId) == Ok(s.docs[personId])
  {
    FindOneReturnsRequestedId(s, personId);
  }

  /** `create` keeps the store well keyed, and after it `get` on the new id
      returns the created document, with `created == updated`. */
  lemma CreateThenGet(s: Store, fields: Record, now: int, uuid: string)
    requires WellKeyed(s)
    requires Text(uuid) !in s.docs
    ensures WellKeyed(Create(s, fields, now, uuid).store)
    ensures Get(Create(s, fields, now, uuid).store, Text(uuid)) == Create(s, fields, now, uuid).out
    ensures Create(s, fields, now, uuid).out.Ok?
    ensures Create(s, fields, now, uuid).out.value[CreatedField]
         == Create(s, fields, now, uuid).out.value[UpdatedField]
    ensures |Create(s, fields, now, uuid).store.docs| == |s.docs| + 1
  {
    var doc := Stamped(fields, now, uuid);
    var r := Create(s, fields, now, uuid);
    InsertGrowsByOne(s, doc);
    assert r.store == InsertOne(s, doc).store;
    assert r.store.docs == s.docs[Text(uuid) := doc];
    assert r.out == Ok(doc);
    assert WellKeyed(r.store) by {
      forall k | k in r.store.docs
        ensures IdField in r.store.docs[k] && r.store.docs[k][IdField] == k
      {
        if k != Text(uuid) {
          assert r.store.docs[k] == s.docs[k];
        }
      }
    }
  }

  /** `delete_many` then `list` yields nothing, and `get` then raises
      not-found for every id. */
  lemma ClearThenList(s: Store, filter: Record, personId: Value)
    ensures |DeleteMany(s, filter).docs| == 0
    ensures Get(DeleteMany(s, filter), personId) == Raise(NotFound(personId))
  {
  }

  /** Create a person in an empty collection, read it back, then try to
      delete it: the literal delete raises not-found for the person just
      created. */
  lemma CreateGetDeleteScenario(now: int, uuid: string)
    ensures
      var created := Create(Empty, map["name" := Text("Alice")], now, uuid);
      && created.out.Ok?
      && created.out.value["name"] == Text("Alice")
      && created.out.value[IdField] == Text(uuid)
      && created.out.value[CreatedField] == created.out.value[UpdatedField] == Stamp(now)
      && Get(created.store, Text(uuid)) == created.out
      && Delete(created.store, Text(uuid)).out == Raise(NotFound(Text(uuid)))
  {
  }
}
