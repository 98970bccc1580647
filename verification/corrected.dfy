/** The collection's `update_one` and `delete_one` with the presence test
    the way round that the result fields (`modified_count = 1`,
    `deleted_count = 1`) show was intended: they act when the id IS stored.
    Everything else is as in `Collection`. */
module CorrectedCollection {
  import opened Values
  import opened Outcomes
  import opened KeyOrder
  import opened Collection

  /** `update_one` acting on a stored id: the `$set` fields are merged into
      the stored document (Python's `dict.update`, later values win). */
  function UpdateOne(s: Store, filter: Record, ops: map<string, Record>): (r: Step<OpResult>)
    ensures r.out.Ok?
    ensures r.out.value.acknowledged <==>
      IdField in filter && filter[IdField] in s.docs && SetOperator in ops
    ensures r.out.value.acknowledged ==>
      var id := filter[IdField];
      && r.out.value == OpResult(true, id, 1, 0)
      && r.store.order == s.order
      && r.store.docs.Keys == s.docs.Keys
      && r.store.docs[id] == s.docs[id] + ops[SetOperator]
      && (forall k :: k in s.docs && k != id ==> r.store.docs[k] == s.docs[k])
    ensures !r.out.value.acknowledged ==> r == Step(s, Ok(Unacknowledged))
  {
    if IdField in filter then
      var id := filter[IdField];
      if id in s.docs then
        if SetOperator in ops then
          var merged := s.docs[id] + ops[SetOperator];
          Step(Persons(s.order, s.docs[id := merged]), Ok(OpResult(true, id, 1, 0)))
        else
          Step(s, Ok(Unacknowledged))
      else
        Step(s, Ok(Unacknowledged))
    else
      Step(s, Ok(Unacknowledged))
  }

  /** `delete_one` acting on a stored id: the key and its document are
      removed, and the key leaves the iteration order. */
  function DeleteOne(s: Store, filter: Record): (r: Step<OpResult>)
    ensures r.out.Ok?
    ensures r.out.value.acknowledged <==> IdField in filter && filter[IdField] in s.docs
    ensures r.out.value.acknowledged ==>
      var id := filter[IdField];
      && r.out.value == OpResult(true, id, 0, 1)
      && r.store.order == Without(s.order, id)
      && r.store.docs.Keys == s.docs.Keys - {id}
      && (forall k :: k in r.store.docs ==> r.store.docs[k] == s.docs[k])
    ensures !r.out.value.acknowledged ==> r == Step(s, Ok(Unacknowledged))
  {
    if IdField in filter then
      var id := filter[IdField];
      if id in s.docs then
        Step(Persons(Without(s.order, id), s.docs - {id}), Ok(OpResult(true, id, 0, 1)))
      else
        Step(s, Ok(Unacknowledged))
    else
      Step(s, Ok(Unacknowledged))
  }

  /** The corrected update keeps the id-equals-key invariant as long as the
      fields it sets do not include `_id`. */
  lemma UpdatePreservesWellKeyed(s: Store, filter: Record, ops: map<string, Record>)
    requires WellKeyed(s)
    requires SetOperator in ops ==> IdField !in ops[SetOperator]
    ensures WellKeyed(UpdateOne(s, filter, ops).store)
  {
  }

  /** The corrected delete keeps the id-equals-key invariant. */
  lemma DeletePreservesWellKeyed(s: Store, filter: Record)
    requires WellKeyed(s)
    ensures WellKeyed(DeleteOne(s, filter).store)
  {
  }
}

/** `PeopleRepository.update` and `delete` over the corrected collection;
    `get`, `list` and `create` are unaffected and reused from
    `PeopleRepository`. */
module CorrectedRepository {
  import opened Values
  import opened Outcomes
  import opened Collection
  import KeyOrder
  import CorrectedCollection
  import PeopleRepository

  /** `update` over the corrected collection: merges the fields and a fresh
      `updated` stamp into a stored person; not-found for an absent id. */
  function Update(s: Store, personId: Value, fields: Record, now: int): (r: Step<()>)
    ensures personId in s.docs <==> r.out.Ok?
    ensures r.out.Raise? ==> r == Step(s, Raise(NotFound(personId)))
    ensures r.out.Ok? ==>
      && r.store.order == s.order
      && r.store.docs.Keys == s.docs.Keys
      && r.store.docs[personId] == s.docs[personId] + fields[UpdatedField := Stamp(now)]
      && (forall k :: k in s.docs && k != personId ==> r.store.docs[k] == s.docs[k])
  {
    var document := fields[UpdatedField := Stamp(now)];
    var updated := CorrectedCollection.UpdateOne(s, IdFilter(personId), map[SetOperator := document]);
    match updated.out
    case Raise(e) => Step(updated.store, Raise(e))
    case Ok(result) =>
      if result.modifiedCount == 0 then Step(updated.store, Raise(NotFound(personId)))
      else Step(updated.store, Ok(()))
  }

  /** `delete` over the corrected collection: removes a stored person;
      not-found for an absent id. */
  function Delete(s: Store, personId: Value): (r: Step<()>)
    ensures personId in s.docs <==> r.out.Ok?
    ensures r.out.Raise? ==> r == Step(s, Raise(NotFound(personId)))
    ensures r.out.Ok? ==>
      && r.store.order == KeyOrder.Without(s.order, personId)
      && r.store.docs.Keys == s.docs.Keys - {personId}
      && (forall k :: k in r.store.docs ==> r.store.docs[k] == s.docs[k])
  {
    var deleted := CorrectedCollection.DeleteOne(s, IdFilter(personId));
    match deleted.out
    case Raise(e) => Step(deleted.store, Raise(e))
    case Ok(result) =>
      if result.deletedCount == 0 then Step(deleted.store, Raise(NotFound(personId)))
      else Step(deleted.store, Ok(()))
  }

  /** After a corrected update of a stored person, `get` returns the merged
      document: the old fields overwritten by the new ones and the new
      `updated` stamp, `created` and `_id` untouched when the update does
      not name them. */
  lemma UpdateThenGet(s: Store, personId: Value, fields: Record, now: int)
    requires WellKeyed(s)
    requires personId in s.docs
    requires IdField !in fields
    ensures WellKeyed(Update(s, personId, fields, now).store)
    ensures PeopleRepository.Get(Update(s, personId, fields, now).store, personId)
         == Ok(s.docs[personId] + fields[UpdatedField := Stamp(now)])
  {
    var s' := Update(s, personId, fields, now).store;
    CorrectedCollection.UpdatePreservesWellKeyed(
      s, IdFilter(personId), map[SetOperator := fields[UpdatedField := Stamp(now)]]);
    PeopleRepository.GetNotFoundIff(s', personId);
  }

  /** After a corrected delete of a stored person, `get` raises not-found
      for it and the store has one person fewer. */
  lemma DeleteThenGet(s: Store, personId: Value)
    requires WellKeyed(s)
    requires personId in s.docs
    ensures Delete(s, personId).out.Ok?
    ensures PeopleRepository.Get(Delete(s, personId).store, personId) == Raise(NotFound(personId))
    ensures |Delete(s, personId).store.docs| == |s.docs| - 1
  {
    var s' := Delete(s, personId).store;
    assert s'.docs.Keys == s.docs.Keys - {personId};
  }

  /** The discrepancy the inverted tests cause: on a stored person the
      source's update and delete raise not-found, the corrected ones
      succeed; on an absent id the source raises a key error where the
      corrected ones raise not-found. */
  lemma AsWrittenVersusCorrected(s: Store, personId: Value, fields: Record, now: int)
    ensures personId in s.docs ==>
      && PeopleRepository.Update(s, personId, fields, now).out == Raise(NotFound(personId))
      && Update(s, personId, fields, now).out == Ok(())
      && PeopleRepository.Delete(s, personId).out == Raise(NotFound(personId))
      && Delete(s, personId).out == Ok(())
    ensures personId !in s.docs ==>
      && PeopleRepository.Update(s, personId, fields, now).out == Raise(KeyError(personId))
      && Update(s, personId, fields, now).out == Raise(NotFound(personId))
      && PeopleRepository.Delete(s, personId).out == Raise(KeyError(personId))
      && Delete(s, personId).out == Raise(NotFound(personId))
  {
  }
}
