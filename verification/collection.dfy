/** The in-memory stand-in for a document-database collection
    (`collection` in people_api/repositories.py).

    The source keeps one class-level dictionary from id to document and
    mutates it in place. Here the dictionary is an explicit value: every
    mutating operation takes a store and returns the store after the call
    together with what the call returned or raised. The dictionary's
    insertion order is kept beside it, since `find` iterates in that order. */
module Collection {
  import opened Values
  import opened Outcomes
  import opened KeyOrder

  /** A dictionary from id to document, with its keys in insertion order. */
  datatype Persons = Persons(order: seq<Value>, docs: map<Value, Record>)

  /** The order lists every key once and nothing else. */
  ghost predicate Valid(p: Persons) {
    && Distinct(p.order)
    && (forall k :: k in p.order <==> k in p.docs)
  }

  /** The collection's state: a well-formed insertion-ordered dictionary. */
  type Store = p: Persons | Valid(p) witness Persons([], map[])

  /** The store's invariant: every stored document carries an `_id` field
      equal to the key it is stored under. */
  ghost predicate WellKeyed(s: Store) {
    forall k :: k in s.docs ==> IdField in s.docs[k] && s.docs[k][IdField] == k
  }

  /** `OurResult`: the outcome descriptor of a mutation. */
  datatype OpResult = OpResult(
    acknowledged: bool,
    insertedId: Value,
    modifiedCount: int,
    deletedCount: int)

  /** `OurResult()` with its default arguments: no id is `None`. */
  const Unacknowledged: OpResult := OpResult(false, Null, 0, 0)

  /** The store after a mutating call, and what the call returned or raised. */
  datatype Step<+T> = Step(store: Store, out: Outcome<T>)

  /** The empty collection, as at process start. */
  const Empty: Store := Persons([], map[])

  /** The key order has exactly one entry per stored document. */
  lemma OrderLength(s: Store)
    ensures |s.order| == |s.docs|
  {
    DistinctCard(s.order);
    assert Elems(s.order) == s.docs.Keys;
  }

  /** `find_one`: the document stored under the filter's `_id`, or `None`.
      Reading `filter["_id"]` raises a key error when the filter has no
      `_id`. */
  function FindOne(s: Store, filter: Record): (r: Outcome<Option<Record>>)
    ensures r.Raise? <==> IdField !in filter
    ensures r.Raise? ==> r.error == KeyError(Text(IdField))
    ensures r.Ok? ==> (r.value.Some? <==> filter[IdField] in s.docs)
    ensures r.Ok? && r.value.Some? ==> r.value.value == s.docs[filter[IdField]]
  {
    if IdField !in filter then Raise(KeyError(Text(IdField)))
    else if filter[IdField] in s.docs then Ok(Some(s.docs[filter[IdField]]))
    else Ok(None)
  }

  /** `find`: every stored document, in insertion order, one per key. */
  method Find(s: Store) returns (r: seq<Record>)
    ensures |r| == |s.order| == |s.docs|
    ensures forall i :: 0 <= i < |r| ==> r[i] == s.docs[s.order[i]]
    ensures forall k :: k in s.docs ==> s.docs[k] in r
  {
    r := [];
    var i := 0;
    while i < |s.order|
      invariant 0 <= i <= |s.order|
      invariant |r| == i
      invariant forall j :: 0 <= j < i ==> r[j] == s.docs[s.order[j]]
    {
      r := r + [s.docs[s.order[i]]];
      i := i + 1;
    }
    OrderLength(s);
    forall k | k in s.docs
      ensures s.docs[k] in r
    {
      var j :| 0 <= j < |s.order| && s.order[j] == k;
      assert r[j] == s.docs[k];
    }
  }

  /** `insert_one`: stores the document under its own `_id` when it has one
      that is not yet a key; otherwise changes nothing and returns the
      default result. */
  function InsertOne(s: Store, doc: Record): (r: Step<OpResult>)
    ensures r.out.Ok?
    ensures r.out.value.acknowledged <==> IdField in doc && doc[IdField] !in s.docs
    ensures r.out.value.acknowledged ==>
      && r.out.value == OpResult(true, doc[IdField], 0, 0)
      && r.store.docs.Keys == s.docs.Keys + {doc[IdField]}
      && r.store.docs[doc[IdField]] == doc
      && (forall k :: k in s.docs ==> r.store.docs[k] == s.docs[k])
      && r.store.order == s.order + [doc[IdField]]
    ensures !r.out.value.acknowledged ==> r == Step(s, Ok(Unacknowledged))
  {
    if IdField in doc then
      var id := doc[IdField];
      if id !in s.docs then
        Step(Persons(s.order + [id], s.docs[id := doc]), Ok(OpResult(true, id, 0, 0)))
      else
        Step(s, Ok(Unacknowledged))
    else
      Step(s, Ok(Unacknowledged))
  }

  /** `update_one` as written: the presence test is inverted, so on a
      stored id nothing happens and the default result comes back, while
      on an absent id with a `$set` the lookup `persons[id]` raises a key
      error before anything is changed. */
  function UpdateOne(s: Store, filter: Record, ops: map<string, Record>): (r: Step<OpResult>)
    ensures r.store == s
    ensures r.out.Raise? <==> IdField in filter && filter[IdField] !in s.docs && SetOperator in ops
    ensures r.out.Raise? ==> r.out.error == KeyError(filter[IdField])
    ensures r.out.Ok? ==> r.out.value == Unacknowledged
  {
    if IdField in filter then
      var id := filter[IdField];
      if id !in s.docs then
        if SetOperator in ops then Step(s, Raise(KeyError(id)))
        else Step(s, Ok(Unacknowledged))
      else
        Step(s, Ok(Unacknowledged))
    else
      Step(s, Ok(Unacknowledged))
  }

  /** `delete_one` as written: the same inverted test, so on a stored id
      nothing happens, and on an absent id `del persons[id]` raises a key
      error. */
  function DeleteOne(s: Store, filter: Record): (r: Step<OpResult>)
    ensures r.store == s
    ensures r.out.Raise? <==> IdField in filter && filter[IdField] !in s.docs
    ensures r.out.Raise? ==> r.out.error == KeyError(filter[IdField])
    ensures r.out.Ok? ==> r.out.value == Unacknowledged
  {
    if IdField in filter then
      var id := filter[IdField];
      if id !in s.docs then Step(s, Raise(KeyError(id)))
      else Step(s, Ok(Unacknowledged))
    else
      Step(s, Ok(Unacknowledged))
  }

  /** `delete_many`: clears the collection whatever the filter says. */
  function DeleteMany(s: Store, filter: Record): (r: Store)
    ensures r.docs == map[] && r.order == []
  {
    Empty
  }

  // ---------------------------------------------------------------------
  // Properties relating the operations

  /** `find_one` agrees with the listing `find` produces: for the id at
      position `i` of the insertion order it returns the `i`-th document
      `find` lists, and for an id `find` does not list it returns `None`. */
  lemma FindOneMatchesListing(s: Store, id: Value)
    ensures forall i :: 0 <= i < |s.order| ==>
      FindOne(s, IdFilter(s.order[i])) == Ok(Some(s.docs[s.order[i]]))
    ensures id !in s.order ==> FindOne(s, IdFilter(id)) == Ok(None)
  {
  }

  /** On a well-keyed store, the document `find_one` returns carries the
      requested id, so it is never empty. */
  lemma FindOneReturnsRequestedId(s: Store, id: Value)
    requires WellKeyed(s)
    ensures FindOne(s, IdFilter(id)).Ok?
    ensures FindOne(s, IdFilter(id)).value.Some? ==>
      var doc := FindOne(s, IdFilter(id)).value.value;
      IdField in doc && doc[IdField] == id && Truthy(doc)
  {
  }

  /** Round trip: after a successful insert, `find_one` on the new id
      returns the inserted document, and every other id answers as before. */
  lemma InsertThenFindOne(s: Store, doc: Record, id: Value)
    requires IdField in doc && doc[IdField] !in s.docs
    ensures FindOne(InsertOne(s, doc).store, IdFilter(doc[IdField])) == Ok(Some(doc))
    ensures id != doc[IdField] ==>
      FindOne(InsertOne(s, doc).store, IdFilter(id)) == FindOne(s, IdFilter(id))
  {
  }

  /** An insert is the only mutation that grows the store, by one key. */
  lemma InsertGrowsByOne(s: Store, doc: Record)
    ensures InsertOne(s, doc).out.value.acknowledged ==>
      |InsertOne(s, doc).store.docs| == |s.docs| + 1
    ensures !InsertOne(s, doc).out.value.acknowledged ==>
      |InsertOne(s, doc).store.docs| == |s.docs|
  {
  }

  /** Every collection operation preserves the id-equals-key invariant. */
  lemma OperationsPreserveWellKeyed(s: Store, doc: Record, filter: Record, ops: map<string, Record>)
    requires WellKeyed(s)
    ensures WellKeyed(InsertOne(s, doc).store)
    ensures WellKeyed(UpdateOne(s, filter, ops).store)
    ensures WellKeyed(DeleteOne(s, filter).store)
    ensures WellKeyed(DeleteMany(s, filter))
  {
  }
}
