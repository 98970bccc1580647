/** Sequences of repository calls against one collection, under either the
    source's literal update/delete or the corrected ones. A raised error
    ends only the call that raised it; the store it leaves is the store the
    next call sees. */
module Session {
  import opened Values
  import opened Collection
  import PeopleRepository
  import CorrectedRepository

  /** Which update/delete behaviour the repository runs with. */
  datatype Semantics = AsWritten | Corrected

  /** A mutating repository call, with the clock reading and generated id
      it sees. `Clear` is the collection's `delete_many`. */
  datatype Command =
    | CreateCmd(fields: Record, now: int, uuid: string)
    | UpdateCmd(id: Value, fields: Record, now: int)
    | DeleteCmd(id: Value)
    | Clear

  /** The store after one call. */
  function Apply(sem: Semantics, s: Store, c: Command): Store {
    match c
    case CreateCmd(fields, now, uuid) => PeopleRepository.Create(s, fields, now, uuid).store
    case UpdateCmd(id, fields, now) =>
      if sem == AsWritten then PeopleRepository.Update(s, id, fields, now).store
      else CorrectedRepository.Update(s, id, fields, now).store
    case DeleteCmd(id) =>
      if sem == AsWritten then PeopleRepository.Delete(s, id).store
      else CorrectedRepository.Delete(s, id).store
    case Clear => DeleteMany(s, map[])
  }

  /** The store after a sequence of calls. */
  function Run(sem: Semantics, s: Store, cmds: seq<Command>): Store
    decreases |cmds|
  {
    if cmds == [] then s else Run(sem, Apply(sem, s, cmds[0]), cmds[1..])
  }

  /** The ids a sequence of calls should leave stored, starting from `ids`:
      a create adds its id, a delete removes its id when deletes work, a
      clear empties the store. */
  ghost function LiveIds(sem: Semantics, ids: set<Value>, cmds: seq<Command>): set<Value>
    decreases |cmds|
  {
    if cmds == [] then ids
    else
      var next :=
        match cmds[0]
        case CreateCmd(_, _, uuid) => ids + {Text(uuid)}
        case UpdateCmd(_, _, _) => ids
        case DeleteCmd(id) => if sem == Corrected then ids - {id} else ids
        case Clear => {};
      LiveIds(sem, next, cmds[1..])
  }

  /** No update sets the `_id` field. */
  ghost predicate NoIdUpdates(cmds: seq<Command>) {
    forall i :: 0 <= i < |cmds| && cmds[i].UpdateCmd? ==> IdField !in cmds[i].fields
  }

  /** No call clears the store. */
  ghost predicate NoClear(cmds: seq<Command>) {
    forall i :: 0 <= i < |cmds| ==> !cmds[i].Clear?
  }

  /** After any sequence of calls `list` holds exactly the live ids: every
      created id not since deleted (under the corrected semantics) or
      cleared. Under the literal semantics deletes never remove anything. */
  lemma {:induction false} RunKeys(sem: Semantics, s: Store, cmds: seq<Command>)
    ensures Run(sem, s, cmds).docs.Keys == LiveIds(sem, s.docs.Keys, cmds)
    decreases |cmds|
  {
    if cmds != [] {
      var s' := Apply(sem, s, cmds[0]);
      match cmds[0] {
        case CreateCmd(fields, now, uuid) =>
          assert s'.docs.Keys == s.docs.Keys + {Text(uuid)};
        case UpdateCmd(id, fields, now) =>
          assert s'.docs.Keys == s.docs.Keys;
        case DeleteCmd(id) =>
          assert s'.docs.Keys == if sem == Corrected then s.docs.Keys - {id} else s.docs.Keys;
        case Clear =>
          assert s'.docs.Keys == {};
      }
      RunKeys(sem, s', cmds[1..]);
    }
  }

  /** One call keeps each stored document's `_id` equal to its key (under
      the corrected semantics, provided an update does not set `_id`). */
  lemma ApplyPreservesWellKeyed(sem: Semantics, s: Store, c: Command)
    requires WellKeyed(s)
    requires sem == Corrected && c.UpdateCmd? ==> IdField !in c.fields
    ensures WellKeyed(Apply(sem, s, c))
  {
    match c {
      case CreateCmd(fields, now, uuid) =>
        if Text(uuid) !in s.docs {
          PeopleRepository.CreateThenGet(s, fields, now, uuid);
        }
      case UpdateCmd(id, fields, now) =>
        if sem == Corrected && id in s.docs {
          CorrectedRepository.UpdateThenGet(s, id, fields, now);
        }
      case DeleteCmd(id) =>
      case Clear =>
    }
  }

  /** Every sequence of calls keeps each stored document's `_id` equal to its
      key (under the corrected semantics, provided no update sets `_id`). */
  lemma {:induction false} RunPreservesWellKeyed(sem: Semantics, s: Store, cmds: seq<Command>)
    requires WellKeyed(s)
    requires sem == Corrected ==> NoIdUpdates(cmds)
    ensures WellKeyed(Run(sem, s, cmds))
    decreases |cmds|
  {
    if cmds != [] {
      ApplyPreservesWellKeyed(sem, s, cmds[0]);
      assert sem == Corrected ==> NoIdUpdates(cmds[1..]) by {
        if sem == Corrected {
          forall i | 0 <= i < |cmds[1..]| && cmds[1..][i].UpdateCmd?
            ensures IdField !in cmds[1..][i].fields
          {
            assert cmds[1..][i] == cmds[i + 1];
          }
        }
      }
      RunPreservesWellKeyed(sem, Apply(sem, s, cmds[0]), cmds[1..]);
    }
  }

  /** Under the literal semantics a stored person is never removed or
      changed by any call other than a clear. */
  lemma {:induction false} AsWrittenKeepsRecords(s: Store, cmds: seq<Command>)
    requires NoClear(cmds)
    ensures forall k :: k in s.docs ==>
      k in Run(AsWritten, s, cmds).docs && Run(AsWritten, s, cmds).docs[k] == s.docs[k]
    decreases |cmds|
  {
    if cmds != [] {
      var s' := Apply(AsWritten, s, cmds[0]);
      assert forall k :: k in s.docs ==> k in s'.docs && s'.docs[k] == s.docs[k];
      assert NoClear(cmds[1..]) by {
        forall i | 0 <= i < |cmds[1..]| ensures !cmds[1..][i].Clear? {
          assert cmds[1..][i] == cmds[i + 1];
        }
      }
      AsWrittenKeepsRecords(s', cmds[1..]);
    }
  }

  /** Every call is a create, the generated ids are pairwise distinct and
      none is stored yet. */
  ghost predicate FreshCreates(s: Store, cmds: seq<Command>) {
    && (forall i :: 0 <= i < |cmds| ==> cmds[i].CreateCmd? && Text(cmds[i].uuid) !in s.docs)
    && (forall i, j :: 0 <= i < j < |cmds| ==> cmds[i].uuid != cmds[j].uuid)
  }

  /** Creates with fresh, distinct generated ids all succeed: each adds one
      person, so the store grows by exactly the number of creates. */
  lemma {:induction false} FreshCreatesGrow(sem: Semantics, s: Store, cmds: seq<Command>)
    requires FreshCreates(s, cmds)
    ensures |Run(sem, s, cmds).docs| == |s.docs| + |cmds|
    decreases |cmds|
  {
    if cmds != [] {
      var c := cmds[0];
      var s' := Apply(sem, s, c);
      assert s'.docs.Keys == s.docs.Keys + {Text(c.uuid)};
      assert |s'.docs| == |s.docs| + 1;
      assert FreshCreates(s', cmds[1..]) by {
        forall i | 0 <= i < |cmds[1..]|
          ensures cmds[1..][i].CreateCmd? && Text(cmds[1..][i].uuid) !in s'.docs
        {
          assert cmds[1..][i] == cmds[i + 1];
          assert cmds[0].uuid != cmds[i + 1].uuid;
        }
        forall i, j | 0 <= i < j < |cmds[1..]|
          ensures cmds[1..][i].uuid != cmds[1..][j].uuid
        {
          assert cmds[1..][i] == cmds[i + 1] && cmds[1..][j] == cmds[j + 1];
        }
      }
      FreshCreatesGrow(sem, s', cmds[1..]);
    }
  }
}
