/** The persistence boundary the service depends on: an id-keyed table with a
    counter that supplies fresh ids, offering the five repository operations
    the service calls. */
module Repository {
  import opened Wrappers
  import opened Employees

  class Store {
    /** The stored rows, keyed by id. */
    var records: map<int, Employee>
    /** The id the next inserted row receives. */
    var nextId: int
    /** How many times `Save` has been called (lets callers state that it was not). */
    ghost var saves: nat

    ghost predicate Valid()
      reads this
    {
      Consistent(records, nextId)
    }

    /** An empty table whose first generated id is 1. */
    constructor ()
      ensures Valid()
      ensures records == map[] && nextId == 1 && saves == 0
    {
      records := map[];
      nextId := 1;
      saves := 0;
    }

    /** `findById`: the record stored under `id`, or nothing. */
    method FindById(id: int) returns (r: Option<Employee>)
      ensures r.Some? <==> id in records
      ensures r.Some? ==> r.value == records[id]
    {
      r := if id in records then Some(records[id]) else None;
    }

    /** `findByEmail`: a stored record with this email, or nothing when no
        record has it. */
    method FindByEmail(email: string) returns (r: Option<Employee>)
      requires Valid()
      ensures r.Some? <==> EmailTaken(records, email)
      ensures r.Some? ==> r.value.email == email && r.value.id in records && records[r.value.id] == r.value
    {
      if k :| k in records && records[k].email == email {
        r := Some(records[k]);
      } else {
        r := None;
      }
    }

    /** `findAll`: every stored record exactly once (scanned in id order). */
    method FindAll() returns (r: seq<Employee>)
      requires Valid()
      ensures Lists(r, records)
    {
      r := [];
      var id := 1;
      assert KeysBelow(records, 1) == {};
      while id < nextId
        invariant 1 <= id <= nextId
        invariant ListsKeys(r, records, KeysBelow(records, id))
      {
        if id in records {
          assert KeysBelow(records, id + 1) == KeysBelow(records, id) + {id};
          ListsKeysAppend(r, records, KeysBelow(records, id), id);
          r := r + [records[id]];
        } else {
          assert KeysBelow(records, id + 1) == KeysBelow(records, id);
        }
        id := id + 1;
      }
      assert KeysBelow(records, nextId) == records.Keys;
    }

    /** `save`: overwrites the row under `e.id` when there is one; otherwise
        inserts `e` under a freshly generated id (the id in `e` is then
        ignored). Returns the row as stored. */
    method Save(e: Employee) returns (saved: Employee)
      requires Valid()
      modifies this
      ensures Valid()
      ensures saved == e.(id := if e.id in old(records) then e.id else old(nextId))
      ensures saved.id > 0
      ensures records == old(records)[saved.id := saved]
      ensures nextId == if e.id in old(records) then old(nextId) else old(nextId) + 1
      ensures saves == old(saves) + 1
    {
      if e.id in records {
        saved := e;
      } else {
        saved := e.(id := nextId);
        nextId := nextId + 1;
      }
      records := records[saved.id := saved];
      saves := saves + 1;
    }

    /** `deleteById`: removes the row under `id`; an absent id is not an error. */
    method DeleteById(id: int)
      requires Valid()
      modifies this
      ensures Valid()
      ensures records == old(records) - {id}
      ensures nextId == old(nextId) && saves == old(saves)
    {
      records := records - {id};
    }
  }

  /** Deleting an id twice leaves the table as deleting it once does, and
      deleting an absent id leaves it as it was. */
  lemma DeleteIdempotent(records: map<int, Employee>, id: int)
    ensures (records - {id}) - {id} == records - {id}
    ensures id !in records ==> records - {id} == records
  {
  }
}
