/** The Employee entity and the facts about a table of employees that the
    service and the controller rely on. */
module Employees {

  /** One employee record. `id` is the key the store assigns; the other three
      fields are free text that the core never validates. */
  datatype Employee = Employee(id: int, firstName: string, lastName: string, email: string)

  /** The one error the service raises: creating an employee whose email is
      already stored. */
  datatype ServiceError = DuplicateEmail(email: string)
  {
    /** The text the service puts into the exception it throws: the colliding
        email between a fixed prefix and a fixed suffix. */
    function Message(): (m: string)
      ensures |m| == |MessagePrefix| + |email| + |MessageSuffix|
      ensures m[..|MessagePrefix|] == MessagePrefix
      ensures m[|MessagePrefix|..|m| - |MessageSuffix|] == email
      ensures m[|m| - |MessageSuffix|..] == MessageSuffix
    {
      MessagePrefix + email + MessageSuffix
    }
  }

  const MessagePrefix := "Employee with email "
  const MessageSuffix := " already exists"

  /** The message identifies the colliding email: two errors with the same
      text are about the same email. */
  lemma {:induction false} MessageNamesEmail(a: ServiceError, b: ServiceError)
    requires a.Message() == b.Message()
    ensures a == b
  {
    var m := a.Message();
    assert a.email == m[|MessagePrefix|..|m| - |MessageSuffix|];
    assert b.email == m[|MessagePrefix|..|m| - |MessageSuffix|];
  }

  /** The store's table is well formed: every key is positive, lies below the
      next id the store will hand out, and is the id of the record under it. */
  ghost predicate Consistent(records: map<int, Employee>, nextId: int) {
    && nextId >= 1
    && forall k :: k in records ==> 0 < k < nextId && records[k].id == k
  }

  /** Some stored record carries `email`. */
  ghost predicate EmailTaken(records: map<int, Employee>, email: string) {
    exists k :: k in records && records[k].email == email
  }

  /** No two stored records share an email. */
  ghost predicate UniqueEmails(records: map<int, Employee>) {
    forall j, k :: j in records && k in records && records[j].email == records[k].email ==> j == k
  }

  /** `list` holds exactly the records stored under the keys in `keys`, each
      once, in some order. */
  ghost predicate ListsKeys(list: seq<Employee>, records: map<int, Employee>, keys: set<int>) {
    && |list| == |keys|
    && (forall i :: 0 <= i < |list| ==> list[i].id in keys && list[i].id in records && records[list[i].id] == list[i])
    && (forall k :: k in keys ==> k in records && records[k] in list)
    && (forall i, j :: 0 <= i < j < |list| ==> list[i].id != list[j].id)
  }

  /** The stored keys below `bound`. */
  ghost function KeysBelow(records: map<int, Employee>, bound: int): set<int> {
    set k | k in records && k < bound
  }

  /** `list` holds exactly the stored records, each once, in some order. */
  ghost predicate Lists(list: seq<Employee>, records: map<int, Employee>) {
    ListsKeys(list, records, records.Keys)
  }

  /** Appending the record under a key not yet listed extends a partial listing
      by that key. */
  lemma ListsKeysAppend(list: seq<Employee>, records: map<int, Employee>, keys: set<int>, k: int)
    requires ListsKeys(list, records, keys)
    requires k in records && k !in keys && records[k].id == k
    ensures ListsKeys(list + [records[k]], records, keys + {k})
  {
  }

  /** Storing a record whose email no stored record carries, under any key,
      keeps emails unique. */
  lemma StoreFreshEmail(records: map<int, Employee>, key: int, e: Employee)
    requires UniqueEmails(records)
    requires !EmailTaken(records, e.email)
    ensures UniqueEmails(records[key := e])
  {
  }

  /** Overwriting a stored record without looking at the other records' emails
      (what an update does) can break uniqueness. */
  lemma OverwriteCanDuplicateEmail()
    ensures exists records: map<int, Employee>, e: Employee ::
              && Consistent(records, 3)
              && UniqueEmails(records)
              && e.id in records
              && !UniqueEmails(records[e.id := e])
  {
    var first := Employee(1, "Ada", "Lovelace", "ada@x.com");
    var second := Employee(2, "Grace", "Hopper", "grace@x.com");
    var records: map<int, Employee> := map[1 := first, 2 := second];
    var e := first.(email := second.email);
    var updated := records[e.id := e];
    assert updated[1].email == updated[2].email;
    assert UniqueEmails(records) by {
      forall j, k | j in records && k in records && records[j].email == records[k].email
        ensures j == k
      {
        assert j == 1 || j == 2;
        assert k == 1 || k == 2;
      }
    }
    // The witnesses for the existential.
    assert Consistent(records, 3) && UniqueEmails(records) && e.id in records && !UniqueEmails(updated);
  }

  /** A listing of an empty table is the empty sequence, never anything else. */
  lemma ListOfEmpty(list: seq<Employee>)
    requires Lists(list, map[])
    ensures list == []
  {
  }
}
