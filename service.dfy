/** The employee service: the one business rule (an email may not be
    registered twice on creation) in front of the store; every other
    operation passes straight through. */
module Service {
  import opened Wrappers
  import opened Employees
  import opened Repository

  class EmployeeService {
    /** The repository the service was built with. */
    const store: Store
    /** How many times `UpdateEmployee` has been called. */
    ghost var updates: nat

    ghost predicate Valid()
      reads this, store
    {
      store.Valid()
    }

    constructor (store: Store)
      requires store.Valid()
      ensures this.store == store && Valid() && updates == 0
    {
      this.store := store;
      updates := 0;
    }

    /** `saveEmployee`: fails with `DuplicateEmail`, without calling `save`,
        when a stored record already has the email; otherwise saves `e` and
        returns the stored record. */
    method SaveEmployee(e: Employee) returns (r: Result<Employee, ServiceError>)
      requires Valid()
      modifies store
      ensures Valid()
      ensures r.Failure? <==> EmailTaken(old(store.records), e.email)
      ensures r.Failure? ==>
                && r.error == DuplicateEmail(e.email)
                && store.records == old(store.records)
                && store.nextId == old(store.nextId)
                && store.saves == old(store.saves)
      ensures r.Success? ==>
                && r.value.id > 0
                && r.value == e.(id := r.value.id)
                && (e.id in old(store.records) ==> r.value.id == e.id)
                && (e.id !in old(store.records) ==> r.value.id == old(store.nextId) && r.value.id !in old(store.records))
                && store.records == old(store.records)[r.value.id := r.value]
                && store.saves == old(store.saves) + 1
      ensures UniqueEmails(old(store.records)) ==> UniqueEmails(store.records)
    {
      var existing := store.FindByEmail(e.email);
      if existing.Some? {
        return Failure(DuplicateEmail(e.email));
      }
      ghost var before := store.records;
      var saved := store.Save(e);
      if UniqueEmails(before) {
        StoreFreshEmail(before, saved.id, saved);
      }
      r := Success(saved);
    }

    /** `getAllEmployees`: exactly the stored records; empty, never absent,
        when nothing is stored. */
    method GetAllEmployees() returns (list: seq<Employee>)
      requires Valid()
      ensures Lists(list, store.records)
    {
      list := store.FindAll();
    }

    /** `getEmployeeById`: the record under `id`, or nothing; a missing id
        is not an error. */
    method GetEmployeeById(id: int) returns (r: Option<Employee>)
      requires Valid()
      ensures r.Some? <==> id in store.records
      ensures r.Some? ==> r.value == store.records[id]
    {
      r := store.FindById(id);
    }

    /** `updateEmployee`: saves `e` as it is, with no email check. For a
        stored id this overwrites that record and returns `e`. */
    method UpdateEmployee(e: Employee) returns (r: Employee)
      requires Valid()
      modifies this, store
      ensures Valid()
      ensures e.id in old(store.records) ==>
                && r == e
                && store.records == old(store.records)[e.id := e]
                && store.nextId == old(store.nextId)
      ensures e.id !in old(store.records) ==>
                && r == e.(id := old(store.nextId))
                && store.records == old(store.records)[r.id := r]
      ensures store.saves == old(store.saves) + 1
      ensures updates == old(updates) + 1
    {
      r := store.Save(e);
      updates := updates + 1;
    }

    /** `deleteById`: removes the record under `id`, if there is one. */
    method DeleteById(id: int)
      requires Valid()
      modifies store
      ensures Valid()
      ensures store.records == old(store.records) - {id}
      ensures store.nextId == old(store.nextId) && store.saves == old(store.saves)
    {
      store.DeleteById(id);
    }
  }
}
