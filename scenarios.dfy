/** Client runs of the whole stack (store, service, controller) from an empty
    store, showing what the contracts alone let a caller conclude. */
module Scenarios {
  import opened Wrappers
  import opened Employees
  import opened Repository
  import opened Service
  import opened Controller

  /** A controller over a fresh, empty store. */
  method EmptyStack() returns (controller: EmployeeController)
    ensures fresh(controller) && fresh(controller.service) && fresh(controller.service.store)
    ensures controller.Valid() && controller.service.store.records == map[]
    ensures controller.service.store.nextId == 1
  {
    var store := new Store();
    var service := new EmployeeService(store);
    controller := new EmployeeController(service);
  }

  /** Create, read, update, delete, read again. */
  method CreateReadUpdateDelete() returns (id: int, created: Response, fetched: Response, updated: Response,
                                           deleted: Response, missing: Response)
    ensures id > 0
    ensures created == Response(CREATED, Record(Employee(id, "Ada", "Lovelace", "ada@x.com")))
    ensures fetched == Response(OK, Record(Employee(id, "Ada", "Lovelace", "ada@x.com")))
    ensures updated == Response(OK, Record(Employee(id, "Ada", "L", "ada2@x.com")))
    ensures deleted == Response(OK, Text(DELETED))
    ensures missing == Response(NOT_FOUND, Empty)
  {
    var controller := EmptyStack();
    var c := controller.CreateEmployee(Employee(0, "Ada", "Lovelace", "ada@x.com"));
    created := c.value;
    id := created.body.employee.id;
    fetched := controller.GetEmployeeById(id);
    updated := controller.UpdateEmployee(id, Employee(0, "Ada", "L", "ada2@x.com"));
    deleted := controller.DeleteEmployeeById(id);
    missing := controller.GetEmployeeById(id);
  }

  /** A second create with an email already stored fails, and the listing
      still holds only the first record. */
  method CreateDuplicate() returns (first: Result<Response, ServiceError>, second: Result<Response, ServiceError>,
                                    listing: Response)
    ensures first.Success? && first.value.status == CREATED
    ensures second == Failure(DuplicateEmail("ada@x.com"))
    ensures listing.status == OK && listing.body.Records? && |listing.body.employees| == 1
  {
    var controller := EmptyStack();
    first := controller.CreateEmployee(Employee(0, "Ada", "Lovelace", "ada@x.com"));
    second := controller.CreateEmployee(Employee(0, "Augusta", "King", "ada@x.com"));
    listing := controller.GetAllEmployees();
  }

  /** Listing an empty store gives 200 and an empty list; after two creates
      with different emails it gives both records. */
  method ListEmptyThenTwo() returns (empty: Response, two: Response)
    ensures empty == Response(OK, Records([]))
    ensures two.status == OK && two.body.Records? && |two.body.employees| == 2
  {
    var controller := EmptyStack();
    empty := controller.GetAllEmployees();
    ListOfEmpty(empty.body.employees);
    var a := controller.CreateEmployee(Employee(0, "Somtochukwu", "Mbah", "victorsomtochukwu@gmail.com"));
    var b := controller.CreateEmployee(Employee(0, "Chukwuemeka", "Azubuine", "azubuine.emeka@gmail.com"));
    two := controller.GetAllEmployees();
    assert controller.service.store.records.Keys == {a.value.body.employee.id, b.value.body.employee.id};
  }

  /** Updating an id that is not stored answers 404 in every case, and
      deleting it answers 200, twice over. */
  method MissingId(id: int) returns (updated: Response, deleted: Response, deletedAgain: Response)
    ensures updated == Response(NOT_FOUND, Empty)
    ensures deleted == Response(OK, Text(DELETED)) && deletedAgain == deleted
  {
    var controller := EmptyStack();
    updated := controller.UpdateEmployee(id, Employee(id, "Victor", "Mbadady", "sopiaNnadi@gmail.com"));
    deleted := controller.DeleteEmployeeById(id);
    deletedAgain := controller.DeleteEmployeeById(id);
  }
}
