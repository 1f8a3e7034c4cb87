/** The request handler for `/api/employees`: turns the service's results
    into (status, body) responses. */
module Controller {
  import opened Wrappers
  import opened Employees
  import opened Service

  /** What a response carries. */
  datatype Body =
    | Record(employee: Employee)
    | Records(employees: seq<Employee>)
    | Text(text: string)
    | Empty

  datatype Response = Response(status: int, body: Body)

  const OK := 200
  const CREATED := 201
  const NOT_FOUND := 404

  /** The confirmation every delete answers with. */
  const DELETED := "Employee deleted successfully"

  /** `Optional.map(ResponseEntity::ok).orElseGet(notFound)`: 200 with the
      record when there is one, 404 with an empty body when there is not. */
  function OkOrNotFound(found: Option<Employee>): (resp: Response)
    ensures resp.status == OK <==> found.Some?
    ensures resp.status == NOT_FOUND <==> found.None?
    ensures found.Some? ==> resp.body == Record(found.value)
    ensures found.None? ==> resp.body == Empty
  {
    match found
    case Some(e) => Response(OK, Record(e))
    case None => Response(NOT_FOUND, Empty)
  }

  /** The loaded record after the three setters of the update endpoint: email,
      first and last name come from the request, everything else (the id)
      from the stored record. */
  function Merged(saved: Employee, request: Employee): (r: Employee)
    ensures r.id == saved.id
    ensures r.email == request.email && r.firstName == request.firstName && r.lastName == request.lastName
  {
    saved.(email := request.email, firstName := request.firstName, lastName := request.lastName)
  }

  /** The id carried in a request body has no effect on the merge: the path
      id (through the stored record) is authoritative. */
  lemma MergedIgnoresRequestId(saved: Employee, request: Employee, otherId: int)
    ensures Merged(saved, request.(id := otherId)) == Merged(saved, request)
  {
  }

  /** Merging a record into itself changes nothing, and merging the same
      request twice is the same as merging it once. */
  lemma MergedIdempotent(saved: Employee, request: Employee)
    ensures Merged(saved, saved) == saved
    ensures Merged(Merged(saved, request), request) == Merged(saved, request)
  {
  }

  class EmployeeController {
    /** The service the controller was built with. */
    const service: EmployeeService

    ghost predicate Valid()
      reads this, service, service.store
    {
      service.Valid()
    }

    constructor (service: EmployeeService)
      requires service.Valid()
      ensures this.service == service && Valid()
    {
      this.service := service;
    }

    /** POST: 201 with the record the service stored. A duplicate email makes
        the service fail; that failure propagates unchanged and nothing is
        stored. */
    method CreateEmployee(request: Employee) returns (r: Result<Response, ServiceError>)
      requires Valid()
      modifies service.store
      ensures Valid()
      ensures r.Success? <==> !EmailTaken(old(service.store.records), request.email)
      ensures r.Success? ==>
                && r.value.status == CREATED
                && r.value.body.Record?
                && var stored := r.value.body.employee;
                && stored.id > 0
                && stored == request.(id := stored.id)
                && (request.id in old(service.store.records) ==> stored.id == request.id)
                && (request.id !in old(service.store.records) ==> stored.id !in old(service.store.records))
                && service.store.records == old(service.store.records)[stored.id := stored]
                && service.store.saves == old(service.store.saves) + 1
      ensures r.Failure? ==>
                && r.error == DuplicateEmail(request.email)
                && service.store.records == old(service.store.records)
                && service.store.nextId == old(service.store.nextId)
                && service.store.saves == old(service.store.saves)
    {
      var saved := service.SaveEmployee(request);
      match saved
      case Success(e) => r := Success(Response(CREATED, Record(e)));
      case Failure(err) => r := Failure(err);
    }

    /** GET all: 200 with exactly the stored records. */
    method GetAllEmployees() returns (resp: Response)
      requires Valid()
      ensures resp.status == OK && resp.body.Records?
      ensures Lists(resp.body.employees, service.store.records)
    {
      var list := service.GetAllEmployees();
      resp := Response(OK, Records(list));
    }

    /** GET one: 200 with the stored record, or 404 with an empty body. */
    method GetEmployeeById(id: int) returns (resp: Response)
      requires Valid()
      ensures id in service.store.records ==> resp == Response(OK, Record(service.store.records[id]))
      ensures id !in service.store.records ==> resp == Response(NOT_FOUND, Empty)
    {
      var found := service.GetEmployeeById(id);
      resp := OkOrNotFound(found);
    }

    /** PUT: for a stored id, copies email, first and last name from the
        request onto the stored record, saves it through the service and
        answers 200 with it; for a missing id answers 404 without calling the
        service's update. */
    method UpdateEmployee(id: int, request: Employee) returns (resp: Response)
      requires Valid()
      modifies service, service.store
      ensures Valid()
      ensures id !in old(service.store.records) ==>
                && resp == Response(NOT_FOUND, Empty)
                && service.store.records == old(service.store.records)
                && service.store.nextId == old(service.store.nextId)
                && service.store.saves == old(service.store.saves)
                && service.updates == old(service.updates)
      ensures id in old(service.store.records) ==>
                var updated := Merged(old(service.store.records)[id], request);
                && updated.id == id
                && resp == Response(OK, Record(updated))
                && service.store.records == old(service.store.records)[id := updated]
                && service.store.nextId == old(service.store.nextId)
                && service.store.saves == old(service.store.saves) + 1
                && service.updates == old(service.updates) + 1
    {
      var found := service.GetEmployeeById(id);
      match found
      case None =>
        resp := Response(NOT_FOUND, Empty);
      case Some(savedEmployee) =>
        var merged := Merged(savedEmployee, request);
        var updated := service.UpdateEmployee(merged);
        resp := Response(OK, Record(updated));
    }

    /** DELETE: removes the record under `id` if any and always answers 200
        with the fixed confirmation. */
    method DeleteEmployeeById(id: int) returns (resp: Response)
      requires Valid()
      modifies service.store
      ensures Valid()
      ensures resp == Response(OK, Text(DELETED))
      ensures id !in service.store.records
      ensures service.store.records == old(service.store.records) - {id}
      ensures service.store.nextId == old(service.store.nextId) && service.store.saves == old(service.store.saves)
    {
      service.DeleteById(id);
      resp := Response(OK, Text(DELETED));
    }
  }
}
