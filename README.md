# Employee CRUD service — a Dafny model

This project models the business layer of a small Spring Boot web service that
manages Employee records (id, first name, last name, email) under
`/api/employees`. The model has two parts:

- **EmployeeService.** A service enforces one rule: an employee whose email is
  already stored cannot be created. Every other operation passes straight
  through to the repository.
- **EmployeeController.** A controller maps the service results to HTTP
  responses: 201 on create, 200 on list, 200 or 404 on read, 200 or 404 on
  update, and 200 on delete.

The Spring Data repository is not part of the source. It is modelled as the
class `Repository.Store`: an id-keyed map `records` plus a counter
`nextId` that hands out fresh ids. Its methods are the five repository calls
the service makes.

Modules, one per file:

- `Wrappers` (wrappers.dfy): `Option` for Java's `Optional` and `Result` for
  "returns a value or throws".
- `Employees` (employees.dfy): the `Employee` datatype and the `DuplicateEmail`
  error. It also defines the predicates over a table of employees:
  - `Consistent`: every key is positive, below `nextId`, and is its record's id.
  - `EmailTaken`: some stored record has the email.
  - `UniqueEmails`: no two stored records share an email.
  - `Lists`: a sequence holds exactly the stored records.

  The lemmas about email uniqueness are here too.
- `Repository` (repository.dfy): the `Store` class.
- `Service` (service.dfy): the `EmployeeService` class. It holds a `Store`.
- `Controller` (controller.dfy): response datatypes, the pure response mappings,
  and the `EmployeeController` class. The class holds an `EmployeeService`.
- `Scenarios` (scenarios.dfy): client runs of the whole stack from an empty
  store. They mirror the test suites, and they show what a caller can conclude
  from the contracts alone.

Modelling decisions:

- Java's `long` ids are unbounded `int`s. A request body without an id
  (Java `null`) is any id that is not stored, for example 0.
- `Store.Save` overwrites the record under `e.id` when that id is stored.
  Otherwise it inserts `e` under `nextId`, and any id in `e` is ignored.
- Exceptions become `Failure` values. The service's duplicate-email exception is
  `Failure(DuplicateEmail(email))`, and `ServiceError.Message` gives the
  exception's text.
- Two ghost counters let contracts say that a call did **not** happen.
  `Store.saves` counts calls to `save`. `EmployeeService.updates` counts calls
  to the service's `updateEmployee`. This is how the model states the tests'
  "save is never invoked" and "update is never invoked".
- Requests run one after another. Spring routing, dependency injection and JSON
  conversion are replaced by plain method calls on objects passed to
  constructors.

## Model

| member | source | states |
|---|---|---|
| Repository.Store.FindById | src/main/java/com/mbaday/springboottesting/service/serviceImpl/EmployeeServiceImpl.java:49 | returns Some(record) exactly when the id is stored, and that record; None otherwise |
| Repository.Store.FindByEmail | src/main/java/com/mbaday/springboottesting/service/serviceImpl/EmployeeServiceImpl.java:28 | returns a record exactly when some stored record has the email; the record returned has that email and is the one stored under its id |
| Repository.Store.FindAll | src/main/java/com/mbaday/springboottesting/service/serviceImpl/EmployeeServiceImpl.java:38 | returns every stored record exactly once (length equals the number of records, no id twice, nothing else) |
| Repository.Store.Save | src/main/java/com/mbaday/springboottesting/service/serviceImpl/EmployeeServiceImpl.java:33 | overwrites the stored record with the same id, or inserts under a fresh positive id; returns the stored record; the table stays consistent and only that key changes |
| Repository.Store.DeleteById | src/main/java/com/mbaday/springboottesting/service/serviceImpl/EmployeeServiceImpl.java:59 | the id is gone afterwards, every other record is kept, and an absent id is not an error |
| Repository.DeleteIdempotent | src/main/java/com/mbaday/springboottesting/service/serviceImpl/EmployeeServiceImpl.java:58-60 | deleting twice equals deleting once; deleting an absent id changes nothing |
| Employees.StoreFreshEmail | src/main/java/com/mbaday/springboottesting/service/serviceImpl/EmployeeServiceImpl.java:26-34 | storing a record whose email no stored record has, under any key, keeps emails unique |
| Employees.OverwriteCanDuplicateEmail | src/main/java/com/mbaday/springboottesting/service/serviceImpl/EmployeeServiceImpl.java:53-55 | a consistent table with unique emails exists where overwriting one record (as update does, unchecked) makes two records share an email |
| Employees.ServiceError.Message | src/main/java/com/mbaday/springboottesting/service/serviceImpl/EmployeeServiceImpl.java:31 | the exception text is "Employee with email ", then the colliding email, then " already exists" |
| Employees.MessageNamesEmail | src/main/java/com/mbaday/springboottesting/service/serviceImpl/EmployeeServiceImpl.java:31 | two duplicate-email errors with the same text name the same email |
| Employees.ListOfEmpty | src/test/java/com/mbaday/springboottesting/service/EmployeeServiceTests.java:116-133 | the listing of an empty table is the empty sequence |
| Service.EmployeeService.SaveEmployee | src/main/java/com/mbaday/springboottesting/service/serviceImpl/EmployeeServiceImpl.java:26-34 | fails with DuplicateEmail exactly when the email is stored, and then nothing changes and save is not called; otherwise the returned record has a positive id and the input's names and email, it is stored under its id with nothing else changed, and email uniqueness is preserved |
| Service.EmployeeService.GetAllEmployees | src/main/java/com/mbaday/springboottesting/service/serviceImpl/EmployeeServiceImpl.java:37-39 | returns exactly the stored records (an empty sequence on an empty store) |
| Service.EmployeeService.GetEmployeeById | src/main/java/com/mbaday/springboottesting/service/serviceImpl/EmployeeServiceImpl.java:42-50 | returns Some(record) exactly when the id is stored, None otherwise, and changes nothing |
| Service.EmployeeService.UpdateEmployee | src/main/java/com/mbaday/springboottesting/service/serviceImpl/EmployeeServiceImpl.java:53-55 | saves without any email check; for a stored id it returns its argument, which is now stored under that id, and no other record changes |
| Service.EmployeeService.DeleteById | src/main/java/com/mbaday/springboottesting/service/serviceImpl/EmployeeServiceImpl.java:58-60 | the id is absent afterwards, no other record changes, and a missing id is not an error |
| Controller.OkOrNotFound | src/main/java/com/mbaday/springboottesting/controller/EmployeeController.java:36-38 | status 200 with the record exactly when one is present; 404 with an empty body exactly when it is absent |
| Controller.Merged | src/main/java/com/mbaday/springboottesting/controller/EmployeeController.java:45-47 | the merged record keeps the stored record's id and takes email, first and last name from the request |
| Controller.MergedIgnoresRequestId | src/main/java/com/mbaday/springboottesting/controller/EmployeeController.java:42-51 | the id in the request body has no effect on the merged record |
| Controller.MergedIdempotent | src/main/java/com/mbaday/springboottesting/controller/EmployeeController.java:45-47 | merging a record into itself changes nothing; merging the same request twice equals merging it once |
| Controller.EmployeeController.CreateEmployee | src/main/java/com/mbaday/springboottesting/controller/EmployeeController.java:23-27 | 201 with the stored record (positive id, request's fields) when the email is new; otherwise the DuplicateEmail failure propagates and the store is unchanged with no save |
| Controller.EmployeeController.GetAllEmployees | src/main/java/com/mbaday/springboottesting/controller/EmployeeController.java:29-32 | 200 with exactly the stored records |
| Controller.EmployeeController.GetEmployeeById | src/main/java/com/mbaday/springboottesting/controller/EmployeeController.java:34-39 | 200 with the stored record when the id is present; 404 with an empty body when absent |
| Controller.EmployeeController.UpdateEmployee | src/main/java/com/mbaday/springboottesting/controller/EmployeeController.java:41-53 | missing id: 404, empty body, store unchanged, service update not called; present id: 200 with the stored record carrying the path id and the request's email and names; only that entry of the store changes |
| Controller.EmployeeController.DeleteEmployeeById | src/main/java/com/mbaday/springboottesting/controller/EmployeeController.java:55-59 | always 200 with "Employee deleted successfully"; afterwards the id is absent and every other record is kept |
| Scenarios.CreateReadUpdateDelete | src/test/java/com/mbaday/springboottesting/integration/EmployeeControllerITests.java:49-253 | from an empty store: create gives 201 with a positive id, read gives 200 with the same fields, update gives 200 with the new fields and the same id, delete gives 200, and a second read gives 404 |
| Scenarios.CreateDuplicate | src/test/java/com/mbaday/springboottesting/service/EmployeeServiceTests.java:72-88 | a second create with a stored email fails with DuplicateEmail, and the listing still has one record |
| Scenarios.ListEmptyThenTwo | src/test/java/com/mbaday/springboottesting/service/EmployeeServiceTests.java:93-133 | an empty store lists as 200 with an empty list; after two creates with different emails the list has size 2 |
| Scenarios.MissingId | src/test/java/com/mbaday/springboottesting/controller/EmployeeControllerTests.java:206-260 | updating an id that is not stored gives 404; deleting it gives 200 with the confirmation, and so does deleting it again |

## Left out

- Spring routing, annotations and dependency injection: these are framework plumbing. Routes are plain methods, and wiring is done by constructor arguments.
- JSON conversion (Jackson) and MockMvc request building: these are foreign library code. Bodies are Dafny values.
- The JPA/Hibernate repository implementation: its source is not part of this model. This includes the id-generation strategy and the custom queries `findByJPQL`, `findByJPQLNamedParam`, `findByNativeSQL` and `findByNativeSQLNamedParam`. The repository is the abstract `Store`.
- The HTTP status a duplicate-email error turns into: the exception class and any exception mapping are not part of this model. The error stays a distinguishable `Failure` result.
- The MySQL Testcontainers setup: this is infrastructure.
- Concurrency, including the check-then-save race on create: the model runs requests one after another.
- Repository.Store.FindByEmail: when several stored records share an email, Spring Data's `findByEmail` throws an "incorrect result size" exception. The model returns one of the matching records instead. On the create path both give a failed create that stores nothing.
- Repository.Store.FindByEmail: the model matches emails by exact string equality. In the source, "the same email" is whatever the database's `email = ?` comparison matches, and MySQL's default collation ignores case and accents, so "Ada@x.com" would collide with "ada@x.com" there but not in the model. The database collation is not modelled.
- Repository.Store.Save: the id counter is unbounded, so the model does not capture overflow of Java's `long`.
- Repository.Store.FindAll: it lists records in id order, while the source promises no order. The contract states only "each stored record exactly once".
- In-place mutation in the update endpoint: the controller calls setters on the loaded entity, which in JPA may be a managed object. The model copies values instead, so the stored record changes only through the service's `updateEmployee`.
