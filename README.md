# Environments and objects: ownership, quota and name policy

A Dafny model of a small multi-tenant backend. Authenticated users own named 2D
environments and place 2D objects in them. Two controllers sit over two tables:

- The environment controller checks who is calling and whether they own the
  environment. On create it also checks a per-owner quota of
  `MaxNumberOfEnvironments` (5) and exact-match name uniqueness per owner, in that
  order.
- The object controller has no owner column to check. It loads the object, then
  its environment, and compares that environment's owner with the caller.

The model is organised like the program:

- `Common` holds the shared value types. `Guid` is a 128-bit key, `Int32` is C#'s
  `int`, and `Float32` is the bit pattern of a C# `float`, carried but never
  computed with. It also gives the meaning of the `[Required]`, `[StringLength]`
  and `[Range]` annotations.
- `Environments` and `Objects` are the two records, each with a `Valid()`
  predicate built from its annotations.
- `EnvironmentRepositories` and `ObjectRepositories` model the two SQL
  repositories. A table is a `map<Guid, Record>` keyed by `Id`. The `SELECT`
  queries are functions of that table. `INSERT`, `UPDATE` and `DELETE` are methods
  of a class that holds the table in its `rows` field.
- `ActionResults` is the answer of every action: `Unauthorized`,
  `NotFound(reason)`, `BadRequest(reason)`, `Ok(value)` or `Created(value)`. Each
  free-text message becomes the reason naming which message it was.
- `EnvironmentControllers` and `ObjectControllers` are the two controllers. The
  `Get` actions are functions over the repositories. `Add`, `Update` and `Delete`
  are methods that run the action's checks in the source's order and change the
  table at most once. The caller's identity is an `Option<string>` argument, and
  the id that `Guid.NewGuid()` would produce is a `freshId` argument not already
  in the table.
- `EnvironmentControllers.PolicyHolds` is the invariant over the environment
  table: no owner has more than five environments, and no owner has two
  environments with the same name. Every environment action keeps it.
- `Scenarios` holds client methods that run scenarios based on the environment
  controller's unit tests on an empty store, extended to follow-up calls, to a
  second owner and to object ownership. Their results follow from the actions'
  contracts alone.
- Each repository keeps the invariant `Keyed`: every row is stored under its own
  `Id`, as `WHERE Id = @Id` guarantees. The constructors establish it, and every
  repository statement and controller action requires and keeps it.

Two behaviours of the code are modelled as written:

- Environment `Update` checks the submitted name against the caller's other
  environments. It then stores the original name anyway. So a clash with a name
  that would never be stored still gives `BadRequest(DuplicateName)`.
- Object `Get()` returns every object in the table, whoever owns it. Object
  `Get(objectId)`, `GetByEnvironment` and `Add` answer a foreign environment with
  not-found, not with unauthorized.

## Model

| member | source | states |
|---|---|---|
| `Common.Required` | WebAPI.WebApi/Models/Environment2D.cs:10-12 | `[Required]` on a string accepts it only when some character is not white space, so an accepted value is never empty |
| `Common.RequiredRejectsBlank` | WebAPI.WebApi/Models/Environment2D.cs:10-12 | a string made only of white-space characters fails `[Required]` |
| `Common.RequiredAcceptsAnyVisibleCharacter` | WebAPI.WebApi/Models/Object2D.cs:15-17 | one character that is not white space is enough to pass `[Required]` |
| `Common.StringLength` | WebAPI.WebApi/Models/Environment2D.cs:11-15 | `[StringLength(max)]` lets a null value through and accepts a present one exactly when it has at most `max` characters |
| `Common.InRange` | WebAPI.WebApi/Models/Environment2D.cs:17-21 | `[Range(lo, hi)]` on an `int?` lets a null value through and accepts a present one exactly when it lies in lo..hi; an empty range admits only null |
| `Environments.Environment2D.Valid` | WebAPI.WebApi/Models/Environment2D.cs:10-21 | a valid environment has a name of 1..25 characters, no owner or an owner of at most 450 characters, and each size absent or in 1..10000 |
| `Environments.NewEnvironment2D` | WebAPI.WebApi/Models/Environment2D.cs:8-12 | a freshly constructed environment carries the new id and is invalid until it gets a name |
| `Environments.NamedFreshEnvironmentIsValid` | WebAPI.WebApi/Models/Environment2D.cs:10-21 | giving a fresh environment a name that passes `[Required]` and fits 25 characters makes it valid |
| `Objects.Object2D.Valid` | WebAPI.WebApi/Models/Object2D.cs:12-35 | an object is valid exactly when its `PrefabId` passes `[Required]` and has 1..50 characters; the value-typed `[Required]` fields cannot fail |
| `Objects.NewObject2D` | WebAPI.WebApi/Models/Object2D.cs:10-17 | a freshly constructed object carries the new id and `Guid.Empty` as environment, and is invalid until it gets a prefab |
| `Objects.OnlyPrefabIdDecidesValidity` | WebAPI.WebApi/Models/Object2D.cs:12-35 | two objects with the same `PrefabId` are both valid or both invalid, whatever their other fields hold |
| `EnvironmentRepositories.Read` | WebAPI.WebApi/Repositories/SqlEnvironmentRepository.cs:26-32 | reading by key finds a row exactly when the key is stored, returns that row, and in a keyed table the row carries the requested id |
| `EnvironmentRepositories.ReadAll` | WebAPI.WebApi/Repositories/SqlEnvironmentRepository.cs:34-40 | every row is returned, unchanged, and nothing else |
| `EnvironmentRepositories.ReadByUserId` | WebAPI.WebApi/Repositories/SqlEnvironmentRepository.cs:42-48 | exactly the rows whose owner is the given user are returned, unchanged; ownerless rows match no one |
| `EnvironmentRepositories.ReadByUserIdWithinReadAll` | WebAPI.WebApi/Repositories/SqlEnvironmentRepository.cs:34-48 | one owner never has more rows than the whole table; it bounds every owner's count in `Scenarios.ExistingRowsKeepPolicy` |
| `EnvironmentRepositories.InsertCount` | WebAPI.WebApi/Repositories/SqlEnvironmentRepository.cs:17-24 | inserting under a new key adds one to the new row's owner's count and leaves every other owner's count unchanged |
| `EnvironmentRepositories.OverwriteCount` | WebAPI.WebApi/Repositories/SqlEnvironmentRepository.cs:50-56 | overwriting a row without changing its owner leaves every owner's count unchanged |
| `EnvironmentRepositories.RemoveCount` | WebAPI.WebApi/Repositories/SqlEnvironmentRepository.cs:58-64 | deleting a key takes one from the count of that row's owner and changes no other count |
| `EnvironmentRepositories.SqlEnvironmentRepository.constructor` | WebAPI.WebApi/Repositories/SqlEnvironmentRepository.cs:12-15 | a new repository starts with an empty table |
| `EnvironmentRepositories.SqlEnvironmentRepository.Insert` | WebAPI.WebApi/Repositories/SqlEnvironmentRepository.cs:17-24 | the record is stored under its id, nothing else changes, the same record is returned, and the table stays keyed |
| `EnvironmentRepositories.SqlEnvironmentRepository.Update` | WebAPI.WebApi/Repositories/SqlEnvironmentRepository.cs:50-56 | the matching row takes `Name`, `OwnerUserId`, `MaxLength` and `MaxHeight` from the argument and keeps its `Id`; other rows are unchanged, and an absent id changes nothing |
| `EnvironmentRepositories.SqlEnvironmentRepository.Delete` | WebAPI.WebApi/Repositories/SqlEnvironmentRepository.cs:58-64 | only that key is removed; an absent key changes nothing |
| `ObjectRepositories.Read` | WebAPI.WebApi/Repositories/SqlObjectRepository.cs:26-32 | reading by key finds a row exactly when the key is stored, returns that row, and in a keyed table the row carries the requested id |
| `ObjectRepositories.ReadByEnvironmentId` | WebAPI.WebApi/Repositories/SqlObjectRepository.cs:34-40 | exactly the rows whose `EnvironmentId` is the given one are returned, unchanged |
| `ObjectRepositories.ReadAll` | WebAPI.WebApi/Repositories/SqlObjectRepository.cs:42-48 | every row is returned, unchanged, and nothing else |
| `ObjectRepositories.Overwritten` | WebAPI.WebApi/Repositories/SqlObjectRepository.cs:54 | an overwritten row keeps its own `Id` and takes every other column from the argument |
| `ObjectRepositories.ObjectRepository.constructor` | WebAPI.WebApi/Repositories/SqlObjectRepository.cs:12-15 | a new repository starts with an empty table |
| `ObjectRepositories.ObjectRepository.Insert` | WebAPI.WebApi/Repositories/SqlObjectRepository.cs:17-24 | the record is stored under its id, nothing else changes, the same record is returned, and the table stays keyed |
| `ObjectRepositories.ObjectRepository.Update` | WebAPI.WebApi/Repositories/SqlObjectRepository.cs:50-56 | the matching row takes every column but `Id` from the argument, `EnvironmentId` included; other rows are unchanged, and an absent id changes nothing |
| `ObjectRepositories.ObjectRepository.Delete` | WebAPI.WebApi/Repositories/SqlObjectRepository.cs:58-64 | only that key is removed; an absent key changes nothing |
| `EnvironmentControllers.NameTaken` | WebAPI.WebApi/Controllers/EnvironmentController.cs:65 | `Any(e => e.Name == name)`: when no row has the name, every row's name differs from it; a taken name means the rows are not empty |
| `EnvironmentControllers.NameTakenByOther` | WebAPI.WebApi/Controllers/EnvironmentController.cs:93 | `Any(e => e.Name == name && e.Id != id)`: a clash with another row is a clash; in a keyed table it is the same as `NameTaken` when `id` is absent or its own row has another name |
| `EnvironmentControllers.Owns` | WebAPI.WebApi/Controllers/EnvironmentController.cs:45-46 | the ownership test `environment != null && environment.OwnerUserId == userId`, used again at EnvironmentController.cs:89 and 118 and ObjectController.cs:49, 63, 79, 105 and 132: it holds exactly when the id is among the rows `ReadByUserId` returns for that user |
| `EnvironmentControllers.MayCreate` | WebAPI.WebApi/Controllers/EnvironmentController.cs:59-68 | the two checks `Add` passes before it inserts: the owner has fewer than five environments, and none that the owner holds has the name |
| `EnvironmentControllers.InsertKeepsPolicy` | WebAPI.WebApi/Controllers/EnvironmentController.cs:59-73 | a row that passes the quota and name checks and is inserted under a fresh key with its owner set keeps "at most five per owner" and "names unique per owner" |
| `EnvironmentControllers.OverwriteKeepsPolicy` | WebAPI.WebApi/Controllers/EnvironmentController.cs:98-101 | overwriting a row while keeping its owner and name keeps both invariants |
| `EnvironmentControllers.RemoveKeepsPolicy` | WebAPI.WebApi/Controllers/EnvironmentController.cs:121 | deleting a row keeps both invariants |
| `EnvironmentControllers.EnvironmentController.constructor` | WebAPI.WebApi/Controllers/EnvironmentController.cs:19-24 | the controller works on the repository it is given |
| `EnvironmentControllers.EnvironmentController.ReadEnvironments` | WebAPI.WebApi/Controllers/EnvironmentController.cs:26-36 | with no caller the answer is `Unauthorized`; otherwise it is `Ok` with exactly the environments the caller owns, unchanged |
| `EnvironmentControllers.EnvironmentController.ReadEnvironment` | WebAPI.WebApi/Controllers/EnvironmentController.cs:38-50 | with no caller the answer is `Unauthorized`; the answer is `Ok(row)` exactly when the caller owns that id; an absent id and someone else's environment both get the same `NotFound(EnvironmentNotInAccount)` |
| `EnvironmentControllers.EnvironmentController.Add` | WebAPI.WebApi/Controllers/EnvironmentController.cs:52-75 | with no caller the answer is `Unauthorized`. Five or more owned environments give `BadRequest(TooManyEnvironments)`, checked before the name. An owned environment with exactly that name gives `BadRequest(DuplicateName)`. Otherwise the body is inserted under the fresh id with the caller as owner, whatever id and owner it carried. Every failure leaves the table unchanged, and the quota and name invariants are kept |
| `EnvironmentControllers.EnvironmentController.Update` | WebAPI.WebApi/Controllers/EnvironmentController.cs:77-104 | the checks run in order: no caller gives `Unauthorized`, an absent id `NotFound(EnvironmentNotFound)`, another owner `Unauthorized`, another owned environment with the submitted name `BadRequest(DuplicateName)`. On success the stored row keeps its id, owner and original name and takes `MaxLength` and `MaxHeight` from the body. Failures change nothing, and the invariants are kept |
| `EnvironmentControllers.EnvironmentController.Delete` | WebAPI.WebApi/Controllers/EnvironmentController.cs:107-124 | no caller gives `Unauthorized`, an absent id `NotFound(EnvironmentNotFound)`, another owner `Unauthorized`. Otherwise exactly that row is removed and the answer is `Ok`. Failures change nothing, and the invariants are kept |
| `ObjectControllers.OwnerOf` | WebAPI.WebApi/Controllers/ObjectController.cs:48-49 | an object's owner is some user exactly when its environment exists and is owned by that user |
| `ObjectControllers.ObjectController.constructor` | WebAPI.WebApi/Controllers/ObjectController.cs:18-24 | the controller works on the two repositories it is given |
| `ObjectControllers.ObjectController.ReadObjects` | WebAPI.WebApi/Controllers/ObjectController.cs:26-35 | with no caller the answer is `Unauthorized`; any caller gets `Ok` with every object in the table, with no ownership filter |
| `ObjectControllers.ObjectController.ReadObject` | WebAPI.WebApi/Controllers/ObjectController.cs:37-53 | no caller gives `Unauthorized` and an absent object `NotFound(ObjectNotFound)`. The answer is `Ok(object)` exactly when the caller owns the object's environment. An absent or foreign environment gives `NotFound(ObjectNotInAccount)` |
| `ObjectControllers.ObjectController.ReadObjectsByEnvironment` | WebAPI.WebApi/Controllers/ObjectController.cs:55-68 | no caller gives `Unauthorized`. The answer is `Ok` exactly when the caller owns the environment, and then holds exactly that environment's objects. Otherwise it is `NotFound(EnvironmentNotInAccount)` |
| `ObjectControllers.ObjectController.Add` | WebAPI.WebApi/Controllers/ObjectController.cs:70-87 | no caller gives `Unauthorized`; an environment the caller does not own gives `NotFound(EnvironmentNotInAccount)` and inserts nothing. Otherwise the body goes in under the fresh id, attached to the path environment, its payload unchanged, and its owner is the caller |
| `ObjectControllers.ObjectController.Update` | WebAPI.WebApi/Controllers/ObjectController.cs:89-114 | the checks run in order: no caller gives `Unauthorized`, an absent object `NotFound(ObjectNotFound)`, an absent environment `NotFound(EnvironmentNotFound)`, another owner `Unauthorized`. On success the row takes every field but its id from the body and stays in its original environment, which the caller owns. Failures change nothing |
| `ObjectControllers.ObjectController.Delete` | WebAPI.WebApi/Controllers/ObjectController.cs:116-138 | the same chain as `Update`; on success exactly that object is removed and the answer is `Ok`; failures change nothing |
| `Scenarios.DeleteTwice` | WebAPI.WebApi.Test/EnvironmentControllerTests.cs:67-84 | the test's delete of one's own environment gives `Ok`; a second delete, which the test does not make, gives `NotFound(EnvironmentNotFound)` |
| `Scenarios.DuplicateTown` | WebAPI.WebApi.Test/EnvironmentControllerTests.cs:86-106 | the test's name clash, with "Town" in place of "ExistingEnv": a second "Town" for the same owner gives `BadRequest(DuplicateName)` and is not stored; extended to a second owner, who may still create a "Town" |
| `Scenarios.ExistingRowsKeepPolicy` | WebAPI.WebApi.Test/EnvironmentControllerTests.cs:113-115 | five rows of one owner with the distinct names "Env 0".."Env 3" and "New Env" keep the per-owner quota and name invariant |
| `Scenarios.InsertExistingRows` | WebAPI.WebApi.Test/EnvironmentControllerTests.cs:113-118 | stores those five rows, keyed 1..5 and all owned by the test user, who then holds exactly five environments |
| `Scenarios.SixthEnvironmentRefused` | WebAPI.WebApi.Test/EnvironmentControllerTests.cs:108-129 | from a table that keeps the invariant and where the owner already has five environments, one of them "New Env", a sixth "New Env" gets `BadRequest(TooManyEnvironments)`, not the name error, and the owner still has five |
| `Scenarios.ObjectsStayWithTheirOwner` | WebAPI.WebApi/Controllers/ObjectController.cs:77-113 | not from a test: another user cannot add an object to someone's environment, and an update whose body names another environment leaves the object where it was |

## Left out

- Authentication: the authentication service is not part of this model. The caller's identity is an `Option<string>` argument of each action. The `[Authorize]` challenge and bearer-token handling are framework behaviour.
- GUID generation: `Guid.NewGuid()` becomes a `freshId` argument required to be absent from the table. The repositories' `Insert` likewise requires the key to be new. A duplicate-key failure of the database is not modelled.
- Automatic model validation: the framework answers 400 for a body that fails its annotations before the action runs. The model's actions accept any body. The annotations are modelled only by the `Valid()` predicates.
- A JSON `null` for `Name` or `PrefabId`: both are modelled as non-null strings.
- String lengths: they are counted in Unicode scalar values. C# counts UTF-16 code units, so a character outside the Basic Multilingual Plane counts once here and twice in C#.
- Floating point: position, scale and rotation are stored bit patterns that are never interpreted.
- HTTP details: message text (reduced to which message it is), the `Location` header of `CreatedAtRoute`, route templates, and logging. The unused `environmentId` route value of object `Update` and `Delete` is left out.
- SQL, Dapper, connections, `async`/`Task`: each repository is a map-backed table. A data-store failure, which the code lets propagate unhandled, is not modelled.
- Query result order: SQL without `ORDER BY` gives no order, so query results are sub-tables (maps), not sequences.
- Concurrency: the model is sequential. The read-check-write races on the quota and on name uniqueness between concurrent requests are not represented.
- Deleting an environment does not delete its objects in the code, and the model keeps that. Objects can therefore refer to an absent environment, and the object chain answers those with not-found.
- `Program.cs` (identity provider, DI container, routing, HTTPS) and `AccountManagementController` (a constructor only) have no policy logic.
- The test projects: `Scenarios` follows a few of the environment controller's tests, extended as its comments say; the other tests are not modelled, and the repository tests exercise mocks only.
- `MaxNumberOfEnvironments` is used by the controller and tests but missing from `Environment2D.cs`. It is declared here as the constant 5.
- String equality in `WHERE OwnerUserId = @OwnerUserId` and in name comparisons is modelled as exact. SQL Server compares under its collation, which ignores trailing spaces and is usually case-insensitive; the C# `==` and `!=` of the controllers are ordinal and match the model.
