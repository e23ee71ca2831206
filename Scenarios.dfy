/**
 * Clients of the controllers that run, on a fresh empty store, scenarios based
 * on the environment controller's unit tests, extended to follow-up calls, to a
 * second owner and to object ownership. Each result follows from the actions'
 * contracts alone.
 */
module Scenarios {
  import opened Common
  import opened Environments
  import opened Objects
  import opened EnvironmentRepositories
  import ObjectRepositories
  import opened ActionResults
  import opened EnvironmentControllers
  import opened ObjectControllers

  /** No row of an empty table belongs to anyone. */
  lemma EmptyTableOwnsNothing(userId: string)
    ensures ReadByUserId(map[], userId) == map[]
  {
  }

  /** An environment is created and deleted; deleting it again finds nothing. */
  method DeleteTwice() returns (first: ActionResult<()>, second: ActionResult<()>)
    ensures first == Ok(())
    ensures second == NotFound(EnvironmentNotFound)
  {
    var repository := new SqlEnvironmentRepository();
    var controller := new EnvironmentController(repository);
    EmptyTableOwnsNothing("test-user");
    var created := controller.Add(Some("test-user"), NewEnvironment2D(7).(name := "Env to Delete"), 1);
    first := controller.Delete(Some("test-user"), 1);
    second := controller.Delete(Some("test-user"), 1);
  }

  /** A second environment named "Town" for the same owner is refused and not stored; another owner may use the name. */
  method DuplicateTown() returns (first: ActionResult<Environment2D>, second: ActionResult<Environment2D>,
                                  other: ActionResult<Environment2D>, count: nat)
    ensures first.Created? && first.created.name == "Town"
    ensures second == BadRequest(DuplicateName)
    ensures other.Created? && other.created.ownerUserId == Some("B")
    ensures count == 1
  {
    var repository := new SqlEnvironmentRepository();
    var controller := new EnvironmentController(repository);
    EmptyTableOwnsNothing("A");
    first := controller.Add(Some("A"), NewEnvironment2D(0).(name := "Town"), 1);
    InsertCount(map[], 1, first.created, "A");
    InsertCount(map[], 1, first.created, "B");
    assert ReadByUserId(repository.rows, "A")[1].name == "Town";
    second := controller.Add(Some("A"), NewEnvironment2D(0).(name := "Town"), 2);
    assert ReadByUserId(repository.rows, "B") == map[];
    other := controller.Add(Some("B"), NewEnvironment2D(0).(name := "Town"), 2);
    InsertCount(map[1 := first.created], 2, other.created, "A");
    count := |ReadByUserId(repository.rows, "A")|;
  }

  /** The names of the five rows an owner already has: four distinct "Env i", then "New Env". */
  function ExistingName(k: Guid): string
  {
    if k == 1 then "Env 0" else if k == 2 then "Env 1" else if k == 3 then "Env 2" else if k == 4 then "Env 3"
    else "New Env"
  }

  /** Five rows of one owner, named by `ExistingName`, keep the controller's invariant. */
  lemma ExistingRowsKeepPolicy(t: Table)
    requires forall j :: j in t ==> 1 <= j <= 5 && t[j].name == ExistingName(j)
    requires forall j :: j in t ==> t[j].ownerUserId == Some("test-user")
    requires |t| == 5
    ensures PolicyHolds(t)
  {
    forall userId: string
      ensures |ReadByUserId(t, userId)| <= MaxNumberOfEnvironments
    {
      ReadByUserIdWithinReadAll(t, userId);
    }
    forall k1, k2 | k1 in t && k2 in t && k1 != k2
      ensures t[k1].name != t[k2].name
    {
      var n1, n2 := ExistingName(k1), ExistingName(k2);
      assert n1 != n2 by {
        if k1 == 5 || k2 == 5 {
          assert |n1| != |n2|;
        } else {
          assert n1[4] != n2[4];
        }
      }
    }
  }

  /** The row stored under `k`: a fresh environment of "test-user", named by `ExistingName`. */
  function ExistingRow(k: Guid): Environment2D
  {
    NewEnvironment2D(k).(name := ExistingName(k), ownerUserId := Some("test-user"))
  }

  /** Stores the five rows of "test-user" directly, under the keys 1..5 and named by `ExistingName`. */
  method InsertExistingRows(repository: SqlEnvironmentRepository)
    requires repository.rows == map[]
    modifies repository
    ensures Keyed(repository.rows)
    ensures forall j :: j in repository.rows ==> 1 <= j <= 5 && repository.rows[j].name == ExistingName(j)
    ensures forall j :: j in repository.rows ==> repository.rows[j].ownerUserId == Some("test-user")
    ensures |repository.rows| == 5 && 5 in repository.rows
    ensures |ReadByUserId(repository.rows, "test-user")| == MaxNumberOfEnvironments
  {
    var k: Guid := 1;
    while k <= 5
      invariant 1 <= k <= 6
      invariant forall j :: j in repository.rows ==> 1 <= j < k && repository.rows[j] == ExistingRow(j)
      invariant k > 1 ==> k - 1 in repository.rows
      invariant |repository.rows| == k as int - 1
    {
      var row := repository.Insert(ExistingRow(k));
      k := k + 1;
    }
    assert ReadByUserId(repository.rows, "test-user") == repository.rows;
  }

  /**
   * An owner who already has five environments, one of them "New Env", is refused a
   * sixth "New Env" for the quota, not for the name. The five rows satisfy the
   * controller's invariant, as every state that the controller's own actions produce does.
   */
  method SixthEnvironmentRefused() returns (sixth: ActionResult<Environment2D>, count: nat, ghost existing: Table)
    ensures PolicyHolds(existing)
    ensures |ReadByUserId(existing, "test-user")| == MaxNumberOfEnvironments
    ensures NameTaken(ReadByUserId(existing, "test-user"), "New Env")
    ensures sixth == BadRequest(TooManyEnvironments)
    ensures count == MaxNumberOfEnvironments
  {
    var repository := new SqlEnvironmentRepository();
    var controller := new EnvironmentController(repository);
    InsertExistingRows(repository);
    existing := repository.rows;
    ExistingRowsKeepPolicy(existing);
    assert 5 in existing;
    sixth := controller.Add(Some("test-user"), NewEnvironment2D(0).(name := "New Env"), 6);
    count := |ReadByUserId(repository.rows, "test-user")|;
  }

  /** Another user cannot put an object into A's environment, and A's object cannot be moved by its update body. */
  method ObjectsStayWithTheirOwner() returns (intruder: ActionResult<Object2D>, moved: ActionResult<Object2D>,
                                              stored: Object2D)
    ensures intruder == NotFound(EnvironmentNotInAccount)
    ensures moved.Ok? && moved.value.environmentId == 1
    ensures stored.environmentId == 1 && stored.prefabId == "Tree"
  {
    var environments := new SqlEnvironmentRepository();
    var objects := new ObjectRepositories.ObjectRepository();
    var environmentController := new EnvironmentController(environments);
    var objectController := new ObjectController(objects, environments);
    EmptyTableOwnsNothing("A");
    var town := environmentController.Add(Some("A"), NewEnvironment2D(0).(name := "Town"), 1);
    intruder := objectController.Add(Some("B"), 1, NewObject2D(0).(prefabId := "Rock"), 10);
    var tree := objectController.Add(Some("A"), 1, NewObject2D(0).(prefabId := "Tree", environmentId := 2), 11);
    moved := objectController.Update(Some("A"), 11, tree.created.(environmentId := 2));
    stored := objects.rows[11];
  }
}
