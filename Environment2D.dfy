/** The stored environment record and the constraints its annotations declare. */
module Environments {
  import opened Common

  /** How many environments one owner may hold. */
  const MaxNumberOfEnvironments: nat := 5

  datatype Environment2D = Environment2D(
    id: Guid,
    name: string,
    ownerUserId: Option<string>,
    maxLength: Option<Int32>,
    maxHeight: Option<Int32>)
  {
    /**
     * The annotations: `Name` is required and at most 25 characters, a present
     * `OwnerUserId` is at most 450 characters, and each present size lies in 1..10000.
     */
    predicate Valid()
      ensures Valid() ==> 0 < |name| <= 25
      ensures Valid() && ownerUserId.Some? ==> |ownerUserId.value| <= 450
      ensures Valid() && maxLength.Some? ==> 1 <= maxLength.value as int <= 10000
      ensures Valid() && maxHeight.Some? ==> 1 <= maxHeight.value as int <= 10000
    {
      && Required(name)
      && StringLength(Some(name), 25)
      && StringLength(ownerUserId, 450)
      && InRange(maxLength, 1, 10000)
      && InRange(maxHeight, 1, 10000)
    }
  }

  /** `new Environment2D()`: a new id, an empty name and every nullable field null. */
  function NewEnvironment2D(newId: Guid): (e: Environment2D)
    ensures e.id == newId
    ensures !e.Valid()
  {
    Environment2D(newId, "", None, None, None)
  }

  /** Setting a name that has a visible character and fits makes the fresh record valid. */
  lemma NamedFreshEnvironmentIsValid(newId: Guid, name: string)
    requires Required(name) && |name| <= 25
    ensures NewEnvironment2D(newId).(name := name).Valid()
  {
  }
}
