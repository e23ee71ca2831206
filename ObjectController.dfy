/**
 * The object endpoints. An object has no owner column: whether the caller may
 * reach it is decided by loading the object, loading its environment and
 * comparing that environment's owner with the caller.
 */
module ObjectControllers {
  import opened Common
  import opened Objects
  import EnvironmentRepositories
  import opened ObjectRepositories
  import opened ActionResults
  import opened EnvironmentControllers

  /** The owner of an object: the owner of its environment, or no one when that environment is absent or ownerless. */
  function OwnerOf(environments: EnvironmentRepositories.Table, obj: Object2D): (r: Option<string>)
    ensures forall userId :: r == Some(userId) <==> Owns(environments, userId, obj.environmentId)
  {
    match EnvironmentRepositories.Read(environments, obj.environmentId)
    case None => None
    case Some(environment) => environment.ownerUserId
  }

  /** `ObjectController`: the two repositories it is given; the caller's identity is an argument of each action. */
  class ObjectController {
    const objects: ObjectRepository
    const environments: EnvironmentRepositories.SqlEnvironmentRepository

    constructor (objects: ObjectRepository, environments: EnvironmentRepositories.SqlEnvironmentRepository)
      ensures this.objects == objects && this.environments == environments
    {
      this.objects := objects;
      this.environments := environments;
    }

    /** `Get()`: every object in the table, whoever owns its environment. */
    function ReadObjects(caller: Option<string>): (r: ActionResult<Table>)
      requires Keyed(objects.rows)
      reads objects
      ensures caller.None? <==> r == Unauthorized
      ensures caller.Some? ==> r.Ok?
      ensures r.Ok? ==> forall k :: k in objects.rows ==> k in r.value && r.value[k] == objects.rows[k]
      ensures r.Ok? ==> |r.value| == |objects.rows|
      ensures r.Ok? ==> Keyed(r.value)
    {
      if caller.None? then Unauthorized
      else Ok(ReadAll(objects.rows))
    }

    /** `Get(objectId)`: the object when the caller owns its environment; two distinct not-found answers otherwise. */
    function ReadObject(caller: Option<string>, objectId: Guid): (r: ActionResult<Object2D>)
      requires Keyed(objects.rows) && EnvironmentRepositories.Keyed(environments.rows)
      reads objects, environments
      ensures caller.None? ==> r == Unauthorized
      ensures caller.Some? && objectId !in objects.rows ==> r == NotFound(ObjectNotFound)
      ensures r.Ok? <==> caller.Some? && objectId in objects.rows
                         && Owns(environments.rows, caller.value, objects.rows[objectId].environmentId)
      ensures r.Ok? ==> r.value == objects.rows[objectId] && r.value.id == objectId
      ensures caller.Some? && objectId in objects.rows && !r.Ok? ==> r == NotFound(ObjectNotInAccount)
    {
      if caller.None? then Unauthorized
      else
        var obj := Read(objects.rows, objectId);
        if obj.None? then NotFound(ObjectNotFound)
        else
          var environment := EnvironmentRepositories.Read(environments.rows, obj.value.environmentId);
          if environment.None? || environment.value.ownerUserId != caller then NotFound(ObjectNotInAccount)
          else Ok(obj.value)
    }

    /** `GetByEnvironment(environmentId)`: the objects of an environment the caller owns, exactly. */
    function ReadObjectsByEnvironment(caller: Option<string>, environmentId: Guid): (r: ActionResult<Table>)
      requires Keyed(objects.rows) && EnvironmentRepositories.Keyed(environments.rows)
      reads objects, environments
      ensures caller.None? ==> r == Unauthorized
      ensures r.Ok? <==> caller.Some? && Owns(environments.rows, caller.value, environmentId)
      ensures caller.Some? && !r.Ok? ==> r == NotFound(EnvironmentNotInAccount)
      ensures r.Ok? ==> forall k :: k in r.value <==> k in objects.rows && objects.rows[k].environmentId == environmentId
      ensures r.Ok? ==> forall k :: k in r.value ==> k in objects.rows && r.value[k] == objects.rows[k]
    {
      if caller.None? then Unauthorized
      else
        var environment := EnvironmentRepositories.Read(environments.rows, environmentId);
        if environment.None? || environment.value.ownerUserId != caller then NotFound(EnvironmentNotInAccount)
        else Ok(ReadByEnvironmentId(objects.rows, environmentId))
    }

    /**
     * `Add(environmentId, obj)`: unless the caller owns the environment named in the
     * path, nothing; otherwise one insert of the body under a fresh id, attached to that environment.
     */
    method Add(caller: Option<string>, environmentId: Guid, obj: Object2D, freshId: Guid)
      returns (r: ActionResult<Object2D>)
      requires Keyed(objects.rows) && EnvironmentRepositories.Keyed(environments.rows)
      requires freshId !in objects.rows
      modifies objects
      ensures caller.None? ==> r == Unauthorized
      ensures caller.Some? && !Owns(environments.rows, caller.value, environmentId)
              ==> r == NotFound(EnvironmentNotInAccount)
      ensures caller.Some? && Owns(environments.rows, caller.value, environmentId)
              ==> r == Created(obj.(id := freshId, environmentId := environmentId))
      ensures r.Created? ==> objects.rows == old(objects.rows)[freshId := r.created]
      ensures r.Created? ==> OwnerOf(environments.rows, r.created) == caller
      ensures !r.Created? ==> objects.rows == old(objects.rows)
      ensures Keyed(objects.rows)
    {
      if caller.None? {
        return Unauthorized;
      }
      var environment := EnvironmentRepositories.Read(environments.rows, environmentId);
      if environment.None? || environment.value.ownerUserId != caller {
        return NotFound(EnvironmentNotInAccount);
      }
      var created := obj.(id := freshId, environmentId := environmentId);
      created := objects.Insert(created);
      return Created(created);
    }

    /**
     * `Update(objectId, newObject)`: object not found, then its environment not found,
     * then not the owner; on success every field but the id comes from the body and
     * the object stays in the environment it was in.
     */
    method Update(caller: Option<string>, objectId: Guid, newObject: Object2D) returns (r: ActionResult<Object2D>)
      requires Keyed(objects.rows) && EnvironmentRepositories.Keyed(environments.rows)
      modifies objects
      ensures caller.None? ==> r == Unauthorized
      ensures caller.Some? && objectId !in old(objects.rows) ==> r == NotFound(ObjectNotFound)
      ensures caller.Some? && objectId in old(objects.rows)
              && old(objects.rows)[objectId].environmentId !in environments.rows
              ==> r == NotFound(EnvironmentNotFound)
      ensures caller.Some? && objectId in old(objects.rows)
              && old(objects.rows)[objectId].environmentId in environments.rows
              && !Owns(environments.rows, caller.value, old(objects.rows)[objectId].environmentId)
              ==> r == Unauthorized
      ensures caller.Some? && objectId in old(objects.rows)
              && Owns(environments.rows, caller.value, old(objects.rows)[objectId].environmentId)
              ==> r == Ok(newObject.(id := objectId, environmentId := old(objects.rows)[objectId].environmentId))
      ensures r.Ok? ==> objects.rows == old(objects.rows)[objectId := Overwritten(old(objects.rows)[objectId], r.value)]
      ensures r.Ok? ==> objects.rows[objectId].environmentId == old(objects.rows)[objectId].environmentId
      ensures r.Ok? ==> OwnerOf(environments.rows, objects.rows[objectId]) == caller
      ensures !r.Ok? ==> objects.rows == old(objects.rows)
      ensures Keyed(objects.rows)
      ensures r.Ok? ==> objects.rows[objectId] == r.value
    {
      if caller.None? {
        return Unauthorized;
      }
      var existingObject := Read(objects.rows, objectId);
      if existingObject.None? {
        return NotFound(ObjectNotFound);
      }
      var existingEnvironment := EnvironmentRepositories.Read(environments.rows, existingObject.value.environmentId);
      if existingEnvironment.None? {
        return NotFound(EnvironmentNotFound);
      }
      if existingEnvironment.value.ownerUserId != caller {
        return Unauthorized;
      }
      var updated := newObject.(id := objectId, environmentId := existingObject.value.environmentId);
      objects.Update(updated);
      return Ok(updated);
    }

    /** `Delete(objectId)`: the same three checks as `Update`; otherwise that one row goes. */
    method Delete(caller: Option<string>, objectId: Guid) returns (r: ActionResult<()>)
      requires Keyed(objects.rows) && EnvironmentRepositories.Keyed(environments.rows)
      modifies objects
      ensures caller.None? ==> r == Unauthorized
      ensures caller.Some? && objectId !in old(objects.rows) ==> r == NotFound(ObjectNotFound)
      ensures caller.Some? && objectId in old(objects.rows)
              && old(objects.rows)[objectId].environmentId !in environments.rows
              ==> r == NotFound(EnvironmentNotFound)
      ensures caller.Some? && objectId in old(objects.rows)
              && old(objects.rows)[objectId].environmentId in environments.rows
              && !Owns(environments.rows, caller.value, old(objects.rows)[objectId].environmentId)
              ==> r == Unauthorized
      ensures caller.Some? && objectId in old(objects.rows)
              && Owns(environments.rows, caller.value, old(objects.rows)[objectId].environmentId)
              ==> r == Ok(())
      ensures r.Ok? ==> objects.rows == old(objects.rows) - {objectId}
      ensures !r.Ok? ==> objects.rows == old(objects.rows)
      ensures Keyed(objects.rows)
    {
      if caller.None? {
        return Unauthorized;
      }
      var existingObject := Read(objects.rows, objectId);
      if existingObject.None? {
        return NotFound(ObjectNotFound);
      }
      var existingEnvironment := EnvironmentRepositories.Read(environments.rows, existingObject.value.environmentId);
      if existingEnvironment.None? {
        return NotFound(EnvironmentNotFound);
      }
      if existingEnvironment.value.ownerUserId != caller {
        return Unauthorized;
      }
      objects.Delete(objectId);
      return Ok(());
    }
  }
}
