/**
 * The environment endpoints: who may see and change an environment, the
 * per-owner quota and the per-owner name uniqueness, and the invariant that
 * those rules keep over the environment table.
 */
module EnvironmentControllers {
  import opened Common
  import opened Environments
  import opened EnvironmentRepositories
  import opened ActionResults

  /** `userEnvironments.Any(e => e.Name == name)`: one of these rows has exactly that name. */
  predicate NameTaken(rows: Table, name: string)
    ensures NameTaken(rows, name) ==> |rows| > 0
    ensures !NameTaken(rows, name) ==> forall k :: k in rows ==> rows[k].name != name
  {
    exists k :: k in rows && rows[k].name == name
  }

  /** `userEnvironments.Any(e => e.Name == name && e.Id != id)`: a row other than `id` has exactly that name. */
  predicate NameTakenByOther(rows: Table, name: string, id: Guid)
    ensures NameTakenByOther(rows, name, id) ==> NameTaken(rows, name)
    ensures Keyed(rows) && id !in rows ==> (NameTakenByOther(rows, name, id) <==> NameTaken(rows, name))
    ensures Keyed(rows) && id in rows && rows[id].name != name
            ==> (NameTakenByOther(rows, name, id) <==> NameTaken(rows, name))
  {
    exists k :: k in rows && rows[k].name == name && rows[k].id != id
  }

  /** `userId` owns the environment stored under `environmentId`; an absent or ownerless row is owned by no one. */
  predicate Owns(t: Table, userId: string, environmentId: Guid)
    ensures Owns(t, userId, environmentId) <==> environmentId in ReadByUserId(t, userId)
  {
    environmentId in t && t[environmentId].ownerUserId == Some(userId)
  }

  /** No owner holds more than `MaxNumberOfEnvironments` environments. */
  ghost predicate WithinQuota(t: Table)
  {
    forall userId :: |ReadByUserId(t, userId)| <= MaxNumberOfEnvironments
  }

  /** No two environments of one owner carry the same name. */
  ghost predicate NamesUniquePerOwner(t: Table)
  {
    forall k1, k2 ::
      k1 in t && k2 in t && k1 != k2 && t[k1].ownerUserId.Some? && t[k1].ownerUserId == t[k2].ownerUserId
      ==> t[k1].name != t[k2].name
  }

  /** The invariant the controller keeps over the table. */
  ghost predicate PolicyHolds(t: Table)
  {
    WithinQuota(t) && NamesUniquePerOwner(t)
  }

  /** What `Add` checks before it inserts: room under the quota and no row of the caller with the name. */
  predicate MayCreate(t: Table, userId: string, name: string)
    ensures MayCreate(t, userId, name) ==> forall k :: Owns(t, userId, k) ==> t[k].name != name
    ensures MayCreate(t, userId, name) ==> |ReadByUserId(t, userId)| < MaxNumberOfEnvironments
  {
    |ReadByUserId(t, userId)| < MaxNumberOfEnvironments && !NameTaken(ReadByUserId(t, userId), name)
  }

  /** A row that passed `Add`'s checks, inserted under a fresh key, keeps the invariant. */
  lemma InsertKeepsPolicy(t: Table, e: Environment2D)
    requires PolicyHolds(t)
    requires e.id !in t && e.ownerUserId.Some?
    requires MayCreate(t, e.ownerUserId.value, e.name)
    ensures PolicyHolds(t[e.id := e])
  {
    var t' := t[e.id := e];
    forall userId: string
      ensures |ReadByUserId(t', userId)| <= MaxNumberOfEnvironments
    {
      InsertCount(t, e.id, e, userId);
    }
    var owned := ReadByUserId(t, e.ownerUserId.value);
    forall k1, k2 |
      k1 in t' && k2 in t' && k1 != k2 && t'[k1].ownerUserId.Some? && t'[k1].ownerUserId == t'[k2].ownerUserId
      ensures t'[k1].name != t'[k2].name
    {
      if k1 == e.id {
        assert k2 in owned;
      } else if k2 == e.id {
        assert k1 in owned;
      }
    }
  }

  /** Overwriting a row while keeping its owner and its name keeps the invariant. */
  lemma OverwriteKeepsPolicy(t: Table, k: Guid, e: Environment2D)
    requires PolicyHolds(t)
    requires k in t && e.ownerUserId == t[k].ownerUserId && e.name == t[k].name
    ensures PolicyHolds(t[k := e])
  {
    var t' := t[k := e];
    forall userId: string
      ensures |ReadByUserId(t', userId)| <= MaxNumberOfEnvironments
    {
      OverwriteCount(t, k, e, userId);
    }
  }

  /** Removing a row keeps the invariant. */
  lemma RemoveKeepsPolicy(t: Table, k: Guid)
    requires PolicyHolds(t)
    ensures PolicyHolds(t - {k})
  {
    var t' := t - {k};
    forall userId: string
      ensures |ReadByUserId(t', userId)| <= MaxNumberOfEnvironments
    {
      RemoveCount(t, k, userId);
    }
  }

  /** `EnvironmentController`: the repository it is given; the caller's identity is an argument of each action. */
  class EnvironmentController {
    const repository: SqlEnvironmentRepository

    constructor (repository: SqlEnvironmentRepository)
      ensures this.repository == repository
    {
      this.repository := repository;
    }

    /** `Get()`: the caller's own environments, exactly. */
    function ReadEnvironments(caller: Option<string>): (r: ActionResult<Table>)
      requires Keyed(repository.rows)
      reads repository
      ensures caller.None? <==> r == Unauthorized
      ensures caller.Some? ==> r.Ok?
      ensures r.Ok? ==> forall k :: k in r.value <==> Owns(repository.rows, caller.value, k)
      ensures r.Ok? ==> forall k :: k in r.value ==> k in repository.rows && r.value[k] == repository.rows[k]
      ensures r.Ok? ==> Keyed(r.value)
    {
      if caller.None? then Unauthorized
      else Ok(ReadByUserId(repository.rows, caller.value))
    }

    /**
     * `Get(environmentId)`: the environment when the caller owns it, otherwise one
     * and the same not-found answer, whether the row is absent or someone else's.
     */
    function ReadEnvironment(caller: Option<string>, environmentId: Guid): (r: ActionResult<Environment2D>)
      requires Keyed(repository.rows)
      reads repository
      ensures caller.None? ==> r == Unauthorized
      ensures r.Ok? <==> caller.Some? && Owns(repository.rows, caller.value, environmentId)
      ensures r.Ok? ==> r.value == repository.rows[environmentId] && r.value.id == environmentId
      ensures caller.Some? && !r.Ok? ==> r == NotFound(EnvironmentNotInAccount)
    {
      if caller.None? then Unauthorized
      else
        var environment := Read(repository.rows, environmentId);
        if environment.None? || environment.value.ownerUserId != caller then NotFound(EnvironmentNotInAccount)
        else Ok(environment.value)
    }

    /**
     * `Add(environment)`: the quota check, then the name check, then one insert of
     * the body under a fresh id and with the caller as owner.
     */
    method Add(caller: Option<string>, environment: Environment2D, freshId: Guid) returns (r: ActionResult<Environment2D>)
      requires Keyed(repository.rows)
      requires freshId !in repository.rows
      modifies repository
      ensures caller.None? ==> r == Unauthorized
      ensures caller.Some? && |ReadByUserId(old(repository.rows), caller.value)| >= MaxNumberOfEnvironments
              ==> r == BadRequest(TooManyEnvironments)
      ensures caller.Some? && |ReadByUserId(old(repository.rows), caller.value)| < MaxNumberOfEnvironments
              && NameTaken(ReadByUserId(old(repository.rows), caller.value), environment.name)
              ==> r == BadRequest(DuplicateName)
      ensures caller.Some? && MayCreate(old(repository.rows), caller.value, environment.name)
              ==> r == Created(environment.(id := freshId, ownerUserId := caller))
      ensures r.Created? ==> repository.rows == old(repository.rows)[freshId := r.created]
      ensures !r.Created? ==> repository.rows == old(repository.rows)
      ensures Keyed(repository.rows)
      ensures old(PolicyHolds(repository.rows)) ==> PolicyHolds(repository.rows)
    {
      if caller.None? {
        return Unauthorized;
      }
      var userId := caller.value;
      var userEnvironments := ReadByUserId(repository.rows, userId);
      if |userEnvironments| >= MaxNumberOfEnvironments {
        return BadRequest(TooManyEnvironments);
      }
      if NameTaken(userEnvironments, environment.name) {
        return BadRequest(DuplicateName);
      }
      var created := environment.(id := freshId, ownerUserId := Some(userId));
      ghost var before := repository.rows;
      created := repository.Insert(created);
      if PolicyHolds(before) {
        InsertKeepsPolicy(before, created);
      }
      return Created(created);
    }

    /**
     * `Update(environmentId, newEnvironment)`: not found, then not the owner, then a
     * name clash with another of the caller's environments; on success the row keeps
     * its id, owner and name and takes the two sizes from the body.
     */
    method Update(caller: Option<string>, environmentId: Guid, newEnvironment: Environment2D)
      returns (r: ActionResult<Environment2D>)
      requires Keyed(repository.rows)
      modifies repository
      ensures caller.None? ==> r == Unauthorized
      ensures caller.Some? && environmentId !in old(repository.rows) ==> r == NotFound(EnvironmentNotFound)
      ensures caller.Some? && environmentId in old(repository.rows)
              && old(repository.rows)[environmentId].ownerUserId != caller
              ==> r == Unauthorized
      ensures caller.Some? && Owns(old(repository.rows), caller.value, environmentId)
              && NameTakenByOther(ReadByUserId(old(repository.rows), caller.value), newEnvironment.name, environmentId)
              ==> r == BadRequest(DuplicateName)
      ensures caller.Some? && Owns(old(repository.rows), caller.value, environmentId)
              && !NameTakenByOther(ReadByUserId(old(repository.rows), caller.value), newEnvironment.name, environmentId)
              ==> r == Ok(newEnvironment.(id := environmentId, ownerUserId := caller,
                                          name := old(repository.rows)[environmentId].name))
      ensures r.Ok? ==> repository.rows == old(repository.rows)[environmentId :=
                          old(repository.rows)[environmentId].(maxLength := newEnvironment.maxLength,
                                                               maxHeight := newEnvironment.maxHeight)]
      ensures !r.Ok? ==> repository.rows == old(repository.rows)
      ensures Keyed(repository.rows)
      ensures r.Ok? ==> repository.rows[environmentId] == r.value
      ensures old(PolicyHolds(repository.rows)) ==> PolicyHolds(repository.rows)
    {
      if caller.None? {
        return Unauthorized;
      }
      var userId := caller.value;
      var existingEnvironment := Read(repository.rows, environmentId);
      if existingEnvironment.None? {
        return NotFound(EnvironmentNotFound);
      }
      if existingEnvironment.value.ownerUserId != caller {
        return Unauthorized;
      }
      var userEnvironments := ReadByUserId(repository.rows, userId);
      if NameTakenByOther(userEnvironments, newEnvironment.name, environmentId) {
        return BadRequest(DuplicateName);
      }
      var updated := newEnvironment.(id := environmentId, ownerUserId := Some(userId),
                                     name := existingEnvironment.value.name);
      ghost var before := repository.rows;
      repository.Update(updated);
      if PolicyHolds(before) {
        OverwriteKeepsPolicy(before, environmentId, repository.rows[environmentId]);
      }
      return Ok(updated);
    }

    /** `Delete(environmentId)`: not found, then not the owner; otherwise that one row goes. */
    method Delete(caller: Option<string>, environmentId: Guid) returns (r: ActionResult<()>)
      requires Keyed(repository.rows)
      modifies repository
      ensures caller.None? ==> r == Unauthorized
      ensures caller.Some? && environmentId !in old(repository.rows) ==> r == NotFound(EnvironmentNotFound)
      ensures caller.Some? && environmentId in old(repository.rows)
              && old(repository.rows)[environmentId].ownerUserId != caller
              ==> r == Unauthorized
      ensures caller.Some? && Owns(old(repository.rows), caller.value, environmentId) ==> r == Ok(())
      ensures r.Ok? ==> repository.rows == old(repository.rows) - {environmentId}
      ensures !r.Ok? ==> repository.rows == old(repository.rows)
      ensures Keyed(repository.rows)
      ensures old(PolicyHolds(repository.rows)) ==> PolicyHolds(repository.rows)
    {
      if caller.None? {
        return Unauthorized;
      }
      var existingEnvironment := Read(repository.rows, environmentId);
      if existingEnvironment.None? {
        return NotFound(EnvironmentNotFound);
      }
      if existingEnvironment.value.ownerUserId != caller {
        return Unauthorized;
      }
      ghost var before := repository.rows;
      repository.Delete(environmentId);
      if PolicyHolds(before) {
        RemoveKeepsPolicy(before, environmentId);
      }
      return Ok(());
    }
  }
}
