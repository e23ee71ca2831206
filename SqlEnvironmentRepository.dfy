/**
 * The environment table. The queries are functions of the table's contents;
 * the class holds the table and performs the three statements that change it.
 */
module EnvironmentRepositories {
  import opened Common
  import opened Environments

  /** The rows of `[Environment2D]`, keyed by `Id`. */
  type Table = map<Guid, Environment2D>

  /** Every row is stored under its own `Id`. */
  predicate Keyed(t: Table)
  {
    forall k :: k in t ==> t[k].id == k
  }

  /** `SELECT * ... WHERE Id = @Id`: the row with that key, or null. */
  function Read(t: Table, id: Guid): (r: Option<Environment2D>)
    ensures r.Some? <==> id in t
    ensures r.Some? ==> r.value == t[id]
    ensures Keyed(t) && r.Some? ==> r.value.id == id
  {
    if id in t then Some(t[id]) else None
  }

  /** `SELECT * FROM [Environment2D]`: every row, and nothing else. */
  function ReadAll(t: Table): (r: Table)
    ensures forall k :: k in t ==> k in r && r[k] == t[k]
    ensures |r| == |t|
  {
    t
  }

  /** `SELECT * ... WHERE OwnerUserId = @OwnerUserId`: the rows of that owner; a null owner matches no one. */
  function ReadByUserId(t: Table, userId: string): (r: Table)
    ensures forall k :: k in r <==> k in t && t[k].ownerUserId == Some(userId)
    ensures forall k :: k in r ==> r[k] == t[k]
  {
    map k | k in t && t[k].ownerUserId == Some(userId) :: t[k]
  }

  /** The rows of one owner are some of the rows of the table. */
  lemma ReadByUserIdWithinReadAll(t: Table, userId: string)
    ensures |ReadByUserId(t, userId)| <= |ReadAll(t)|
  {
    var owned := ReadByUserId(t, userId).Keys;
    assert t.Keys == owned + (t.Keys - owned);
    assert |t.Keys| == |owned| + |t.Keys - owned|;
  }

  /** Inserting a row under a new key adds one to its owner's count and leaves every other owner's count alone. */
  lemma InsertCount(t: Table, k: Guid, e: Environment2D, userId: string)
    requires k !in t
    ensures |ReadByUserId(t[k := e], userId)| == |ReadByUserId(t, userId)| + (if e.ownerUserId == Some(userId) then 1 else 0)
  {
    if e.ownerUserId == Some(userId) {
      assert ReadByUserId(t[k := e], userId) == ReadByUserId(t, userId)[k := e];
    } else {
      assert ReadByUserId(t[k := e], userId) == ReadByUserId(t, userId);
    }
  }

  /** Overwriting a row without changing its owner keeps every owner's count. */
  lemma OverwriteCount(t: Table, k: Guid, e: Environment2D, userId: string)
    requires k in t && e.ownerUserId == t[k].ownerUserId
    ensures |ReadByUserId(t[k := e], userId)| == |ReadByUserId(t, userId)|
  {
    if e.ownerUserId == Some(userId) {
      assert ReadByUserId(t[k := e], userId) == ReadByUserId(t, userId)[k := e];
    } else {
      assert ReadByUserId(t[k := e], userId) == ReadByUserId(t, userId);
    }
  }

  /** Removing a key takes one from the count of the owner of that row, if there was such a row, and no more. */
  lemma RemoveCount(t: Table, k: Guid, userId: string)
    ensures |ReadByUserId(t - {k}, userId)| ==
            |ReadByUserId(t, userId)| - (if k in t && t[k].ownerUserId == Some(userId) then 1 else 0)
  {
    if k in t && t[k].ownerUserId == Some(userId) {
      assert ReadByUserId(t, userId) == ReadByUserId(t - {k}, userId)[k := t[k]];
    } else {
      assert ReadByUserId(t - {k}, userId) == ReadByUserId(t, userId);
    }
  }

  /** `SqlEnvironmentRepository`: the connection string and the SQL text are replaced by the table itself. */
  class SqlEnvironmentRepository {
    var rows: Table

    constructor ()
      ensures rows == map[]
      ensures Keyed(rows)
    {
      rows := map[];
    }

    /** `INSERT`: stores the record under its id and hands the same record back. */
    method Insert(environment: Environment2D) returns (r: Environment2D)
      requires Keyed(rows)
      requires environment.id !in rows
      modifies this
      ensures rows == old(rows)[environment.id := environment]
      ensures r == environment
      ensures Keyed(rows)
    {
      rows := rows[environment.id := environment];
      r := environment;
    }

    /**
     * `UPDATE ... SET Name, OwnerUserId, MaxLength, MaxHeight WHERE Id = @id`:
     * overwrites those four columns of the matching row; no row matches an absent id.
     */
    method Update(environment: Environment2D)
      requires Keyed(rows)
      modifies this
      ensures environment.id in old(rows) ==>
                rows == old(rows)[environment.id := old(rows)[environment.id].(
                  name := environment.name, ownerUserId := environment.ownerUserId,
                  maxLength := environment.maxLength, maxHeight := environment.maxHeight)]
      ensures environment.id !in old(rows) ==> rows == old(rows)
      ensures Keyed(rows)
      ensures environment.id in rows ==> rows[environment.id] == environment
    {
      if environment.id in rows {
        var row := rows[environment.id];
        rows := rows[environment.id := row.(
          name := environment.name, ownerUserId := environment.ownerUserId,
          maxLength := environment.maxLength, maxHeight := environment.maxHeight)];
      }
    }

    /** `DELETE ... WHERE Id = @Id`: removes that row, if there is one, and no other. */
    method Delete(id: Guid)
      requires Keyed(rows)
      modifies this
      ensures rows == old(rows) - {id}
      ensures Keyed(rows)
    {
      rows := rows - {id};
    }
  }
}
