/**
 * The object table. The queries are functions of the table's contents;
 * the class holds the table and performs the three statements that change it.
 */
module ObjectRepositories {
  import opened Common
  import opened Objects

  /** The rows of `[Object2D]`, keyed by `Id`. */
  type Table = map<Guid, Object2D>

  /** Every row is stored under its own `Id`. */
  predicate Keyed(t: Table)
  {
    forall k :: k in t ==> t[k].id == k
  }

  /** `SELECT * ... WHERE Id = @Id`: the row with that key, or null. */
  function Read(t: Table, id: Guid): (r: Option<Object2D>)
    ensures r.Some? <==> id in t
    ensures r.Some? ==> r.value == t[id]
    ensures Keyed(t) && r.Some? ==> r.value.id == id
  {
    if id in t then Some(t[id]) else None
  }

  /** `SELECT * ... WHERE EnvironmentId = @EnvironmentId`: the rows that belong to that environment. */
  function ReadByEnvironmentId(t: Table, environmentId: Guid): (r: Table)
    ensures forall k :: k in r <==> k in t && t[k].environmentId == environmentId
    ensures forall k :: k in r ==> r[k] == t[k]
  {
    map k | k in t && t[k].environmentId == environmentId :: t[k]
  }

  /** `SELECT * FROM [Object2D]`: every row, and nothing else. */
  function ReadAll(t: Table): (r: Table)
    ensures forall k :: k in t ==> k in r && r[k] == t[k]
    ensures |r| == |t|
  {
    t
  }

  /** `UPDATE ... SET` of every column but `Id`: the row as stored after overwriting it with `obj`. */
  function Overwritten(row: Object2D, obj: Object2D): (r: Object2D)
    ensures r.id == row.id
    ensures r.(id := obj.id) == obj
  {
    obj.(id := row.id)
  }

  /** `ObjectRepository`: the connection string and the SQL text are replaced by the table itself. */
  class ObjectRepository {
    var rows: Table

    constructor ()
      ensures rows == map[]
      ensures Keyed(rows)
    {
      rows := map[];
    }

    /** `INSERT`: stores the record under its id and hands the same record back. */
    method Insert(obj: Object2D) returns (r: Object2D)
      requires Keyed(rows)
      requires obj.id !in rows
      modifies this
      ensures rows == old(rows)[obj.id := obj]
      ensures r == obj
      ensures Keyed(rows)
    {
      rows := rows[obj.id := obj];
      r := obj;
    }

    /**
     * `UPDATE ... WHERE Id = @Id`: overwrites every column of the matching row
     * except `Id`, `EnvironmentId` included; no row matches an absent id.
     */
    method Update(obj: Object2D)
      requires Keyed(rows)
      modifies this
      ensures obj.id in old(rows) ==> rows == old(rows)[obj.id := Overwritten(old(rows)[obj.id], obj)]
      ensures obj.id !in old(rows) ==> rows == old(rows)
      ensures Keyed(rows)
      ensures obj.id in rows ==> rows[obj.id] == obj
    {
      if obj.id in rows {
        rows := rows[obj.id := Overwritten(rows[obj.id], obj)];
      }
    }

    /** `DELETE ... WHERE Id = @Id`: removes that row, if there is one, and no other. */
    method Delete(id: Guid)
      requires Keyed(rows)
      modifies this
      ensures rows == old(rows) - {id}
      ensures Keyed(rows)
    {
      rows := rows - {id};
    }
  }
}
