/** The stored object record and the one constraint among its annotations that can fail. */
module Objects {
  import opened Common

  /** The position, scale, rotation and sorting layer are payload: carried, never interpreted. */
  datatype Object2D = Object2D(
    id: Guid,
    environmentId: Guid,
    prefabId: string,
    positionX: Float32,
    positionY: Float32,
    scaleX: Float32,
    scaleY: Float32,
    rotationZ: Float32,
    sortingLayer: Int32)
  {
    /**
     * The annotations. `[Required]` on a value-typed property (the Guid, the
     * floats, the int) always holds, so only `PrefabId` can fail: it is required
     * and at most 50 characters.
     */
    predicate Valid()
      ensures Valid() <==> 0 < |prefabId| <= 50 && Required(prefabId)
    {
      Required(prefabId) && StringLength(Some(prefabId), 50)
    }
  }

  /** `new Object2D()`: a new id, `Guid.Empty` as environment, an empty prefab and zeroed payload. */
  function NewObject2D(newId: Guid): (o: Object2D)
    ensures o.id == newId && o.environmentId == EmptyGuid
    ensures !o.Valid()
  {
    Object2D(newId, EmptyGuid, "", 0, 0, 0, 0, 0, 0)
  }

  /** Validity depends on `PrefabId` alone: two objects with the same prefab are both valid or both invalid. */
  lemma OnlyPrefabIdDecidesValidity(a: Object2D, b: Object2D)
    requires a.prefabId == b.prefabId
    ensures a.Valid() == b.Valid()
  {
  }
}
