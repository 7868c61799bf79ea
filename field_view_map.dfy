/**
  * The field view table (Assets/Scripts/View/Data/FieldViewMap.cs): field views keyed by anchor
  * position and direction. Views are opaque values of type V.
  */
module FieldViews {
  import opened Geometry
  import opened Wrappers

  class FieldViewMap<V(==)> {
    var fieldMap: map<PointDir, V>

    constructor ()
      ensures fieldMap == map[]
    {
      fieldMap := map[];
    }

    /** Every stored view. */
    function Fields(): (r: set<V>)
      reads this
      ensures forall pd | pd in fieldMap :: fieldMap[pd] in r
      ensures forall v | v in r :: exists pd | pd in fieldMap :: fieldMap[pd] == v
    {
      fieldMap.Values
    }

    function TryGetField(pos: Point, dir: Direction): (r: Option<V>)
      reads this
      ensures r.Some? <==> PointDir(pos, dir) in fieldMap
      ensures r.Some? ==> r.value == fieldMap[PointDir(pos, dir)]
    {
      if PointDir(pos, dir) in fieldMap then Some(fieldMap[PointDir(pos, dir)]) else Option.None
    }

    /** The view stored under a key; the key must be present. */
    function Get(pointDir: PointDir): (v: V)
      reads this
      requires pointDir in fieldMap
      ensures TryGetField(pointDir.point, pointDir.direction) == Some(v)
    {
      fieldMap[pointDir]
    }

    /** Adds a view under a key that must not be present yet; every other key keeps its view. */
    method Add(pos: Point, dir: Direction, fieldView: V)
      requires PointDir(pos, dir) !in fieldMap
      modifies this
      ensures fieldMap == old(fieldMap)[PointDir(pos, dir) := fieldView]
      ensures TryGetField(pos, dir) == Some(fieldView)
      ensures forall p, d | PointDir(p, d) != PointDir(pos, dir) :: TryGetField(p, d) == old(TryGetField(p, d))
    {
      fieldMap := fieldMap[PointDir(pos, dir) := fieldView];
    }

    method Clear()
      modifies this
      ensures fieldMap == map[]
      ensures forall p, d :: TryGetField(p, d).None?
    {
      fieldMap := map[];
    }

    /**
      * Empties the table, then copies every entry of `other`. When `other` is this table, the
      * clearing has already emptied the source of the copy, so the table ends up empty.
      */
    method Reset(other: FieldViewMap<V>)
      modifies this
      ensures other != this ==> fieldMap == old(other.fieldMap)
      ensures other == this ==> fieldMap == map[]
    {
      fieldMap := map[];
      var keys := other.fieldMap.Keys;
      while keys != {}
        invariant keys <= other.fieldMap.Keys
        invariant fieldMap == map k | k in other.fieldMap.Keys - keys :: other.fieldMap[k]
        invariant other != this ==> other.fieldMap == old(other.fieldMap)
        invariant other == this ==> keys == {} && fieldMap == map[]
        decreases keys
      {
        var k :| k in keys;
        fieldMap := fieldMap[k := other.fieldMap[k]];
        keys := keys - {k};
      }
      assert other != this ==> fieldMap == other.fieldMap;
    }
  }
}
