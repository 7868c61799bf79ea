/**
  * The arc view table (Assets/Scripts/View/Data/ArcViewMap.cs): arc views keyed by anchor
  * position and direction, kept twice, in a flat table and in a table of per-position tables.
  * Views are opaque values of type V. The source's inner tables are shared objects; here they are
  * values, so sharing between tables and changes made through a table returned by GetArcs are
  * not modelled.
  */
module ArcViews {
  import opened Geometry
  import opened Wrappers

  class ArcViewMap<V(==)> {
    var arcMap: map<PointDir, V>
    var arcSet: map<Point, map<Direction, V>>

    /** The flat and the nested table hold the same (position, direction) to view entries. */
    ghost predicate Valid()
      reads this
    {
      && (forall pd | pd in arcMap ::
            pd.point in arcSet && pd.direction in arcSet[pd.point] && arcSet[pd.point][pd.direction] == arcMap[pd])
      && (forall p, d | p in arcSet && d in arcSet[p] :: PointDir(p, d) in arcMap)
    }

    constructor ()
      ensures Valid() && arcMap == map[] && arcSet == map[]
    {
      arcMap := map[];
      arcSet := map[];
    }

    /** Every stored view. */
    function Arcs(): (r: set<V>)
      reads this
      ensures forall pd | pd in arcMap :: arcMap[pd] in r
      ensures forall v | v in r :: exists pd | pd in arcMap :: arcMap[pd] == v
    {
      arcMap.Values
    }

    predicate ContainsArc(pos: Point, dir: Direction)
      reads this
    {
      PointDir(pos, dir) in arcMap
    }

    function TryGetArc(pos: Point, dir: Direction): (r: Option<V>)
      reads this
      ensures r.Some? <==> ContainsArc(pos, dir)
      ensures r.Some? ==> r.value == arcMap[PointDir(pos, dir)]
    {
      if PointDir(pos, dir) in arcMap then Some(arcMap[PointDir(pos, dir)]) else Option.None
    }

    /** The view stored under a key; the key must be present. */
    function Get(pointDir: PointDir): (v: V)
      reads this
      requires pointDir in arcMap
      ensures TryGetArc(pointDir.point, pointDir.direction) == Some(v)
    {
      arcMap[pointDir]
    }

    /** In a consistent table, looking up the flat table and the nested table agree. */
    lemma LookupAgrees(pos: Point, dir: Direction)
      requires Valid()
      ensures ContainsArc(pos, dir) <==> pos in arcSet && dir in arcSet[pos]
      ensures TryGetArc(pos, dir).Some? <==> pos in arcSet && dir in arcSet[pos]
      ensures TryGetArc(pos, dir).Some? ==> TryGetArc(pos, dir).value == arcSet[pos][dir]
    {
      if pos in arcSet && dir in arcSet[pos] {
        assert PointDir(pos, dir) in arcMap;
      }
    }

    /** The views anchored at `pos`, by direction; an unknown position is registered with no views. */
    method GetArcs(pos: Point) returns (views: map<Direction, V>)
      requires Valid()
      modifies this
      ensures Valid()
      ensures views == if pos in old(arcSet) then old(arcSet[pos]) else map[]
      ensures arcSet == old(arcSet)[pos := views] && arcMap == old(arcMap)
    {
      if pos in arcSet {
        views := arcSet[pos];
        return;
      }
      views := map[];
      arcSet := arcSet[pos := views];
    }

    /** Adds a view under a key that must not be present yet. */
    method Add(pos: Point, dir: Direction, arcView: V)
      requires Valid()
      requires !ContainsArc(pos, dir)
      modifies this
      ensures Valid()
      ensures arcMap == old(arcMap)[PointDir(pos, dir) := arcView]
      ensures arcSet == old(arcSet)[pos := (if pos in old(arcSet) then old(arcSet[pos]) else map[])[dir := arcView]]
      ensures TryGetArc(pos, dir) == Some(arcView) && arcSet[pos][dir] == arcView
    {
      arcMap := arcMap[PointDir(pos, dir) := arcView];
      if pos in arcSet {
        arcSet := arcSet[pos := arcSet[pos][dir := arcView]];
        return;
      }
      arcSet := arcSet[pos := map[dir := arcView]];
    }

    /**
      * Removes the view under (pos, dir) from both tables and reports whether the nested table
      * had it. Every other entry stays.
      */
    method Remove(pos: Point, dir: Direction) returns (removed: bool)
      requires Valid()
      modifies this
      ensures Valid()
      ensures removed <==> old(ContainsArc(pos, dir))
      ensures removed <==> pos in old(arcSet) && dir in old(arcSet[pos])
      ensures !ContainsArc(pos, dir)
      ensures arcMap == old(arcMap) - {PointDir(pos, dir)}
      ensures arcSet == if pos in old(arcSet) then old(arcSet)[pos := old(arcSet[pos]) - {dir}] else old(arcSet)
    {
      arcMap := arcMap - {PointDir(pos, dir)};
      if pos in arcSet {
        removed := dir in arcSet[pos];
        arcSet := arcSet[pos := arcSet[pos] - {dir}];
      } else {
        arcSet := arcSet - {pos};
        removed := false;
      }
    }

    method Clear()
      modifies this
      ensures Valid() && arcMap == map[] && arcSet == map[]
    {
      arcMap := map[];
      arcSet := map[];
    }

    /**
      * Empties both tables, then copies every entry of `other`'s tables. When `other` is this
      * table, the clearing has already emptied the source of the copy, so the table ends up empty.
      */
    method Reset(other: ArcViewMap<V>)
      requires other.Valid()
      modifies this
      ensures Valid()
      ensures other != this ==> arcMap == old(other.arcMap) && arcSet == old(other.arcSet)
      ensures other == this ==> arcMap == map[] && arcSet == map[]
    {
      arcMap := map[];
      arcSet := map[];
      CopyFlat(other);
      CopyNested(other);
    }

    /** Copies `other`'s flat table, entry by entry, into the empty flat table. */
    method CopyFlat(other: ArcViewMap<V>)
      requires arcMap == map[]
      modifies this
      ensures arcMap == old(other.arcMap) && arcSet == old(arcSet)
    {
      var source := other.arcMap;
      var keys := source.Keys;
      while keys != {}
        invariant keys <= source.Keys
        invariant arcMap == map k | k in source.Keys - keys :: source[k]
        invariant arcSet == old(arcSet)
        decreases keys
      {
        var k :| k in keys;
        arcMap := arcMap[k := source[k]];
        keys := keys - {k};
      }
    }

    /** Copies `other`'s nested table, position by position, into the empty nested table. */
    method CopyNested(other: ArcViewMap<V>)
      requires arcSet == map[]
      modifies this
      ensures arcSet == old(other.arcSet) && arcMap == old(arcMap)
    {
      var source := other.arcSet;
      var points := source.Keys;
      while points != {}
        invariant points <= source.Keys
        invariant arcSet == map p | p in source.Keys - points :: source[p]
        invariant arcMap == old(arcMap)
        decreases points
      {
        var p :| p in points;
        arcSet := arcSet[p := source[p]];
        points := points - {p};
      }
    }
  }
}
