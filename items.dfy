/**
  * Board items: the slot an arc can occupy (Field) and the movable arc itself
  * (Assets/Scripts/Core/Items/Arc.cs).
  */
module Items {
  import opened Geometry
  import opened Wrappers

  /**
    * A directional slot between two nodes. Field.cs is not part of this model; this class keeps
    * only what Arc.cs, GameBoard.cs and BoardPrinter.cs use: the anchor node's position, the
    * direction towards the connected node, the length, the occupying arc, and placement
    * validation.
    */
  class Field {
    const position: Point
    const direction: Direction
    const length: int
    var arc: Arc?

    constructor (position: Point, direction: Direction, length: int)
      ensures this.position == position && this.direction == direction && this.length == length
      ensures arc == null
    {
      this.position := position;
      this.direction := direction;
      this.length := length;
      arc := null;
    }

    predicate HasArc()
      reads this
    {
      arc != null
    }

    /** An arc may be placed only in an unoccupied field of the arc's own length. */
    predicate ValidPlacement(a: Arc)
      reads this
    {
      arc == null && a.length == length
    }

    /** The field's identity: its anchor and direction. */
    function Key(): PointDir
    {
      PointDir(position, direction)
    }

    /** Position of the node at the far end of the field. */
    function ConnectedPosition(): (r: Point)
      ensures Sub(r, position) == Mul(direction.ToPoint(), length)
    {
      Next(position, length, direction)
    }

    /** Records `a` as the occupant. */
    method ConnectArc(a: Arc)
      modifies this
      ensures arc == a
    {
      arc := a;
    }

    /** Clears the occupant if it is `a`. */
    method DisconnectArc(a: Arc)
      modifies this
      ensures arc == if old(arc) == a then null else old(arc)
    {
      if arc == a {
        arc := null;
      }
    }
  }

  /**
    * An edge of fixed length. It is either in exactly one field or pulled (in hand); its
    * position is that of the field it is in.
    */
  class Arc {
    const length: int
    var field: Field?
    var prevField: Field?

    /** A new arc is pulled and takes the length of the field it is made for. */
    constructor (f: Field)
      ensures length == f.length && field == null && prevField == null
    {
      length := f.length;
      field := null;
      prevField := null;
    }

    predicate IsPulled()
      reads this
    {
      field == null
    }

    /** None while pulled, otherwise the direction of the field the arc is in. */
    function Direction(): (r: Geometry.Direction)
      reads this
      ensures IsPulled() ==> r == Geometry.Direction.None
      ensures !IsPulled() ==> r == field.direction
    {
      if field == null then Geometry.Direction.None else field.direction
    }

    /** The key of the field the arc is in, or None while pulled. */
    function Slot(): (r: Option<PointDir>)
      reads this
      ensures r.None? <==> IsPulled()
    {
      if field == null then Option.None else Some(field.Key())
    }

    /** Leaves the current field, if any, remembering it as the previous field. */
    method Pull()
      modifies this, field
      ensures field == null && prevField == old(field)
      ensures old(field) != null ==>
        old(field).arc == if old(field.arc) == this then null else old(field.arc)
    {
      if field != null {
        field.DisconnectArc(this);
      }
      prevField := field;
      field := null;
    }

    /** Pulls the arc out of its current field, then occupies `f`. */
    method Push(f: Field)
      modifies this, field, f
      ensures field == f && f.arc == this && prevField == old(field)
      ensures old(field) != null && old(field) != f ==>
        old(field).arc == if old(field.arc) == this then null else old(field.arc)
    {
      Pull();
      field := f;
      f.ConnectArc(this);
    }

    /** The evidently intended arc equality: both pulled, or both in equal fields. */
    function Equals(other: Arc): (r: bool)
      reads this, other
      ensures r <==> (IsPulled() && other.IsPulled())
                     || (!IsPulled() && !other.IsPulled() && field.Key() == other.field.Key())
      ensures r ==> forall fieldHash: PointDir -> int :: HashCode(fieldHash) == other.HashCode(fieldHash)
    {
      SlotEquals(Slot(), other.Slot())
    }

    /** The hash code: 0 while pulled, otherwise the field's hash (given by `fieldHash`). */
    function HashCode(fieldHash: PointDir -> int): (r: int)
      reads this
      ensures IsPulled() ==> r == 0
      ensures !IsPulled() ==> r == fieldHash(field.Key())
    {
      SlotHash(Slot(), fieldHash)
    }
  }

  function SlotHash(slot: Option<PointDir>, fieldHash: PointDir -> int): int
  {
    if slot.None? then 0 else fieldHash(slot.value)
  }

  /**
    * Arc.Equals as written: a pulled arc equals every arc, and an arc in a field equals an arc
    * in an equal field.
    */
  function EqualsAsWritten(mine: Option<PointDir>, theirs: Option<PointDir>): (r: bool)
    ensures mine.None? ==> r
    ensures mine.Some? ==> (r <==> theirs == mine)
  {
    mine.None? || theirs == mine
  }

  /** As written, equality is not symmetric and disagrees with the hash code. */
  lemma EqualsAsWrittenAsymmetric(k: PointDir, fieldHash: PointDir -> int)
    requires fieldHash(k) != 0
    ensures EqualsAsWritten(Option.None, Some(k))
    ensures !EqualsAsWritten(Some(k), Option.None)
    ensures SlotHash(Option.None, fieldHash) != SlotHash(Some(k), fieldHash)
  {
  }

  /** The evidently intended arc equality: both pulled, or both in equal fields. */
  function SlotEquals(mine: Option<PointDir>, theirs: Option<PointDir>): (r: bool)
    ensures r <==> (mine.None? && theirs.None?) || (mine.Some? && theirs.Some? && mine.value == theirs.value)
  {
    mine == theirs
  }

  /** Intended equality is an equivalence and agrees with the hash code. */
  lemma SlotEqualsConsistent(a: Option<PointDir>, b: Option<PointDir>, c: Option<PointDir>, fieldHash: PointDir -> int)
    ensures SlotEquals(a, a)
    ensures SlotEquals(a, b) == SlotEquals(b, a)
    ensures SlotEquals(a, b) && SlotEquals(b, c) ==> SlotEquals(a, c)
    ensures SlotEquals(a, b) ==> SlotHash(a, fieldHash) == SlotHash(b, fieldHash)
  {
  }
}
