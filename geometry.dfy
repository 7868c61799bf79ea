/**
  * Grid geometry of the puzzle: integer points (Assets/Scripts/Core/Data/Point.cs) and the
  * five-valued direction enum with its extension methods (Assets/Scripts/Core/Data/Direction.cs).
  * The two source files refer to each other (a point converts to a direction and back), so
  * they share one module here.
  */
module Geometry {

  /** The four cardinal directions plus None. */
  datatype Direction = None | Up | Down | Left | Right
  {
    /** The direction pointing the other way; None stays None. */
    function Opposite(): (r: Direction)
      ensures (r == None) == (this == None)
      ensures r.IsHorizontal() == IsHorizontal() && r.IsVertical() == IsVertical()
    {
      match this
      case Up => Down
      case Down => Up
      case Left => Right
      case Right => Left
      case None => None
    }

    /** One counter-clockwise quarter turn (the RotatedDirections table); None stays None. */
    function RotatedOnce(): (r: Direction)
      ensures (r == None) == (this == None)
      ensures this != None ==> r.IsHorizontal() == IsVertical() && r.IsVertical() == IsHorizontal()
      ensures r.ToPoint() == Point(-ToPoint().y, ToPoint().x)
    {
      match this
      case Up => Left
      case Left => Down
      case Down => Right
      case Right => Up
      case None => None
    }

    /** `n` counter-clockwise quarter turns. */
    function RotatedTimes(n: nat): Direction
      decreases n
    {
      if n == 0 then this else RotatedOnce().RotatedTimes(n - 1)
    }

    /** The unit vector of the direction (the Points table); None is the zero vector. */
    function ToPoint(): (r: Point)
      ensures this == None ==> r == Point.Zero
      ensures this != None ==> (r.x == 0) != (r.y == 0) && -1 <= r.x <= 1 && -1 <= r.y <= 1
      ensures IsHorizontal() ==> r.y == 0 && r.x != 0
      ensures IsVertical() ==> r.x == 0 && r.y != 0
    {
      match this
      case Up => Point.Up
      case Down => Point.Down
      case Left => Point.Left
      case Right => Point.Right
      case None => Point.Zero
    }

    predicate IsHorizontal()
    {
      this == Left || this == Right
    }

    predicate IsVertical()
    {
      this == Up || this == Down
    }

    predicate IsDownLeft()
    {
      this == Down || this == Left
    }
  }

  /** Exactly one of the two axis predicates holds of a real direction; None has neither. */
  lemma AxisExclusive(d: Direction)
    ensures d == Direction.None ==> !d.IsHorizontal() && !d.IsVertical()
    ensures d != Direction.None ==> d.IsHorizontal() != d.IsVertical()
  {
  }

  /** The down-left directions are exactly those whose unit vector points towards negative coordinates. */
  lemma DownLeftNegative(d: Direction)
    ensures d.IsDownLeft() <==> d.ToPoint().x + d.ToPoint().y < 0
    ensures d.IsDownLeft() ==> d.Opposite().ToPoint().x + d.Opposite().ToPoint().y > 0
  {
  }

  /** Opposite is an involution. */
  lemma OppositeInvolution(d: Direction)
    ensures d.Opposite().Opposite() == d
  {
  }

  /** The opposite direction's unit vector is the negated unit vector. */
  lemma OppositeToPoint(d: Direction)
    ensures d.Opposite().ToPoint() == Neg(d.ToPoint())
  {
    match d
    case Up => assert Neg(Point.Up) == Point.Down;
    case Down => assert Neg(Point.Down) == Point.Up;
    case Left => assert Neg(Point.Left) == Point.Right;
    case Right => assert Neg(Point.Right) == Point.Left;
    case None => assert Neg(Point.Zero) == Point.Zero;
  }

  /** Quarter turns on None never leave None. */
  lemma {:induction false} RotatedNone(n: nat)
    ensures Direction.None.RotatedTimes(n) == Direction.None
  {
    if n > 0 {
      RotatedNone(n - 1);
    }
  }

  /** Four quarter turns are the identity. */
  lemma RotatedFour(d: Direction)
    ensures d.RotatedTimes(4) == d
  {
    assert d.RotatedTimes(4) == d.RotatedOnce().RotatedOnce().RotatedOnce().RotatedOnce().RotatedTimes(0);
  }

  /** Quarter turns only matter modulo four. */
  lemma {:induction false} RotatedPeriod(d: Direction, n: nat)
    ensures d.RotatedTimes(n) == d.RotatedTimes(n % 4)
  {
    if n >= 4 {
      RotatedSplit(d, 4, n - 4);
      RotatedFour(d);
      RotatedPeriod(d, n - 4);
      assert (n - 4) % 4 == n % 4;
    }
  }

  /** `a + b` quarter turns are `a` turns followed by `b` turns. */
  lemma {:induction false} RotatedSplit(d: Direction, a: nat, b: nat)
    ensures d.RotatedTimes(a + b) == d.RotatedTimes(a).RotatedTimes(b)
    decreases a
  {
    if a > 0 {
      RotatedSplit(d.RotatedOnce(), a - 1, b);
    }
  }

  /** An odd number of quarter turns moves a real direction to the other axis. */
  lemma {:induction false} RotatedOddSwapsAxis(d: Direction, n: nat)
    requires d != Direction.None
    ensures d.RotatedTimes(n) != Direction.None
    ensures d.RotatedTimes(n).IsHorizontal() == (if n % 2 == 0 then d.IsHorizontal() else d.IsVertical())
    decreases n
  {
    if n > 0 {
      RotatedOddSwapsAxis(d.RotatedOnce(), n - 1);
    }
  }

  /**
    * Direction.Rotated as written: the loop steps the counter towards zero from either side and
    * applies the same counter-clockwise turn at each step, so a negative count turns |n| times
    * counter-clockwise, not clockwise.
    */
  method Rotated(direction: Direction, n: int) returns (r: Direction)
    ensures r == direction.RotatedTimes(if n < 0 then -n else n)
  {
    var dir, current := n, direction;
    while dir != 0
      invariant current.RotatedTimes(if dir < 0 then -dir else dir)
             == direction.RotatedTimes(if n < 0 then -n else n)
      decreases if dir < 0 then -dir else dir
    {
      dir := if dir > 0 then dir - 1 else dir + 1;
      current := current.RotatedOnce();
    }
    r := current;
  }

  /** The rotation Rotated is evidently meant to perform: negative counts turn clockwise. */
  function RotatedSigned(d: Direction, n: int): (r: Direction)
    ensures n >= 0 ==> r == d.RotatedTimes(n)
    ensures n < 0 ==> r.RotatedTimes(-n) == d
  {
    RotatedModulo(d, n);
    d.RotatedTimes(n % 4)
  }

  lemma RotatedModulo(d: Direction, n: int)
    ensures n >= 0 ==> d.RotatedTimes(n % 4) == d.RotatedTimes(n)
    ensures n < 0 ==> d.RotatedTimes(n % 4).RotatedTimes(-n) == d
  {
    if n >= 0 {
      RotatedPeriod(d, n);
    } else {
      RotatedSplit(d, n % 4, -n);
      RotatedPeriod(d, n % 4 + -n);
      assert (n % 4 + -n) % 4 == 0;
    }
  }

  /** Directions.Orthogonal as written: both entries come out the same, one quarter turn away. */
  function Orthogonal(d: Direction): (r: seq<Direction>)
    ensures |r| == 2 && r[0] == r[1] && r[0] == d.RotatedOnce()
  {
    [d.RotatedTimes(1), d.RotatedTimes(1)]
  }

  /** Directions.Orthogonal as evidently intended: the two directions perpendicular to `d`. */
  function OrthogonalIntended(d: Direction): (r: seq<Direction>)
    ensures |r| == 2
    ensures d == Direction.None ==> r == [Direction.None, Direction.None]
    ensures d != Direction.None ==>
      r[0] != r[1] && r[1] == r[0].Opposite() &&
      r[0].IsHorizontal() == d.IsVertical() && r[1].IsHorizontal() == d.IsVertical()
  {
    RotatedNone(1);
    RotatedNone(3);
    [RotatedSigned(d, 1), RotatedSigned(d, -1)]
  }

  /** Orthogonal as written never yields two different directions, e.g. Up gives Left twice. */
  lemma OrthogonalDuplicates()
    ensures Orthogonal(Direction.Up) == [Direction.Left, Direction.Left]
    ensures OrthogonalIntended(Direction.Up) == [Direction.Left, Direction.Right]
  {
  }

  /**
    * The flags of a touch swipe (TouchKit's TKSwipeDirection flag enum, which is not part of
    * this model); each field is one flag bit.
    */
  datatype Swipe = Swipe(left: bool, right: bool, up: bool, down: bool)

  /** Swipe decoding: the first set flag in the order Left, Right, Up, Down wins. */
  function SwipeToDirection(s: Swipe): (r: Direction)
    ensures r == Direction.Left <==> s.left
    ensures r == Direction.Right <==> !s.left && s.right
    ensures r == Direction.Up <==> !s.left && !s.right && s.up
    ensures r == Direction.Down <==> !s.left && !s.right && !s.up && s.down
    ensures r == Direction.None <==> !s.left && !s.right && !s.up && !s.down
  {
    if s.left then Direction.Left
    else if s.right then Direction.Right
    else if s.up then Direction.Up
    else if s.down then Direction.Down
    else Direction.None
  }

  /** Directions.All: a new list of the four real directions. */
  function All(): (r: seq<Direction>)
    ensures |r| == 4
    ensures Direction.None !in r
    ensures forall d: Direction :: d != Direction.None ==> d in r
    ensures forall i, j :: 0 <= i < j < |r| ==> r[i] != r[j]
  {
    AllRealDirections();
    [Direction.Up, Direction.Down, Direction.Left, Direction.Right]
  }

  lemma AllRealDirections()
    ensures forall d: Direction :: d != Direction.None ==>
      d in [Direction.Up, Direction.Down, Direction.Left, Direction.Right]
  {
    forall d: Direction | d != Direction.None
      ensures d in [Direction.Up, Direction.Down, Direction.Left, Direction.Right]
    {
      match d
      case Up =>
      case Down =>
      case Left =>
      case Right =>
    }
  }

  /** An integer position on the grid. */
  datatype Point = Point(x: int, y: int)
  {
    static const Zero := Point(0, 0)
    static const One := Point(1, 1)
    static const Up := Point(0, 1)
    static const Down := Point(0, -1)
    static const Left := Point(-1, 0)
    static const Right := Point(1, 0)

    /** The component-wise sign (Math.Sign). */
    function Sign(): (r: Point)
      ensures -1 <= r.x <= 1 && -1 <= r.y <= 1
      ensures (r.x < 0 <==> x < 0) && (r.x > 0 <==> x > 0)
      ensures (r.y < 0 <==> y < 0) && (r.y > 0 <==> y > 0)
    {
      Point(SignOf(x), SignOf(y))
    }

    /** The point `length` steps from this one along `direction`. */
    function Next(length: int, direction: Direction): (r: Point)
      ensures direction == Direction.None ==> r == this
      ensures direction.IsHorizontal() ==>
        r.y == y && r.x == (if direction == Direction.Right then x + length else x - length)
      ensures direction.IsVertical() ==>
        r.x == x && r.y == (if direction == Direction.Up then y + length else y - length)
    {
      Add(this, Mul(direction.ToPoint(), length))
    }

    /** Value equality, coordinate by coordinate. */
    function Equals(other: Point): (r: bool)
      ensures r <==> this == other
    {
      x == other.x && y == other.y
    }

    /** A point is a direction when it lies on an axis. */
    predicate IsDirection()
    {
      x == 0 || y == 0
    }

    /** The direction whose unit vector is this point's sign, or None (the Directions table). */
    function ToDirection(): (r: Direction)
      ensures r != Direction.None ==> r.ToPoint() == Sign()
      ensures r == Direction.None <==> !IsDirection() || this == Zero
    {
      var s := Sign();
      if s in Directions then Directions[s] else Direction.None
    }
  }

  /** Table from unit vectors (and zero) to directions. */
  const Directions: map<Point, Direction> := map[
    Point.Down := Direction.Down,
    Point.Up := Direction.Up,
    Point.Right := Direction.Right,
    Point.Left := Direction.Left,
    Point.Zero := Direction.None
  ]

  function SignOf(n: int): (r: int)
    ensures -1 <= r <= 1 && (r < 0 <==> n < 0) && (r > 0 <==> n > 0)
  {
    if n < 0 then -1 else if n > 0 then 1 else 0
  }

  function Add(p1: Point, p2: Point): (r: Point)
    ensures r.x - p2.x == p1.x && r.y - p2.y == p1.y
    ensures r.x - p1.x == p2.x && r.y - p1.y == p2.y
  {
    Point(p1.x + p2.x, p1.y + p2.y)
  }

  function Sub(p1: Point, p2: Point): (r: Point)
    ensures Add(r, p2) == p1
    ensures r == Point.Zero <==> p1 == p2
  {
    Point(p1.x - p2.x, p1.y - p2.y)
  }

  /** Helper: the additive inverse, the origin minus `p`. */
  function Neg(p: Point): (r: Point)
    ensures Add(p, r) == Point.Zero && Add(r, p) == Point.Zero
  {
    Sub(Point.Zero, p)
  }

  /** Scaling a point by an integer on the right. */
  function Mul(p: Point, f: int): (r: Point)
    ensures f == 0 ==> r == Point.Zero
    ensures f == 1 ==> r == p
    ensures f == -1 ==> r == Neg(p)
  {
    Point(p.x * f, p.y * f)
  }

  /** Scaling a point by an integer on the left, the same as on the right. */
  function MulLeft(f: int, p: Point): (r: Point)
    ensures r == Mul(p, f)
  {
    Point(p.x * f, p.y * f)
  }

  /** Scaling distributes over adding factors and over adding points. */
  lemma MulDistributes(p: Point, q: Point, f: int, g: int)
    ensures Mul(p, f + g) == Add(Mul(p, f), Mul(p, g))
    ensures Mul(Add(p, q), f) == Add(Mul(p, f), Mul(q, f))
  {
    assert p.x * (f + g) == p.x * f + p.x * g && p.y * (f + g) == p.y * f + p.y * g;
    assert (p.x + q.x) * f == p.x * f + q.x * f && (p.y + q.y) * f == p.y * f + q.y * f;
  }

  /** `p + q - q == p`. */
  lemma AddSubCancel(p: Point, q: Point)
    ensures Sub(Add(p, q), q) == p
  {
  }

  /** The static Next agrees with the instance one and moves along the direction's unit vector. */
  function Next(pos: Point, length: int, direction: Direction): (r: Point)
    ensures r == pos.Next(length, direction)
    ensures Sub(r, pos) == Mul(direction.ToPoint(), length)
  {
    Add(pos, Mul(direction.ToPoint(), length))
  }

  /** Stepping a positive distance along a real direction is recognised as that direction. */
  lemma NextDirection(p: Point, length: int, d: Direction)
    requires length > 0 && d != Direction.None
    ensures Sub(Next(p, length, d), p).ToDirection() == d
  {
    var v := Sub(Next(p, length, d), p);
    assert v.Sign() == d.ToPoint();
  }

  /** A point lies on an axis exactly when it is its sign scaled by its length along that axis. */
  lemma OnAxisIsScaledSign(p: Point)
    ensures p.IsDirection() <==> Mul(p.Sign(), Abs(p).x + Abs(p).y) == p
  {
  }

  /** A point off both axes, and the origin, have no direction. */
  lemma ToDirectionNone(p: Point)
    requires (p.x != 0 && p.y != 0) || p == Point.Zero
    ensures p.ToDirection() == Direction.None
  {
  }

  /** Math.Abs on both coordinates. */
  function Abs(p: Point): (r: Point)
    ensures r.x >= 0 && r.y >= 0
    ensures (r.x == p.x || r.x == -p.x) && (r.y == p.y || r.y == -p.y)
  {
    Point(if p.x < 0 then -p.x else p.x, if p.y < 0 then -p.y else p.y)
  }

  datatype Axis = X | Y

  function Coord(p: Point, axis: Axis): int
  {
    if axis == X then p.x else p.y
  }

  /** The largest coordinate along `axis` (LINQ Max). */
  function MaxOf(ps: seq<Point>, axis: Axis): (m: int)
    requires ps != []
    ensures forall p <- ps :: Coord(p, axis) <= m
    ensures exists p <- ps :: Coord(p, axis) == m
  {
    if |ps| == 1 then Coord(ps[0], axis)
    else
      var rest := MaxOf(ps[1..], axis);
      assert forall p <- ps[1..] :: p in ps;
      if Coord(ps[0], axis) >= rest then Coord(ps[0], axis) else rest
  }

  /** The smallest coordinate along `axis` (LINQ Min). */
  function MinOf(ps: seq<Point>, axis: Axis): (m: int)
    requires ps != []
    ensures forall p <- ps :: m <= Coord(p, axis)
    ensures exists p <- ps :: Coord(p, axis) == m
  {
    if |ps| == 1 then Coord(ps[0], axis)
    else
      var rest := MinOf(ps[1..], axis);
      assert forall p <- ps[1..] :: p in ps;
      if Coord(ps[0], axis) <= rest then Coord(ps[0], axis) else rest
  }

  /**
    * The extent of a collection of points: zero when empty, otherwise the difference between
    * the largest and smallest coordinate on each axis.
    */
  function Boundary(points: seq<Point>): (r: Point)
    ensures points == [] ==> r == Point.Zero
    ensures r.x >= 0 && r.y >= 0
    ensures points != [] ==>
      r.x == MaxOf(points, X) - MinOf(points, X) && r.y == MaxOf(points, Y) - MinOf(points, Y)
    ensures forall p <- points :: forall q <- points :: q.x - p.x <= r.x && q.y - p.y <= r.y
  {
    if points == [] then Point.Zero
    else
      Point(MaxOf(points, X) - MinOf(points, X), MaxOf(points, Y) - MinOf(points, Y))
  }

  /** A position together with a direction, the key of a field or an arc slot. */
  datatype PointDir = PointDir(point: Point, direction: Direction)
}
