/**
  * The game board (Assets/Scripts/Core/Game/GameBoard.cs): a grid of nodes, the set of arcs
  * placed on it and the island set that tracks connectivity, with the validate-then-apply
  * Push and Pull. Grid, IslandSet, Player and the move classes are not part of this model;
  * they appear here as small stand-ins that provide exactly what GameBoard.cs and Puzzle.cs
  * rely on. Nodes are identified by their positions.
  */
module Board {
  import opened Geometry
  import opened Wrappers
  import opened Items

  /**
    * The grid: the positions of the placed nodes, in placement order, and a fixed table of the
    * fields between them. How Grid.cs derives fields from node positions is not part of this
    * model, so the table is given when the grid is made.
    */
  class Grid {
    var nodes: seq<Point>
    const fields: map<PointDir, Field>

    constructor (fields: map<PointDir, Field>)
      ensures nodes == [] && this.fields == fields
    {
      nodes := [];
      this.fields := fields;
    }

    /** Adds a node unless its position is already taken. */
    method AddNode(node: Point) returns (added: bool)
      modifies this
      ensures added <==> node !in old(nodes)
      ensures nodes == if added then old(nodes) + [node] else old(nodes)
    {
      added := node !in nodes;
      if added {
        nodes := nodes + [node];
      }
    }

    /** The extent of the placed nodes. */
    function Size(): Point
      reads this
    {
      Boundary(nodes)
    }

    function NodeAt(pos: Point): (r: Option<Point>)
      reads this
      ensures r.Some? <==> pos in nodes
      ensures r.Some? ==> r.value == pos
    {
      if pos in nodes then Some(pos) else Option.None
    }

    function GetFieldAt(pos: Point, dir: Direction): (r: Field?)
      ensures r != null <==> PointDir(pos, dir) in fields
      ensures r != null ==> r in fields.Values
    {
      if PointDir(pos, dir) in fields then fields[PointDir(pos, dir)] else null
    }

    /** The arc in the field at (pos, dir), or null when there is no such field or it is empty. */
    function GetArcAt(pos: Point, dir: Direction): (r: Arc?)
      reads fields.Values
      ensures r != null <==> GetFieldAt(pos, dir) != null && GetFieldAt(pos, dir).arc != null
    {
      var f := GetFieldAt(pos, dir);
      if f == null then null else f.arc
    }
  }

  /** The two end positions of a field, as the island set records a placed arc. */
  datatype Link = Link(a: Point, b: Point)

  function LinkOf(f: Field): Link
  {
    Link(f.position, f.ConnectedPosition())
  }

  /**
    * The island set. IslandSet.cs is not part of this model: this stand-in records the nodes it
    * was given and the links it was told about, and answers connectivity from them by a plain
    * reachability closure rather than the source's incremental algorithm.
    */
  class IslandSet {
    var nodes: set<Point>
    var links: multiset<Link>

    constructor ()
      ensures nodes == {} && links == multiset{}
    {
      nodes := {};
      links := multiset{};
    }

    method Add(node: Point)
      modifies this
      ensures nodes == old(nodes) + {node} && links == old(links)
    {
      nodes := nodes + {node};
    }

    /** Notified after an arc is pushed into `f`. */
    method Connect(f: Field)
      modifies this
      ensures links == old(links) + multiset{LinkOf(f)} && nodes == old(nodes)
    {
      links := links + multiset{LinkOf(f)};
    }

    /** Notified after an arc is pulled from `f`. */
    method Disconnect(f: Field)
      modifies this
      ensures links == old(links) - multiset{LinkOf(f)} && nodes == old(nodes)
    {
      links := links - multiset{LinkOf(f)};
    }

    /** The island of a tracked node: every node it reaches over links. */
    function Get(node: Point): (island: set<Point>)
      reads this
      ensures node in nodes ==> node in island && island <= nodes
      ensures node !in nodes ==> island == {}
    {
      if node in nodes then Closure(nodes, links, {node}) else {}
    }

    predicate IsConnected(a: Point, b: Point)
      reads this
    {
      b in Get(a)
    }
  }

  /** The nodes reachable from `seen` over links whose two ends are tracked nodes. */
  function Closure(nodes: set<Point>, links: multiset<Link>, seen: set<Point>): (r: set<Point>)
    requires seen <= nodes
    ensures seen <= r <= nodes
    ensures forall l | l in links && l.a in r && l.b in nodes :: l.b in r
    ensures forall l | l in links && l.b in r && l.a in nodes :: l.a in r
    decreases |nodes - seen|
  {
    var next := seen
      + (set l | l in links && l.a in seen && l.b in nodes :: l.b)
      + (set l | l in links && l.b in seen && l.a in nodes :: l.a);
    if next == seen then seen
    else
      SmallerRemainder(nodes, seen, next);
      Closure(nodes, links, next)
  }

  lemma SmallerRemainder(nodes: set<Point>, seen: set<Point>, next: set<Point>)
    requires seen < next <= nodes
    ensures |nodes - next| < |nodes - seen|
  {
    assert nodes - seen == (nodes - next) + (next - seen);
  }

  /** The closure is the least link-closed set of tracked nodes that contains the seeds. */
  lemma {:induction false} ClosureLeast(nodes: set<Point>, links: multiset<Link>, seen: set<Point>, s: set<Point>)
    requires seen <= s <= nodes
    requires forall l | l in links && l.a in s && l.b in nodes :: l.b in s
    requires forall l | l in links && l.b in s && l.a in nodes :: l.a in s
    ensures Closure(nodes, links, seen) <= s
    decreases |nodes - seen|
  {
    var next := seen
      + (set l | l in links && l.a in seen && l.b in nodes :: l.b)
      + (set l | l in links && l.b in seen && l.a in nodes :: l.a);
    assert next <= s;
    if next != seen {
      SmallerRemainder(nodes, seen, next);
      ClosureLeast(nodes, links, next, s);
    }
  }

  /** Every tracked node is connected to itself; untracked nodes are connected to nothing. */
  lemma ConnectedReflexive(s: IslandSet, a: Point, b: Point)
    ensures a in s.nodes ==> s.IsConnected(a, a)
    ensures s.IsConnected(a, b) ==> a in s.nodes && b in s.nodes
  {
  }

  /** Links join nodes both ways: if `b` is in the island of `a`, then `a` is in the island of `b`. */
  lemma {:induction false} ConnectedSymmetric(s: IslandSet, a: Point, b: Point)
    requires s.IsConnected(a, b)
    ensures s.IsConnected(b, a)
  {
    ConnectedReflexive(s, a, b);
    var fromB := Closure(s.nodes, s.links, {b});
    if a !in fromB {
      var rest := s.nodes - fromB;
      ClosureLeast(s.nodes, s.links, {a}, rest);
      assert false;
    }
  }

  /** Islands are closed: a node reached from a node of the island of `a` is in that island. */
  lemma {:induction false} ConnectedTransitive(s: IslandSet, a: Point, b: Point, c: Point)
    requires s.IsConnected(a, b) && s.IsConnected(b, c)
    ensures s.IsConnected(a, c)
  {
    ConnectedReflexive(s, a, b);
    ClosureLeast(s.nodes, s.links, {b}, Closure(s.nodes, s.links, {a}));
  }

  /**
    * The board. Its invariant: every placed arc sits in one of the grid's fields and that field
    * names it as occupant; every occupied field of the grid holds a placed arc that points back
    * to it and has the field's length.
    */
  class GameBoard {
    const grid: Grid
    const islandSet: IslandSet
    var arcs: set<Arc>
    var startNode: Point
    var size: Point

    ghost predicate Valid()
      reads this, grid.fields.Values, arcs
    {
      && (forall a | a in arcs :: a.field != null && a.field in grid.fields.Values && a.field.arc == a)
      && (forall f | f in grid.fields.Values && f.arc != null ::
            f.arc in arcs && f.arc.field == f && f.arc.length == f.length)
    }

    constructor (fields: map<PointDir, Field>)
      requires forall f | f in fields.Values :: f.arc == null
      ensures Valid()
      ensures grid.fields == fields && grid.nodes == [] && arcs == {} && size == Point.Zero
      ensures fresh(grid) && fresh(islandSet) && islandSet.nodes == {} && islandSet.links == multiset{}
    {
      grid := new Grid(fields);
      islandSet := new IslandSet();
      arcs := {};
      size := Point.Zero;
    }

    /** No arc sits in two fields, and no field holds two arcs. */
    lemma SingleOccupancy(f: Field, g: Field)
      requires Valid() && f in grid.fields.Values && g in grid.fields.Values
      ensures f.arc != null && f.arc == g.arc ==> f == g
      ensures f.arc != null ==> f.arc.field == f
    {
    }

    /** Places a node on the grid, refreshes the size and registers the node with the island set. */
    method PlaceNode(node: Point) returns (added: bool)
      requires Valid()
      modifies this, grid, islandSet
      ensures Valid()
      ensures added <==> node !in old(grid.nodes)
      ensures grid.nodes == if added then old(grid.nodes) + [node] else old(grid.nodes)
      ensures size == Boundary(grid.nodes)
      ensures islandSet.nodes == old(islandSet.nodes) + {node} && islandSet.links == old(islandSet.links)
      ensures arcs == old(arcs) && startNode == old(startNode)
    {
      added := grid.AddNode(node);
      size := grid.Size();
      islandSet.Add(node);
      assert forall f | f in grid.fields.Values :: f.arc == old(f.arc);
      assert forall a | a in arcs :: a.field == old(a.field);
    }

    /** The arc in the field at (arcPos, arcDir), or null. */
    function GetArcAt(arcPos: Point, arcDir: Direction): (r: Arc?)
      reads grid.fields.Values
      ensures r != null <==> PointDir(arcPos, arcDir) in grid.fields && grid.fields[PointDir(arcPos, arcDir)].arc != null
      ensures r != null ==> grid.fields[PointDir(arcPos, arcDir)].arc == r
    {
      grid.GetArcAt(arcPos, arcDir)
    }

    /** The field at (fieldPos, fieldDir), or null. */
    function GetFieldAt(fieldPos: Point, fieldDir: Direction): (r: Field?)
      ensures r != null <==> PointDir(fieldPos, fieldDir) in grid.fields
      ensures r != null ==> r == grid.fields[PointDir(fieldPos, fieldDir)]
    {
      grid.GetFieldAt(fieldPos, fieldDir)
    }

    /**
      * Places `arc` in `field` when the field accepts it. On success the arc is in the field
      * (having left any field it was in), it is one of the board's arcs and the island set has
      * been told of the new link. On rejection nothing changes.
      */
    method Push(arc: Arc, field: Field) returns (ok: bool)
      requires Valid() && field in grid.fields.Values
      modifies this, arc, arc.field, field, islandSet
      ensures Valid()
      ensures ok == old(field.ValidPlacement(arc))
      ensures size == old(size) && startNode == old(startNode) && islandSet.nodes == old(islandSet.nodes)
      ensures !ok ==> unchanged(this, arc, field, islandSet)
      ensures !ok && old(arc.field) != null ==> unchanged(old(arc.field))
      ensures ok ==> arc.field == field && field.arc == arc && arc.prevField == old(arc.field)
      ensures ok ==> arcs == old(arcs) + {arc}
      ensures ok ==> islandSet.links == old(islandSet.links) + multiset{LinkOf(field)}
      ensures ok && old(arc.field) != null && old(arc.field) != field ==>
        old(arc.field).arc == if old(arc.field.arc) == arc then null else old(arc.field.arc)
    {
      if !field.ValidPlacement(arc) {
        return false;
      }
      arc.Push(field);
      arcs := arcs + {arc};
      islandSet.Connect(field);
      ok := true;
    }

    /**
      * Takes a placed arc out of its field. On success the arc is pulled, remembers the field
      * it left, is no longer one of the board's arcs, and the island set has been told the
      * link is gone. An arc already pulled is rejected and nothing changes.
      */
    method Pull(arc: Arc) returns (ok: bool)
      requires Valid()
      modifies this, arc, arc.field, islandSet
      ensures Valid()
      ensures ok == (old(arc.field) != null)
      ensures size == old(size) && startNode == old(startNode) && islandSet.nodes == old(islandSet.nodes)
      ensures !ok ==> unchanged(this, arc, islandSet)
      ensures ok ==> arc.field == null && arc.prevField == old(arc.field)
      ensures ok ==> arcs == old(arcs) - {arc}
      ensures ok ==> islandSet.links == old(islandSet.links) - multiset{LinkOf(old(arc.field))}
      ensures ok ==> old(arc.field).arc == if old(arc.field.arc) == arc then null else old(arc.field.arc)
    {
      if arc.IsPulled() {
        return false;
      }
      var field := arc.field;
      arc.Pull();
      arcs := arcs - {arc};
      islandSet.Disconnect(field);
      ok := true;
      assert Valid() by {
        forall a | a in arcs
          ensures a.field != null && a.field in grid.fields.Values && a.field.arc == a
        {
          assert a != arc && a.field == old(a.field) && old(a.field.arc) == a;
        }
        forall f | f in grid.fields.Values && f.arc != null
          ensures f.arc in arcs && f.arc.field == f && f.arc.length == f.length
        {
          assert f.arc == old(f.arc) && old(f.arc.field) == f;
          assert f.arc != arc;
        }
      }
    }

    /**
      * Makes a new arc in the field at (pos, dir). Fails when no node is at `pos`, there is no
      * such field, or the field already holds an arc.
      */
    method CreateArc(pos: Point, dir: Direction) returns (ok: bool)
      requires Valid()
      modifies this, islandSet
      modifies if PointDir(pos, dir) in grid.fields then {grid.fields[PointDir(pos, dir)]} else {}
      ensures Valid()
      ensures ok <==> pos in grid.nodes && PointDir(pos, dir) in grid.fields
                      && old(grid.fields[PointDir(pos, dir)].arc) == null
      ensures size == old(size) && startNode == old(startNode) && islandSet.nodes == old(islandSet.nodes)
      ensures !ok ==> unchanged(this, islandSet) && unchanged(grid.fields.Values)
      ensures ok ==> var f := grid.fields[PointDir(pos, dir)];
        f.arc != null && fresh(f.arc) && f.arc.field == f && f.arc.length == f.length
        && arcs == old(arcs) + {f.arc}
        && islandSet.links == old(islandSet.links) + multiset{LinkOf(f)}
    {
      var node := grid.NodeAt(pos);
      if node.None? {
        return false;
      }
      var field := grid.GetFieldAt(pos, dir);
      if field == null {
        return false;
      }
      ok := CreateArcIn(field);
    }

    /** Makes a new arc in `field` unless it already holds one (the private CreateArc overload). */
    method CreateArcIn(field: Field) returns (ok: bool)
      requires Valid() && field in grid.fields.Values
      modifies this, field, islandSet
      ensures Valid()
      ensures ok <==> old(field.arc) == null
      ensures size == old(size) && startNode == old(startNode) && islandSet.nodes == old(islandSet.nodes)
      ensures !ok ==> unchanged(this, field, islandSet)
      ensures ok ==> field.arc != null && fresh(field.arc) && field.arc.field == field
      ensures ok ==> field.arc.length == field.length && arcs == old(arcs) + {field.arc}
      ensures ok ==> islandSet.links == old(islandSet.links) + multiset{LinkOf(field)}
    {
      if field.HasArc() {
        return false;
      }
      var arc := new Arc(field);
      ok := Push(arc, field);
    }

    /** Whether two nodes are in the same island. */
    predicate IsConnected(start: Point, end: Point)
      reads islandSet
    {
      islandSet.IsConnected(start, end)
    }

    /** Being in the same island is an equivalence on the tracked nodes. */
    lemma IslandsPartitionNodes(a: Point, b: Point, c: Point)
      ensures a in islandSet.nodes <==> IsConnected(a, a)
      ensures IsConnected(a, b) ==> IsConnected(b, a)
      ensures IsConnected(a, b) && IsConnected(b, c) ==> IsConnected(a, c)
    {
      ConnectedReflexive(islandSet, a, a);
      if IsConnected(a, b) {
        ConnectedSymmetric(islandSet, a, b);
        if IsConnected(b, c) {
          ConnectedTransitive(islandSet, a, b, c);
        }
      }
    }

    /** The island of the start node. */
    function StartIsland(): (r: set<Point>)
      reads this, islandSet
      ensures startNode in islandSet.nodes ==> startNode in r
    {
      islandSet.Get(startNode)
    }
  }

  /** One player action against a board: pull an arc, or push an arc into a field. */
  datatype Move = PullMove(arc: Arc, direction: Direction) | PushMove(arc: Arc, field: Field)

  /**
    * The player. Player.cs and the move classes are not part of this model: playing a move
    * applies it to the board (Pull for a pull move, Push for a push move) and reports whether
    * it was accepted. Move counting, scores and win state are not modelled.
    */
  class Player {
    const board: GameBoard

    constructor (board: GameBoard)
      ensures this.board == board
    {
      this.board := board;
    }

    method PlayMove(move: Move) returns (ok: bool)
      requires board.Valid()
      requires move.PushMove? ==> move.field in board.grid.fields.Values
      modifies board, board.islandSet, move.arc, move.arc.field
      modifies if move.PushMove? then {move.field} else {}
      ensures board.Valid()
      ensures move.PullMove? ==> ok == (old(move.arc.field) != null)
      ensures move.PushMove? ==> ok == old(move.field.ValidPlacement(move.arc))
      ensures board.size == old(board.size) && board.startNode == old(board.startNode)
      ensures board.islandSet.nodes == old(board.islandSet.nodes)
      ensures !ok ==> unchanged(board, board.islandSet, move.arc)
      ensures !ok && move.PushMove? ==> unchanged(move.field)
      ensures !ok && old(move.arc.field) != null ==> unchanged(old(move.arc.field))
      ensures ok ==> move.arc.prevField == old(move.arc.field)
      ensures ok && move.PullMove? ==> move.arc.field == null
      ensures ok && move.PullMove? ==> board.arcs == old(board.arcs) - {move.arc}
      ensures ok && move.PullMove? ==>
        board.islandSet.links == old(board.islandSet.links) - multiset{LinkOf(old(move.arc.field))}
      ensures ok && move.PullMove? ==>
        old(move.arc.field).arc == if old(move.arc.field.arc) == move.arc then null else old(move.arc.field.arc)
      ensures ok && move.PushMove? ==> move.arc.field == move.field && move.field.arc == move.arc
      ensures ok && move.PushMove? ==> board.arcs == old(board.arcs) + {move.arc}
      ensures ok && move.PushMove? ==>
        board.islandSet.links == old(board.islandSet.links) + multiset{LinkOf(move.field)}
      ensures ok && move.PushMove? && old(move.arc.field) != null && old(move.arc.field) != move.field ==>
        old(move.arc.field).arc == if old(move.arc.field.arc) == move.arc then null else old(move.arc.field.arc)
    {
      match move
      case PullMove(arc, _) =>
        ok := board.Pull(arc);
      case PushMove(arc, field) =>
        ok := board.Push(arc, field);
    }
  }
}
