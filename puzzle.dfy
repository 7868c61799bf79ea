/**
  * The puzzle rules (Assets/Scripts/Core/Game/Puzzle.cs): a two-state machine that is either
  * idle or holds one pulled arc. A pull followed by a push forms one turn; every accepted
  * action is recorded in the move history.
  */
module Puzzles {
  import opened Geometry
  import opened Items
  import opened Board

  /** Moves alternate pull, push, pull, ... from the first one. */
  ghost predicate Alternates(history: seq<Move>)
  {
    forall i | 0 <= i < |history| :: history[i].PullMove? <==> i % 2 == 0
  }

  function CountPulls(history: seq<Move>): nat
  {
    if history == [] then 0
    else CountPulls(history[..|history| - 1]) + (if history[|history| - 1].PullMove? then 1 else 0)
  }

  function CountPushes(history: seq<Move>): nat
  {
    if history == [] then 0
    else CountPushes(history[..|history| - 1]) + (if history[|history| - 1].PushMove? then 1 else 0)
  }

  /**
    * In an alternating history the pulls are the pushes plus one exactly when an arc is held
    * (the history has odd length), and the two counts make up the whole history.
    */
  lemma {:induction false} AlternatingCounts(history: seq<Move>)
    requires Alternates(history)
    ensures CountPulls(history) == CountPushes(history) + |history| % 2
    ensures CountPulls(history) + CountPushes(history) == |history|
  {
    if history != [] {
      var prefix := history[..|history| - 1];
      assert Alternates(prefix) by {
        forall i | 0 <= i < |prefix|
          ensures prefix[i].PullMove? <==> i % 2 == 0
        {
          assert prefix[i] == history[i];
        }
      }
      AlternatingCounts(prefix);
    }
  }

  class Puzzle {
    const board: GameBoard
    const player: Player
    var pulledArc: Arc?
    var pulledDirection: Direction
    var moveHistory: seq<Move>

    /**
      * Holding an arc is the same as the history having odd length; nothing held means no pull
      * direction; a held arc is out of every field and was taken by the last move.
      */
    ghost predicate Valid()
      reads this, board, board.grid.fields.Values, board.arcs, pulledArc
    {
      && player.board == board
      && board.Valid()
      && (pulledArc == null ==> pulledDirection == Direction.None)
      && (pulledArc != null ==> pulledArc.field == null && pulledArc !in board.arcs)
      && Alternates(moveHistory)
      && (|moveHistory| % 2 == 1 <==> pulledArc != null)
      && (pulledArc != null ==> moveHistory[|moveHistory| - 1] == PullMove(pulledArc, pulledDirection))
    }

    predicate IsPulled()
      reads this
    {
      pulledArc != null
    }

    /**
      * In a valid puzzle an arc is held exactly when the history is odd, that is exactly when
      * one pull more than pushes has been played; then the held arc is off the board.
      */
    lemma HeldIsOddHistory()
      requires Valid()
      ensures IsPulled() <==> |moveHistory| % 2 == 1
      ensures IsPulled() <==> CountPulls(moveHistory) == CountPushes(moveHistory) + 1
      ensures !IsPulled() <==> CountPulls(moveHistory) == CountPushes(moveHistory)
      ensures IsPulled() ==> pulledArc.field == null && pulledArc !in board.arcs
    {
      AlternatingCounts(moveHistory);
    }

    constructor (gameBoard: GameBoard)
      requires gameBoard.Valid()
      ensures Valid()
      ensures board == gameBoard && pulledArc == null && moveHistory == []
    {
      board := gameBoard;
      player := new Player(gameBoard);
      pulledArc := null;
      pulledDirection := Direction.None;
      moveHistory := [];
    }

    /**
      * Pulls `arc` out of its field. Rejected, with nothing changed, while an arc is held, when
      * `arc` is null, or when the board refuses the move (the arc is already pulled). On success
      * the arc is held with `pullDir` and the pull is appended to the history.
      */
    method PullArc(arc: Arc?, pullDir: Direction) returns (ok: bool)
      requires Valid()
      modifies this, board, board.islandSet
      modifies if arc == null then {} else {arc, arc.field}
      ensures Valid()
      ensures ok <==> old(pulledArc) == null && arc != null && old(arc.field) != null
      ensures board.size == old(board.size) && board.startNode == old(board.startNode)
      ensures board.islandSet.nodes == old(board.islandSet.nodes)
      ensures !ok ==> unchanged(this, board, board.islandSet)
      ensures !ok && arc != null ==> unchanged(arc)
      ensures !ok && arc != null && old(arc.field) != null ==> unchanged(old(arc.field))
      ensures ok ==> pulledArc == arc && pulledDirection == pullDir
      ensures ok ==> moveHistory == old(moveHistory) + [PullMove(arc, pullDir)]
      ensures ok ==> board.arcs == old(board.arcs) - {arc} && arc.prevField == old(arc.field)
      ensures ok ==> board.islandSet.links == old(board.islandSet.links) - multiset{LinkOf(old(arc.field))}
      ensures ok ==> old(arc.field).arc == if old(arc.field.arc) == arc then null else old(arc.field.arc)
    {
      if pulledArc != null || arc == null {
        return false;
      }
      var move := PullMove(arc, pullDir);
      ok := player.PlayMove(move);
      if ok {
        moveHistory := moveHistory + [move];
        pulledArc := arc;
        pulledDirection := pullDir;
      }
    }

    /** Pulls the arc in the field that reaches `nodePos` from the side opposite to `pullDir`. */
    method PullArcAt(nodePos: Point, pullDir: Direction) returns (ok: bool)
      requires Valid()
      modifies this, board, board.islandSet
      modifies if board.GetArcAt(nodePos, pullDir.Opposite()) == null then {}
               else {board.GetArcAt(nodePos, pullDir.Opposite()), board.GetArcAt(nodePos, pullDir.Opposite()).field}
      ensures Valid()
      ensures ok <==> old(pulledArc) == null && old(board.GetArcAt(nodePos, pullDir.Opposite())) != null
      ensures board.size == old(board.size) && board.startNode == old(board.startNode)
      ensures board.islandSet.nodes == old(board.islandSet.nodes)
      ensures !ok ==> unchanged(this, board, board.islandSet)
      ensures !ok ==> unchanged(board.arcs) && unchanged(board.grid.fields.Values)
      ensures ok ==> pulledArc == old(board.GetArcAt(nodePos, pullDir.Opposite())) && pulledDirection == pullDir
      ensures ok ==> pulledArc != null && moveHistory == old(moveHistory) + [PullMove(pulledArc, pullDir)]
      ensures ok ==> PointDir(nodePos, pullDir.Opposite()) in board.grid.fields
      ensures ok ==> var f := board.grid.fields[PointDir(nodePos, pullDir.Opposite())];
                     f.arc == null && pulledArc.prevField == f && board.arcs == old(board.arcs) - {pulledArc}
                     && board.islandSet.links == old(board.islandSet.links) - multiset{LinkOf(f)}
    {
      var arc := board.GetArcAt(nodePos, pullDir.Opposite());
      ok := PullArc(arc, pullDir);
    }

    /**
      * Pushes the held arc into `field`. Rejected, with nothing changed, when no arc is held,
      * when `field` is null, or when the field does not accept the arc. On success nothing is
      * held any more and the push is appended to the history.
      */
    method PushArc(field: Field?) returns (ok: bool)
      requires Valid()
      requires field != null ==> field in board.grid.fields.Values
      modifies this, board, board.islandSet, pulledArc
      modifies if field == null then {} else {field}
      ensures Valid()
      ensures ok <==> old(pulledArc) != null && field != null && old(field.ValidPlacement(pulledArc))
      ensures board.size == old(board.size) && board.startNode == old(board.startNode)
      ensures board.islandSet.nodes == old(board.islandSet.nodes)
      ensures !ok ==> unchanged(this, board, board.islandSet)
      ensures !ok && old(pulledArc) != null ==> unchanged(old(pulledArc))
      ensures !ok && field != null ==> unchanged(field)
      ensures ok ==> pulledArc == null && pulledDirection == Direction.None
      ensures ok ==> moveHistory == old(moveHistory) + [PushMove(old(pulledArc), field)]
      ensures ok ==> old(pulledArc).field == field && field.arc == old(pulledArc)
      ensures ok ==> old(pulledArc).prevField == null
      ensures ok ==> board.arcs == old(board.arcs) + {old(pulledArc)}
      ensures ok ==> board.islandSet.links == old(board.islandSet.links) + multiset{LinkOf(field)}
    {
      if pulledArc == null || field == null {
        return false;
      }
      var move := PushMove(pulledArc, field);
      ok := player.PlayMove(move);
      if ok {
        moveHistory := moveHistory + [move];
        pulledArc := null;
        pulledDirection := Direction.None;
      }
    }

    /** Pushes the held arc into the field leaving `nodePos` in direction `pushDir`. */
    method PushArcAt(nodePos: Point, pushDir: Direction) returns (ok: bool)
      requires Valid()
      modifies this, board, board.islandSet, pulledArc
      modifies if PointDir(nodePos, pushDir) in board.grid.fields then {board.grid.fields[PointDir(nodePos, pushDir)]} else {}
      ensures Valid()
      ensures ok <==> old(pulledArc) != null && PointDir(nodePos, pushDir) in board.grid.fields
                      && old(board.grid.fields[PointDir(nodePos, pushDir)].ValidPlacement(pulledArc))
      ensures board.size == old(board.size) && board.startNode == old(board.startNode)
      ensures board.islandSet.nodes == old(board.islandSet.nodes)
      ensures !ok ==> unchanged(this, board, board.islandSet) && unchanged(board.grid.fields.Values)
      ensures !ok && old(pulledArc) != null ==> unchanged(old(pulledArc))
      ensures ok ==> pulledArc == null && moveHistory == old(moveHistory) + [PushMove(old(pulledArc), board.grid.fields[PointDir(nodePos, pushDir)])]
      ensures ok ==> var f := board.grid.fields[PointDir(nodePos, pushDir)];
                     old(pulledArc).field == f && f.arc == old(pulledArc) && old(pulledArc).prevField == null
                     && board.arcs == old(board.arcs) + {old(pulledArc)}
                     && board.islandSet.links == old(board.islandSet.links) + multiset{LinkOf(f)}
    {
      var field := board.GetFieldAt(nodePos, pushDir);
      ok := PushArc(field);
    }
  }
}
