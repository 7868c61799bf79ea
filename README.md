# node — a Dafny model of the puzzle core

`node` is a puzzle game. Nodes sit on an integer grid and are joined by arcs that lie in fields.
A field is a slot of fixed length that leaves a node in one of four directions. A turn pulls an
arc out of its field and pushes it into another empty field of the same length. The goal is to
connect the start node to the final node. This project models the game's core in Dafny and
proves properties of that model:

- **Geometry** (`geometry.dfy`): points and directions, opposites and rotations, the
  direction of a vector, and the bounding box of a set of points.
- **Items** (`items.dfy`): the arc, which is either in one field or pulled, and the field as far
  as the arc and the board use it. This includes arc equality and its hash code.
- **Board** (`board.dfy`): the game board. It holds the grid, the set of placed arcs and the
  island set that tracks connectivity. Its push and pull check a move before they apply it.
  The player applies a move to the board.
- **Puzzle** (`puzzle.dfy`): the two-state rule machine. It is either idle or holds one pulled
  arc, and it keeps the move history.
- **Printer** (`printer.dfy`): the ASCII picture of a board on a `(2w+1) x (2h+1)` character
  grid. The drawing order is nodes, then arcs, then pull hints, then push hints. The grid is
  then transposed and joined into lines.
- **Levels** (`levels.dfy`): level records as the level file lays them out, and their
  conversion to and from in-game levels. It also covers the level pack, the range-checked level
  lookup and the save rule (a won level is stored as the original layout plus one win).
- **View tables** (`arc_view_map.dfy`, `field_view_map.dfy`): the arc views, kept both flat and
  nested per position, and the field views, each keyed by position and direction.

Code that updates objects in place is modelled by classes with `modifies` frames: the board,
the puzzle, the arc and field, the level store and the view tables. The printer works on an
`array2<char>`, as the source does. Its methods are proved equal to a functional
specification, `Render`, and the properties of the picture are proved about `Render`. Pure code
is modelled by datatypes and functions: points, directions and level records.

## Model

| member | source | states |
|---|---|---|
| Geometry.Direction.Opposite | Assets/Scripts/Core/Data/Direction.cs:86-89 | the opposite of None is None and only of None; it keeps the axis |
| Geometry.OppositeInvolution | Assets/Scripts/Core/Data/Direction.cs:23-31 | taking the opposite twice gives the direction back |
| Geometry.OppositeToPoint | Assets/Scripts/Core/Data/Direction.cs:23-41 | the unit vector of the opposite is the negated unit vector |
| Geometry.Direction.RotatedOnce | Assets/Scripts/Core/Data/Direction.cs:73-81 | one counter-clockwise quarter turn: the unit vector (x, y) becomes (-y, x); None is kept and a real direction swaps axis |
| Geometry.RotatedNone | Assets/Scripts/Core/Data/Direction.cs:94-102 | None rotated any number of times stays None |
| Geometry.RotatedFour | Assets/Scripts/Core/Data/Direction.cs:73-81 | four quarter turns give the direction back |
| Geometry.RotatedPeriod | Assets/Scripts/Core/Data/Direction.cs:94-102 | rotating n times equals rotating n mod 4 times |
| Geometry.RotatedSplit | Assets/Scripts/Core/Data/Direction.cs:94-102 | rotating a + b times is rotating a times and then b times |
| Geometry.RotatedOddSwapsAxis | Assets/Scripts/Core/Data/Direction.cs:94-102 | a real direction stays real; an odd number of turns swaps horizontal and vertical, an even number keeps them |
| Geometry.Rotated | Assets/Scripts/Core/Data/Direction.cs:94-102 | the loop's result is abs(n) counter-clockwise turns, whatever the sign of n |
| Geometry.RotatedSigned | Assets/Scripts/Core/Data/Direction.cs:91-102 | the intended rotation: n turns for n >= 0; for negative n, turning the result back abs(n) times gives the input |
| Geometry.RotatedModulo | Assets/Scripts/Core/Data/Direction.cs:94-102 | a count reduced mod 4 rotates the same way, and for a negative count it undoes the abs(n) turns |
| Geometry.Orthogonal | Assets/Scripts/Core/Data/Direction.cs:178-181 | as written, both entries are the same single counter-clockwise turn |
| Geometry.OrthogonalIntended | Assets/Scripts/Core/Data/Direction.cs:178-181 | the two perpendicular directions, which are distinct and opposite to each other; [None, None] for None |
| Geometry.OrthogonalDuplicates | Assets/Scripts/Core/Data/Direction.cs:178-181 | for Up, the code as written gives [Left, Left] and the intended version gives [Left, Right] |
| Geometry.Direction.ToPoint | Assets/Scripts/Core/Data/Direction.cs:104-107 | None maps to zero; a real direction maps to a unit vector on its own axis |
| Geometry.AxisExclusive | Assets/Scripts/Core/Data/Direction.cs:124-132 | None is on neither axis; every other direction is on exactly one |
| Geometry.DownLeftNegative | Assets/Scripts/Core/Data/Direction.cs:134-137 | down and left are exactly the directions whose unit vector has a negative coordinate sum; their opposites have a positive one |
| Geometry.SwipeToDirection | Assets/Scripts/Core/Data/Direction.cs:139-162 | the flags are tested in the order left, right, up, down, and the first one set wins; None when no flag is set |
| Geometry.All | Assets/Scripts/Core/Data/Direction.cs:165-176 | the four real directions, each exactly once, without None |
| Geometry.AllRealDirections | Assets/Scripts/Core/Data/Direction.cs:167-176 | every direction except None is Up, Down, Left or Right |
| Geometry.Point.Sign | Assets/Scripts/Core/Data/Point.cs:31 | each coordinate is -1, 0 or 1 with the sign of the original |
| Geometry.SignOf | Assets/Scripts/Core/Data/Point.cs:31 | Math.Sign: in -1..1, negative exactly for negatives and positive exactly for positives |
| Geometry.Point.Next | Assets/Scripts/Core/Data/Point.cs:33-36 | stepping along None stays put; along a horizontal or vertical direction only that coordinate moves, by ±length |
| Geometry.Point.Equals | Assets/Scripts/Core/Data/Point.cs:44-47 | coordinate-wise equality is value equality |
| Geometry.Point.ToDirection | Assets/Scripts/Core/Data/Point.cs:71-90 | a returned real direction has the point's sign as its unit vector; None exactly for the origin and for points off both axes |
| Geometry.NextDirection | Assets/Scripts/Core/Data/Point.cs:83-108 | a positive step along a real direction reads back as that direction |
| Geometry.OnAxisIsScaledSign | Assets/Scripts/Core/Data/Point.cs:81 | a point is on an axis exactly when it equals its sign scaled by the sum of its absolute coordinates |
| Geometry.ToDirectionNone | Assets/Scripts/Core/Data/Point.cs:71-90 | diagonal points and the origin have no direction |
| Geometry.Boundary | Assets/Scripts/Core/Data/Point.cs:92-103 | zero for no points, otherwise max minus min on each axis; non-negative, and it bounds the difference of any two points |
| Geometry.MaxOf | Assets/Scripts/Core/Data/Point.cs:97-98 | an upper bound on the axis that some point attains |
| Geometry.MinOf | Assets/Scripts/Core/Data/Point.cs:99-100 | a lower bound on the axis that some point attains |
| Geometry.Next | Assets/Scripts/Core/Data/Point.cs:105-108 | the static Next agrees with the instance Next: the displacement is the unit vector times length |
| Geometry.Abs | Assets/Scripts/Core/Data/Point.cs:110-113 | non-negative coordinates of the same magnitude |
| Geometry.Add | Assets/Scripts/Core/Data/Point.cs:130-133 | subtracting either operand gives back the other |
| Geometry.Sub | Assets/Scripts/Core/Data/Point.cs:135-138 | adding back the subtrahend restores the minuend; zero exactly for equal points |
| Geometry.AddSubCancel | Assets/Scripts/Core/Data/Point.cs:130-138 | (p + q) - q == p |
| Geometry.Mul | Assets/Scripts/Core/Data/Point.cs:140-143 | scaling by 0, 1 and -1 gives zero, the point and its negation |
| Geometry.MulLeft | Assets/Scripts/Core/Data/Point.cs:145-148 | scalar-first multiplication equals point-first multiplication |
| Geometry.MulDistributes | Assets/Scripts/Core/Data/Point.cs:140-143 | scaling distributes over a sum of factors and over a sum of points |
| Items.Field.ConnectedPosition | Assets/Scripts/Core/Items/Arc.cs:13-19 | the far node lies length steps from the anchor along the field's direction |
| Items.Arc.constructor | Assets/Scripts/Core/Items/Arc.cs:28-31 | a new arc takes its field's length and starts pulled, with no previous field |
| Items.Arc.Direction | Assets/Scripts/Core/Items/Arc.cs:16 | None while pulled, otherwise the direction of its field |
| Items.Arc.Slot | Assets/Scripts/Core/Items/Arc.cs:20-26 | no slot exactly when the arc is pulled |
| Items.Arc.Pull | Assets/Scripts/Core/Items/Arc.cs:36-41 | the arc leaves its field, remembers it as the previous field, and the field drops the arc |
| Items.Arc.Push | Assets/Scripts/Core/Items/Arc.cs:46-53 | the arc first leaves its old field, then it and the new field point at each other |
| Items.Arc.Equals | Assets/Scripts/Core/Items/Arc.cs:77-80 | the intended equality: both pulled, or both in fields with the same key; equal arcs have equal hash codes |
| Items.Arc.HashCode | Assets/Scripts/Core/Items/Arc.cs:72-75 | zero while pulled, otherwise the field's hash |
| Items.EqualsAsWritten | Assets/Scripts/Core/Items/Arc.cs:77-80 | as written: a pulled arc equals any arc, and an arc in a field equals only an arc in an equal field |
| Items.EqualsAsWrittenAsymmetric | Assets/Scripts/Core/Items/Arc.cs:72-80 | a pulled arc "equals" a placed one but not the other way round, and their hash codes differ |
| Items.SlotEquals | Assets/Scripts/Core/Items/Arc.cs:77-80 | intended equality: both pulled, or both in fields with the same key |
| Items.SlotEqualsConsistent | Assets/Scripts/Core/Items/Arc.cs:72-80 | intended equality is reflexive, symmetric and transitive, and it agrees with the hash code |
| Board.Grid.AddNode | Assets/Scripts/Core/Game/GameBoard.cs:40 | adds the node exactly when its position is not taken yet, at the end of the node list |
| Board.Grid.NodeAt | Assets/Scripts/Core/Game/GameBoard.cs:51-52 | finds a node exactly when one is at the position |
| Board.Grid.GetFieldAt | Assets/Scripts/Core/Game/GameBoard.cs:65-68 | non-null exactly when the grid has a field with that key, and then it is one of the grid's fields |
| Board.Grid.GetArcAt | Assets/Scripts/Core/Game/GameBoard.cs:60-63 | non-null exactly when the field exists and holds an arc |
| Board.IslandSet.Add | Assets/Scripts/Core/Game/GameBoard.cs:42 | the node is tracked from now on; the links do not change |
| Board.IslandSet.Connect | Assets/Scripts/Core/Game/GameBoard.cs:93 | adds the link between the field's two ends |
| Board.IslandSet.Disconnect | Assets/Scripts/Core/Game/GameBoard.cs:113 | removes one copy of the link between the field's two ends |
| Board.IslandSet.Get | Assets/Scripts/Core/Game/GameBoard.cs:21 | a tracked node's island contains the node and only tracked nodes; an untracked node has an empty island |
| Board.Closure | Assets/Scripts/Core/Game/GameBoard.cs:121-124 | the reachable set contains the seeds, stays within the tracked nodes and is closed under every link |
| Board.ClosureLeast | Assets/Scripts/Core/Game/GameBoard.cs:121-124 | the reachable set lies inside every link-closed set of tracked nodes that contains the seeds, so it is the least one |
| Board.ConnectedSymmetric | Assets/Scripts/Core/Game/GameBoard.cs:121-124 | if b is in the island of a, then a is in the island of b |
| Board.ConnectedTransitive | Assets/Scripts/Core/Game/GameBoard.cs:121-124 | a node connected to a node of the island of a is in the island of a |
| Board.ConnectedReflexive | Assets/Scripts/Core/Game/GameBoard.cs:121-124 | a tracked node is connected to itself; only tracked nodes are connected |
| Board.GameBoard.constructor | Assets/Scripts/Core/Game/GameBoard.cs:28-33 | an empty board over the grid's fields, size zero, no arcs, and the board invariant holds |
| Board.GameBoard.SingleOccupancy | Assets/Scripts/Core/Game/GameBoard.cs:82-116 | under the board invariant no arc is in two fields, and an occupied field's arc points back to it |
| Board.GameBoard.PlaceNode | Assets/Scripts/Core/Game/GameBoard.cs:38-44 | the node is added exactly when it is new; the size becomes the nodes' boundary; the island set tracks the node in either case |
| Board.GameBoard.GetArcAt | Assets/Scripts/Core/Game/GameBoard.cs:60-63 | a returned arc is the occupant of the field with that key |
| Board.GameBoard.GetFieldAt | Assets/Scripts/Core/Game/GameBoard.cs:65-68 | the field with that key, or null exactly when there is none |
| Board.GameBoard.Push | Assets/Scripts/Core/Game/GameBoard.cs:82-96 | accepted exactly when the field is empty and of the arc's length; then the arc is in the field, it joins the arcs and the island set gains the field's link; when rejected nothing changes; the board invariant is kept |
| Board.GameBoard.Pull | Assets/Scripts/Core/Game/GameBoard.cs:101-116 | accepted exactly when the arc is placed; then it is pulled, remembers its field, leaves the arcs and the island set loses the link; the board invariant is kept |
| Board.GameBoard.CreateArc | Assets/Scripts/Core/Game/GameBoard.cs:49-58 | succeeds exactly when a node is at the position and its field exists and is empty; then a fresh arc of the field's length occupies the field, joins the arcs and the island set gains the field's link; only that field may change; size, start node and tracked nodes are kept |
| Board.GameBoard.CreateArcIn | Assets/Scripts/Core/Game/GameBoard.cs:70-77 | succeeds exactly when the field is empty; then a fresh arc of the field's length occupies it, joins the arcs and the island set gains the field's link; size, start node and tracked nodes are kept |
| Board.GameBoard.IslandsPartitionNodes | Assets/Scripts/Core/Game/GameBoard.cs:121-124 | the board's connectivity test is reflexive exactly on the tracked nodes, symmetric and transitive |
| Board.GameBoard.StartIsland | Assets/Scripts/Core/Game/GameBoard.cs:21 | a tracked start node is in its own island |
| Board.Player.PlayMove | Assets/Scripts/Core/Game/Puzzle.cs:41-90 | a pull move is accepted exactly when the arc is placed, a push move exactly when the field is empty and of the arc's length; when rejected the board, the island set, the arc and its fields are unchanged; when accepted the arc moves, remembers its old field, leaves or joins the arcs, the island set loses or gains that field's link and the old field lets go of the arc; size, start node and tracked nodes never change |
| Puzzles.AlternatingCounts | Assets/Scripts/Core/Game/Puzzle.cs:41-90 | in an alternating history the pulls equal the pushes plus one exactly when an arc is held, and together they make up the history |
| Puzzles.Puzzle.HeldIsOddHistory | Assets/Scripts/Core/Game/Puzzle.cs:29 | in a valid puzzle an arc is held exactly when the history has odd length, exactly when there is one pull more than pushes; a held arc is off the board |
| Puzzles.Puzzle.constructor | Assets/Scripts/Core/Game/Puzzle.cs:31-35 | starts idle with an empty history, and the puzzle invariant holds |
| Puzzles.Puzzle.PullArc | Assets/Scripts/Core/Game/Puzzle.cs:41-57 | accepted exactly when idle and the arc is non-null and placed; then the arc is held with the pull direction, the pull is appended to the history, the arc leaves the board's arcs remembering its field, the island set loses that field's link and the field lets go of the arc; otherwise nothing changes, the arc and its field included; size, start node and tracked nodes never change; the invariant (held iff odd history, alternation) is kept |
| Puzzles.Puzzle.PullArcAt | Assets/Scripts/Core/Game/Puzzle.cs:63-67 | pulls the arc found at the node on the side opposite to the pull direction, with the same acceptance rule; on success that field is emptied, the arc leaves the board's arcs remembering the field and the island set loses its link; only the pulled arc and its field may change, so every other arc and field is left alone; when rejected no arc and no field changes |
| Puzzles.Puzzle.PushArc | Assets/Scripts/Core/Game/Puzzle.cs:73-90 | accepted exactly when an arc is held and the non-null field accepts it; then nothing is held, the push is appended, the arc occupies the field with no previous field, joins the board's arcs and the island set gains the field's link; otherwise nothing changes, the held arc and the field included; size, start node and tracked nodes never change |
| Puzzles.Puzzle.PushArcAt | Assets/Scripts/Core/Game/Puzzle.cs:96-100 | pushes into the field at (node, direction), accepted exactly when that field exists and accepts the held arc; on success the arc and that field point at each other, the arc joins the board's arcs and the island set gains the link; only the held arc and that field may change; when rejected the held arc and every field are unchanged |
| Printer.ArcStrokes | Assets/Scripts/Core/Builders/BoardPrinter.cs:31-45 | at most one stroke per arc, inked with a dash when horizontal and a vertical bar when vertical |
| Printer.PulledArcsNotDrawn | Assets/Scripts/Core/Builders/BoardPrinter.cs:32-34 | pulled arcs leave no stroke |
| Printer.FieldStrokes | Assets/Scripts/Core/Builders/BoardPrinter.cs:47-69 | one stroke per hinted field, in the given ink |
| Printer.FieldStrokesAt | Assets/Scripts/Core/Builders/BoardPrinter.cs:47-69 | the k-th field's stroke is the k-th stroke |
| Printer.Base | Assets/Scripts/Core/Builders/BoardPrinter.cs:25-29 | 'O' exactly at even/even cells whose halved position is a node, blank elsewhere |
| Printer.InkUncovered | Assets/Scripts/Core/Builders/BoardPrinter.cs:31-69 | a cell no stroke covers keeps what was beneath |
| Printer.InkLastWriter | Assets/Scripts/Core/Builders/BoardPrinter.cs:31-69 | a cell shows the ink of the last stroke that covers it |
| Printer.InkWithin | Assets/Scripts/Core/Builders/BoardPrinter.cs:31-69 | a cell's character is the background or one of the strokes' inks |
| Printer.InkAppend | Assets/Scripts/Core/Builders/BoardPrinter.cs:31-69 | drawing a + b is drawing b over the result of drawing a |
| Printer.InkSnoc | Assets/Scripts/Core/Builders/BoardPrinter.cs:31-69 | one more stroke overwrites exactly the cells it covers |
| Printer.InkUniform | Assets/Scripts/Core/Builders/BoardPrinter.cs:47-69 | when a covering stroke is followed only by strokes of the same ink, the cell has that ink |
| Printer.OddCellsBlank | Assets/Scripts/Core/Builders/BoardPrinter.cs:24-45 | a cell with two odd coordinates is always blank |
| Printer.NodeShown | Assets/Scripts/Core/Builders/BoardPrinter.cs:27-29 | a node's cell shows 'O' unless a stroke covers it |
| Printer.PushFieldOnTop | Assets/Scripts/Core/Builders/BoardPrinter.cs:59-69 | a cell covered by a push hint shows '#', whatever lies beneath |
| Printer.PullFieldOverArcs | Assets/Scripts/Core/Builders/BoardPrinter.cs:47-57 | a cell covered by a pull hint and no push hint shows '*' |
| Printer.Canvas | Assets/Scripts/Core/Builders/BoardPrinter.cs:24 | the canvas has 2w + 1 columns of height 2h + 1 |
| Printer.Transposed | Assets/Scripts/Core/Builders/BoardPrinter.cs:83-94 | swapped dimensions, and entry (i, j) is the original's (j, i) |
| Printer.TransposedTwice | Assets/Scripts/Core/Builders/BoardPrinter.cs:83-94 | transposing twice gives the original matrix |
| Printer.JoinLength | Assets/Scripts/Core/Builders/BoardPrinter.cs:96-108 | rows of width w join to rows × (w + 1) characters |
| Printer.JoinAt | Assets/Scripts/Core/Builders/BoardPrinter.cs:96-108 | character r·(w+1)+c is row r's c-th character, or the newline ending the row |
| Printer.RenderLength | Assets/Scripts/Core/Builders/BoardPrinter.cs:20-72 | the picture has 2h + 1 lines of 2w + 1 characters and a newline |
| Printer.RenderAt | Assets/Scripts/Core/Builders/BoardPrinter.cs:20-72 | line r, column c of the picture is canvas cell (c, r) |
| Printer.CanvasAt | Assets/Scripts/Core/Builders/BoardPrinter.cs:24 | canvas cell (i, j) is the node layer at (i, j) with the strokes inked over it |
| Printer.RenderAlphabet | Assets/Scripts/Core/Builders/BoardPrinter.cs:13-72 | the picture uses only the six drawing characters and newline |
| Printer.LineColumn | Assets/Scripts/Core/Builders/BoardPrinter.cs:96-108 | every position in the joined text is some line's column or its newline |
| Printer.Matrix | Assets/Scripts/Core/Builders/BoardPrinter.cs:24 | the array's contents as a row-by-row sequence |
| Printer.Reset | Assets/Scripts/Core/Builders/BoardPrinter.cs:74-81 | every cell is blank |
| Printer.PlaceNodes | Assets/Scripts/Core/Builders/BoardPrinter.cs:27-29 | every cell holds the node layer |
| Printer.DrawStroke | Assets/Scripts/Core/Builders/BoardPrinter.cs:36-44 | the cells the stroke covers get its ink; all other cells are unchanged |
| Printer.DrawArcs | Assets/Scripts/Core/Builders/BoardPrinter.cs:31-45 | every cell holds the placed arcs' strokes inked over its previous content |
| Printer.ArcStrokesSnoc | Assets/Scripts/Core/Builders/BoardPrinter.cs:31-45 | one more arc adds its stroke at the end exactly when it is placed |
| Printer.ArcStrokeIn | Assets/Scripts/Core/Builders/BoardPrinter.cs:31-45 | every placed arc's stroke is among the strokes of the arcs |
| Printer.DrawFields | Assets/Scripts/Core/Builders/BoardPrinter.cs:47-69 | every cell holds the fields' strokes inked over its previous content |
| Printer.Draw | Assets/Scripts/Core/Builders/BoardPrinter.cs:25-69 | the grid holds the node layer with all the layers inked over it |
| Printer.DrawBase | Assets/Scripts/Core/Builders/BoardPrinter.cs:25-45 | the grid holds the node layer with the placed arcs' strokes inked over it, and the arcs are untouched |
| Printer.LayersFit | Assets/Scripts/Core/Builders/BoardPrinter.cs:24-69 | when the layers fit, every node and every stroke lies inside the grid |
| Printer.DrawnCanvas | Assets/Scripts/Core/Builders/BoardPrinter.cs:24-69 | the drawn array equals the canvas specification |
| Printer.Paint | Assets/Scripts/Core/Builders/BoardPrinter.cs:24-69 | a fresh array of the picture's dimensions holding the canvas of the layout |
| Printer.Transpose | Assets/Scripts/Core/Builders/BoardPrinter.cs:83-94 | a fresh array with swapped dimensions holding the transposed contents |
| Printer.BuildCharGrid | Assets/Scripts/Core/Builders/BoardPrinter.cs:96-108 | the rows in order, each followed by a newline |
| Printer.GetBoard | Assets/Scripts/Core/Builders/BoardPrinter.cs:20-72 | the returned text is Render of the size, the nodes and the three layers |
| Levels.PointOf | Assets/Scripts/Core/Game/Levels.cs:314-316 | reads the first two entries; fails exactly on an array shorter than two |
| Levels.Coordinates | Assets/Scripts/Core/Game/Levels.cs:221-222 | the pair written for a point reads back as that point |
| Levels.PointsOf | Assets/Scripts/Core/Game/Levels.cs:314-316 | succeeds exactly when every entry has two coordinates, and keeps the order |
| Levels.PointDirOf | Assets/Scripts/Core/Game/Levels.cs:318-322 | the parent's first two entries with the direction; fails on a short parent |
| Levels.PointDirsOf | Assets/Scripts/Core/Game/Levels.cs:318-323 | succeeds exactly when every parent has two coordinates, and keeps the order |
| Levels.LevelFromSer | Assets/Scripts/Core/Game/Levels.cs:303-341 | succeeds exactly on well-formed records, and the level read carries the given number |
| Levels.LevelFromSerErrors | Assets/Scripts/Core/Game/Levels.cs:314-338 | a record that cannot be read fails with NoNodes exactly when its coordinates are readable but a default node has no node to come from, and with ShortCoordinate otherwise |
| Levels.LevelFromSerLayout | Assets/Scripts/Core/Game/Levels.cs:305-340 | nodes and arcs keep their order and coordinates; a missing start node is the first node and a missing final node the last; given ones are their first two entries; name, description, the move, best-score and win counters, elapsed time, start pull and localization are copied, and a present tutorial is read like the arc list |
| Levels.TutorialOf | Assets/Scripts/Core/Game/Levels.cs:333-338 | a present tutorial reads like the arc list |
| Levels.CoordinatesOf | Assets/Scripts/Core/Game/Levels.cs:214 | one pair per node |
| Levels.PointDirSersOf | Assets/Scripts/Core/Game/Levels.cs:215-220 | one record per arc |
| Levels.LevelSerOf | Assets/Scripts/Core/Game/Levels.cs:206-233 | start and final nodes are always written, with one entry per node and per arc |
| Levels.PointsRoundTrip | Assets/Scripts/Core/Game/Levels.cs:314-316 | reading back written nodes gives the nodes |
| Levels.PointDirsRoundTrip | Assets/Scripts/Core/Game/Levels.cs:318-323 | reading back written arcs gives the arcs |
| Levels.LevelRoundTrip | Assets/Scripts/Core/Game/Levels.cs:303-341 | reading back a written level under its number gives the level unchanged |
| Levels.CoordinatesRoundTrip | Assets/Scripts/Core/Game/Levels.cs:314-316 | exact pairs are reproduced by reading and writing |
| Levels.PointDirSersRoundTrip | Assets/Scripts/Core/Game/Levels.cs:318-323 | exact parent pairs are reproduced by reading and writing |
| Levels.SerRoundTrip | Assets/Scripts/Core/Game/Levels.cs:206-233 | a record in canonical form is read successfully and written back identically |
| Levels.NewLevel | Assets/Scripts/Core/Game/Levels.cs:343-367 | keeps every given field, has no localization, and survives the write-read round trip |
| Levels.CopyAsWritten | Assets/Scripts/Core/Game/Levels.cs:369-389 | as written: every field is copied except the localization, which is left unset |
| Levels.CopyLosesLocalization | Assets/Scripts/Core/Game/Levels.cs:369-389 | a localized level's copy differs from it and is written without localization |
| Levels.Copy | Assets/Scripts/Core/Game/Levels.cs:369-389 | the intended copy keeps the localization, writes out identically and keeps the number |
| Levels.FirstFailure | Assets/Scripts/Core/Game/Levels.cs:258-260 | no error exactly when every record is well formed |
| Levels.FirstFailureIsFirst | Assets/Scripts/Core/Game/Levels.cs:258-260 | the reported error is that of an unreadable record all of whose predecessors are readable |
| Levels.ReadLevels | Assets/Scripts/Core/Game/Levels.cs:258-260 | succeeds exactly when every record is well formed, else fails with the first error; level i is record i read as number i |
| Levels.LevelPack.constructor | Assets/Scripts/Core/Game/Levels.cs:254-263 | takes the info, current level, language and localization from the record, and level i is numbered i |
| Levels.WonLevelAsWritten | Assets/Scripts/Core/Game/Levels.cs:48-56 | as written: the original level with one more win than the played level and the played best score, with its localization dropped by the copy constructor |
| Levels.WonLevelDropsLocalization | Assets/Scripts/Core/Game/Levels.cs:48-56 | for a localized original, the level stored as written differs from the intended one exactly in the missing localization |
| Levels.WonLevel | Assets/Scripts/Core/Game/Levels.cs:48-56 | the intended won level: the original level with one more win than the played level and the played best score, and otherwise unchanged, localization included |
| Levels.LevelStore.LevelCount | Assets/Scripts/Core/Game/Levels.cs:28 | the number of levels in the progress pack |
| Levels.LevelStore.BuildLevel | Assets/Scripts/Core/Game/Levels.cs:36-44 | none exactly when the number is out of range; otherwise the shipped level on restart and the saved level otherwise |
| Levels.LevelStore.SaveLevel | Assets/Scripts/Core/Game/Levels.cs:46-62 | the level becomes the current level, and only its slot is replaced: by the won level on a win, by the played level otherwise; pack numbering is kept |
| ArcViews.ArcViewMap.constructor | Assets/Scripts/View/Data/ArcViewMap.cs:12-13 | both tables start empty and consistent |
| ArcViews.ArcViewMap.Arcs | Assets/Scripts/View/Data/ArcViewMap.cs:15 | exactly the stored views |
| ArcViews.ArcViewMap.TryGetArc | Assets/Scripts/View/Data/ArcViewMap.cs:48-51 | a view exactly when the key is stored, and then the stored one |
| ArcViews.ArcViewMap.Get | Assets/Scripts/View/Data/ArcViewMap.cs:83 | the indexer agrees with TryGetArc |
| ArcViews.ArcViewMap.LookupAgrees | Assets/Scripts/View/Data/ArcViewMap.cs:31-51 | in a consistent table, ContainsArc and TryGetArc find a key exactly when the nested table has it, and the flat and the nested lookup find the same view |
| ArcViews.ArcViewMap.GetArcs | Assets/Scripts/View/Data/ArcViewMap.cs:36-46 | the views at the position by direction; an unknown position is registered with no views; consistency is kept |
| ArcViews.ArcViewMap.Add | Assets/Scripts/View/Data/ArcViewMap.cs:53-65 | both tables gain the entry and nothing else changes; consistency is kept |
| ArcViews.ArcViewMap.Remove | Assets/Scripts/View/Data/ArcViewMap.cs:67-75 | the entry leaves both tables; the result is whether it was stored; consistency is kept |
| ArcViews.ArcViewMap.Clear | Assets/Scripts/View/Data/ArcViewMap.cs:77-81 | both tables become empty |
| ArcViews.ArcViewMap.Reset | Assets/Scripts/View/Data/ArcViewMap.cs:17-29 | both tables become copies of the other map's; resetting from itself empties the map |
| ArcViews.ArcViewMap.CopyFlat | Assets/Scripts/View/Data/ArcViewMap.cs:22-24 | the empty flat table becomes a copy of the other map's flat table; the nested table is untouched |
| ArcViews.ArcViewMap.CopyNested | Assets/Scripts/View/Data/ArcViewMap.cs:26-28 | the empty nested table becomes a copy of the other map's nested table; the flat table is untouched |
| FieldViews.FieldViewMap.constructor | Assets/Scripts/View/Data/FieldViewMap.cs:12 | the table starts empty |
| FieldViews.FieldViewMap.Fields | Assets/Scripts/View/Data/FieldViewMap.cs:13 | exactly the stored views |
| FieldViews.FieldViewMap.TryGetField | Assets/Scripts/View/Data/FieldViewMap.cs:23-26 | a view exactly when the key is stored, and then the stored one |
| FieldViews.FieldViewMap.Get | Assets/Scripts/View/Data/FieldViewMap.cs:38 | the indexer agrees with TryGetField |
| FieldViews.FieldViewMap.Add | Assets/Scripts/View/Data/FieldViewMap.cs:28-31 | the key now finds the view and every other key finds what it found before |
| FieldViews.FieldViewMap.Clear | Assets/Scripts/View/Data/FieldViewMap.cs:33-36 | no key finds a view |
| FieldViews.FieldViewMap.Reset | Assets/Scripts/View/Data/FieldViewMap.cs:15-21 | the table becomes a copy of the other's; resetting from itself empties it |

## Left out

- Unity types are not modelled: vectors, quaternions, rotations, axes, `Point.Round`, and the implicit conversions to `Vector2`/`Vector3`. They are floating point and rendering only.
- `Point.GetHashCode` (a 32-bit wrap-around product) and `ToString` are not modelled. Integers are unbounded throughout, so 32-bit `int` and 64-bit `long` overflow is not modelled.
- Field.cs, Node.cs, Grid.cs, IslandSet.cs, Player.cs and the move classes are not part of this model. `Field` is a class with only what the arc, board and printer use.
  - The grid's field table is given when it is made; its derivation from node positions is not modelled.
  - `IslandSet` answers connectivity by a reachability closure over recorded links, not by the source's incremental algorithm.
  - `Player` applies a move to the board; move counts, scores, win detection and `PlayerState` are not modelled.
- Field equality is modelled as equality of field keys (position and direction), and its hash is a parameter.
- `Items.Arc.HashCode`: the board's `HashSet<Arc>` is modelled as a set of object references. The hash of an arc changes when it moves, but that effect on the hash set is not modelled.
- `Board.GameBoard.Push`, `Puzzles.Puzzle.PushArc`: both require the target field to be one of the board's grid fields. The source never pushes into any other field; the requirement keeps the board invariant stateable.
- `Board.GameBoard.GetBoard` only forwards to the printer. It is not modelled separately; `Printer.GetBoard` covers it.
- Node positions are used for nodes, and the arc's `Position` is its field's anchor. `Root`, `ParentNode`, `ConnectedNode` and `IsEnabled` are not modelled.
- `Printer.GetBoard` requires every node and stroke to fit the grid. The source throws an index exception otherwise.
- `Levels.LevelPack.constructor` requires every record to be readable. The source throws while constructing otherwise.
- Null lists and null strings in level records are not modelled; absent optional entries are `None`.
- The double `TimeElapsed` is carried as an uninterpreted `real`. It is only copied.
- Reading and writing level files, YAML, the background writer thread and the static initialisation of the two packs are left out. They are I/O. The two packs are constructor parameters of `LevelStore`.
- `LevelPackSer.Create`, the conversion of a pack back to its record, is left out with the writer that uses it. `Levels.LevelSerOf` models the per-level conversion it applies.
- `Levels.LevelStore.BuildLevel` returns the level a board is built from. Building the board itself (`GameBoardBuilder`) is not part of this model.
- `Levels.LevelStore.SaveLevel` requires the saved level's number to index the packs. The source throws otherwise.
- `Levels.LevelStore.BuildLevel` requires a restart number to index the shipped pack. The source throws otherwise.
- `Levels.WonLevel`, `Levels.LevelStore.SaveLevel`: a win stores the corrected level, which keeps the localization. The source as written drops it (`Levels.WonLevelAsWritten`, see Findings).
- `Items.Field.ValidPlacement` is an assumed definition: the field is empty and has the arc's length. Field.cs is not part of this model, so the source's own test is not captured.
- `Board.Player.PlayMove` dispatches a pull move to the board's Pull and a push move to the board's Push, with no check of its own. Player.cs is not part of this model, so any further checks it makes are not captured.
- `ArcViews.ArcViewMap.Reset`: the source's nested tables are shared objects. `Reset` shares them between two maps, and `GetArcs` hands one out for mutation. The model keeps them as values, so changes made through a shared inner table are not captured.
- `ArcViews.ArcViewMap.Add`, `FieldViews.FieldViewMap.Add`: both require the key to be absent. The source throws on a duplicate key.
- `ArcViews.ArcViewMap.Get`, `FieldViews.FieldViewMap.Get`: both require the key to be present. The source throws otherwise.
- View objects are opaque values with equality; what a view draws is not modelled.
- `ArcViews.ArcViewMap.Arcs`, `FieldViews.FieldViewMap.Fields` return the stored views as a set. The source's `Values` lists one view per key, so a view stored under two keys appears twice there and once here.

## Findings

| source | as written | input that shows it | evidently intended | confidence | as-written member | corrected member |
|---|---|---|---|---|---|---|
| Assets/Scripts/Core/Data/Direction.cs:178-181 | `Rotated` turns counter-clockwise for a negative count too, so `Orthogonal` returns the same direction twice | `Orthogonal(Up)` gives `[Left, Left]` | a negative count turns clockwise, so `Orthogonal(Up)` gives `[Left, Right]` | high, not executed | Geometry.OrthogonalDuplicates | Geometry.OrthogonalIntended |
| Assets/Scripts/Core/Items/Arc.cs:72-80 | a pulled arc equals every arc, but a placed arc never equals a pulled one, so equality is not symmetric and disagrees with the hash code | a pulled arc `p` and a placed arc `q` whose field hash is non-zero: `p.Equals(q)` but not `q.Equals(p)`, and the hashes are 0 and non-zero | equal exactly when both are pulled or both sit in equal fields | medium, not executed | Items.EqualsAsWrittenAsymmetric | Items.SlotEqualsConsistent |
| Assets/Scripts/Core/Game/Levels.cs:369-389 | the copy constructor leaves `Localization` unset, so a level saved after a win loses its localized strings | any level with localization strings | the copy keeps every field, localization included | medium, not executed | Levels.CopyLosesLocalization | Levels.Copy |
| Assets/Scripts/Core/Game/Levels.cs:48-56 | a win stores `new Level(originalLevel)` with the new counters, which has no localization | a won level whose original has localization strings | the stored level keeps the original's localization | medium, not executed | Levels.WonLevelDropsLocalization | Levels.WonLevel |
