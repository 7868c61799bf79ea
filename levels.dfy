/**
  * Level records (Assets/Scripts/Core/Game/Levels.cs): the serialised form of a level as it is
  * laid out in the level file, its conversion to and from the in-game Level, the level pack, and
  * the level store's range-checked lookup and save rule. Reading and writing files, the YAML
  * format and the background writer thread are not modelled.
  *
  * A coordinate pair is serialised as an integer array; the conversion reads its first two
  * entries, so a shorter array is an error (an index out of range in the source). The double
  * TimeElapsed is carried as an uninterpreted real: it is only copied, never computed with.
  */
module Levels {
  import opened Geometry
  import opened Wrappers

  datatype PointDirSer = PointDirSer(parent: seq<int>, direction: Direction)

  /** A level as it appears in the level file. Absent entries are None. */
  datatype LevelSer = LevelSer(
    name: string,
    description: string,
    moves: int,
    movesBestScore: int,
    timeElapsed: real,
    winCount: int,
    nodes: seq<seq<int>>,
    arcs: seq<PointDirSer>,
    startNode: Option<seq<int>>,
    finalNode: Option<seq<int>>,
    startPull: Direction,
    tutorial: Option<seq<PointDirSer>>,
    localization: Option<map<string, string>>)

  /** A level in the game: its layout, its progress counters and its position in the pack. */
  datatype Level = Level(
    name: string,
    description: string,
    moves: int,
    movesBestScore: int,
    timeElapsed: real,
    winCount: int,
    number: int,
    nodes: seq<Point>,
    arcs: seq<PointDir>,
    startNode: Point,
    finalNode: Point,
    startPull: Direction,
    tutorial: Option<seq<PointDir>>,
    localization: Option<map<string, string>>)

  /** Why a serialised level cannot be read: a coordinate array with fewer than two entries, or no nodes to default the start or final node to. */
  datatype LevelError = ShortCoordinate | NoNodes

  function PointOf(a: seq<int>): (r: Result<Point, LevelError>)
    ensures r.Success? <==> |a| >= 2
    ensures r.Success? ==> r.value.x == a[0] && r.value.y == a[1]
  {
    if |a| < 2 then Failure(ShortCoordinate) else Success(Point(a[0], a[1]))
  }

  function Coordinates(p: Point): (a: seq<int>)
    ensures PointOf(a) == Success(p)
  {
    [p.x, p.y]
  }

  /** The node list, in order; fails when any entry is too short. */
  function PointsOf(s: seq<seq<int>>): (r: Result<seq<Point>, LevelError>)
    ensures r.Success? <==> forall i | 0 <= i < |s| :: |s[i]| >= 2
    ensures r.Failure? ==> r.error == ShortCoordinate
    ensures r.Success? ==> |r.value| == |s| && forall i | 0 <= i < |s| :: r.value[i] == Point(s[i][0], s[i][1])
  {
    if s == [] then Success([])
    else
      match PointOf(s[0])
      case Failure(e) => Failure(e)
      case Success(p) =>
        match PointsOf(s[1..])
        case Failure(e) => Failure(e)
        case Success(ps) => Success([p] + ps)
  }

  function PointDirOf(a: PointDirSer): (r: Result<PointDir, LevelError>)
    ensures r.Success? <==> |a.parent| >= 2
    ensures r.Success? ==> r.value == PointDir(Point(a.parent[0], a.parent[1]), a.direction)
  {
    match PointOf(a.parent)
    case Failure(e) => Failure(e)
    case Success(p) => Success(PointDir(p, a.direction))
  }

  /** The arc or tutorial list, in order; fails when any parent entry is too short. */
  function PointDirsOf(s: seq<PointDirSer>): (r: Result<seq<PointDir>, LevelError>)
    ensures r.Success? <==> forall i | 0 <= i < |s| :: |s[i].parent| >= 2
    ensures r.Failure? ==> r.error == ShortCoordinate
    ensures r.Success? ==> |r.value| == |s| && forall i | 0 <= i < |s| ::
      r.value[i] == PointDir(Point(s[i].parent[0], s[i].parent[1]), s[i].direction)
  {
    if s == [] then Success([])
    else
      match PointDirOf(s[0])
      case Failure(e) => Failure(e)
      case Success(p) =>
        match PointDirsOf(s[1..])
        case Failure(e) => Failure(e)
        case Success(ps) => Success([p] + ps)
  }

  /** The serialised level can be read: all coordinates have two entries and defaults have a node to come from. */
  predicate WellFormed(ser: LevelSer)
  {
    && (forall i | 0 <= i < |ser.nodes| :: |ser.nodes[i]| >= 2)
    && (forall i | 0 <= i < |ser.arcs| :: |ser.arcs[i].parent| >= 2)
    && (ser.startNode.None? || ser.finalNode.None? ==> ser.nodes != [])
    && (ser.startNode.Some? ==> |ser.startNode.value| >= 2)
    && (ser.finalNode.Some? ==> |ser.finalNode.value| >= 2)
    && (ser.tutorial.Some? ==> forall i | 0 <= i < |ser.tutorial.value| :: |ser.tutorial.value[i].parent| >= 2)
  }

  /**
    * Unpacks a serialised level as number `number`. Nodes and arcs keep their order; a missing
    * start node defaults to the first node and a missing final node to the last.
    */
  function LevelFromSer(ser: LevelSer, number: int): (r: Result<Level, LevelError>)
    ensures r.Success? <==> WellFormed(ser)
    ensures r.Success? ==> r.value.number == number
  {
    var nodes := PointsOf(ser.nodes);
    var arcs := PointDirsOf(ser.arcs);
    if nodes.Failure? then Failure(nodes.error)
    else if arcs.Failure? then Failure(arcs.error)
    else if (ser.startNode.None? || ser.finalNode.None?) && ser.nodes == [] then Failure(NoNodes)
    else
      var start := PointOf(if ser.startNode.Some? then ser.startNode.value else ser.nodes[0]);
      var final := PointOf(if ser.finalNode.Some? then ser.finalNode.value else ser.nodes[|ser.nodes| - 1]);
      var tutorial := if ser.tutorial.None? then Success(Option.None) else TutorialOf(ser.tutorial.value);
      if start.Failure? then Failure(start.error)
      else if final.Failure? then Failure(final.error)
      else if tutorial.Failure? then Failure(tutorial.error)
      else
        Success(Level(ser.name, ser.description, ser.moves, ser.movesBestScore, ser.timeElapsed,
          ser.winCount, number, nodes.value, arcs.value, start.value, final.value, ser.startPull,
          tutorial.value, ser.localization))
  }

  /**
    * The error a record that cannot be read reports: NoNodes when its coordinates are all
    * readable but a default start or final node has no node to come from, ShortCoordinate otherwise.
    */
  function ErrorOf(ser: LevelSer): LevelError
  {
    if && (forall i | 0 <= i < |ser.nodes| :: |ser.nodes[i]| >= 2)
       && (forall i | 0 <= i < |ser.arcs| :: |ser.arcs[i].parent| >= 2)
       && (ser.startNode.None? || ser.finalNode.None?) && ser.nodes == []
    then NoNodes
    else ShortCoordinate
  }

  /** A record that cannot be read fails with the error ErrorOf names. */
  lemma LevelFromSerErrors(ser: LevelSer, number: int)
    ensures LevelFromSer(ser, number).Failure? ==> LevelFromSer(ser, number).error == ErrorOf(ser)
  {
  }

  /**
    * A record that reads keeps its nodes and arcs in order; a missing start node defaults to
    * the first node and a missing final node to the last; given ones are read from their first
    * two entries.
    */
  lemma LevelFromSerLayout(ser: LevelSer, number: int)
    requires LevelFromSer(ser, number).Success?
    ensures var l := LevelFromSer(ser, number).value;
      && |l.nodes| == |ser.nodes| && |l.arcs| == |ser.arcs|
      && (forall i | 0 <= i < |ser.nodes| :: l.nodes[i] == Point(ser.nodes[i][0], ser.nodes[i][1]))
      && (forall i | 0 <= i < |ser.arcs| ::
            l.arcs[i] == PointDir(Point(ser.arcs[i].parent[0], ser.arcs[i].parent[1]), ser.arcs[i].direction))
      && (ser.startNode.None? ==> l.startNode == l.nodes[0])
      && (ser.finalNode.None? ==> l.finalNode == l.nodes[|l.nodes| - 1])
      && (ser.startNode.Some? ==> Coordinates(l.startNode) == ser.startNode.value[..2])
      && (ser.finalNode.Some? ==> Coordinates(l.finalNode) == ser.finalNode.value[..2])
      && l.name == ser.name && l.description == ser.description
      && l.moves == ser.moves && l.winCount == ser.winCount && l.movesBestScore == ser.movesBestScore
      && l.timeElapsed == ser.timeElapsed && l.startPull == ser.startPull
      && (ser.tutorial.None? ==> l.tutorial.None?)
      && (ser.tutorial.Some? ==> TutorialOf(ser.tutorial.value) == Success(l.tutorial))
      && l.localization == ser.localization
  {
  }

  function TutorialOf(s: seq<PointDirSer>): (r: Result<Option<seq<PointDir>>, LevelError>)
    ensures r.Success? <==> PointDirsOf(s).Success?
    ensures r.Success? ==> r.value == Some(PointDirsOf(s).value)
  {
    match PointDirsOf(s)
    case Failure(e) => Failure(e)
    case Success(ps) => Success(Some(ps))
  }

  function CoordinatesOf(ps: seq<Point>): (r: seq<seq<int>>)
    ensures |r| == |ps|
  {
    if ps == [] then [] else [Coordinates(ps[0])] + CoordinatesOf(ps[1..])
  }

  function PointDirSerOf(p: PointDir): PointDirSer
  {
    PointDirSer(Coordinates(p.point), p.direction)
  }

  function PointDirSersOf(ps: seq<PointDir>): (r: seq<PointDirSer>)
    ensures |r| == |ps|
  {
    if ps == [] then [] else [PointDirSerOf(ps[0])] + PointDirSersOf(ps[1..])
  }

  /** The serialised form of a level (LevelSer.Create). The level's number is not stored. */
  function LevelSerOf(l: Level): (r: LevelSer)
    ensures r.startNode.Some? && r.finalNode.Some?
    ensures |r.nodes| == |l.nodes| && |r.arcs| == |l.arcs|
  {
    LevelSer(l.name, l.description, l.moves, l.movesBestScore, l.timeElapsed, l.winCount,
      CoordinatesOf(l.nodes), PointDirSersOf(l.arcs),
      Some(Coordinates(l.startNode)), Some(Coordinates(l.finalNode)), l.startPull,
      if l.tutorial.None? then Option.None else Some(PointDirSersOf(l.tutorial.value)),
      l.localization)
  }

  lemma {:induction false} PointsRoundTrip(ps: seq<Point>)
    ensures PointsOf(CoordinatesOf(ps)) == Success(ps)
  {
    if ps != [] {
      assert CoordinatesOf(ps)[1..] == CoordinatesOf(ps[1..]);
      PointsRoundTrip(ps[1..]);
      assert [ps[0]] + ps[1..] == ps;
    }
  }

  lemma {:induction false} PointDirsRoundTrip(ps: seq<PointDir>)
    ensures PointDirsOf(PointDirSersOf(ps)) == Success(ps)
  {
    if ps != [] {
      assert PointDirSersOf(ps)[1..] == PointDirSersOf(ps[1..]);
      PointDirsRoundTrip(ps[1..]);
      assert [ps[0]] + ps[1..] == ps;
    }
  }

  /** Reading back a serialised level, under its own number, gives the level unchanged. */
  lemma LevelRoundTrip(l: Level)
    ensures LevelFromSer(LevelSerOf(l), l.number) == Success(l)
  {
    PointsRoundTrip(l.nodes);
    PointDirsRoundTrip(l.arcs);
    if l.tutorial.Some? {
      PointDirsRoundTrip(l.tutorial.value);
    }
  }

  /** A serialised level in the form LevelSerOf writes: exact pairs and explicit start and final nodes. */
  predicate Canonical(ser: LevelSer)
  {
    && (forall i | 0 <= i < |ser.nodes| :: |ser.nodes[i]| == 2)
    && (forall i | 0 <= i < |ser.arcs| :: |ser.arcs[i].parent| == 2)
    && ser.startNode.Some? && |ser.startNode.value| == 2
    && ser.finalNode.Some? && |ser.finalNode.value| == 2
    && (ser.tutorial.Some? ==> forall i | 0 <= i < |ser.tutorial.value| :: |ser.tutorial.value[i].parent| == 2)
  }

  lemma {:induction false} CoordinatesRoundTrip(s: seq<seq<int>>)
    requires forall i | 0 <= i < |s| :: |s[i]| == 2
    ensures PointsOf(s).Success? && CoordinatesOf(PointsOf(s).value) == s
  {
    if s != [] {
      CoordinatesRoundTrip(s[1..]);
      assert PointsOf(s).value == [Point(s[0][0], s[0][1])] + PointsOf(s[1..]).value;
      assert PointsOf(s).value[1..] == PointsOf(s[1..]).value;
      assert Coordinates(Point(s[0][0], s[0][1])) == s[0];
    }
  }

  lemma {:induction false} PointDirSersRoundTrip(s: seq<PointDirSer>)
    requires forall i | 0 <= i < |s| :: |s[i].parent| == 2
    ensures PointDirsOf(s).Success? && PointDirSersOf(PointDirsOf(s).value) == s
  {
    if s != [] {
      PointDirSersRoundTrip(s[1..]);
      assert PointDirsOf(s).value[1..] == PointDirsOf(s[1..]).value;
      assert Coordinates(Point(s[0].parent[0], s[0].parent[1])) == s[0].parent;
    }
  }

  /** Conversely, a canonical serialised level is reproduced exactly by reading and re-serialising it. */
  lemma SerRoundTrip(ser: LevelSer, number: int)
    requires Canonical(ser)
    ensures LevelFromSer(ser, number).Success?
    ensures LevelSerOf(LevelFromSer(ser, number).value) == ser
  {
    CoordinatesRoundTrip(ser.nodes);
    PointDirSersRoundTrip(ser.arcs);
    if ser.tutorial.Some? {
      PointDirSersRoundTrip(ser.tutorial.value);
    }
    assert Coordinates(Point(ser.startNode.value[0], ser.startNode.value[1])) == ser.startNode.value;
    assert Coordinates(Point(ser.finalNode.value[0], ser.finalNode.value[1])) == ser.finalNode.value;
  }

  /** The field-wise constructor: every given field is kept and there are no localization strings. */
  function NewLevel(name: string, description: string, number: int, nodes: seq<Point>, arcs: seq<PointDir>,
                    startNode: Point, finalNode: Point, startPull: Direction, moves: int, movesBestScore: int,
                    timeElapsed: real, winCount: int, tutorial: Option<seq<PointDir>>): (r: Level)
    ensures r.localization.None?
    ensures LevelFromSer(LevelSerOf(r), number) == Success(r)
  {
    LevelRoundTrip(Level(name, description, moves, movesBestScore, timeElapsed, winCount, number, nodes, arcs,
      startNode, finalNode, startPull, tutorial, Option.None));
    Level(name, description, moves, movesBestScore, timeElapsed, winCount, number, nodes, arcs,
      startNode, finalNode, startPull, tutorial, Option.None)
  }

  /** The copy constructor as written: it copies every field except the localization strings, which it leaves unset. */
  function CopyAsWritten(l: Level): (r: Level)
    ensures r.localization.None?
    ensures r.(localization := l.localization) == l
  {
    l.(localization := Option.None)
  }

  /** As written, copying a level with localization strings loses them. */
  lemma CopyLosesLocalization(l: Level)
    requires l.localization.Some?
    ensures CopyAsWritten(l) != l
    ensures LevelSerOf(CopyAsWritten(l)).localization.None?
  {
  }

  /** The evidently intended copy: every field, localization included. */
  function Copy(l: Level): (r: Level)
    ensures r.localization == l.localization
    ensures LevelSerOf(r) == LevelSerOf(l) && r.number == l.number
  {
    l
  }

  /**
    * The error of the first record from which a level cannot be read; None when every record
    * can be read.
    */
  function FirstFailure(sers: seq<LevelSer>): (r: Option<LevelError>)
    ensures r.None? <==> forall i | 0 <= i < |sers| :: WellFormed(sers[i])
    decreases |sers|
  {
    if sers == [] then Option.None
    else if !WellFormed(sers[0]) then Some(ErrorOf(sers[0]))
    else
      var r := FirstFailure(sers[1..]);
      assert forall i | 1 <= i < |sers| :: sers[1..][i - 1] == sers[i];
      r
  }

  /** The error reported is the one of a record all of whose predecessors can be read. */
  lemma {:induction false} FirstFailureIsFirst(sers: seq<LevelSer>)
    requires FirstFailure(sers).Some?
    ensures exists i | 0 <= i < |sers| ::
      && (forall j | 0 <= j < i :: WellFormed(sers[j]))
      && !WellFormed(sers[i]) && FirstFailure(sers).value == ErrorOf(sers[i])
    decreases |sers|
  {
    if !WellFormed(sers[0]) {
      assert FirstFailure(sers).value == ErrorOf(sers[0]);
    } else {
      var tail := sers[1..];
      assert FirstFailure(sers) == FirstFailure(tail);
      FirstFailureIsFirst(tail);
      var k :| 0 <= k < |tail|
        && (forall j | 0 <= j < k :: WellFormed(tail[j]))
        && !WellFormed(tail[k]) && FirstFailure(tail).value == ErrorOf(tail[k]);
      assert forall j | 1 <= j <= k + 1 :: sers[j] == tail[j - 1];
      assert (forall j | 0 <= j < k + 1 :: WellFormed(sers[j]))
        && !WellFormed(sers[k + 1]) && FirstFailure(sers).value == ErrorOf(sers[k + 1]);
    }
  }

  /**
    * The levels of a pack, each numbered by its position; reading stops at the first record that
    * cannot be read.
    */
  function ReadLevels(sers: seq<LevelSer>): (r: Result<seq<Level>, LevelError>)
    ensures r.Success? <==> forall i | 0 <= i < |sers| :: WellFormed(sers[i])
    ensures r.Failure? ==> Some(r.error) == FirstFailure(sers)
    ensures r.Success? ==> |r.value| == |sers| && forall i | 0 <= i < |sers| ::
      r.value[i].number == i && Success(r.value[i]) == LevelFromSer(sers[i], i)
  {
    match FirstFailure(sers)
    case Some(e) => Failure(e)
    case None => Success(seq(|sers|, i requires 0 <= i < |sers| => LevelFromSer(sers[i], i).value))
  }

  datatype LevelPackInfo = LevelPackInfo(title: string, description: string, version: string, availableLanguages: seq<string>)

  /** A level pack as it appears in the level file. */
  datatype LevelPackSer = LevelPackSer(
    info: LevelPackInfo,
    currentLevel: int,
    currentLanguage: string,
    localization: Option<map<string, map<string, string>>>,
    levels: seq<LevelSer>)

  /** A pack of levels; each level's number is its position in the pack. */
  class LevelPack {
    const packInfo: LevelPackInfo
    var currentLevelNum: int
    const currentLanguage: string
    const localization: Option<map<string, map<string, string>>>
    var levels: seq<Level>

    ghost predicate Valid()
      reads this
    {
      forall i | 0 <= i < |levels| :: levels[i].number == i
    }

    /** Reads every serialised level, numbering it by its position. */
    constructor (ser: LevelPackSer)
      requires ReadLevels(ser.levels).Success?
      ensures Valid()
      ensures levels == ReadLevels(ser.levels).value
      ensures packInfo == ser.info && currentLevelNum == ser.currentLevel
      ensures currentLanguage == ser.currentLanguage && localization == ser.localization
    {
      packInfo := ser.info;
      currentLanguage := ser.currentLanguage;
      levels := ReadLevels(ser.levels).value;
      currentLevelNum := ser.currentLevel;
      localization := ser.localization;
    }
  }

  /**
    * The level a win stores as the source builds it: the copy constructor applied to the
    * original level, so the localization is dropped.
    */
  function WonLevelAsWritten(original: Level, played: Level): (r: Level)
    ensures r.winCount == played.winCount + 1 && r.movesBestScore == played.movesBestScore
    ensures r.localization.None?
    ensures r.(winCount := original.winCount, movesBestScore := original.movesBestScore,
               localization := original.localization) == original
  {
    CopyAsWritten(original).(winCount := played.winCount + 1, movesBestScore := played.movesBestScore)
  }

  /** A localized level won as written is stored without its localization. */
  lemma WonLevelDropsLocalization(original: Level, played: Level)
    requires original.localization.Some?
    ensures WonLevelAsWritten(original, played) != WonLevel(original, played)
    ensures WonLevelAsWritten(original, played).(localization := original.localization) == WonLevel(original, played)
  {
  }

  /** The level a win should store: the original layout with one more win and the played best score. */
  function WonLevel(original: Level, played: Level): (r: Level)
    ensures r.winCount == played.winCount + 1 && r.movesBestScore == played.movesBestScore
    ensures r.(winCount := original.winCount, movesBestScore := original.movesBestScore) == original
  {
    Copy(original).(winCount := played.winCount + 1, movesBestScore := played.movesBestScore)
  }

  /**
    * The level store: the pack as shipped and the pack with the player's progress. Loading the
    * packs from files and writing the progress pack back are not modelled.
    */
  class LevelStore {
    const original: LevelPack
    const current: LevelPack

    ghost predicate Valid()
      reads this, original, current
    {
      original != current && original.Valid() && current.Valid()
    }

    constructor (original: LevelPack, current: LevelPack)
      requires original != current && original.Valid() && current.Valid()
      ensures Valid() && this.original == original && this.current == current
    {
      this.original := original;
      this.current := current;
    }

    function LevelCount(): (n: nat)
      reads current
      ensures n == |current.levels|
    {
      |current.levels|
    }

    /**
      * The level a board is built from: None when the number is out of range, otherwise the
      * shipped level when restarting and the saved one otherwise.
      */
    function BuildLevel(levelNum: int, restart: bool): (r: Option<Level>)
      reads this, current, original
      requires restart && 0 <= levelNum < |current.levels| ==> levelNum < |original.levels|
      ensures r.None? <==> levelNum < 0 || levelNum >= LevelCount()
      ensures r.Some? && !restart ==> r.value == current.levels[levelNum]
      ensures r.Some? && restart ==> r.value == original.levels[levelNum]
    {
      if levelNum < 0 || levelNum >= LevelCount() then Option.None
      else Some(if restart then original.levels[levelNum] else current.levels[levelNum])
    }

    /**
      * Records a played level. On a win the stored level is the original layout with one more
      * win and the played best score; otherwise it is the played level. Either way it replaces
      * only the slot of the level's number, which becomes the current level.
      */
    method SaveLevel(level: Level, win: bool)
      requires Valid()
      requires 0 <= level.number < |current.levels|
      requires win ==> level.number < |original.levels|
      modifies current
      ensures Valid()
      ensures current.currentLevelNum == level.number
      ensures current.levels == old(current.levels)[level.number :=
        if win then WonLevel(original.levels[level.number], level) else level]
      ensures |current.levels| == old(|current.levels|)
    {
      var saved := level;
      if win {
        var originalLevel := original.levels[level.number];
        saved := WonLevel(originalLevel, level);
      }
      current.currentLevelNum := saved.number;
      current.levels := current.levels[saved.number := saved];
    }
  }
}
