/**
  * The ASCII board printer (Assets/Scripts/Core/Builders/BoardPrinter.cs). A character matrix
  * indexed [x, y] with doubled coordinates is blanked, nodes are written at even/even cells,
  * then placed arcs, pull fields and push fields are drawn in that order as strokes that start
  * one cell after their anchor node. Finally the matrix is transposed and emitted line by line.
  *
  * The specification side describes the result cell by cell: `Cell` is the character the
  * drawing leaves at (i, j), and `Render` is the emitted text.
  */
module Printer {
  import opened Geometry
  import opened Items

  const NodeInk := 'O'
  const ArcH := '-'
  const ArcV := '|'
  const Empty := ' '
  const PullInk := '*'
  const PushInk := '#'

  /** A line drawn from the anchor position, horizontally (along x) or vertically (along y). */
  datatype Stroke = Stroke(position: Point, horizontal: bool, length: int, ink: char)

  /** The matrix cells a stroke writes: 2*length - 1 cells after the anchor's own cell. */
  predicate Covers(s: Stroke, i: int, j: int)
  {
    if s.horizontal then
      j == 2 * s.position.y && 2 * s.position.x + 1 <= i < 2 * s.position.x + 2 * s.length
    else
      i == 2 * s.position.x && 2 * s.position.y + 1 <= j < 2 * s.position.y + 2 * s.length
  }

  /** A placed arc is drawn with '-' when its direction is horizontal and '|' otherwise. */
  function ArcStroke(a: Arc): Stroke
    requires a.field != null
    reads a
  {
    var h := a.field.direction.IsHorizontal();
    Stroke(a.field.position, h, a.length, if h then ArcH else ArcV)
  }

  function FieldStroke(f: Field, ink: char): Stroke
  {
    Stroke(f.position, f.direction.IsHorizontal(), f.length, ink)
  }

  /** The strokes of the arcs in order, skipping pulled arcs. */
  function ArcStrokes(arcs: seq<Arc>): (r: seq<Stroke>)
    reads set a | a in arcs
    ensures |r| <= |arcs|
    ensures forall s | s in r :: s.ink == if s.horizontal then ArcH else ArcV
  {
    if arcs == [] then []
    else
      var last := arcs[|arcs| - 1];
      ArcStrokes(arcs[..|arcs| - 1]) + if last.field == null then [] else [ArcStroke(last)]
  }

  function FieldStrokes(fields: seq<Field>, ink: char): (r: seq<Stroke>)
    ensures |r| == |fields|
    ensures forall s | s in r :: s.ink == ink
  {
    if fields == [] then []
    else FieldStrokes(fields[..|fields| - 1], ink) + [FieldStroke(fields[|fields| - 1], ink)]
  }

  /** The drawing order: arcs, then pull fields, then push fields. */
  function Layers(arcs: seq<Arc>, pullFields: seq<Field>, pushFields: seq<Field>): seq<Stroke>
    reads set a | a in arcs
  {
    ArcStrokes(arcs) + FieldStrokes(pullFields, PullInk) + FieldStrokes(pushFields, PushInk)
  }

  /** A cell after the nodes are written: 'O' at the doubled position of a node, blank elsewhere. */
  function Base(nodes: seq<Point>, i: int, j: int): (c: char)
    ensures c == NodeInk <==> i % 2 == 0 && j % 2 == 0 && Point(i / 2, j / 2) in nodes
    ensures c == NodeInk || c == Empty
  {
    if i % 2 == 0 && j % 2 == 0 && Point(i / 2, j / 2) in nodes then NodeInk else Empty
  }

  /** The character left at (i, j) when `strokes` are drawn in order over `under`. */
  function Ink(strokes: seq<Stroke>, i: int, j: int, under: char): char
  {
    if strokes == [] then under
    else
      var last := strokes[|strokes| - 1];
      if Covers(last, i, j) then last.ink else Ink(strokes[..|strokes| - 1], i, j, under)
  }

  /** A cell no stroke covers keeps what was under it. */
  lemma {:induction false} InkUncovered(strokes: seq<Stroke>, i: int, j: int, under: char)
    requires forall k | 0 <= k < |strokes| :: !Covers(strokes[k], i, j)
    ensures Ink(strokes, i, j, under) == under
  {
    if strokes != [] {
      var n := |strokes| - 1;
      assert forall k | 0 <= k < n :: strokes[..n][k] == strokes[k];
      InkUncovered(strokes[..n], i, j, under);
    }
  }

  /** The last writer wins: a cell shows the ink of the last stroke that covers it. */
  lemma {:induction false} InkLastWriter(strokes: seq<Stroke>, k: nat, i: int, j: int, under: char)
    requires k < |strokes| && Covers(strokes[k], i, j)
    requires forall m | k < m < |strokes| :: !Covers(strokes[m], i, j)
    ensures Ink(strokes, i, j, under) == strokes[k].ink
  {
    var n := |strokes| - 1;
    if k < n {
      assert forall m | 0 <= m < n :: strokes[..n][m] == strokes[m];
      InkLastWriter(strokes[..n], k, i, j, under);
    }
  }

  /** Drawing uses no character other than the background and the strokes' inks. */
  lemma {:induction false} InkWithin(strokes: seq<Stroke>, i: int, j: int, under: char, alphabet: set<char>)
    requires under in alphabet
    requires forall s | s in strokes :: s.ink in alphabet
    ensures Ink(strokes, i, j, under) in alphabet
  {
    if strokes != [] {
      var n := |strokes| - 1;
      assert strokes[n] in strokes;
      assert forall s | s in strokes[..n] :: s in strokes;
      InkWithin(strokes[..n], i, j, under, alphabet);
    }
  }

  /** The final character at matrix cell (i, j). */
  function Cell(nodes: seq<Point>, strokes: seq<Stroke>, i: int, j: int): char
  {
    Ink(strokes, i, j, Base(nodes, i, j))
  }

  /** The drawn matrix, indexed [x][y], of (2*size.x + 1) by (2*size.y + 1) cells. */
  function Canvas(size: Point, nodes: seq<Point>, strokes: seq<Stroke>): (m: seq<seq<char>>)
    requires size.x >= 0 && size.y >= 0
    ensures |m| == 2 * size.x + 1 && IsRect(m, 2 * size.y + 1)
  {
    seq(2 * size.x + 1, i => seq(2 * size.y + 1, j => Cell(nodes, strokes, i, j)))
  }

  predicate IsRect(m: seq<seq<char>>, width: nat)
  {
    forall r | r in m :: |r| == width
  }

  function Transposed(m: seq<seq<char>>, width: nat): (t: seq<seq<char>>)
    requires IsRect(m, width)
    ensures |t| == width && IsRect(t, |m|)
    ensures forall i, j | 0 <= i < width && 0 <= j < |m| :: t[i][j] == m[j][i]
  {
    seq(width, i requires 0 <= i < width => seq(|m|, j requires 0 <= j < |m| => m[j][i]))
  }

  /** Transposing twice gives back the original matrix. */
  lemma TransposedTwice(m: seq<seq<char>>, width: nat)
    requires IsRect(m, width)
    ensures Transposed(Transposed(m, width), |m|) == m
  {
    var t := Transposed(Transposed(m, width), |m|);
    forall r | 0 <= r < |m|
      ensures t[r] == m[r]
    {
      assert |t[r]| == |m[r]|;
    }
  }

  /** Every row followed by a newline. */
  function Join(rows: seq<seq<char>>): (s: string)
  {
    if rows == [] then [] else Join(rows[..|rows| - 1]) + rows[|rows| - 1] + ['\n']
  }

  /** Position of column `c` of line `r` in text made of lines of `width` characters plus newline. */
  function Offset(r: nat, c: nat, width: nat): nat
  {
    r * (width + 1) + c
  }

  lemma {:induction false} JoinLength(rows: seq<seq<char>>, width: nat)
    requires IsRect(rows, width)
    ensures |Join(rows)| == |rows| * (width + 1)
  {
    if rows != [] {
      var n := |rows| - 1;
      assert rows[n] in rows;
      assert forall r | r in rows[..n] :: r in rows;
      JoinLength(rows[..n], width);
      assert |Join(rows)| == |Join(rows[..n])| + width + 1;
      MulSucc(n, width + 1);
    }
  }

  lemma MulSucc(n: int, k: int)
    ensures (n + 1) * k == n * k + k
  {
  }

  lemma MulMonotone(a: int, b: int, k: nat)
    requires a <= b
    ensures a * k <= b * k
  {
  }

  /** In joined rows of equal width, line r holds row r's characters and then a newline. */
  lemma {:induction false} JoinAt(rows: seq<seq<char>>, width: nat, r: nat, c: nat)
    requires IsRect(rows, width) && r < |rows| && c <= width
    ensures Offset(r, c, width) < |Join(rows)|
    ensures Join(rows)[Offset(r, c, width)] == if c < width then rows[r][c] else '\n'
  {
    var n := |rows| - 1;
    var prefix := rows[..n];
    assert forall row | row in prefix :: row in rows;
    assert rows[n] in rows;
    JoinLength(prefix, width);
    assert Join(rows) == Join(prefix) + rows[n] + ['\n'];
    if r < n {
      MulMonotone(r + 1, n, width + 1);
      assert Offset(r, c, width) < |Join(prefix)| by {
        assert Offset(r, c, width) < (r + 1) * (width + 1);
      }
      JoinAt(prefix, width, r, c);
      assert Join(rows)[Offset(r, c, width)] == Join(prefix)[Offset(r, c, width)];
    } else {
      assert Offset(r, c, width) == n * (width + 1) + c;
      assert Offset(r, c, width) == |Join(prefix)| + c;
      assert Join(rows)[Offset(r, c, width)] == (rows[n] + ['\n'])[c];
    }
  }

  /** The emitted text: the canvas transposed so that each line is one y-row, then joined. */
  function Render(size: Point, nodes: seq<Point>, strokes: seq<Stroke>): string
    requires size.x >= 0 && size.y >= 0
  {
    Join(Transposed(Canvas(size, nodes, strokes), 2 * size.y + 1))
  }

  /** The text has 2*size.y + 1 lines, each of 2*size.x + 1 characters and a newline. */
  lemma RenderLength(size: Point, nodes: seq<Point>, strokes: seq<Stroke>)
    requires size.x >= 0 && size.y >= 0
    ensures |Render(size, nodes, strokes)| == (2 * size.y + 1) * (2 * size.x + 2)
  {
    JoinLength(Transposed(Canvas(size, nodes, strokes), 2 * size.y + 1), 2 * size.x + 1);
  }

  /** Line r, column c of the text is matrix cell (c, r); the character after the last column is a newline. */
  lemma RenderAt(size: Point, nodes: seq<Point>, strokes: seq<Stroke>, r: nat, c: nat)
    requires size.x >= 0 && size.y >= 0
    requires r < 2 * size.y + 1 && c <= 2 * size.x + 1
    ensures Offset(r, c, 2 * size.x + 1) < |Render(size, nodes, strokes)|
    ensures Render(size, nodes, strokes)[Offset(r, c, 2 * size.x + 1)] ==
      if c < 2 * size.x + 1 then Cell(nodes, strokes, c, r) else '\n'
  {
    var w := 2 * size.x + 1;
    var m := Canvas(size, nodes, strokes);
    var t := Transposed(m, 2 * size.y + 1);
    assert |m| == w && |t| == 2 * size.y + 1 && IsRect(t, w);
    assert Render(size, nodes, strokes) == Join(t);
    JoinAt(t, w, r, c);
    if c < w {
      assert t[r][c] == m[c][r];
      CanvasAt(size, nodes, strokes, c, r);
    }
  }

  lemma CanvasAt(size: Point, nodes: seq<Point>, strokes: seq<Stroke>, i: nat, j: nat)
    requires size.x >= 0 && size.y >= 0
    requires i < 2 * size.x + 1 && j < 2 * size.y + 1
    ensures Canvas(size, nodes, strokes)[i][j] == Cell(nodes, strokes, i, j)
  {
  }

  /** Cells with both coordinates odd are never written. */
  lemma OddCellsBlank(nodes: seq<Point>, strokes: seq<Stroke>, i: int, j: int)
    requires i % 2 == 1 && j % 2 == 1
    ensures Cell(nodes, strokes, i, j) == Empty
  {
    InkUncovered(strokes, i, j, Base(nodes, i, j));
  }

  /** A node's cell shows 'O' unless some stroke is drawn over it. */
  lemma NodeShown(nodes: seq<Point>, strokes: seq<Stroke>, p: Point)
    requires p in nodes
    requires forall k | 0 <= k < |strokes| :: !Covers(strokes[k], 2 * p.x, 2 * p.y)
    ensures Cell(nodes, strokes, 2 * p.x, 2 * p.y) == NodeInk
  {
    InkUncovered(strokes, 2 * p.x, 2 * p.y, Base(nodes, 2 * p.x, 2 * p.y));
  }

  /** Pulled arcs are not drawn. */
  lemma {:induction false} PulledArcsNotDrawn(arcs: seq<Arc>)
    requires forall a | a in arcs :: a.field == null
    ensures ArcStrokes(arcs) == []
  {
    if arcs != [] {
      assert forall a | a in arcs[..|arcs| - 1] :: a in arcs;
      assert arcs[|arcs| - 1] in arcs;
      PulledArcsNotDrawn(arcs[..|arcs| - 1]);
    }
  }

  /** Drawing two stroke lists one after the other is drawing their concatenation. */
  lemma {:induction false} InkAppend(a: seq<Stroke>, b: seq<Stroke>, i: int, j: int, under: char)
    ensures Ink(a + b, i, j, under) == Ink(b, i, j, Ink(a, i, j, under))
  {
    if b == [] {
      assert a + b == a;
    } else {
      var n := |b| - 1;
      assert (a + b)[..|a + b| - 1] == a + b[..n];
      assert (a + b)[|a + b| - 1] == b[n];
      InkAppend(a, b[..n], i, j, under);
    }
  }

  lemma InkSnoc(a: seq<Stroke>, s: Stroke, i: int, j: int, under: char)
    ensures Ink(a + [s], i, j, under) == if Covers(s, i, j) then s.ink else Ink(a, i, j, under)
  {
    assert (a + [s])[..|a|] == a;
  }

  /** When every stroke has the same ink, a covered cell shows that ink. */
  lemma {:induction false} InkUniform(strokes: seq<Stroke>, k: nat, ink: char, i: int, j: int, under: char)
    requires k < |strokes| && Covers(strokes[k], i, j)
    requires forall s | s in strokes :: s.ink == ink
    ensures Ink(strokes, i, j, under) == ink
  {
    var n := |strokes| - 1;
    assert strokes[n] in strokes;
    if !Covers(strokes[n], i, j) {
      assert forall s | s in strokes[..n] :: s in strokes;
      assert strokes[..n][k] == strokes[k];
      InkUniform(strokes[..n], k, ink, i, j, under);
    }
  }

  /** The k-th field stroke is the stroke of the k-th field. */
  lemma {:induction false} FieldStrokesAt(fields: seq<Field>, ink: char)
    ensures forall k | 0 <= k < |fields| :: FieldStrokes(fields, ink)[k] == FieldStroke(fields[k], ink)
  {
    if fields != [] {
      var n := |fields| - 1;
      FieldStrokesAt(fields[..n], ink);
      forall k | 0 <= k < n
        ensures FieldStrokes(fields, ink)[k] == FieldStroke(fields[k], ink)
      {
        assert fields[..n][k] == fields[k];
      }
    }
  }

  /** Push fields are drawn last: a cell under a push field shows '#'. */
  lemma PushFieldOnTop(nodes: seq<Point>, arcs: seq<Arc>, pullFields: seq<Field>, pushFields: seq<Field>, k: nat, i: int, j: int)
    requires k < |pushFields| && Covers(FieldStroke(pushFields[k], PushInk), i, j)
    ensures Cell(nodes, Layers(arcs, pullFields, pushFields), i, j) == PushInk
  {
    var base := Base(nodes, i, j);
    var below := ArcStrokes(arcs) + FieldStrokes(pullFields, PullInk);
    InkAppend(below, FieldStrokes(pushFields, PushInk), i, j, base);
    FieldStrokesAt(pushFields, PushInk);
    InkUniform(FieldStrokes(pushFields, PushInk), k, PushInk, i, j, Ink(below, i, j, base));
  }

  /** Pull fields are drawn over arcs and nodes: a cell under a pull field and no push field shows '*'. */
  lemma PullFieldOverArcs(nodes: seq<Point>, arcs: seq<Arc>, pullFields: seq<Field>, pushFields: seq<Field>, k: nat, i: int, j: int)
    requires k < |pullFields| && Covers(FieldStroke(pullFields[k], PullInk), i, j)
    requires forall f | f in pushFields :: !Covers(FieldStroke(f, PushInk), i, j)
    ensures Cell(nodes, Layers(arcs, pullFields, pushFields), i, j) == PullInk
  {
    var base := Base(nodes, i, j);
    var pulls, pushes := FieldStrokes(pullFields, PullInk), FieldStrokes(pushFields, PushInk);
    InkAppend(ArcStrokes(arcs) + pulls, pushes, i, j, base);
    InkAppend(ArcStrokes(arcs), pulls, i, j, base);
    FieldStrokesAt(pushFields, PushInk);
    FieldStrokesAt(pullFields, PullInk);
    assert forall m | 0 <= m < |pushes| :: pushFields[m] in pushFields;
    InkUncovered(pushes, i, j, Ink(ArcStrokes(arcs) + pulls, i, j, base));
    InkUniform(pulls, k, PullInk, i, j, Ink(ArcStrokes(arcs), i, j, base));
  }

  /** The characters a printed board is made of. */
  const Printable: set<char> := {NodeInk, ArcH, ArcV, Empty, PullInk, PushInk, '\n'}

  /** A position in text of lines `width` long plus newline splits into a line and a column. */
  lemma LineColumn(k: nat, width: nat, lines: nat) returns (r: nat, c: nat)
    requires k < lines * (width + 1)
    ensures k == Offset(r, c, width) && r < lines && c <= width
  {
    r, c := k / (width + 1), k % (width + 1);
    if r >= lines {
      MulMonotone(lines, r, width + 1);
    }
  }

  /** Drawing strokes whose inks are printable leaves only printable characters. */
  lemma RenderCharAt(size: Point, nodes: seq<Point>, strokes: seq<Stroke>, k: nat)
    requires size.x >= 0 && size.y >= 0
    requires forall s | s in strokes :: s.ink in Printable
    requires k < |Render(size, nodes, strokes)|
    ensures Render(size, nodes, strokes)[k] in Printable
  {
    var w := 2 * size.x + 1;
    RenderLength(size, nodes, strokes);
    var r, c := LineColumn(k, w, 2 * size.y + 1);
    RenderAt(size, nodes, strokes, r, c);
    if c < w {
      InkWithin(strokes, c, r, Base(nodes, c, r), Printable);
    }
  }

  /** Every character of a printed board is a node, an arc, a blank, a field mark or a newline. */
  lemma RenderAlphabet(size: Point, nodes: seq<Point>, arcs: seq<Arc>, pullFields: seq<Field>, pushFields: seq<Field>)
    requires size.x >= 0 && size.y >= 0
    ensures forall k | 0 <= k < |Render(size, nodes, Layers(arcs, pullFields, pushFields))| ::
      Render(size, nodes, Layers(arcs, pullFields, pushFields))[k] in Printable
  {
    var strokes := Layers(arcs, pullFields, pushFields);
    assert forall s | s in strokes :: s.ink in Printable;
    forall k | 0 <= k < |Render(size, nodes, strokes)|
      ensures Render(size, nodes, strokes)[k] in Printable
    {
      RenderCharAt(size, nodes, strokes, k);
    }
  }

  /** In-range requirements for writing a stroke into a w0 by w1 matrix. */
  predicate StrokeFits(s: Stroke, w0: int, w1: int)
  {
    s.length >= 1 ==>
      if s.horizontal then
        0 <= s.position.x && 2 * s.position.x + 2 * s.length <= w0 && 0 <= 2 * s.position.y < w1
      else
        0 <= 2 * s.position.x < w0 && 0 <= s.position.y && 2 * s.position.y + 2 * s.length <= w1
  }

  /**
    * The board layout the printer can draw without writing out of range: a non-negative size,
    * every node within [0, size.x] x [0, size.y], and every stroke of positive length ending
    * within the board.
    */
  predicate Fits(size: Point, nodes: seq<Point>, strokes: seq<Stroke>)
  {
    && size.x >= 0 && size.y >= 0
    && (forall p | p in nodes :: 0 <= p.x <= size.x && 0 <= p.y <= size.y)
    && (forall s | s in strokes :: StrokeFits(s, 2 * size.x + 1, 2 * size.y + 1))
  }

  /** The rows of a matrix. */
  function Matrix(g: array2<char>): (m: seq<seq<char>>)
    reads g
    ensures |m| == g.Length0 && IsRect(m, g.Length1)
    ensures forall i, j | 0 <= i < g.Length0 && 0 <= j < g.Length1 :: m[i][j] == g[i, j]
  {
    seq(g.Length0, i requires 0 <= i < g.Length0 reads g =>
      seq(g.Length1, j requires 0 <= j < g.Length1 reads g => g[i, j]))
  }

  /** Blanks every cell. */
  method Reset(g: array2<char>)
    modifies g
    ensures forall i, j | 0 <= i < g.Length0 && 0 <= j < g.Length1 :: g[i, j] == Empty
  {
    for i := 0 to g.Length0
      invariant forall a, b | 0 <= a < i && 0 <= b < g.Length1 :: g[a, b] == Empty
    {
      for j := 0 to g.Length1
        invariant forall a, b | 0 <= a < i && 0 <= b < g.Length1 :: g[a, b] == Empty
        invariant forall b | 0 <= b < j :: g[i, b] == Empty
      {
        g[i, j] := Empty;
      }
    }
  }

  /** Writes 'O' at the doubled position of every node of a blank matrix. */
  method PlaceNodes(g: array2<char>, nodes: seq<Point>)
    requires forall i, j | 0 <= i < g.Length0 && 0 <= j < g.Length1 :: g[i, j] == Empty
    requires forall p | p in nodes :: 0 <= 2 * p.x < g.Length0 && 0 <= 2 * p.y < g.Length1
    modifies g
    ensures forall i, j | 0 <= i < g.Length0 && 0 <= j < g.Length1 :: g[i, j] == Base(nodes, i, j)
  {
    for k := 0 to |nodes|
      invariant forall i, j | 0 <= i < g.Length0 && 0 <= j < g.Length1 :: g[i, j] == Base(nodes[..k], i, j)
    {
      var p := nodes[k];
      assert p in nodes;
      g[2 * p.x, 2 * p.y] := NodeInk;
      forall i, j | 0 <= i < g.Length0 && 0 <= j < g.Length1
        ensures g[i, j] == Base(nodes[..k + 1], i, j)
      {
        assert nodes[..k + 1] == nodes[..k] + [p];
      }
    }
    assert nodes[..|nodes|] == nodes;
  }

  /** Draws one stroke: 2*length - 1 cells after the anchor, along x or along y. */
  method DrawStroke(g: array2<char>, s: Stroke)
    requires StrokeFits(s, g.Length0, g.Length1)
    modifies g
    ensures forall i, j | 0 <= i < g.Length0 && 0 <= j < g.Length1 ::
      g[i, j] == if Covers(s, i, j) then s.ink else old(g[i, j])
  {
    var x, y := 2 * s.position.x, 2 * s.position.y;
    var k := 1;
    if s.horizontal {
      while k < 2 * s.length
        invariant 1 <= k
        invariant k == 1 || k <= 2 * s.length
        invariant forall i, j | 0 <= i < g.Length0 && 0 <= j < g.Length1 ::
          g[i, j] == if j == y && x + 1 <= i < x + k then s.ink else old(g[i, j])
      {
        g[x + k, y] := s.ink;
        k := k + 1;
      }
    } else {
      while k < 2 * s.length
        invariant 1 <= k
        invariant k == 1 || k <= 2 * s.length
        invariant forall i, j | 0 <= i < g.Length0 && 0 <= j < g.Length1 ::
          g[i, j] == if i == x && y + 1 <= j < y + k then s.ink else old(g[i, j])
      {
        g[x, y + k] := s.ink;
        k := k + 1;
      }
    }
  }

  /** Draws every arc that is not pulled, in order. */
  method DrawArcs(g: array2<char>, arcs: seq<Arc>)
    requires forall s | s in ArcStrokes(arcs) :: StrokeFits(s, g.Length0, g.Length1)
    modifies g
    ensures forall i, j | 0 <= i < g.Length0 && 0 <= j < g.Length1 ::
      g[i, j] == Ink(ArcStrokes(arcs), i, j, old(g[i, j]))
  {
    for k := 0 to |arcs|
      invariant forall i, j | 0 <= i < g.Length0 && 0 <= j < g.Length1 ::
        g[i, j] == Ink(ArcStrokes(arcs[..k]), i, j, old(g[i, j]))
    {
      var arc := arcs[k];
      if arc.IsPulled() {
        ArcStrokesSnoc(arcs, k);
        assert ArcStrokes(arcs[..k + 1]) == ArcStrokes(arcs[..k]);
      } else {
        ArcStrokeIn(arcs, k);
        DrawStroke(g, ArcStroke(arc));
        ArcStrokesSnoc(arcs, k);
        forall i, j | 0 <= i < g.Length0 && 0 <= j < g.Length1
          ensures g[i, j] == Ink(ArcStrokes(arcs[..k + 1]), i, j, old(g[i, j]))
        {
          InkSnoc(ArcStrokes(arcs[..k]), ArcStroke(arc), i, j, old(g[i, j]));
        }
      }
    }
    assert arcs[..|arcs|] == arcs;
  }

  /** One more arc adds its stroke, unless it is pulled. */
  lemma ArcStrokesSnoc(arcs: seq<Arc>, k: nat)
    requires k < |arcs|
    ensures ArcStrokes(arcs[..k + 1]) ==
      ArcStrokes(arcs[..k]) + if arcs[k].field == null then [] else [ArcStroke(arcs[k])]
  {
    assert arcs[..k + 1][..k] == arcs[..k];
  }

  /** Every arc that is not pulled contributes its stroke. */
  lemma {:induction false} ArcStrokeIn(arcs: seq<Arc>, k: nat)
    requires k < |arcs| && arcs[k].field != null
    ensures ArcStroke(arcs[k]) in ArcStrokes(arcs)
    decreases |arcs|
  {
    var n := |arcs| - 1;
    if k < n {
      ArcStrokeIn(arcs[..n], k);
    }
  }

  /** Draws every field of the list with `ink`, in order. */
  method DrawFields(g: array2<char>, fields: seq<Field>, ink: char)
    requires forall f | f in fields :: StrokeFits(FieldStroke(f, ink), g.Length0, g.Length1)
    modifies g
    ensures forall i, j | 0 <= i < g.Length0 && 0 <= j < g.Length1 ::
      g[i, j] == Ink(FieldStrokes(fields, ink), i, j, old(g[i, j]))
  {
    for k := 0 to |fields|
      invariant forall i, j | 0 <= i < g.Length0 && 0 <= j < g.Length1 ::
        g[i, j] == Ink(FieldStrokes(fields[..k], ink), i, j, old(g[i, j]))
    {
      var field := fields[k];
      assert fields[..k + 1][..k] == fields[..k];
      assert field in fields;
      DrawStroke(g, FieldStroke(field, ink));
      forall i, j | 0 <= i < g.Length0 && 0 <= j < g.Length1
        ensures g[i, j] == Ink(FieldStrokes(fields[..k + 1], ink), i, j, old(g[i, j]))
      {
        InkSnoc(FieldStrokes(fields[..k], ink), FieldStroke(field, ink), i, j, old(g[i, j]));
      }
    }
    assert fields[..|fields|] == fields;
  }

  /** A new matrix with the dimensions swapped and t[i, j] == g[j, i]. */
  method Transpose(g: array2<char>) returns (t: array2<char>)
    ensures fresh(t) && t.Length0 == g.Length1 && t.Length1 == g.Length0
    ensures Matrix(t) == Transposed(Matrix(g), g.Length1)
  {
    t := new char[g.Length1, g.Length0];
    for i := 0 to g.Length1
      invariant forall a, b | 0 <= a < i && 0 <= b < g.Length0 :: t[a, b] == g[b, a]
    {
      for j := 0 to g.Length0
        invariant forall a, b | 0 <= a < i && 0 <= b < g.Length0 :: t[a, b] == g[b, a]
        invariant forall b | 0 <= b < j :: t[i, b] == g[b, i]
      {
        t[i, j] := g[j, i];
      }
    }
    var m, tm := Matrix(t), Transposed(Matrix(g), g.Length1);
    forall r | 0 <= r < g.Length1
      ensures m[r] == tm[r]
    {
    }
  }

  /** Each row of the matrix followed by a newline. */
  method BuildCharGrid(g: array2<char>) returns (s: string)
    ensures s == Join(Matrix(g))
  {
    ghost var m := Matrix(g);
    s := [];
    for i := 0 to g.Length0
      invariant s == Join(m[..i])
    {
      ghost var line := s;
      for j := 0 to g.Length1
        invariant s == line + m[i][..j]
      {
        assert m[i][..j + 1] == m[i][..j] + [g[i, j]];
        s := s + [g[i, j]];
      }
      s := s + ['\n'];
      assert m[..i + 1][..i] == m[..i];
      assert m[i][..g.Length1] == m[i];
      assert Join(m[..i + 1]) == Join(m[..i]) + m[i] + ['\n'];
    }
    assert m[..g.Length0] == m;
  }

  /**
    * The printed board: nodes, then arcs that are not pulled, then pull fields ('*'), then push
    * fields ('#'), transposed so that each line is one y-row.
    */
  method GetBoard(size: Point, nodes: seq<Point>, arcs: seq<Arc>, pullFields: seq<Field>, pushFields: seq<Field>)
    returns (s: string)
    requires Fits(size, nodes, Layers(arcs, pullFields, pushFields))
    ensures s == Render(size, nodes, Layers(arcs, pullFields, pushFields))
  {
    var grid := Paint(size, nodes, arcs, pullFields, pushFields);
    var t := Transpose(grid);
    s := BuildCharGrid(t);
  }

  /** A new matrix of the board's dimensions holding the canvas of the layout. */
  method Paint(size: Point, nodes: seq<Point>, arcs: seq<Arc>, pullFields: seq<Field>, pushFields: seq<Field>)
    returns (grid: array2<char>)
    requires Fits(size, nodes, Layers(arcs, pullFields, pushFields))
    ensures fresh(grid) && grid.Length1 == 2 * size.y + 1
    ensures Matrix(grid) == Canvas(size, nodes, Layers(arcs, pullFields, pushFields))
  {
    grid := new char[2 * size.x + 1, 2 * size.y + 1];
    LayersFit(size, nodes, arcs, pullFields, pushFields);
    Draw(grid, nodes, arcs, pullFields, pushFields);
    DrawnCanvas(grid, size, nodes, arcs, pullFields, pushFields);
  }

  /** Blanks the matrix, writes the nodes, then draws arcs, pull fields and push fields in that order. */
  method Draw(grid: array2<char>, nodes: seq<Point>, arcs: seq<Arc>, pullFields: seq<Field>, pushFields: seq<Field>)
    requires forall p | p in nodes :: 0 <= 2 * p.x < grid.Length0 && 0 <= 2 * p.y < grid.Length1
    requires forall st | st in ArcStrokes(arcs) :: StrokeFits(st, grid.Length0, grid.Length1)
    requires forall f | f in pullFields :: StrokeFits(FieldStroke(f, PullInk), grid.Length0, grid.Length1)
    requires forall f | f in pushFields :: StrokeFits(FieldStroke(f, PushInk), grid.Length0, grid.Length1)
    modifies grid
    ensures forall i, j | 0 <= i < grid.Length0 && 0 <= j < grid.Length1 ::
      grid[i, j] == Ink(FieldStrokes(pushFields, PushInk), i, j,
                      Ink(FieldStrokes(pullFields, PullInk), i, j,
                        Ink(ArcStrokes(arcs), i, j, Base(nodes, i, j))))
  {
    ghost var arcStrokes := ArcStrokes(arcs);
    ghost var pulls, pushes := FieldStrokes(pullFields, PullInk), FieldStrokes(pushFields, PushInk);
    DrawBase(grid, nodes, arcs);
    DrawFields(grid, pullFields, PullInk);
    assert forall i, j | 0 <= i < grid.Length0 && 0 <= j < grid.Length1 ::
      grid[i, j] == Ink(pulls, i, j, Ink(arcStrokes, i, j, Base(nodes, i, j)));
    DrawFields(grid, pushFields, PushInk);
    assert ArcStrokes(arcs) == arcStrokes;
  }

  /** The first drawing steps: a blank matrix, the nodes, then the arcs. */
  method DrawBase(grid: array2<char>, nodes: seq<Point>, arcs: seq<Arc>)
    requires forall p | p in nodes :: 0 <= 2 * p.x < grid.Length0 && 0 <= 2 * p.y < grid.Length1
    requires forall st | st in ArcStrokes(arcs) :: StrokeFits(st, grid.Length0, grid.Length1)
    modifies grid
    ensures ArcStrokes(arcs) == old(ArcStrokes(arcs))
    ensures forall i, j | 0 <= i < grid.Length0 && 0 <= j < grid.Length1 ::
      grid[i, j] == Ink(ArcStrokes(arcs), i, j, Base(nodes, i, j))
  {
    Reset(grid);
    PlaceNodes(grid, nodes);
    DrawArcs(grid, arcs);
  }

  /** What GetBoard's drawing steps need of a layout that fits. */
  lemma LayersFit(size: Point, nodes: seq<Point>, arcs: seq<Arc>, pullFields: seq<Field>, pushFields: seq<Field>)
    requires Fits(size, nodes, Layers(arcs, pullFields, pushFields))
    ensures forall p | p in nodes :: 0 <= 2 * p.x < 2 * size.x + 1 && 0 <= 2 * p.y < 2 * size.y + 1
    ensures forall st | st in ArcStrokes(arcs) :: StrokeFits(st, 2 * size.x + 1, 2 * size.y + 1)
    ensures forall f | f in pullFields :: StrokeFits(FieldStroke(f, PullInk), 2 * size.x + 1, 2 * size.y + 1)
    ensures forall f | f in pushFields :: StrokeFits(FieldStroke(f, PushInk), 2 * size.x + 1, 2 * size.y + 1)
  {
    var pulls, pushes := FieldStrokes(pullFields, PullInk), FieldStrokes(pushFields, PushInk);
    var strokes := Layers(arcs, pullFields, pushFields);
    FieldStrokesAt(pullFields, PullInk);
    FieldStrokesAt(pushFields, PushInk);
    forall f | f in pullFields
      ensures FieldStroke(f, PullInk) in strokes
    {
      var k :| 0 <= k < |pullFields| && pullFields[k] == f;
      assert strokes[|ArcStrokes(arcs)| + k] == pulls[k];
    }
    forall f | f in pushFields
      ensures FieldStroke(f, PushInk) in strokes
    {
      var k :| 0 <= k < |pushFields| && pushFields[k] == f;
      assert strokes[|ArcStrokes(arcs)| + |pulls| + k] == pushes[k];
    }
    assert forall st | st in ArcStrokes(arcs) :: st in strokes;
  }

  /** After the drawing steps, the matrix is the canvas of the layout. */
  lemma DrawnCanvas(grid: array2<char>, size: Point, nodes: seq<Point>, arcs: seq<Arc>, pullFields: seq<Field>, pushFields: seq<Field>)
    requires size.x >= 0 && size.y >= 0
    requires grid.Length0 == 2 * size.x + 1 && grid.Length1 == 2 * size.y + 1
    requires forall i, j | 0 <= i < grid.Length0 && 0 <= j < grid.Length1 ::
      grid[i, j] == Ink(FieldStrokes(pushFields, PushInk), i, j,
                      Ink(FieldStrokes(pullFields, PullInk), i, j,
                        Ink(ArcStrokes(arcs), i, j, Base(nodes, i, j))))
    ensures Matrix(grid) == Canvas(size, nodes, Layers(arcs, pullFields, pushFields))
  {
    var pulls, pushes := FieldStrokes(pullFields, PullInk), FieldStrokes(pushFields, PushInk);
    var m := Canvas(size, nodes, Layers(arcs, pullFields, pushFields));
    forall i, j | 0 <= i < grid.Length0 && 0 <= j < grid.Length1
      ensures grid[i, j] == m[i][j]
    {
      InkAppend(ArcStrokes(arcs), pulls, i, j, Base(nodes, i, j));
      InkAppend(ArcStrokes(arcs) + pulls, pushes, i, j, Base(nodes, i, j));
    }
    var g := Matrix(grid);
    forall i | 0 <= i < grid.Length0
      ensures g[i] == m[i]
    {
    }
  }
}
