/** The marching-squares grid of MeshGenerator.js: control nodes on the
    tiles, midpoint nodes shared between neighbouring squares, the 4-bit
    configuration of a square and the polygon each configuration fills.
    A node is represented by its identity; its float position (a function
    of that identity) is not modelled. */
module Squares {
  import opened Tiles

  /** A mesh node: the control node on tile (x, y), or one of its two
      midpoint nodes, `above` (half a square up in y) and `right` (half a
      square along x). */
  datatype NodeId = Control(x: int, y: int) | Above(x: int, y: int) | Right(x: int, y: int)

  /** class ControlNode: a node that is active when its tile is a wall, with
      the two midpoint nodes it owns. */
  datatype ControlNode = ControlNode(node: NodeId, active: bool, above: NodeId, right: NodeId)

  function MakeControlNode(x: int, y: int, active: bool): ControlNode
  {
    ControlNode(Control(x, y), active, Above(x, y), Right(x, y))
  }

  /** class Square: four corners, four edge midpoints and the configuration. */
  datatype Square = Square(topLeft: ControlNode, topRight: ControlNode, bottomRight: ControlNode, bottomLeft: ControlNode,
                           centerTop: NodeId, centerRight: NodeId, centerBottom: NodeId, centerLeft: NodeId,
                           configuration: int)

  function Bit(b: bool): int
  {
    if b then 1 else 0
  }

  /** The configuration code 8 topLeft + 4 topRight + 2 bottomRight + 1
      bottomLeft over the active corners: a 4-bit number whose bits give the
      corners back. */
  function Configuration(topLeft: bool, topRight: bool, bottomRight: bool, bottomLeft: bool): (c: int)
    ensures 0 <= c < 16
    ensures c / 8 == Bit(topLeft) && c / 4 % 2 == Bit(topRight)
    ensures c / 2 % 2 == Bit(bottomRight) && c % 2 == Bit(bottomLeft)
  {
    var c := 0;
    var c := if topLeft then c + 8 else c;
    var c := if topRight then c + 4 else c;
    var c := if bottomRight then c + 2 else c;
    if bottomLeft then c + 1 else c
  }

  /** The Square constructor: each midpoint is taken from the corner that
      owns it. */
  function MakeSquare(topLeft: ControlNode, topRight: ControlNode, bottomRight: ControlNode, bottomLeft: ControlNode): Square
  {
    Square(topLeft, topRight, bottomRight, bottomLeft,
           topLeft.right, bottomRight.above, bottomLeft.right, bottomLeft.above,
           Configuration(topLeft.active, topRight.active, bottomRight.active, bottomLeft.active))
  }

  /** The square the grid puts at (x, y), over a map with the given corner
      tiles active. */
  function SquareAt(x: int, y: int, topLeft: bool, topRight: bool, bottomRight: bool, bottomLeft: bool): Square
  {
    MakeSquare(MakeControlNode(x, y + 1, topLeft), MakeControlNode(x + 1, y + 1, topRight),
               MakeControlNode(x + 1, y, bottomRight), MakeControlNode(x, y, bottomLeft))
  }

  /** class SquareGrid. */
  datatype SquareGrid = SquareGrid(controlNodes: seq<seq<ControlNode>>, squares: seq<seq<Square>>)

  /** The first loop of the SquareGrid constructor: one control node per
      tile, active on a wall. */
  method BuildControlNodes(m: Grid) returns (controlNodes: seq<seq<ControlNode>>)
    requires IsGrid(m) && |m| > 0
    ensures |controlNodes| == |m|
    ensures forall x :: 0 <= x < |m| ==> |controlNodes[x]| == Height(m)
    ensures forall x, y :: InRange(m, x, y) ==> controlNodes[x][y] == MakeControlNode(x, y, m[x][y] == 1)
  {
    var nodeCountX, nodeCountY := |m|, |m[0]|;
    controlNodes := [];
    for x := 0 to nodeCountX
      invariant |controlNodes| == x
      invariant forall i :: 0 <= i < x ==> |controlNodes[i]| == nodeCountY
      invariant forall i, j :: 0 <= i < x && 0 <= j < nodeCountY ==> controlNodes[i][j] == MakeControlNode(i, j, m[i][j] == 1)
    {
      var column: seq<ControlNode> := [];
      for y := 0 to nodeCountY
        invariant |column| == y
        invariant forall j :: 0 <= j < y ==> column[j] == MakeControlNode(x, j, m[x][j] == 1)
      {
        column := column + [MakeControlNode(x, y, m[x][y] == 1)];
      }
      controlNodes := controlNodes + [column];
    }
  }

  /** The second loop of the SquareGrid constructor: one square per 2x2
      block of control nodes, its corners wired to the nodes around it. */
  method BuildSquares(controlNodes: seq<seq<ControlNode>>, nodeCountY: nat) returns (squares: seq<seq<Square>>)
    requires |controlNodes| > 0 && forall x :: 0 <= x < |controlNodes| ==> |controlNodes[x]| == nodeCountY
    ensures |squares| == |controlNodes| - 1
    ensures forall x :: 0 <= x < |squares| ==> |squares[x]| == if nodeCountY == 0 then 0 else nodeCountY - 1
    ensures forall x, y {:trigger squares[x][y]} :: 0 <= x < |squares| && 0 <= y < nodeCountY - 1 ==>
      squares[x][y] == MakeSquare(controlNodes[x][y + 1], controlNodes[x + 1][y + 1], controlNodes[x + 1][y], controlNodes[x][y])
  {
    squares := [];
    for x := 0 to |controlNodes| - 1
      invariant |squares| == x
      invariant forall i :: 0 <= i < x ==> |squares[i]| == if nodeCountY == 0 then 0 else nodeCountY - 1
      invariant forall i, j {:trigger squares[i][j]} :: 0 <= i < x && 0 <= j < nodeCountY - 1 ==>
        squares[i][j] == MakeSquare(controlNodes[i][j + 1], controlNodes[i + 1][j + 1], controlNodes[i + 1][j], controlNodes[i][j])
    {
      var row: seq<Square> := [];
      var y := 0;
      while y < nodeCountY - 1
        invariant 0 <= y && (nodeCountY > 0 ==> y <= nodeCountY - 1) && (nodeCountY == 0 ==> y == 0)
        invariant |row| == y
        invariant forall j {:trigger row[j]} :: 0 <= j < y ==>
          row[j] == MakeSquare(controlNodes[x][j + 1], controlNodes[x + 1][j + 1], controlNodes[x + 1][j], controlNodes[x][j])
      {
        row := row + [MakeSquare(controlNodes[x][y + 1], controlNodes[x + 1][y + 1], controlNodes[x + 1][y], controlNodes[x][y])];
        y := y + 1;
      }
      squares := squares + [row];
    }
  }

  /** The SquareGrid constructor: square (x, y) has its corners on the
      tiles (x, y + 1), (x + 1, y + 1), (x + 1, y) and (x, y), each active
      exactly when its tile is a wall. */
  method BuildSquareGrid(m: Grid) returns (grid: SquareGrid)
    requires IsGrid(m) && |m| > 0
    ensures |grid.controlNodes| == |m|
    ensures forall x :: 0 <= x < |m| ==> |grid.controlNodes[x]| == Height(m)
    ensures forall x, y :: InRange(m, x, y) ==> grid.controlNodes[x][y] == MakeControlNode(x, y, m[x][y] == 1)
    ensures |grid.squares| == |m| - 1
    ensures forall x :: 0 <= x < |m| - 1 ==> |grid.squares[x]| == if Height(m) == 0 then 0 else Height(m) - 1
    ensures forall x, y {:trigger grid.squares[x][y]} :: 0 <= x < |m| - 1 && 0 <= y < Height(m) - 1 ==>
      grid.squares[x][y] == SquareAt(x, y, m[x][y + 1] == 1, m[x + 1][y + 1] == 1, m[x + 1][y] == 1, m[x][y] == 1)
  {
    var controlNodes := BuildControlNodes(m);
    var squares := BuildSquares(controlNodes, |m[0]|);
    grid := SquareGrid(controlNodes, squares);
    forall x, y {:trigger grid.squares[x][y]} | 0 <= x < |m| - 1 && 0 <= y < Height(m) - 1
      ensures grid.squares[x][y] == SquareAt(x, y, m[x][y + 1] == 1, m[x + 1][y + 1] == 1, m[x + 1][y] == 1, m[x][y] == 1)
    {
      assert InRange(m, x, y) && InRange(m, x, y + 1) && InRange(m, x + 1, y) && InRange(m, x + 1, y + 1);
    }
  }

  /** Neighbouring squares share their midpoint nodes: the right midpoint
      of square (x, y) is the left one of (x + 1, y), and its top midpoint
      is the bottom one of (x, y + 1). */
  lemma SharedMidpoints(x: int, y: int, a: bool, b: bool, c: bool, d: bool, e: bool, f: bool, g: bool, h: bool)
    ensures SquareAt(x, y, a, b, c, d).centerRight == SquareAt(x + 1, y, b, e, f, c).centerLeft
    ensures SquareAt(x, y, a, b, c, d).centerTop == SquareAt(x, y + 1, g, h, b, a).centerBottom
  {
  }

  /** The polygon triangulateSquare fills for each configuration, listed
      clockwise from the first point of the fan. */
  function PointsFor(s: Square): (points: seq<NodeId>)
  {
    match s.configuration
    case 1 => [s.centerLeft, s.centerBottom, s.bottomLeft.node]
    case 2 => [s.bottomRight.node, s.centerBottom, s.centerRight]
    case 4 => [s.topRight.node, s.centerRight, s.centerTop]
    case 8 => [s.topLeft.node, s.centerTop, s.centerLeft]
    case 3 => [s.centerRight, s.bottomRight.node, s.bottomLeft.node, s.centerLeft]
    case 6 => [s.centerTop, s.topRight.node, s.bottomRight.node, s.centerBottom]
    case 9 => [s.topLeft.node, s.centerTop, s.centerBottom, s.bottomLeft.node]
    case 12 => [s.topLeft.node, s.topRight.node, s.centerRight, s.centerLeft]
    case 5 => [s.centerTop, s.topRight.node, s.centerRight, s.centerBottom, s.bottomLeft.node, s.centerLeft]
    case 10 => [s.topLeft.node, s.centerTop, s.centerRight, s.bottomRight.node, s.centerBottom, s.centerLeft]
    case 7 => [s.centerTop, s.topRight.node, s.bottomRight.node, s.bottomLeft.node, s.centerLeft]
    case 11 => [s.topLeft.node, s.centerTop, s.centerRight, s.bottomRight.node, s.bottomLeft.node]
    case 13 => [s.topLeft.node, s.topRight.node, s.centerRight, s.centerBottom, s.bottomLeft.node]
    case 14 => [s.topLeft.node, s.topRight.node, s.bottomRight.node, s.centerBottom, s.centerLeft]
    case 15 => [s.topLeft.node, s.topRight.node, s.bottomRight.node, s.bottomLeft.node]
    case _ => []
  }

  /** A full square's polygon is its four corners. */
  lemma FullSquarePoints(s: Square)
    requires s.configuration == 15
    ensures PointsFor(s) == [s.topLeft.node, s.topRight.node, s.bottomRight.node, s.bottomLeft.node]
  {
  }

  /** The marching-squares rule the table follows, for corners: a square's
      polygon holds a corner exactly when that corner is a wall. */
  lemma {:induction false} PolygonCorners(x: int, y: int, topLeft: bool, topRight: bool, bottomRight: bool, bottomLeft: bool)
    ensures var s := SquareAt(x, y, topLeft, topRight, bottomRight, bottomLeft);
      var p := PointsFor(s);
      (s.topLeft.node in p <==> topLeft) && (s.topRight.node in p <==> topRight) &&
      (s.bottomRight.node in p <==> bottomRight) && (s.bottomLeft.node in p <==> bottomLeft)
  {
    var s := SquareAt(x, y, topLeft, topRight, bottomRight, bottomLeft);
    assert s.configuration == 8 * Bit(topLeft) + 4 * Bit(topRight) + 2 * Bit(bottomRight) + Bit(bottomLeft);
  }

  /** A square's polygon holds an edge midpoint exactly when the edge's two
      corners differ. */
  lemma {:induction false} PolygonMidpoints(x: int, y: int, topLeft: bool, topRight: bool, bottomRight: bool, bottomLeft: bool)
    ensures var s := SquareAt(x, y, topLeft, topRight, bottomRight, bottomLeft);
      var p := PointsFor(s);
      (s.centerTop in p <==> topLeft != topRight) && (s.centerRight in p <==> topRight != bottomRight) &&
      (s.centerBottom in p <==> bottomRight != bottomLeft) && (s.centerLeft in p <==> topLeft != bottomLeft)
  {
    var s := SquareAt(x, y, topLeft, topRight, bottomRight, bottomLeft);
    assert s.configuration == 8 * Bit(topLeft) + 4 * Bit(topRight) + 2 * Bit(bottomRight) + Bit(bottomLeft);
  }

  predicate DistinctNodes(p: seq<NodeId>)
  {
    forall i, j :: 0 <= i < j < |p| ==> p[i] != p[j]
  }

  /** The points of a square's polygon are distinct nodes. */
  lemma {:induction false} PointsAreDistinct(x: int, y: int, topLeft: bool, topRight: bool, bottomRight: bool, bottomLeft: bool)
    ensures DistinctNodes(PointsFor(SquareAt(x, y, topLeft, topRight, bottomRight, bottomLeft)))
  {
    var s := SquareAt(x, y, topLeft, topRight, bottomRight, bottomLeft);
    assert s.configuration == 8 * Bit(topLeft) + 4 * Bit(topRight) + 2 * Bit(bottomRight) + Bit(bottomLeft);
  }

  /** The fan meshFromPoints draws over n points: n - 2 triangles for 3 to 6
      points, none below 3, and never more than the four it has cases for. */
  function FanSize(n: nat): nat
  {
    if n < 3 then 0 else if n > 6 then 4 else n - 2
  }

  /** Triangles per configuration: none for an empty square, one for a
      single wall corner, two for two adjacent corners or a full square,
      four for two opposite corners, three for three corners. */
  function TriangleCount(configuration: int): nat
  {
    if configuration in {1, 2, 4, 8} then 1
    else if configuration in {3, 6, 9, 12, 15} then 2
    else if configuration in {5, 10} then 4
    else if configuration in {7, 11, 13, 14} then 3
    else 0
  }

  /** The fan over each configuration's polygon has that configuration's
      triangle count. */
  lemma FanSizeMatchesTable(s: Square)
    ensures FanSize(|PointsFor(s)|) == TriangleCount(s.configuration)
  {
  }
}
