/** `WaterModel.generateMesh`: a flat grid of `vertX` by `vertY` vertices
    at one height, two triangles for every cell between four neighbouring
    vertices, and one colour for every vertex. */
module WaterModel {
  import opened Grid

  /** A float of the vertex list, by what it is computed from:
      `START_X + x * xStep`, the water height, `START_Z + y * zStep`. */
  datatype Coord = Across(x: nat) | Level | Along(y: nat)

  /** A colour float `level / 255f`; 0 is the array's initial value. */
  datatype Shade = Shade(level: nat)

  /** The water colour, one level per channel. */
  const WaterColor: seq<nat> := [45, 174, 255]

  /** The number of cells along a side of `n` vertices. */
  function Cells(n: int): nat {
    if n > 1 then n - 1 else 0
  }

  /** The three floats the loop appends for vertex `(x, y)`. */
  function VertexAt(y: nat, x: nat): seq<Coord> {
    [Across(x), Level, Along(y)]
  }

  /** The six indices of the cell whose left top corner is `(x, y)`, with
      its four corners computed as the loop computes them. */
  function CellAt(vertX: nat, y: nat, x: nat): seq<int> {
    var leftTop := y * vertX + x;
    var leftBottom := (y + 1) * vertX + x;
    var rightBottom := (y + 1) * vertX + x + 1;
    var rightTop := y * vertX + x + 1;
    [leftTop, leftBottom, rightTop, rightTop, leftBottom, rightBottom]
  }

  /** What the loop appends to the index list at vertex `(x, y)`: a cell
      when the vertex is not in the last column or the last row. */
  function PointIndices(vertX: int, vertY: int): (nat, nat) -> seq<int> {
    (y: nat, x: nat) => if x < vertX - 1 && y < vertY - 1 then CellAt(Count(vertX), y, x) else []
  }

  function Cell(vertX: int): (nat, nat) -> seq<int> {
    (y: nat, x: nat) => CellAt(Count(vertX), y, x)
  }

  function Color(m: nat, c: nat): Shade {
    if c < 3 then Shade(WaterColor[c]) else Shade(0)
  }

  /** The vertex list. */
  function Vertices(vertX: int, vertY: int): seq<Coord> {
    Rows(VertexAt, Count(vertX), Count(vertY))
  }

  /** The index list, as the vertex loop appends it. */
  function Indices(vertX: int, vertY: int): seq<int> {
    Rows(PointIndices(vertX, vertY), Count(vertX), Count(vertY))
  }

  /** `generateMesh`: the vertex loop appends each vertex's floats and,
      for each vertex that is a cell's left top corner, the cell's
      indices; the colour loop then fills one colour per vertex. */
  method GenerateMesh(vertX: int, vertY: int) returns (verts: seq<Coord>, indices: seq<int>, colors: seq<Shade>)
    ensures verts == Vertices(vertX, vertY) && indices == Indices(vertX, vertY)
    ensures |verts| == 3 * Count(vertX) * Count(vertY) && |indices| == 6 * Cells(vertX) * Cells(vertY)
    ensures |colors| == |verts| && forall j :: 0 <= j < |colors| ==> colors[j] == Shade(WaterColor[j % 3])
  {
    verts, indices := VertexLoop(vertX, vertY);
    VerticesLength(vertX, vertY);
    IndexCount(vertX, vertY);
    colors := FillTriples(|verts|, Shade(0), Color);
  }

  /** The vertex loop of `generateMesh`. */
  method VertexLoop(vertX: int, vertY: int) returns (verts: seq<Coord>, indices: seq<int>)
    ensures verts == Vertices(vertX, vertY) && indices == Indices(vertX, vertY)
  {
    var w := Count(vertX);
    verts, indices := [], [];
    var y := 0;
    while y < vertY
      invariant 0 <= y <= Count(vertY)
      invariant verts == Rows(VertexAt, w, y) && indices == Rows(PointIndices(vertX, vertY), w, y)
    {
      verts, indices := RowLoop(vertX, vertY, y, verts, indices);
      y := y + 1;
    }
  }

  /** One pass of the inner loop: the row `y` of vertices. */
  method RowLoop(vertX: int, vertY: int, y: nat, verts0: seq<Coord>, indices0: seq<int>)
    returns (verts: seq<Coord>, indices: seq<int>)
    ensures verts == verts0 + Row(VertexAt, y, Count(vertX))
    ensures indices == indices0 + Row(PointIndices(vertX, vertY), y, Count(vertX))
  {
    var w := Count(vertX);
    verts, indices := verts0, indices0;
    var x := 0;
    while x < vertX
      invariant 0 <= x <= w
      invariant verts == verts0 + Row(VertexAt, y, x)
      invariant indices == indices0 + Row(PointIndices(vertX, vertY), y, x)
    {
      verts := verts + VertexAt(y, x);
      ghost var step := PointIndices(vertX, vertY)(y, x);
      if x < vertX - 1 && y < vertY - 1 {
        indices := indices + CellAt(w, y, x);
        assert step == CellAt(w, y, x);
      } else {
        assert step == [];
        assert indices == indices + step;
      }
      assert Row(PointIndices(vertX, vertY), y, x + 1) == Row(PointIndices(vertX, vertY), y, x) + step;
      x := x + 1;
    }
  }

  /** Three floats per vertex. */
  lemma VerticesLength(vertX: int, vertY: int)
    ensures |Vertices(vertX, vertY)| == 3 * Count(vertX) * Count(vertY)
    ensures |Vertices(vertX, vertY)| % 3 == 0
  {
    RowsLength(VertexAt, 3, Count(vertX), Count(vertY));
  }

  /** Vertex `(x, y)` is the triple at `3 * (y * vertX + x)`. */
  lemma VertexFloats(vertX: int, vertY: int, x: nat, y: nat)
    requires x < vertX && y < vertY
    ensures var o := 3 * (y * vertX + x);
            o + 2 < |Vertices(vertX, vertY)|
            && Vertices(vertX, vertY)[o] == Across(x) && Vertices(vertX, vertY)[o + 1] == Level
            && Vertices(vertX, vertY)[o + 2] == Along(y)
  {
    var w, h := Count(vertX), Count(vertY);
    RowsAt(VertexAt, 3, w, h, y, x, 0);
    RowsAt(VertexAt, 3, w, h, y, x, 1);
    RowsAt(VertexAt, 3, w, h, y, x, 2);
  }

  /** The index list appended vertex by vertex is the list of cells taken
      row by row: exactly the vertices off the last column and the last
      row start a cell. */
  lemma {:induction false} PointsAreCells(vertX: int, vertY: int)
    ensures Indices(vertX, vertY) == Rows(Cell(vertX), Cells(vertX), Cells(vertY))
  {
    var p, c := PointIndices(vertX, vertY), Cell(vertX);
    var w, h := Count(vertX), Count(vertY);
    forall y: nat | y < Cells(vertY)
      ensures Row(p, y, w) == Row(c, y, Cells(vertX))
    {
      CellRow(vertX, vertY, y, Cells(vertX));
      if w > 0 {
        assert p(y, w - 1) == [];
      }
    }
    CellRows(vertX, vertY, Cells(vertY));
    if h > 0 {
      EmptyRow(vertX, vertY, h - 1, w);
    }
  }

  lemma {:induction false} CellRow(vertX: int, vertY: int, y: nat, n: nat)
    requires y < Cells(vertY) && n <= Cells(vertX)
    ensures Row(PointIndices(vertX, vertY), y, n) == Row(Cell(vertX), y, n)
    decreases n
  {
    if n > 0 {
      CellRow(vertX, vertY, y, n - 1);
      assert PointIndices(vertX, vertY)(y, n - 1) == Cell(vertX)(y, n - 1);
    }
  }

  lemma {:induction false} EmptyRow(vertX: int, vertY: int, y: nat, n: nat)
    requires y >= Cells(vertY)
    ensures Row(PointIndices(vertX, vertY), y, n) == []
    decreases n
  {
    if n > 0 {
      EmptyRow(vertX, vertY, y, n - 1);
      assert PointIndices(vertX, vertY)(y, n - 1) == [];
    }
  }

  lemma {:induction false} CellRows(vertX: int, vertY: int, h: nat)
    requires h <= Cells(vertY)
    requires forall y: nat | y < Cells(vertY) :: Row(PointIndices(vertX, vertY), y, Count(vertX)) == Row(Cell(vertX), y, Cells(vertX))
    ensures Rows(PointIndices(vertX, vertY), Count(vertX), h) == Rows(Cell(vertX), Cells(vertX), h)
    decreases h
  {
    if h > 0 {
      CellRows(vertX, vertY, h - 1);
    }
  }

  /** Six indices per cell, over `(vertX - 1) * (vertY - 1)` cells. */
  lemma IndexCount(vertX: int, vertY: int)
    ensures |Indices(vertX, vertY)| == 6 * Cells(vertX) * Cells(vertY)
  {
    PointsAreCells(vertX, vertY);
    RowsLength(Cell(vertX), 6, Cells(vertX), Cells(vertY));
  }

  /** The corners of a cell: right top is right of left top, left bottom
      one row below it, right bottom right of left bottom. */
  lemma CellCorners(vertX: nat, y: nat, x: nat)
    ensures var lt := y * vertX + x;
            CellAt(vertX, y, x) == [lt, lt + vertX, lt + 1, lt + 1, lt + vertX, lt + vertX + 1]
  {
    MulSucc(vertX, y);
  }

  /** The cell at `(x, y)` is the block of six at `6 * (y * (vertX - 1) + x)`:
      triangle `(lt, lb, rt)` then triangle `(rt, lb, rb)`. */
  lemma Winding(vertX: int, vertY: int, x: nat, y: nat, j: nat)
    requires x < Cells(vertX) && y < Cells(vertY) && j < 6
    ensures var o := 6 * (y * Cells(vertX) + x);
            o + j < |Indices(vertX, vertY)| && Indices(vertX, vertY)[o + j] == CellAt(vertX, y, x)[j]
  {
    PointsAreCells(vertX, vertY);
    RowsAt(Cell(vertX), 6, Cells(vertX), Cells(vertY), y, x, j);
  }

  /** Every index names a vertex of the list. */
  lemma IndicesInRange(vertX: int, vertY: int)
    ensures forall i :: 0 <= i < |Indices(vertX, vertY)| ==> 0 <= Indices(vertX, vertY)[i] < Count(vertX) * Count(vertY)
  {
    var n := Count(vertX) * Count(vertY);
    PointsAreCells(vertX, vertY);
    forall y: nat, x: nat, i | y < Cells(vertY) && x < Cells(vertX) && 0 <= i < |Cell(vertX)(y, x)|
      ensures 0 <= Cell(vertX)(y, x)[i] < n
    {
      CellInRange(vertX, vertY, y, x);
    }
    RowsAll(Cell(vertX), (v: int) => 0 <= v < n, Cells(vertX), Cells(vertY));
  }

  lemma CellInRange(vertX: int, vertY: int, y: nat, x: nat)
    requires y < Cells(vertY) && x < Cells(vertX)
    ensures forall i :: 0 <= i < 6 ==> 0 <= CellAt(vertX, y, x)[i] < Count(vertX) * Count(vertY)
  {
    var w := vertX;
    CellCorners(w, y, x);
    assert (y + 1) * w + x + 1 <= (y + 1) * w + w;
    MulSucc(w, y + 1);
    assert (y + 2) * w <= vertY * w by {
      MulMono(w, y + 2, vertY);
    }
    MulNat(y, w);
  }

  lemma MulMono(a: nat, b: nat, c: nat)
    requires b <= c
    ensures b * a <= c * a
  {
  }
}
