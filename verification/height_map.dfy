/** `HeightMap.createMesh`: a terrain of `2 * radius` by `2 * radius` grid
    points. Every point is stored twice in the vertex list, so that the two
    triangles of a cell can use different copies; `calcNormals` gives every
    point a normal, once per copy. */
module HeightMap {
  import opened Grid

  /** A float of the position list, by what it is computed from:
      `START_X + x * xStep`, the noise height of the point after the edge
      attenuation, and `START_Z + z * zStep`. */
  datatype Coord = Across(x: nat) | Height(x: nat, z: nat) | Along(z: nat)

  /** A colour float: 0 as allocated, or `level / 255f` plus the random
      brightness drawn for triple `draw`. */
  datatype Shade = Blank | Tinted(level: nat, draw: nat)

  /** A normal float: the flat normal `(0, 1, 0)` at the border, or the
      averaged surface normal of an inner point, one float per axis. */
  datatype NormalFloat = Zero | One | Surface(row: nat, col: nat, axis: nat)

  /** The terrain colour `new Color(235, 192, 149)`, one level per channel. */
  const Sand: seq<nat> := [235, 192, 149]

  /** Grid points along a side: `radius * 2`. */
  function Side(radius: int): nat {
    Count(radius * 2)
  }

  /** Cells along a side: `radius * 2 - 1`. */
  function CellSide(radius: int): nat {
    Count(radius * 2 - 1)
  }

  /** The six floats the position loop appends for point `(x, z)`: its
      coordinates twice. */
  function PointAt(z: nat, x: nat): seq<Coord> {
    [Across(x), Height(x, z), Along(z), Across(x), Height(x, z), Along(z)]
  }

  /** The six indices of the cell whose left top corner is `(x, z)`, with
      its corners computed as the index loop computes them: the first
      triangle uses the even copies, the second the odd ones. */
  function CellAt(radius: nat, z: nat, x: nat): seq<int> {
    var leftTop := z * radius * 2 + x;
    var leftBottom := (z + 1) * radius * 2 + x;
    var rightBottom := (z + 1) * radius * 2 + x + 1;
    var rightTop := z * radius * 2 + x + 1;
    [2 * leftTop, 2 * leftBottom, 2 * rightTop, 2 * rightTop + 1, 2 * leftBottom + 1, 2 * rightBottom + 1]
  }

  function Cell(radius: int): (nat, nat) -> seq<int> {
    (z: nat, x: nat) => CellAt(Count(radius), z, x)
  }

  function Tint(m: nat, c: nat): Shade {
    if c < 3 then Tinted(Sand[c], m) else Blank
  }

  /** The normal of grid point `(col, row)`, appended once per copy. */
  function NormalAt(width: int, height: int): (nat, nat) -> seq<NormalFloat> {
    (row: nat, col: nat) =>
      var n := if 0 < row < height - 1 && 0 < col < width - 1 then [Surface(row, col, 0), Surface(row, col, 1), Surface(row, col, 2)]
               else [Zero, One, Zero];
      n + n
  }

  /** The position list. */
  function Positions(radius: int): seq<Coord> {
    Rows(PointAt, Side(radius), Side(radius))
  }

  /** The index list. */
  function Indices(radius: int): seq<int> {
    Rows(Cell(radius), CellSide(radius), CellSide(radius))
  }

  /** The normal list of `calcNormals(posArr, width, height)`. */
  function Normals(width: int, height: int): seq<NormalFloat> {
    Rows(NormalAt(width, height), Count(width), Count(height))
  }

  /** `createMesh`: the position loop, the index loop, the colour loop and
      `calcNormals` over a square of `radius * 2` points a side. The random
      brightness of triple `m` is the `m`-th draw. */
  method CreateMesh(radius: int) returns (positions: seq<Coord>, indices: seq<int>, colors: seq<Shade>, normals: seq<NormalFloat>)
    ensures positions == Positions(radius) && indices == Indices(radius) && normals == Normals(radius * 2, radius * 2)
    ensures |positions| == 6 * Side(radius) * Side(radius) && |indices| == 6 * CellSide(radius) * CellSide(radius)
    ensures |normals| == |positions|
    ensures |colors| == |positions| && forall j :: 0 <= j < |colors| ==> colors[j] == Tinted(Sand[j % 3], j / 3)
  {
    positions := AppendRows(PointAt, radius * 2, radius * 2);
    indices := AppendRows(Cell(radius), radius * 2 - 1, radius * 2 - 1);
    PositionCount(radius);
    IndexCount(radius);
    colors := FillTriples(|positions|, Blank, Tint);
    normals := CalcNormals(radius * 2, radius * 2);
  }

  /** The loops of `calcNormals`. */
  method CalcNormals(width: int, height: int) returns (normals: seq<NormalFloat>)
    ensures normals == Normals(width, height)
    ensures |normals| == 6 * Count(width) * Count(height)
  {
    normals := AppendRows(NormalAt(width, height), width, height);
    NormalCount(width, height);
  }

  /** Six floats per grid point. */
  lemma PositionCount(radius: int)
    ensures |Positions(radius)| == 6 * Side(radius) * Side(radius)
    ensures |Positions(radius)| % 3 == 0
  {
    var s := Side(radius);
    RowsLength(PointAt, 6, s, s);
  }

  /** Point `(x, z)` is stored twice, at `6 * (z * side + x)`: both copies
      hold its coordinates. */
  lemma PointCopies(radius: int, z: nat, x: nat, j: nat)
    requires z < Side(radius) && x < Side(radius) && j < 3
    ensures var o := 6 * (z * Side(radius) + x);
            o + 3 + j < |Positions(radius)|
            && Positions(radius)[o + j] == Positions(radius)[o + 3 + j] == [Across(x), Height(x, z), Along(z)][j]
  {
    var w := Side(radius);
    RowsAt(PointAt, 6, w, w, z, x, j);
    RowsAt(PointAt, 6, w, w, z, x, j + 3);
  }

  /** Six indices per cell, over `(2r - 1)^2` cells. */
  lemma IndexCount(radius: int)
    ensures |Indices(radius)| == 6 * CellSide(radius) * CellSide(radius)
  {
    RowsLength(Cell(radius), 6, CellSide(radius), CellSide(radius));
  }

  /** The corners of a cell: right top is right of left top, left bottom one
      row of `2r` points below it, right bottom right of left bottom; the
      first triangle takes the even copies, the second the odd ones. */
  lemma CellCorners(radius: nat, z: nat, x: nat)
    ensures var lt := z * (2 * radius) + x;
            var lb := lt + 2 * radius;
            CellAt(radius, z, x) == [2 * lt, 2 * lb, 2 * (lt + 1), 2 * (lt + 1) + 1, 2 * lb + 1, 2 * (lb + 1) + 1]
  {
    assert z * radius * 2 == z * (2 * radius);
    assert (z + 1) * radius * 2 == z * (2 * radius) + 2 * radius;
  }

  /** The cell at `(x, z)` is the block of six at `6 * (z * (2r - 1) + x)`. */
  lemma Winding(radius: int, z: nat, x: nat, j: nat)
    requires z < CellSide(radius) && x < CellSide(radius) && j < 6
    ensures var o := 6 * (z * CellSide(radius) + x);
            o + j < |Indices(radius)| && Indices(radius)[o + j] == CellAt(Count(radius), z, x)[j]
  {
    RowsAt(Cell(radius), 6, CellSide(radius), CellSide(radius), z, x, j);
  }

  /** Every index names one of the `2 * (2r)^2` vertices of the duplicated
      list. */
  lemma IndicesInRange(radius: int)
    ensures forall i :: 0 <= i < |Indices(radius)| ==> 0 <= Indices(radius)[i] < 2 * Side(radius) * Side(radius)
  {
    var n := 2 * Side(radius) * Side(radius);
    forall z: nat, x: nat, i | z < CellSide(radius) && x < CellSide(radius) && 0 <= i < |Cell(radius)(z, x)|
      ensures 0 <= Cell(radius)(z, x)[i] < n
    {
      CellInRange(radius, z, x);
    }
    RowsAll(Cell(radius), (v: int) => 0 <= v < n, CellSide(radius), CellSide(radius));
  }

  lemma CellInRange(radius: int, z: nat, x: nat)
    requires z < CellSide(radius) && x < CellSide(radius)
    ensures forall i :: 0 <= i < 6 ==> 0 <= CellAt(Count(radius), z, x)[i] < 2 * Side(radius) * Side(radius)
  {
    var r: nat := radius;
    var w := 2 * r;
    CellCorners(r, z, x);
    MulSucc(w, z);
    MulNat(z, w);
    CornerBound(w, z, x);
  }

  /** The right bottom corner's odd copy, the largest index of a cell, is
      below `2 * w * w`. */
  lemma CornerBound(w: nat, z: nat, x: nat)
    requires z + 1 < w && x + 1 < w
    ensures 2 * (w * (z + 1) + x + 1) + 1 < 2 * w * w
  {
    MulSucc(w, z + 1);
    MulMonoRight(w, z + 2, w);
    assert w * (z + 2) <= w * w;
  }

  lemma MulMonoRight(a: nat, b: nat, c: nat)
    requires b <= c
    ensures a * b <= a * c
  {
  }

  /** Six normal floats per grid point. */
  lemma NormalCount(width: int, height: int)
    ensures |Normals(width, height)| == 6 * Count(width) * Count(height)
  {
    RowsLength(NormalAt(width, height), 6, Count(width), Count(height));
  }

  /** Both copies of a border point get the normal `(0, 1, 0)`; both copies
      of an inner point get its surface normal. */
  lemma NormalFloats(width: int, height: int, row: nat, col: nat, j: nat)
    requires row < height && col < width && j < 6
    ensures var o := 6 * (row * Count(width) + col);
            o + j < |Normals(width, height)|
            && Normals(width, height)[o + j]
               == if 0 < row < height - 1 && 0 < col < width - 1 then Surface(row, col, j % 3) else [Zero, One, Zero][j % 3]
  {
    RowsAt(NormalAt(width, height), 6, Count(width), Count(height), row, col, j);
  }

  /** The three position floats `calcNormals` reads for point `(col, row)`,
      at `2 * i` with `i = row * width * 3 + col * 3`, exist and are that
      point's coordinates. */
  ghost predicate ReadsPoint(pos: seq<Coord>, width: nat, row: nat, col: nat) {
    var i := row * width * 3 + col * 3;
    2 * i + 2 < |pos| && pos[2 * i] == Across(col) && pos[2 * i + 1] == Height(col, row) && pos[2 * i + 2] == Along(row)
  }

  lemma PointRead(radius: int, row: nat, col: nat)
    requires row < Side(radius) && col < Side(radius)
    ensures ReadsPoint(Positions(radius), Side(radius), row, col)
  {
    var w := Side(radius);
    assert 2 * (row * w * 3 + col * 3) == 6 * (row * w + col);
    PointCopies(radius, row, col, 0);
    PointCopies(radius, row, col, 1);
    PointCopies(radius, row, col, 2);
  }

  /** For an inner point of the terrain, `calcNormals` reads the positions
      of the point and of its left, lower, right and upper neighbours, all
      inside the position array. */
  lemma NormalReads(radius: int, row: nat, col: nat)
    requires 0 < row < Side(radius) - 1 && 0 < col < Side(radius) - 1
    ensures var pos, w := Positions(radius), Side(radius);
            ReadsPoint(pos, w, row, col) && ReadsPoint(pos, w, row, col - 1) && ReadsPoint(pos, w, row + 1, col)
            && ReadsPoint(pos, w, row, col + 1) && ReadsPoint(pos, w, row - 1, col)
  {
    PointRead(radius, row, col);
    PointRead(radius, row, col - 1);
    PointRead(radius, row + 1, col);
    PointRead(radius, row, col + 1);
    PointRead(radius, row - 1, col);
  }
}
