/** Triangulation of a height map into a relief mesh.

    The grid cells are visited in row-major order (row `y` outer, column `x`
    inner). Each cell appends four fresh corner vertices, never shared with a
    neighbouring cell, and two triangles numbered from the vertex count `i`
    before the cell: `[i, i+1, i+2]` and `[i+1, i+3, i+2]`. */
module Relief {
  import opened Grid
  import opened Geometry
  import opened RowMajorArith

  /** Number of cells per row: one fewer than the columns, none for an empty row. */
  function CellCols(hm: seq<seq<real>>): nat {
    if Cols(hm) >= 1 then Cols(hm) - 1 else 0
  }

  /** Number of cell rows: one fewer than the grid rows, none for an empty grid. */
  function CellRows(hm: seq<seq<real>>): nat {
    if |hm| >= 1 then |hm| - 1 else 0
  }

  /** Number of cells in the first `y` rows. */
  function CellsInRows(hm: seq<seq<real>>, y: nat): nat {
    if y == 0 then 0 else CellsInRows(hm, y - 1) + CellCols(hm)
  }

  /** Number of cells of the whole grid. */
  function CellCount(hm: seq<seq<real>>): nat {
    CellsInRows(hm, CellRows(hm))
  }

  lemma {:induction false} CellsInRowsProduct(hm: seq<seq<real>>, y: nat)
    ensures CellsInRows(hm, y) == y * CellCols(hm)
  {
    if y > 0 {
      CellsInRowsProduct(hm, y - 1);
      assert y * CellCols(hm) == (y - 1) * CellCols(hm) + CellCols(hm);
    }
  }

  /** A cell number below the count of the first `n` rows falls in one of
      those rows: it is cell x of row y, counted after the rows before y. */
  lemma {:induction false} RowOf(hm: seq<seq<real>>, n: nat, c: nat) returns (y: nat, x: nat)
    requires c < CellsInRows(hm, n)
    ensures y < n && x < CellCols(hm) && c == CellsInRows(hm, y) + x
  {
    if c < CellsInRows(hm, n - 1) {
      y, x := RowOf(hm, n - 1, c);
    } else {
      y, x := n - 1, c - CellsInRows(hm, n - 1);
    }
  }

  /** The four corners of cell (y, x): top-left, top-right, bottom-left, bottom-right. */
  function CellVertices(hm: seq<seq<real>>, y: nat, x: nat): seq<Vertex>
    requires Rectangular(hm) && y < CellRows(hm) && x < CellCols(hm)
  {
    [Vertex(x, y, hm[y][x]), Vertex(x + 1, y, hm[y][x + 1]),
     Vertex(x, y + 1, hm[y + 1][x]), Vertex(x + 1, y + 1, hm[y + 1][x + 1])]
  }

  /** The two triangles of a cell whose first vertex has index `i`. */
  function CellFaces(i: nat): seq<Face> {
    [Face(i, i + 1, i + 2), Face(i + 1, i + 3, i + 2)]
  }

  /** Appends cell (y, x) to `m`: its four corners, and its two triangles
      numbered from the vertex count before the cell. */
  function AddCell(m: Mesh, hm: seq<seq<real>>, y: nat, x: nat): Mesh
    requires Rectangular(hm) && y < CellRows(hm) && x < CellCols(hm)
  {
    var i := |m.vertices|;
    Mesh(m.vertices + CellVertices(hm, y, x), m.faces + CellFaces(i))
  }

  /** The first `x` cells of row `y`, left to right, appended to `m`. */
  function AddRow(m: Mesh, hm: seq<seq<real>>, y: nat, x: nat): (r: Mesh)
    requires Rectangular(hm) && y < CellRows(hm) && x <= CellCols(hm)
    ensures |r.vertices| == |m.vertices| + 4 * x && |r.faces| == |m.faces| + 2 * x
  {
    if x == 0 then m else AddCell(AddRow(m, hm, y, x - 1), hm, y, x - 1)
  }

  /** All cells of the first `y` rows, in row-major order. */
  function BuildRows(hm: seq<seq<real>>, y: nat): (m: Mesh)
    requires Rectangular(hm) && y <= CellRows(hm)
    ensures |m.vertices| == 4 * CellsInRows(hm, y) && |m.faces| == 2 * CellsInRows(hm, y)
  {
    if y == 0 then Mesh([], [])
    else AddRow(BuildRows(hm, y - 1), hm, y - 1, CellCols(hm))
  }

  /** The relief mesh of a height map: all cells, four vertices and two faces each. */
  function Triangulate(hm: seq<seq<real>>): (m: Mesh)
    requires Rectangular(hm)
    ensures |m.vertices| == 4 * CellCount(hm) && |m.faces| == 2 * CellCount(hm)
  {
    BuildRows(hm, CellRows(hm))
  }

  /** An H x W grid (H, W >= 1) gives 4 (H - 1)(W - 1) vertices and
      2 (H - 1)(W - 1) faces; a grid with fewer than two rows or fewer than
      two columns has no cell and gives the empty mesh, with no error. */
  lemma TriangulateSize(hm: seq<seq<real>>)
    requires Rectangular(hm)
    ensures CellCount(hm) == CellRows(hm) * CellCols(hm)
    ensures var m := Triangulate(hm);
            |hm| >= 1 && Cols(hm) >= 1 ==>
              |m.vertices| == 4 * (|hm| - 1) * (Cols(hm) - 1) &&
              |m.faces| == 2 * (|hm| - 1) * (Cols(hm) - 1)
    ensures var m := Triangulate(hm);
            |hm| <= 1 || Cols(hm) <= 1 <==> m.vertices == [] && m.faces == []
  {
    CellsInRowsProduct(hm, CellRows(hm));
    CountPositive(CellRows(hm), CellCols(hm));
    assert 4 * CellCount(hm) == 4 * CellRows(hm) * CellCols(hm);
    assert 2 * CellCount(hm) == 2 * CellRows(hm) * CellCols(hm);
  }

  /** The four vertices and two faces that cell number `c` occupies in `m`. */
  function Block(m: Mesh, c: nat): (seq<Vertex>, seq<Face>)
    requires 4 * c + 4 <= |m.vertices| && 2 * c + 2 <= |m.faces|
  {
    (m.vertices[4 * c .. 4 * c + 4], m.faces[2 * c .. 2 * c + 2])
  }

  /** Mesh `m` holds cell (y, x) as cell number `c`: its corners are vertices
      4c..4c+3 and its triangles are faces 2c and 2c+1. */
  predicate CellAt(m: Mesh, hm: seq<seq<real>>, c: nat, y: nat, x: nat)
    requires Rectangular(hm) && y < CellRows(hm) && x < CellCols(hm)
  {
    && 4 * c + 4 <= |m.vertices| && 2 * c + 2 <= |m.faces|
    && Block(m, c) == (CellVertices(hm, y, x), CellFaces(4 * c))
  }

  /** `r` extends `m`: it starts with all of m's vertices and faces. */
  predicate Extends(r: Mesh, m: Mesh) {
    m.vertices <= r.vertices && m.faces <= r.faces
  }

  /** One step of the loop, in closed form: the mesh built so far stays a
      prefix; new vertex i + j (i the vertex count before the step) is corner
      (x + j % 2, y + j / 2) of the cell with the height sampled there; and
      the two new faces are [i, i+1, i+2] and [i+1, i+3, i+2]. */
  lemma AddCellAppends(m: Mesh, hm: seq<seq<real>>, y: nat, x: nat)
    requires Rectangular(hm) && y < CellRows(hm) && x < CellCols(hm)
    ensures var r, i := AddCell(m, hm, y, x), |m.vertices|;
            && Extends(r, m)
            && |r.vertices| == i + 4 && |r.faces| == |m.faces| + 2
            && (forall j :: 0 <= j < 4 ==>
                  r.vertices[i + j] == Vertex(x + j % 2, y + j / 2, hm[y + j / 2][x + j % 2]))
            && r.faces[|m.faces|] == Face(i, i + 1, i + 2)
            && r.faces[|m.faces| + 1] == Face(i + 1, i + 3, i + 2)
  {
    var r, i := AddCell(m, hm, y, x), |m.vertices|;
    forall j | 0 <= j < 4
      ensures r.vertices[i + j] == Vertex(x + j % 2, y + j / 2, hm[y + j / 2][x + j % 2])
    {
      assert r.vertices[i + j] == CellVertices(hm, y, x)[j];
    }
  }

  /** Appending cells leaves the mesh built so far untouched. */
  lemma {:induction false} AddRowExtends(m: Mesh, hm: seq<seq<real>>, y: nat, n: nat)
    requires Rectangular(hm) && y < CellRows(hm) && n <= CellCols(hm)
    ensures Extends(AddRow(m, hm, y, n), m)
  {
    if n > 0 {
      AddRowExtends(m, hm, y, n - 1);
    }
  }

  /** A cell already in a mesh stays where it is in every extension. */
  lemma CellAtKept(m: Mesh, r: Mesh, hm: seq<seq<real>>, c: nat, y: nat, x: nat)
    requires Rectangular(hm) && y < CellRows(hm) && x < CellCols(hm)
    requires CellAt(m, hm, c, y, x) && Extends(r, m)
    ensures CellAt(r, hm, c, y, x)
  {
    assert r.vertices[4 * c .. 4 * c + 4] == m.vertices[4 * c .. 4 * c + 4];
    assert r.faces[2 * c .. 2 * c + 2] == m.faces[2 * c .. 2 * c + 2];
  }

  /** Inside row `y`, appended to a mesh of `k` cells, the x-th cell of the
      row is cell number k + x. */
  lemma {:induction false} RowLayout(m: Mesh, k: nat, hm: seq<seq<real>>, y: nat, n: nat, x: nat)
    requires Rectangular(hm) && y < CellRows(hm) && x < n <= CellCols(hm)
    requires |m.vertices| == 4 * k && |m.faces| == 2 * k
    ensures CellAt(AddRow(m, hm, y, n), hm, k + x, y, x)
  {
    var prev := AddRow(m, hm, y, n - 1);
    if x < n - 1 {
      RowLayout(m, k, hm, y, n - 1, x);
      AddRowExtends(prev, hm, y, 1);
      CellAtKept(prev, AddRow(m, hm, y, n), hm, k + x, y, x);
    } else {
      var r := AddRow(m, hm, y, n);
      assert r == AddCell(prev, hm, y, x);
      assert |prev.vertices| == 4 * (k + x) && |prev.faces| == 2 * (k + x);
      assert r.vertices[4 * (k + x) .. 4 * (k + x) + 4] == CellVertices(hm, y, x);
      assert r.faces[2 * (k + x) .. 2 * (k + x) + 2] == CellFaces(4 * (k + x));
    }
  }

  /** A cell of an earlier row keeps its place when row n - 1 is appended. */
  lemma BuildKeepsCell(hm: seq<seq<real>>, n: nat, c: nat, y: nat, x: nat)
    requires Rectangular(hm) && 0 < n <= CellRows(hm) && y < CellRows(hm) && x < CellCols(hm)
    requires CellAt(BuildRows(hm, n - 1), hm, c, y, x)
    ensures CellAt(BuildRows(hm, n), hm, c, y, x)
  {
    var prev := BuildRows(hm, n - 1);
    AddRowExtends(prev, hm, n - 1, CellCols(hm));
    CellAtKept(prev, BuildRows(hm, n), hm, c, y, x);
  }

  /** Within the first `n` rows, cell (y, x) is cell number CellsInRows(y) + x. */
  lemma {:induction false} BuildLayout(hm: seq<seq<real>>, n: nat, y: nat, x: nat)
    requires Rectangular(hm) && y < n <= CellRows(hm) && x < CellCols(hm)
    ensures CellAt(BuildRows(hm, n), hm, CellsInRows(hm, y) + x, y, x)
  {
    if y < n - 1 {
      BuildLayout(hm, n - 1, y, x);
      BuildKeepsCell(hm, n, CellsInRows(hm, y) + x, y, x);
    } else {
      var prev := BuildRows(hm, n - 1);
      assert BuildRows(hm, n) == AddRow(prev, hm, y, CellCols(hm));
      RowLayout(prev, CellsInRows(hm, y), hm, y, CellCols(hm), x);
    }
  }

  /** Cell number `c` read off index by index: corner j (0 top-left, 1
      top-right, 2 bottom-left, 3 bottom-right) is vertex 4c+j. */
  lemma CellAtIndices(m: Mesh, hm: seq<seq<real>>, c: nat, y: nat, x: nat)
    requires Rectangular(hm) && y < CellRows(hm) && x < CellCols(hm)
    requires CellAt(m, hm, c, y, x)
    ensures && 2 * c + 1 < |m.faces| && 4 * c + 3 < |m.vertices|
            && m.faces[2 * c] == Face(4 * c, 4 * c + 1, 4 * c + 2)
            && m.faces[2 * c + 1] == Face(4 * c + 1, 4 * c + 3, 4 * c + 2)
            && (forall j :: 0 <= j < 4 ==>
                  m.vertices[4 * c + j] == Vertex(x + j % 2, y + j / 2, hm[y + j / 2][x + j % 2]))
  {
    var vs := m.vertices[4 * c .. 4 * c + 4];
    assert vs == CellVertices(hm, y, x);
    forall j | 0 <= j < 4
      ensures m.vertices[4 * c + j] == Vertex(x + j % 2, y + j / 2, hm[y + j / 2][x + j % 2])
    {
      assert m.vertices[4 * c + j] == vs[j];
    }
    assert m.faces[2 * c .. 2 * c + 2] == CellFaces(4 * c);
  }

  /** Closed form of the layout of cell (y, x), numbered c = y * (W - 1) + x for
      a grid of W columns: its corners are vertices 4c..4c+3, vertex 4c+j having
      x-coordinate x + j % 2, y-coordinate y + j / 2 and the height sampled
      there, and its triangles are faces 2c = [4c, 4c+1, 4c+2] and
      2c+1 = [4c+1, 4c+3, 4c+2]. */
  lemma CellLayout(hm: seq<seq<real>>, y: nat, x: nat)
    requires Rectangular(hm) && y < CellRows(hm) && x < CellCols(hm)
    ensures var c := y * CellCols(hm) + x;
            var m := Triangulate(hm);
            && 2 * c + 1 < |m.faces| && 4 * c + 3 < |m.vertices|
            && m.faces[2 * c] == Face(4 * c, 4 * c + 1, 4 * c + 2)
            && m.faces[2 * c + 1] == Face(4 * c + 1, 4 * c + 3, 4 * c + 2)
            && (forall j :: 0 <= j < 4 ==>
                  m.vertices[4 * c + j] == Vertex(x + j % 2, y + j / 2, hm[y + j / 2][x + j % 2]))
  {
    var m := Triangulate(hm);
    var c := y * CellCols(hm) + x;
    BuildLayout(hm, CellRows(hm), y, x);
    CellsInRowsProduct(hm, y);
    CellBeforeEnd(y, x, CellRows(hm), CellCols(hm));
    TriangulateSize(hm);
    assert CellsInRows(hm, y) + x == c;
    CellAtIndices(m, hm, c, y, x);
  }
}
