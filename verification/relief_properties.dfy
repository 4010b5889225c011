/** Properties of the whole relief mesh: where each cell sits, how faces use
    vertices, the winding of the triangles, and where the vertices lie. */
module ReliefProperties {
  import opened Grid
  import opened Geometry
  import opened RowMajorArith
  import opened Relief

  /** Cell number `c` of the mesh is cell (c / (W - 1), c % (W - 1)) of a grid
      of W columns: numbering is row-major. */
  lemma CellNumbered(hm: seq<seq<real>>, c: nat)
    requires Rectangular(hm) && c < CellCount(hm)
    ensures CellCols(hm) > 0
    ensures var y, x := c / CellCols(hm), c % CellCols(hm);
            && y < CellRows(hm) && x < CellCols(hm)
            && CellAt(Triangulate(hm), hm, c, y, x)
  {
    var y, x := CellOf(hm, c);
    CellsInRowsProduct(hm, y);
    DivModUnique(c, CellCols(hm), y, x);
  }

  /** Cell number `c` as a grid cell (y, x), for proofs that need the cell
      but not its row-major arithmetic. */
  lemma CellOf(hm: seq<seq<real>>, c: nat) returns (y: nat, x: nat)
    requires Rectangular(hm) && c < CellCount(hm)
    ensures y < CellRows(hm) && x < CellCols(hm) && c == CellsInRows(hm, y) + x
    ensures CellAt(Triangulate(hm), hm, c, y, x)
  {
    y, x := RowOf(hm, CellRows(hm), c);
    BuildLayout(hm, CellRows(hm), y, x);
  }
  /** Face k of a mesh holding cell (y, x) as cell number c = k / 2. */
  lemma CellFaceCorners(m: Mesh, hm: seq<seq<real>>, c: nat, y: nat, x: nat, k: nat)
    requires Rectangular(hm) && y < CellRows(hm) && x < CellCols(hm)
    requires CellAt(m, hm, c, y, x) && (k == 2 * c || k == 2 * c + 1)
    ensures var f := m.faces[k];
            && k < |m.faces| && y + 1 < |hm| && x + 1 < Cols(hm)
            && f.i0 < |m.vertices| && f.i1 < |m.vertices| && f.i2 < |m.vertices|
            && (k == 2 * c ==>
                  && f == Face(4 * c, 4 * c + 1, 4 * c + 2)
                  && m.vertices[f.i0] == Vertex(x, y, hm[y][x])
                  && m.vertices[f.i1] == Vertex(x + 1, y, hm[y][x + 1])
                  && m.vertices[f.i2] == Vertex(x, y + 1, hm[y + 1][x]))
            && (k == 2 * c + 1 ==>
                  && f == Face(4 * c + 1, 4 * c + 3, 4 * c + 2)
                  && m.vertices[f.i0] == Vertex(x + 1, y, hm[y][x + 1])
                  && m.vertices[f.i1] == Vertex(x + 1, y + 1, hm[y + 1][x + 1])
                  && m.vertices[f.i2] == Vertex(x, y + 1, hm[y + 1][x]))
  {
    CellAtIndices(m, hm, c, y, x);
  }

  /** Every face refers only to existing vertices. */
  lemma TriangulateWellIndexed(hm: seq<seq<real>>)
    requires Rectangular(hm)
    ensures WellIndexed(Triangulate(hm))
  {
    var m := Triangulate(hm);
    forall k | 0 <= k < |m.faces|
      ensures m.faces[k].i0 < |m.vertices| && m.faces[k].i1 < |m.vertices| && m.faces[k].i2 < |m.vertices|
    {
      var y, x := CellOf(hm, k / 2);
      CellFaceCorners(m, hm, k / 2, y, x, k);
    }
  }

  /** Every vertex lies on the grid, at x in [0, W - 1] and y in [0, H - 1],
      and carries the height sampled there. */
  lemma VertexOnGrid(hm: seq<seq<real>>, v: nat)
    requires Rectangular(hm) && v < |Triangulate(hm).vertices|
    ensures var p := Triangulate(hm).vertices[v];
            && 0 <= p.x < Cols(hm) && 0 <= p.y < |hm|
            && p.z == hm[p.y][p.x]
  {
    var m := Triangulate(hm);
    var c, j := v / 4, v % 4;
    assert v == 4 * c + j && c < CellCount(hm);
    var y, x := CellOf(hm, c);
    CellAtIndices(m, hm, c, y, x);
    assert m.vertices[v] == m.vertices[4 * c + j];
  }

  /** Vertices are not shared between cells: every index of face k lies in the
      block 4c..4c+3 of its own cell c = k / 2, so faces of different cells
      have no vertex in common. */
  lemma FacesUseOwnCell(hm: seq<seq<real>>)
    requires Rectangular(hm)
    ensures var m := Triangulate(hm);
            forall k, i :: 0 <= k < |m.faces| && i in Corners(m.faces[k]) ==>
              4 * (k / 2) <= i < 4 * (k / 2) + 4
    ensures var m := Triangulate(hm);
            forall k, k' :: 0 <= k < |m.faces| && 0 <= k' < |m.faces| && k / 2 != k' / 2 ==>
              Corners(m.faces[k]) * Corners(m.faces[k']) == {}
  {
    var m := Triangulate(hm);
    forall k | 0 <= k < |m.faces|
      ensures forall i :: i in Corners(m.faces[k]) ==> 4 * (k / 2) <= i < 4 * (k / 2) + 4
    {
      var y, x := CellOf(hm, k / 2);
      CellFaceCorners(m, hm, k / 2, y, x, k);
    }
  }

  /** The two triangles of a cell meet exactly along the diagonal from the
      top-right corner 4c+1 to the bottom-left corner 4c+2. */
  lemma SharedDiagonal(hm: seq<seq<real>>, c: nat)
    requires Rectangular(hm) && c < CellCount(hm)
    ensures var m := Triangulate(hm);
            2 * c + 1 < |m.faces| &&
            Corners(m.faces[2 * c]) * Corners(m.faces[2 * c + 1]) == {4 * c + 1, 4 * c + 2}
  {
    var y, x := CellOf(hm, c);
    CellAtIndices(Triangulate(hm), hm, c, y, x);
  }

  /** Vertex `v` is a corner of some face of `m`. */
  predicate Used(m: Mesh, v: nat) {
    exists k :: 0 <= k < |m.faces| && v in Corners(m.faces[k])
  }

  /** No vertex is left over: every vertex is a corner of some face. */
  lemma EveryVertexUsed(hm: seq<seq<real>>)
    requires Rectangular(hm)
    ensures var m := Triangulate(hm);
            forall v :: 0 <= v < |m.vertices| ==> Used(m, v)
  {
    var m := Triangulate(hm);
    forall v | 0 <= v < |m.vertices|
      ensures Used(m, v)
    {
      var c := v / 4;
      assert c < CellCount(hm);
      var y, x := CellOf(hm, c);
      CellAtIndices(m, hm, c, y, x);
      if v % 4 == 3 {
        assert v in Corners(m.faces[2 * c + 1]);
      } else {
        assert v in Corners(m.faces[2 * c]);
      }
    }
  }

  /** Every triangle winds the same way: its projection onto the xy-plane is
      counter-clockwise with doubled signed area +1, so its normal points up
      (+z) whatever the heights. */
  lemma UniformWinding(hm: seq<seq<real>>)
    requires Rectangular(hm)
    ensures var m := Triangulate(hm);
            forall k :: 0 <= k < |m.faces| ==>
              && m.faces[k].i0 < |m.vertices| && m.faces[k].i1 < |m.vertices| && m.faces[k].i2 < |m.vertices|
              && Orientation(m.vertices[m.faces[k].i0], m.vertices[m.faces[k].i1], m.vertices[m.faces[k].i2]) == 1
              && Normal(m.vertices[m.faces[k].i0], m.vertices[m.faces[k].i1], m.vertices[m.faces[k].i2]).z == 1.0
  {
    var m := Triangulate(hm);
    forall k | 0 <= k < |m.faces|
      ensures && m.faces[k].i0 < |m.vertices| && m.faces[k].i1 < |m.vertices| && m.faces[k].i2 < |m.vertices|
              && Orientation(m.vertices[m.faces[k].i0], m.vertices[m.faces[k].i1], m.vertices[m.faces[k].i2]) == 1
              && Normal(m.vertices[m.faces[k].i0], m.vertices[m.faces[k].i1], m.vertices[m.faces[k].i2]).z == 1.0
    {
      var y, x := CellOf(hm, k / 2);
      CellFaceCorners(m, hm, k / 2, y, x, k);
      var f := m.faces[k];
      NormalUpIffCounterClockwise(m.vertices[f.i0], m.vertices[f.i1], m.vertices[f.i2]);
    }
  }

  /** A height map with one height everywhere. */
  predicate Flat(hm: seq<seq<real>>, h: real) {
    forall i, j :: 0 <= i < |hm| && 0 <= j < |hm[i]| ==> hm[i][j] == h
  }

  /** A flat height map gives a flat mesh: every vertex is at that height and
      every face normal is the unit vector along +z. */
  lemma FlatNormals(hm: seq<seq<real>>, h: real)
    requires Rectangular(hm) && Flat(hm, h)
    ensures var m := Triangulate(hm);
            && (forall v :: 0 <= v < |m.vertices| ==> m.vertices[v].z == h)
            && forall k :: 0 <= k < |m.faces| ==>
                 && m.faces[k].i0 < |m.vertices| && m.faces[k].i1 < |m.vertices| && m.faces[k].i2 < |m.vertices|
                 && Normal(m.vertices[m.faces[k].i0], m.vertices[m.faces[k].i1], m.vertices[m.faces[k].i2]) == Vec(0.0, 0.0, 1.0)
  {
    var m := Triangulate(hm);
    ZWithin(hm, h, h);
    forall k | 0 <= k < |m.faces|
      ensures && m.faces[k].i0 < |m.vertices| && m.faces[k].i1 < |m.vertices| && m.faces[k].i2 < |m.vertices|
              && Normal(m.vertices[m.faces[k].i0], m.vertices[m.faces[k].i1], m.vertices[m.faces[k].i2]) == Vec(0.0, 0.0, 1.0)
    {
      FlatFaceNormal(hm, h, k);
    }
  }

  /** The normal of one face of a flat mesh is the unit vector along +z. */
  lemma FlatFaceNormal(hm: seq<seq<real>>, h: real, k: nat)
    requires Rectangular(hm) && Flat(hm, h) && k < |Triangulate(hm).faces|
    ensures var m := Triangulate(hm);
            && m.faces[k].i0 < |m.vertices| && m.faces[k].i1 < |m.vertices| && m.faces[k].i2 < |m.vertices|
            && Normal(m.vertices[m.faces[k].i0], m.vertices[m.faces[k].i1], m.vertices[m.faces[k].i2]) == Vec(0.0, 0.0, 1.0)
  {
    var m := Triangulate(hm);
    var y, x := CellOf(hm, k / 2);
    CellFaceCorners(m, hm, k / 2, y, x, k);
    var f := m.faces[k];
    var p, q, r := m.vertices[f.i0], m.vertices[f.i1], m.vertices[f.i2];
    assert p.z == h && q.z == h && r.z == h;
    if k == 2 * (k / 2) {
      assert Sub(q, p) == Vec(1.0, 0.0, 0.0) && Sub(r, p) == Vec(0.0, 1.0, 0.0);
    } else {
      assert Sub(q, p) == Vec(0.0, 1.0, 0.0) && Sub(r, p) == Vec(-1.0, 1.0, 0.0);
    }
  }

  /** Heights are copied, never invented: if every sample lies in [lo, hi], so
      does every vertex's z. */
  lemma ZWithin(hm: seq<seq<real>>, lo: real, hi: real)
    requires Rectangular(hm)
    requires forall i, j :: 0 <= i < |hm| && 0 <= j < |hm[i]| ==> lo <= hm[i][j] <= hi
    ensures var m := Triangulate(hm);
            forall v :: 0 <= v < |m.vertices| ==> lo <= m.vertices[v].z <= hi
  {
    var m := Triangulate(hm);
    forall v | 0 <= v < |m.vertices|
      ensures lo <= m.vertices[v].z <= hi
    {
      VertexOnGrid(hm, v);
    }
  }
}
