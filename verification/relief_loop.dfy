/** The triangulation as the nested loops that build it: rows `y` outer,
    columns `x` inner, each step appending one cell's vertices and faces. */
module ReliefLoop {
  import opened Grid
  import opened Geometry
  import opened Relief

  method TriangulateLoop(hm: seq<seq<real>>) returns (vertices: seq<Vertex>, faces: seq<Face>)
    requires Rectangular(hm)
    ensures Mesh(vertices, faces) == Triangulate(hm)
  {
    vertices := [];
    faces := [];
    var rows := |hm| - 1;
    var cols := Cols(hm) - 1;
    var y := 0;
    while y < rows
      invariant 0 <= y <= CellRows(hm)
      invariant Mesh(vertices, faces) == BuildRows(hm, y)
    {
      var x := 0;
      while x < cols
        invariant 0 <= x <= CellCols(hm)
        invariant Mesh(vertices, faces) == AddRow(BuildRows(hm, y), hm, y, x)
      {
        var z1 := hm[y][x];
        var z2 := hm[y][x + 1];
        var z3 := hm[y + 1][x];
        var z4 := hm[y + 1][x + 1];
        var i := |vertices|;
        vertices := vertices + [Vertex(x, y, z1), Vertex(x + 1, y, z2),
                                Vertex(x, y + 1, z3), Vertex(x + 1, y + 1, z4)];
        faces := faces + [Face(i, i + 1, i + 2), Face(i + 1, i + 3, i + 2)];
        x := x + 1;
      }
      y := y + 1;
    }
  }
}
