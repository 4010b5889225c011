/** The relief of a grey image: intensities become heights, and the height map
    is triangulated cell by cell. The image arrives already decoded to one
    8-bit channel and resized. */
module ImageRelief {
  import opened Grid
  import opened Heights
  import opened Geometry
  import opened Relief
  import opened ReliefProperties

  /** Side of the square the image is resized to before triangulation. */
  const ResizedSide: nat := 100

  /** The relief mesh of a rectangular intensity grid. */
  function ImageToRelief(g: seq<seq<Byte>>): (m: Mesh)
    requires Rectangular(g)
    ensures WellIndexed(m)
    ensures |m.vertices| == 2 * |m.faces|
  {
    TriangulateWellIndexed(HeightMap(g));
    Triangulate(HeightMap(g))
  }

  /** Every vertex stands on a pixel of the image, at the height of that
      pixel's intensity, so between 0 and `MaxRelief`. */
  lemma ReliefHeights(g: seq<seq<Byte>>)
    requires Rectangular(g)
    ensures var m := ImageToRelief(g);
            forall v :: 0 <= v < |m.vertices| ==>
              && 0 <= m.vertices[v].x < Cols(g) && 0 <= m.vertices[v].y < |g|
              && m.vertices[v].z == Height(g[m.vertices[v].y][m.vertices[v].x])
              && 0.0 <= m.vertices[v].z <= MaxRelief
  {
    var hm := HeightMap(g);
    var m := ImageToRelief(g);
    forall v | 0 <= v < |m.vertices|
      ensures && 0 <= m.vertices[v].x < Cols(g) && 0 <= m.vertices[v].y < |g|
              && m.vertices[v].z == Height(g[m.vertices[v].y][m.vertices[v].x])
    {
      VertexOnGrid(hm, v);
    }
  }

  /** An H x W image gives 4 (H - 1)(W - 1) vertices and 2 (H - 1)(W - 1)
      faces; one with fewer than two rows or columns gives the empty mesh. */
  lemma ReliefSize(g: seq<seq<Byte>>)
    requires Rectangular(g)
    ensures var m := ImageToRelief(g);
            |g| >= 1 && Cols(g) >= 1 ==>
              |m.vertices| == 4 * (|g| - 1) * (Cols(g) - 1) &&
              |m.faces| == 2 * (|g| - 1) * (Cols(g) - 1)
    ensures var m := ImageToRelief(g);
            |g| <= 1 || Cols(g) <= 1 <==> m.vertices == [] && m.faces == []
  {
    TriangulateSize(HeightMap(g));
  }

  /** The resized 100 x 100 image gives 39204 vertices and 19602 faces. */
  lemma ResizedReliefSize(g: seq<seq<Byte>>)
    requires Rectangular(g) && |g| == ResizedSide && Cols(g) == ResizedSide
    ensures |ImageToRelief(g).vertices| == 39204 && |ImageToRelief(g).faces| == 19602
  {
    ReliefSize(g);
  }

  /** A black 2 x 2 image is a single flat cell at height 0. */
  lemma BlackSquare()
    ensures ImageToRelief([[0, 0], [0, 0]]) ==
            Mesh([Vertex(0, 0, 0.0), Vertex(1, 0, 0.0), Vertex(0, 1, 0.0), Vertex(1, 1, 0.0)],
                 [Face(0, 1, 2), Face(1, 3, 2)])
  {
  }

  /** A 3 x 3 black image with a white centre: four cells, and each of their
      copies of the centre pixel stands at the full height. */
  lemma WhiteCentre()
    ensures var m := ImageToRelief([[0, 0, 0], [0, 255, 0], [0, 0, 0]]);
            && |m.vertices| == 16 && |m.faces| == 8
            && forall v :: 0 <= v < 16 ==>
                 (m.vertices[v].z == MaxRelief <==> m.vertices[v].x == 1 && m.vertices[v].y == 1)
  {
  }
}
