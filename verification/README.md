# Image-to-relief mesh, modelled in Dafny

This project models the core of the image-to-relief converter in `process.py`.
That code turns a grey image into a triangle mesh whose elevation follows the
image's brightness. Two steps are modelled:

1. **Height mapping.** Each 8-bit intensity `v` becomes the height
   `v / 255 * 10`, so black is at 0 and white is at 10 units.
2. **Triangulation.** The height map's cells are visited in row-major order,
   row `y` outer and column `x` inner. A cell is the square between samples
   `(x, y)` and `(x + 1, y + 1)`.
   - Each cell appends four fresh vertices: top-left, top-right, bottom-left,
     bottom-right. A vertex holds its grid coordinates and the sampled height.
   - Each cell appends two triangles, numbered from the vertex count `i`
     before the cell: `[i, i+1, i+2]` and `[i+1, i+3, i+2]`.
   - Neighbouring cells never share vertices.

Files:

- `grid.dfy`: rectangular grids.
- `heights.dfy`: the intensity-to-height mapping.
- `geometry.dfy`: vertices, faces, meshes, normals and the xy-orientation of a
  triangle.
- `arith.dfy`: facts about row-major numbering.
- `relief.dfy`: the triangulation as a recursive definition, row by row and
  cell by cell, with its layout lemmas.
- `relief_loop.dfy`: the nested loops of the source, proved equal to that
  definition.
- `relief_properties.dfy`: whole-mesh properties, namely indexing, winding,
  the shared diagonal and vertex placement.
- `image_relief.dfy`: the composition of both steps on an intensity grid,
  with the 100 x 100 size and two small worked examples.

Heights are exact real numbers. The image is given as an already decoded,
single-channel, resized grid of bytes. Like the numpy array it stands for,
the grid must be rectangular.

A grid with fewer than two rows or fewer than two columns has no cell. The
loops of process.py:15-16 do not run, the mesh is empty and no error is
raised. `TriangulateSize` and `ReliefSize` state this.

## Model

| member | source | states |
|---|---|---|
| Heights.Height | process.py:10 | a height lies in [0, 10]; it is 0 exactly for black (0) and 10 exactly for white (255) |
| Heights.HeightMonotone | process.py:10 | the mapping preserves and reflects order: u <= v, u < v and u == v each hold exactly when the same relation holds between their heights, so it is monotone and injective |
| Heights.HeightMap | process.py:10 | the height map has the image's shape, is rectangular exactly when the image is, maps every sample by `Height`, and lies in [0, 10] |
| Relief.CellsInRowsProduct | process.py:15-16 | the first y rows hold y * (W - 1) cells |
| Relief.RowOf | process.py:15-16 | a cell number below the count of the first n rows is cell x of some row y < n, with x below the row width and the number equal to the cells of rows before y plus x |
| Relief.AddCellAppends | process.py:17-32 | one loop step keeps the mesh built so far as a prefix and adds exactly 4 vertices and 2 faces; with i the vertex count before the step, new vertex i + j stands at (x + j % 2, y + j / 2) with the height sampled there, and the new faces are [i, i+1, i+2] and [i+1, i+3, i+2] |
| Relief.AddRow | process.py:16-32 | appending x cells of a row adds 4x vertices and 2x faces |
| Relief.BuildRows | process.py:15-32 | the first y rows give 4 and 2 vertices and faces per cell of those rows |
| Relief.Triangulate | process.py:15-32 | the mesh has four vertices and two faces per cell of the grid |
| Relief.TriangulateSize | process.py:15-16 | an H x W grid has (H - 1)(W - 1) cells, so 4(H - 1)(W - 1) vertices and 2(H - 1)(W - 1) faces; the mesh is empty exactly when H <= 1 or W <= 1 |
| Relief.AddRowExtends | process.py:22-32 | appending cells only extends the vertex and face lists; what was built before stays a prefix |
| Relief.RowLayout | process.py:16-32 | appended to a mesh of k cells, cell x of row y becomes cell number k + x |
| Relief.BuildLayout | process.py:15-32 | within the first rows, cell (y, x) is cell number (cells of rows before y) + x, and stays there as later rows are added |
| Relief.CellAtIndices | process.py:22-32 | a cell numbered c occupies vertices 4c..4c+3, vertex 4c+j being corner (x + j % 2, y + j / 2) with the height sampled there, and faces 2c = [4c, 4c+1, 4c+2] and 2c+1 = [4c+1, 4c+3, 4c+2] |
| Relief.CellLayout | process.py:15-32 | in the whole mesh, cell (y, x) is number c = y * (W - 1) + x, with the vertex and face layout above |
| ReliefLoop.TriangulateLoop | process.py:12-32 | the nested loops of the source build exactly the mesh of `Relief.Triangulate` |
| ReliefProperties.CellNumbered | process.py:15-16 | cell number c is grid cell (c / (W - 1), c % (W - 1)), which lies inside the grid |
| ReliefProperties.CellOf | process.py:15-16 | every cell number c below the cell count is cell x of some row y inside the grid, c = (cells of rows before y) + x, and that cell is placed at number c in the mesh |
| ReliefProperties.CellFaceCorners | process.py:17-32 | the first triangle of a cell is top-left, top-right, bottom-left and the second is top-right, bottom-right, bottom-left; each corner index is in range and names a vertex at that corner's coordinates and height |
| ReliefProperties.TriangulateWellIndexed | process.py:22-32 | every face index is below the vertex count |
| ReliefProperties.VertexOnGrid | process.py:15-28 | every vertex has 0 <= x <= W - 1 and 0 <= y <= H - 1, and its z is the height sampled at (x, y) |
| ReliefProperties.FacesUseOwnCell | process.py:22-32 | face k only uses vertices 4(k/2)..4(k/2)+3, so faces of different cells share no vertex |
| ReliefProperties.SharedDiagonal | process.py:29-32 | the two triangles of cell c share exactly the vertices 4c+1 and 4c+2, the top-right to bottom-left diagonal |
| ReliefProperties.EveryVertexUsed | process.py:22-32 | every vertex is a corner of some face |
| ReliefProperties.UniformWinding | process.py:23-32 | every triangle, projected onto the xy-plane, runs counter-clockwise with doubled signed area +1, so its normal points up (+z) whatever the heights |
| ReliefProperties.FlatNormals | process.py:17-32 | on a height map of one height h, every vertex is at height h and every face normal is (0, 0, 1) |
| ReliefProperties.FlatFaceNormal | process.py:23-32 | on a height map of one height, the normal of any single face is (0, 0, 1) |
| ReliefProperties.ZWithin | process.py:17-28 | if every sample lies in [lo, hi], so does every vertex's height |
| ImageRelief.ImageToRelief | process.py:10-32 | the relief of an image refers only to existing vertices and has twice as many vertices as faces |
| ImageRelief.ReliefHeights | process.py:10-28 | every vertex stands on a pixel of the image, at that pixel's height, which lies in [0, 10] |
| ImageRelief.ReliefSize | process.py:10-32 | an H x W image gives 4(H - 1)(W - 1) vertices and 2(H - 1)(W - 1) faces; it gives the empty mesh exactly when H <= 1 or W <= 1 |
| ImageRelief.ResizedReliefSize | process.py:7-32 | the 100 x 100 resized image gives 39204 vertices and 19602 faces |
| ImageRelief.BlackSquare | process.py:10-32 | a black 2 x 2 image gives one flat cell: four vertices at height 0 and the faces [0, 1, 2], [1, 3, 2] |
| ImageRelief.WhiteCentre | process.py:10-32 | a 3 x 3 black image with a white centre gives 16 vertices and 8 faces, and a vertex stands at height 10 exactly when it is at the centre pixel (1, 1) |

## Left out

- Image decoding, grey-scale conversion and resizing (process.py:6-8) are left out, because they are done by an imaging library. The model starts from the decoded grid of bytes. The fixed side of 100 appears only as `ResizedSide` in `ResizedReliefSize`.
- Building the mesh object and exporting it (process.py:34-35) are left out, because they are done by a mesh library. The model ends with the vertex and face lists that the code passes to that library. Any post-processing the library applies, such as merging coincident vertices, is not modelled.
- The console message (process.py:36) is left out, because it is output only.
- Heights.Height: the height is computed exactly on reals. The floating-point rounding of dividing by 255.0 and multiplying by 10.0 is not modelled. Only the exact value is bounded, and only it is shown monotone.
- The camera capture (camera.py), the 3D model viewer and model listing (visor.py) and the application shell (main.py) are not part of this model. They are external collaborators of the conversion.
- Errors raised while decoding (process.py:6) or exporting (process.py:34-35) are left out with those steps.
