/** Triangle meshes as the relief builder produces them: a list of vertices and
    a list of faces that refer to vertices by zero-based position. */
module Geometry {

  /** A mesh vertex: integer grid coordinates `x`, `y` and an elevation `z`. */
  datatype Vertex = Vertex(x: int, y: int, z: real)

  /** A triangle, given by the indices of its three corners in winding order. */
  datatype Face = Face(i0: nat, i1: nat, i2: nat)

  datatype Mesh = Mesh(vertices: seq<Vertex>, faces: seq<Face>)

  /** The set of vertex indices a face refers to. */
  function Corners(f: Face): set<nat> {
    {f.i0, f.i1, f.i2}
  }

  /** Every face refers only to existing vertices. */
  predicate WellIndexed(m: Mesh) {
    forall k :: 0 <= k < |m.faces| ==>
      m.faces[k].i0 < |m.vertices| && m.faces[k].i1 < |m.vertices| && m.faces[k].i2 < |m.vertices|
  }

  /** A vector in space, with real components. */
  datatype Vec = Vec(x: real, y: real, z: real)

  function Sub(p: Vertex, q: Vertex): Vec {
    Vec((p.x - q.x) as real, (p.y - q.y) as real, p.z - q.z)
  }

  function Cross(u: Vec, v: Vec): Vec {
    Vec(u.y * v.z - u.z * v.y, u.z * v.x - u.x * v.z, u.x * v.y - u.y * v.x)
  }

  /** The (unnormalised) normal of triangle p, q, r by the right-hand rule. */
  function Normal(p: Vertex, q: Vertex, r: Vertex): Vec {
    Cross(Sub(q, p), Sub(r, p))
  }

  /** Twice the signed area of the triangle's projection onto the xy-plane:
      positive when p, q, r run counter-clockwise seen from above (+z). */
  function Orientation(p: Vertex, q: Vertex, r: Vertex): int {
    (q.x - p.x) * (r.y - p.y) - (q.y - p.y) * (r.x - p.x)
  }

  /** The z-component of the normal is the projected orientation, so a
      counter-clockwise projection means a normal pointing up. */
  lemma NormalUpIffCounterClockwise(p: Vertex, q: Vertex, r: Vertex)
    ensures Normal(p, q, r).z == Orientation(p, q, r) as real
    ensures Normal(p, q, r).z > 0.0 <==> Orientation(p, q, r) > 0
  {
  }
}
