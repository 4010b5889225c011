/** The height mapping of the relief: an 8-bit grey intensity becomes an
    elevation between 0 and `MaxRelief` units, proportional to the intensity. */
module Heights {
  import opened Grid

  /** A grey intensity as produced by a single-channel 8-bit image. */
  type Byte = v: int | 0 <= v < 256

  /** The intensity of white. */
  const MaxIntensity: real := 255.0

  /** The height given to white; black is at height 0. */
  const MaxRelief: real := 10.0

  /** Height of one intensity, computed exactly (no floating-point rounding). */
  function Height(v: Byte): (h: real)
    ensures 0.0 <= h <= MaxRelief
    ensures h == 0.0 <==> v == 0
    ensures h == MaxRelief <==> v == 255
  {
    (v as real) / MaxIntensity * MaxRelief
  }

  /** The mapping preserves and reflects the order of intensities, so it is
      monotone and injective. */
  lemma HeightMonotone(u: Byte, v: Byte)
    ensures u <= v <==> Height(u) <= Height(v)
    ensures u < v <==> Height(u) < Height(v)
    ensures u == v <==> Height(u) == Height(v)
  {
  }

  /** The height map of a whole intensity grid: same shape, each sample mapped
      by `Height`. */
  function HeightMap(g: seq<seq<Byte>>): (hm: seq<seq<real>>)
    ensures |hm| == |g| && forall i :: 0 <= i < |g| ==> |hm[i]| == |g[i]|
    ensures Cols(hm) == Cols(g) && (Rectangular(g) <==> Rectangular(hm))
    ensures forall i, j :: 0 <= i < |g| && 0 <= j < |g[i]| ==> hm[i][j] == Height(g[i][j])
    ensures forall i, j :: 0 <= i < |hm| && 0 <= j < |hm[i]| ==> 0.0 <= hm[i][j] <= MaxRelief
  {
    seq(|g|, i requires 0 <= i < |g| =>
      seq(|g[i]|, j requires 0 <= j < |g[i]| => Height(g[i][j])))
  }
}
