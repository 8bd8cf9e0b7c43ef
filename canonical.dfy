/**
 * The one assumption about the curve that goes beyond its types: Ristretto
 * encodings are canonical, so `compress` is injective. It is stated as a
 * predicate and taken as a hypothesis by the lemmas of this module only;
 * nothing else in the model depends on it.
 */
module Canonical {
  import opened Curve
  import opened Keys

  /** Different points never share an encoding. */
  ghost predicate CanonicalEncoding<Point(!new)>(compress: Point -> Encoding) {
    forall p, q :: compress(p) == compress(q) ==> p == q
  }

  /** Under canonical encoding, a duplicate encoding is a repeated point, and conversely. */
  lemma DuplicatesIffRepeatedPoint<Point(!new)>(ps: PublicSet<Point>, compress: Point -> Encoding)
    requires CanonicalEncoding(compress)
    ensures ps.DuplicatesExist(compress) <==>
            exists i, j :: 0 <= i < ps.Len() && 0 <= j < ps.Len() && i != j && ps.points[i] == ps.points[j]
  {
    if ps.DuplicatesExist(compress) {
      var i, j :| 0 <= i < ps.Len() && 0 <= j < ps.Len() && i != j &&
                  compress(ps.points[i]) == compress(ps.points[j]);
      assert ps.points[i] == ps.points[j];
    }
    if exists i, j :: 0 <= i < ps.Len() && 0 <= j < ps.Len() && i != j && ps.points[i] == ps.points[j] {
      var i, j :| 0 <= i < ps.Len() && 0 <= j < ps.Len() && i != j && ps.points[i] == ps.points[j];
      RepeatedPointIsDuplicate(ps, compress, i, j);
    }
  }

  /** A set of pairwise distinct points, such as freshly derived keys, has no duplicates. */
  lemma DistinctPointsHaveNoDuplicates<Point(!new)>(ps: PublicSet<Point>, compress: Point -> Encoding)
    requires CanonicalEncoding(compress)
    requires forall i, j :: 0 <= i < ps.Len() && 0 <= j < ps.Len() && i != j ==> ps.points[i] != ps.points[j]
    ensures !ps.DuplicatesExist(compress)
  {
    DuplicatesIffRepeatedPoint(ps, compress);
  }

  /** Under canonical encoding, the byte layout determines the key set. */
  lemma ToBytesInjective<Point(!new)>(a: PublicSet<Point>, b: PublicSet<Point>, compress: Point -> Encoding)
    requires CanonicalEncoding(compress)
    requires a.ToBytes(compress) == b.ToBytes(compress)
    ensures a == b
  {
    Layout.ConcatInjective(a.ToKeys(compress), b.ToKeys(compress));
    assert |a.points| == |b.points|;
    forall i | 0 <= i < |a.points| ensures a.points[i] == b.points[i] {
      assert compress(a.points[i]) == compress(b.points[i]);
    }
  }
}
