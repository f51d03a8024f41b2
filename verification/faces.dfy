/**
 * Classification of a point onto one of the six faces of the cube that
 * approximates the sphere. Face index k stands for the face numbered k + 1
 * in the sorter (bucket vec[k]).
 */
module Faces {
  import opened Geometry

  /** The constant 1/sqrt(3) the sorter scales the radius by, as written there. */
  const SqrtOfOneOverThree: real := 0.57735026919

  /** Index of a face bucket: 0 for face 1, ..., 5 for face 6. */
  type Face = f: int | 0 <= f < 6

  /** The five thresholds the face tests compare against (lower/upper x, lower/upper y, upper z). */
  datatype Thresholds = Thresholds(lxi: real, lxs: real, lyi: real, lys: real, lzs: real)

  /**
   * The thresholds for a sphere, given `root`, the square root of its squared
   * radius: every threshold lies the same offset 1/sqrt(3) * root away from
   * the centre, below it for lxi and lyi and above it for the other three.
   */
  function ThresholdsFor(s: Sphere, root: real): (t: Thresholds)
    ensures var m := SqrtOfOneOverThree * root;
      t.lxs - s.center.x == s.center.x - t.lxi == m &&
      t.lys - s.center.y == s.center.y - t.lyi == m &&
      t.lzs - s.center.z == m
  {
    var m := SqrtOfOneOverThree * root;
    var c := s.center;
    Thresholds(c.x - m, c.x + m, c.y - m, c.y + m, c.z + m)
  }

  /**
   * The test of face f + 1, in the sorter's priority list. All comparisons are
   * strict; the sixth face has no test of its own.
   */
  predicate Meets(p: Point, t: Thresholds, f: Face) {
    if f == 0 then p.x > t.lxs
    else if f == 1 then p.y > t.lys
    else if f == 2 then p.x < t.lxi
    else if f == 3 then p.z > t.lzs
    else if f == 4 then p.y < t.lyi
    else true
  }

  /** The face a point is put on: the first face in priority order whose test it meets. */
  function FaceOf(p: Point, t: Thresholds): (f: Face)
    ensures Meets(p, t, f)
    ensures forall g: Face :: g < f ==> !Meets(p, t, g)
  {
    if p.x > t.lxs then 0
    else if p.y > t.lys then 1
    else if p.x < t.lxi then 2
    else if p.z > t.lzs then 3
    else if p.y < t.lyi then 4
    else 5
  }

  /** First match decides, in both directions: FaceOf is f exactly when f is the first face p meets. */
  lemma FaceOfIsFirstMatch(p: Point, t: Thresholds, f: Face)
    ensures FaceOf(p, t) == f <==> Meets(p, t, f) && forall g: Face :: g < f ==> !Meets(p, t, g)
  {
  }

  /**
   * A point meeting the tests of two faces never goes to the later one: it
   * goes to the earlier one, or to a face before both whose test it meets too.
   */
  lemma EdgePointGoesToLowerFace(p: Point, t: Thresholds, f: Face, g: Face)
    requires f < g && Meets(p, t, f) && Meets(p, t, g)
    ensures FaceOf(p, t) != g
    ensures FaceOf(p, t) <= f
    ensures FaceOf(p, t) == f <==> forall e: Face :: e < f ==> !Meets(p, t, e)
  {
  }

  /**
   * The tests are strict: a point lying exactly on a face's threshold does not
   * meet that face's test and is decided by the later tests.
   */
  lemma ThresholdIsExclusive(p: Point, t: Thresholds)
    ensures p.x == t.lxs ==> FaceOf(p, t) != 0
    ensures p.y == t.lys ==> FaceOf(p, t) != 1
    ensures p.x == t.lxi ==> FaceOf(p, t) != 2
    ensures p.z == t.lzs ==> FaceOf(p, t) != 3
    ensures p.y == t.lyi ==> FaceOf(p, t) != 4
  {
  }

  /** The sixth face takes every point that fails the five tests, whatever its z. */
  lemma LastFaceIsCatchAll(p: Point, t: Thresholds)
    ensures FaceOf(p, t) == 5 <==> forall g: Face :: g < 5 ==> !Meets(p, t, g)
  {
    FaceOfIsFirstMatch(p, t, 5);
  }

  /**
   * There is no lower-z test: with a non-negative radius, the centre of the
   * sphere and the point straight above it on the upper z threshold both land
   * on the sixth face, although neither lies below the centre.
   */
  lemma NoLowerZTest(s: Sphere, root: real)
    requires root >= 0.0
    ensures var t := ThresholdsFor(s, root);
      FaceOf(s.center, t) == 5 &&
      FaceOf(Point(s.center.x, s.center.y, t.lzs), t) == 5 &&
      t.lzs >= s.center.z
  {
    var m := SqrtOfOneOverThree * root;
    assert m >= 0.0;
  }
}
