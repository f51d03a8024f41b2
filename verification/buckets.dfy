/**
 * What one call of the sphere sorter computes, stated on sequences: the six
 * face buckets, the per-face sort and the concatenation in face order, with
 * the lemmas that make it a partition and a permutation.
 */
module Bucketing {
  import opened Geometry
  import opened Faces

  /** What one point contributes to bucket f: itself when it lies on face f, nothing otherwise. */
  function Keep(p: Point, t: Thresholds, f: Face): seq<Point> {
    if FaceOf(p, t) == f then [p] else []
  }

  /**
   * The points of s whose face is f, in their order in s: the bucket that
   * pushing each point at the back of its face's vector builds.
   */
  function Bucket(s: seq<Point>, t: Thresholds, f: Face): (b: seq<Point>)
    ensures |b| <= |s|
    ensures forall p | p in b :: p in s && FaceOf(p, t) == f
  {
    if s == [] then []
    else Bucket(s[..|s| - 1], t, f) + Keep(s[|s| - 1], t, f)
  }

  /** The six buckets of s, for faces 1 to 6. */
  function Buckets(s: seq<Point>, t: Thresholds): (bs: seq<seq<Point>>)
    ensures |bs| == 6
    ensures forall f: Face, p | p in bs[f] :: p in s && FaceOf(p, t) == f
  {
    [Bucket(s, t, 0), Bucket(s, t, 1), Bucket(s, t, 2), Bucket(s, t, 3), Bucket(s, t, 4), Bucket(s, t, 5)]
  }

  /** The concatenation of the buckets, first to last. */
  function Flatten(bs: seq<seq<Point>>): seq<Point> {
    if bs == [] then [] else Flatten(bs[..|bs| - 1]) + bs[|bs| - 1]
  }

  /**
   * The two-dimensional Hilbert sorter configured for a face (its coordinate
   * remapping) and a bucket-size limit, applied to one bucket.
   */
  type Hilbert2 = (Face, int, seq<Point>) -> seq<Point>

  /** The sorter of face f, with the given limit, only reorders bucket s. */
  ghost predicate PermutesBucket(h: Hilbert2, f: Face, limit: int, s: seq<Point>) {
    multiset(h(f, limit, s)) == multiset(s)
  }

  /** Every face sorter, whatever its limit, only reorders its bucket. */
  ghost predicate Permutes(h: Hilbert2) {
    forall f: Face, limit: int, s: seq<Point> :: PermutesBucket(h, f, limit, s)
  }

  /** Each bucket sorted by the sorter of its own face, all with the same limit. */
  function SortedBuckets(vec: seq<seq<Point>>, h: Hilbert2, limit: int): seq<seq<Point>>
    requires |vec| == 6
  {
    [h(0, limit, vec[0]), h(1, limit, vec[1]), h(2, limit, vec[2]),
     h(3, limit, vec[3]), h(4, limit, vec[4]), h(5, limit, vec[5])]
  }

  /** The range after one call of the sphere sorter. */
  function SortOnSphere(s: seq<Point>, t: Thresholds, h: Hilbert2, limit: int): seq<Point> {
    Flatten(SortedBuckets(Buckets(s, t), h, limit))
  }

  // ---------------------------------------------------------------------------
  // Concatenation

  lemma {:induction false} FlattenAppend(xs: seq<seq<Point>>, ys: seq<seq<Point>>)
    ensures Flatten(xs + ys) == Flatten(xs) + Flatten(ys)
  {
    if ys == [] {
      assert xs + ys == xs;
    } else {
      var init := ys[..|ys| - 1];
      assert (xs + ys)[..|xs + ys| - 1] == xs + init;
      FlattenAppend(xs, init);
    }
  }

  /** Bucket i continues the concatenation of the buckets before it, within the whole. */
  lemma FlattenPrefix(vec: seq<seq<Point>>, i: int)
    requires 0 <= i < |vec|
    ensures Flatten(vec[..i + 1]) == Flatten(vec[..i]) + vec[i]
    ensures |Flatten(vec[..i])| + |vec[i]| <= |Flatten(vec)|
  {
    assert vec[..i + 1][..i] == vec[..i];
    FlattenAppend(vec[..i + 1], vec[i + 1..]);
    assert vec[..i + 1] + vec[i + 1..] == vec;
  }

  lemma FlattenSix(vec: seq<seq<Point>>)
    requires |vec| == 6
    ensures Flatten(vec) == vec[0] + vec[1] + vec[2] + vec[3] + vec[4] + vec[5]
  {
    assert Flatten(vec[..1]) == vec[0] by { assert vec[..1][..0] == []; }
    assert Flatten(vec[..2]) == vec[0] + vec[1] by { assert vec[..2][..1] == vec[..1]; }
    assert Flatten(vec[..3]) == vec[0] + vec[1] + vec[2] by { assert vec[..3][..2] == vec[..2]; }
    assert Flatten(vec[..4]) == vec[0] + vec[1] + vec[2] + vec[3] by { assert vec[..4][..3] == vec[..3]; }
    assert Flatten(vec[..5]) == vec[0] + vec[1] + vec[2] + vec[3] + vec[4] by { assert vec[..5][..4] == vec[..4]; }
    assert vec[..6] == vec;
  }

  // ---------------------------------------------------------------------------
  // Classification is a partition

  /** A point occurs in bucket f as often as in s when its face is f, and never otherwise. */
  lemma {:induction false} BucketCount(s: seq<Point>, t: Thresholds, f: Face, p: Point)
    ensures multiset(Bucket(s, t, f))[p] == if FaceOf(p, t) == f then multiset(s)[p] else 0
  {
    if s != [] {
      var init, last := s[..|s| - 1], s[|s| - 1];
      BucketCount(init, t, f, p);
      assert s == init + [last];
      assert Bucket(s, t, f) == Bucket(init, t, f) + Keep(last, t, f);
    }
  }

  /** Each point of the range is in the bucket of its face and in no other. */
  lemma EachPointInOneBucket(s: seq<Point>, t: Thresholds, i: int)
    requires 0 <= i < |s|
    ensures forall f: Face :: s[i] in Bucket(s, t, f) <==> f == FaceOf(s[i], t)
  {
    BucketCount(s, t, FaceOf(s[i], t), s[i]);
    assert s[i] in multiset(s);
  }

  /**
   * The six buckets together hold exactly the points of the range: their
   * concatenation is a permutation of it and their sizes add up to its length.
   */
  lemma BucketsPartition(s: seq<Point>, t: Thresholds)
    ensures multiset(Flatten(Buckets(s, t))) == multiset(s)
    ensures |Bucket(s, t, 0)| + |Bucket(s, t, 1)| + |Bucket(s, t, 2)| +
            |Bucket(s, t, 3)| + |Bucket(s, t, 4)| + |Bucket(s, t, 5)| == |s|
  {
    var vec := Buckets(s, t);
    var m := BucketUnion(s, t);
    assert multiset(Flatten(vec)) == m by {
      FlattenSix(vec);
    }
    forall p ensures m[p] == multiset(s)[p] {
      BucketUnionCount(s, t, p);
    }
    assert m == multiset(s);
    assert |Flatten(vec)| == |m|;
    FlattenSix(vec);
  }

  /** The multiset union of the six buckets. */
  ghost function BucketUnion(s: seq<Point>, t: Thresholds): multiset<Point> {
    multiset(Bucket(s, t, 0)) + multiset(Bucket(s, t, 1)) + multiset(Bucket(s, t, 2)) +
    multiset(Bucket(s, t, 3)) + multiset(Bucket(s, t, 4)) + multiset(Bucket(s, t, 5))
  }

  lemma BucketUnionCount(s: seq<Point>, t: Thresholds, p: Point)
    ensures BucketUnion(s, t)[p] == multiset(s)[p]
  {
    BucketCount(s, t, 0, p);
    BucketCount(s, t, 1, p);
    BucketCount(s, t, 2, p);
    BucketCount(s, t, 3, p);
    BucketCount(s, t, 4, p);
    BucketCount(s, t, 5, p);
  }

  /**
   * Buckets keep the input order: classifying two consecutive pieces of a
   * range gives the first piece's bucket followed by the second's.
   */
  lemma {:induction false} BucketAppend(s1: seq<Point>, s2: seq<Point>, t: Thresholds, f: Face)
    ensures Bucket(s1 + s2, t, f) == Bucket(s1, t, f) + Bucket(s2, t, f)
  {
    if s2 == [] {
      assert s1 + s2 == s1;
    } else {
      var init := s2[..|s2| - 1];
      assert (s1 + s2)[..|s1 + s2| - 1] == s1 + init;
      BucketAppend(s1, init, t, f);
      assert Bucket(s1 + s2, t, f) == Bucket(s1 + init, t, f) + Keep(s2[|s2| - 1], t, f);
    }
  }

  /** Pushing one more point changes only the bucket of that point's face, by appending the point to it. */
  lemma BucketsPush(s: seq<Point>, p: Point, t: Thresholds)
    ensures var f := FaceOf(p, t);
      Buckets(s + [p], t) == Buckets(s, t)[f := Buckets(s, t)[f] + [p]]
  {
    var f := FaceOf(p, t);
    var vec, vec' := Buckets(s, t), Buckets(s + [p], t);
    var pushed := vec[f := vec[f] + [p]];
    forall g: Face ensures vec'[g] == pushed[g] {
      BucketPush(s, p, t, g);
    }
  }

  /** Pushing one more point appends it to the bucket of its face and leaves the other buckets as they were. */
  lemma BucketPush(s: seq<Point>, p: Point, t: Thresholds, f: Face)
    ensures Bucket(s + [p], t, f) == Bucket(s, t, f) + Keep(p, t, f)
  {
    assert (s + [p])[..|s|] == s;
  }

  /** A sequence whose points all lie on face f is its own bucket f. */
  lemma {:induction false} BucketOfAll(s: seq<Point>, t: Thresholds, f: Face)
    requires forall p | p in s :: FaceOf(p, t) == f
    ensures Bucket(s, t, f) == s
  {
    if s != [] {
      var init, last := s[..|s| - 1], s[|s| - 1];
      assert s == init + [last];
      BucketOfAll(init, t, f);
    }
  }

  // ---------------------------------------------------------------------------
  // The sorted range

  /** A permuting sorter leaves in each sorted bucket only points of that bucket's face. */
  lemma SortedBucketFaces(vec: seq<seq<Point>>, s: seq<Point>, t: Thresholds, h: Hilbert2, limit: int, f: Face)
    requires Permutes(h) && vec == SortedBuckets(Buckets(s, t), h, limit)
    ensures forall p | p in vec[f] :: FaceOf(p, t) == f
  {
    forall p | p in vec[f] ensures FaceOf(p, t) == f {
      assert PermutesBucket(h, f, limit, Bucket(s, t, f));
      assert p in multiset(vec[f]);
      assert p in Bucket(s, t, f);
    }
  }

  /** Bucket k of bs holds only points of face k. */
  ghost predicate Grouped(bs: seq<seq<Point>>, t: Thresholds) {
    forall k, p | 0 <= k < |bs| && p in bs[k] :: FaceOf(p, t) == k
  }

  lemma GroupedPrefix(bs: seq<seq<Point>>, t: Thresholds)
    requires bs != [] && Grouped(bs, t)
    ensures Grouped(bs[..|bs| - 1], t)
  {
    var init := bs[..|bs| - 1];
    forall k, p | 0 <= k < |init| && p in init[k] ensures FaceOf(p, t) == k {
      assert init[k] == bs[k];
    }
  }

  /** Concatenating buckets that each hold one face, in face order, orders the points by face. */
  lemma {:induction false} FlattenGrouped(bs: seq<seq<Point>>, t: Thresholds)
    requires Grouped(bs, t)
    ensures forall p | p in Flatten(bs) :: FaceOf(p, t) < |bs|
    ensures var r := Flatten(bs);
      forall i, j | 0 <= i <= j < |r| :: FaceOf(r[i], t) <= FaceOf(r[j], t)
  {
    if bs != [] {
      var init, last := bs[..|bs| - 1], bs[|bs| - 1];
      GroupedPrefix(bs, t);
      FlattenGrouped(init, t);
      assert forall p | p in last :: FaceOf(p, t) == |bs| - 1;
      var r := Flatten(bs);
      assert r == Flatten(init) + last;
      forall i, j | 0 <= i <= j < |r| ensures FaceOf(r[i], t) <= FaceOf(r[j], t) {
        var n := |Flatten(init)|;
        if i < n && n <= j {
          assert r[i] in Flatten(init);
          assert r[j] == last[j - n];
        }
      }
    }
  }

  /** Reclassifying a concatenation of one-face buckets gives back bucket f itself. */
  lemma {:induction false} BucketOfGrouped(bs: seq<seq<Point>>, t: Thresholds, f: Face)
    requires Grouped(bs, t)
    requires f < |bs| <= 6
    ensures Bucket(Flatten(bs), t, f) == bs[f]
  {
    var init, last := bs[..|bs| - 1], bs[|bs| - 1];
    if f == |bs| - 1 {
      BucketOfGroupedLast(bs, t);
    } else {
      GroupedPrefix(bs, t);
      BucketOfGrouped(init, t, f);
      assert Flatten(bs) == Flatten(init) + last;
      BucketAppend(Flatten(init), last, t, f);
      assert forall p | p in last :: FaceOf(p, t) != f by {
        assert forall p | p in last :: FaceOf(p, t) == |bs| - 1;
      }
      BucketOfNone(last, t, f);
    }
  }

  lemma BucketOfGroupedLast(bs: seq<seq<Point>>, t: Thresholds)
    requires Grouped(bs, t)
    requires 0 < |bs| <= 6
    ensures Bucket(Flatten(bs), t, |bs| - 1) == bs[|bs| - 1]
  {
    var init, last, f := bs[..|bs| - 1], bs[|bs| - 1], |bs| - 1;
    GroupedPrefix(bs, t);
    FlattenGrouped(init, t);
    assert Flatten(bs) == Flatten(init) + last;
    BucketAppend(Flatten(init), last, t, f);
    BucketOfNone(Flatten(init), t, f);
    assert forall p | p in last :: FaceOf(p, t) == f;
    BucketOfAll(last, t, f);
  }

  lemma {:induction false} BucketOfNone(s: seq<Point>, t: Thresholds, f: Face)
    requires forall p | p in s :: FaceOf(p, t) != f
    ensures Bucket(s, t, f) == []
  {
    if s != [] {
      var init, last := s[..|s| - 1], s[|s| - 1];
      assert s == init + [last];
      BucketOfNone(init, t, f);
    }
  }

  /** The sorted range is a permutation of the input: no point is lost, added or changed. */
  lemma SortOnSpherePermutes(s: seq<Point>, t: Thresholds, h: Hilbert2, limit: int)
    requires Permutes(h)
    ensures multiset(SortOnSphere(s, t, h, limit)) == multiset(s)
    ensures |SortOnSphere(s, t, h, limit)| == |s|
  {
    var vec := Buckets(s, t);
    var sorted := SortedBuckets(vec, h, limit);
    assert PermutesBucket(h, 0, limit, vec[0]) && PermutesBucket(h, 1, limit, vec[1]) &&
           PermutesBucket(h, 2, limit, vec[2]) && PermutesBucket(h, 3, limit, vec[3]) &&
           PermutesBucket(h, 4, limit, vec[4]) && PermutesBucket(h, 5, limit, vec[5]);
    FlattenSix(vec);
    FlattenSix(sorted);
    BucketsPartition(s, t);
    var r := SortOnSphere(s, t, h, limit);
    assert multiset(r) == multiset(Flatten(vec));
    assert |r| == |multiset(r)|;
  }

  /** The sorted range lists the points of face 1 first, then face 2, and so on up to face 6. */
  lemma SortOnSphereGroupsByFace(s: seq<Point>, t: Thresholds, h: Hilbert2, limit: int)
    requires Permutes(h)
    ensures var r := SortOnSphere(s, t, h, limit);
      forall i, j | 0 <= i <= j < |r| :: FaceOf(r[i], t) <= FaceOf(r[j], t)
  {
    var sorted := SortedBuckets(Buckets(s, t), h, limit);
    SortedBucketsGrouped(sorted, s, t, h, limit);
    FlattenGrouped(sorted, t);
    var r := SortOnSphere(s, t, h, limit);
    assert r == Flatten(sorted);
    forall i, j | 0 <= i <= j < |r| ensures FaceOf(r[i], t) <= FaceOf(r[j], t) { }
  }

  lemma SortedBucketsGrouped(sorted: seq<seq<Point>>, s: seq<Point>, t: Thresholds, h: Hilbert2, limit: int)
    requires Permutes(h) && sorted == SortedBuckets(Buckets(s, t), h, limit)
    ensures Grouped(sorted, t)
  {
    forall k: Face ensures forall p | p in sorted[k] :: FaceOf(p, t) == k {
      SortedBucketFaces(sorted, s, t, h, limit, k);
    }
  }

  /**
   * Sorting again does not move any point to another face: classifying the
   * sorted range gives back, bucket by bucket, the sorted buckets.
   */
  lemma SortOnSphereReclassifies(s: seq<Point>, t: Thresholds, h: Hilbert2, limit: int)
    requires Permutes(h)
    ensures Buckets(SortOnSphere(s, t, h, limit), t) == SortedBuckets(Buckets(s, t), h, limit)
  {
    var sorted := SortedBuckets(Buckets(s, t), h, limit);
    SortedBucketsGrouped(sorted, s, t, h, limit);
    BucketOfGrouped(sorted, t, 0);
    BucketOfGrouped(sorted, t, 1);
    BucketOfGrouped(sorted, t, 2);
    BucketOfGrouped(sorted, t, 3);
    BucketOfGrouped(sorted, t, 4);
    BucketOfGrouped(sorted, t, 5);
  }

  /** An empty range gives six empty buckets and stays empty. */
  lemma EmptyRangeIsNoOp(t: Thresholds, h: Hilbert2, limit: int)
    requires Permutes(h)
    ensures Buckets([], t) == [[], [], [], [], [], []]
    ensures SortOnSphere([], t, h, limit) == []
  {
    SortOnSpherePermutes([], t, h, limit);
  }

  // ---------------------------------------------------------------------------
  // One point per face on the unit sphere

  /** Where the axis of face f + 1 pierces the unit sphere. */
  function FaceCentre(f: Face): Point {
    if f == 0 then Point(1.0, 0.0, 0.0)
    else if f == 1 then Point(0.0, 1.0, 0.0)
    else if f == 2 then Point(-1.0, 0.0, 0.0)
    else if f == 3 then Point(0.0, 0.0, 1.0)
    else if f == 4 then Point(0.0, -1.0, 0.0)
    else Point(0.0, 0.0, -1.0)
  }

  lemma SingletonPermutation(r: seq<Point>, p: Point)
    requires multiset(r) == multiset([p])
    ensures r == [p]
  {
    assert |r| == |multiset(r)| == 1;
    assert r[0] in multiset(r);
  }

  /**
   * Six points, one on each face and given in scrambled order, come out in
   * face order 1 to 6, whatever the face sorters do within a face.
   */
  lemma OnePointPerFace(c: seq<Point>, t: Thresholds, h: Hilbert2, limit: int)
    requires |c| == 6 && forall g: Face :: FaceOf(c[g], t) == g
    requires Permutes(h)
    ensures SortOnSphere([c[5], c[2], c[0], c[4], c[1], c[3]], t, h, limit) == c
  {
    var s := [c[5], c[2], c[0], c[4], c[1], c[3]];
    var sorted := SortedBuckets(Buckets(s, t), h, limit);
    SortedSingletons(c, s, t, h, limit);
    FlattenSingletons(c, sorted);
    assert SortOnSphere(s, t, h, limit) == Flatten(sorted);
  }

  lemma SortedSingletons(c: seq<Point>, s: seq<Point>, t: Thresholds, h: Hilbert2, limit: int)
    requires |c| == 6 && forall g: Face :: FaceOf(c[g], t) == g
    requires s == [c[5], c[2], c[0], c[4], c[1], c[3]]
    requires Permutes(h)
    ensures SortedBuckets(Buckets(s, t), h, limit) == [[c[0]], [c[1]], [c[2]], [c[3]], [c[4]], [c[5]]]
  {
    SortedOwnPoint(c, s, t, h, limit, 0);
    SortedOwnPoint(c, s, t, h, limit, 1);
    SortedOwnPoint(c, s, t, h, limit, 2);
    SortedOwnPoint(c, s, t, h, limit, 3);
    SortedOwnPoint(c, s, t, h, limit, 4);
    SortedOwnPoint(c, s, t, h, limit, 5);
  }

  lemma FlattenSingletons(c: seq<Point>, sorted: seq<seq<Point>>)
    requires |c| == 6
    requires sorted == [[c[0]], [c[1]], [c[2]], [c[3]], [c[4]], [c[5]]]
    ensures Flatten(sorted) == c
  {
    FlattenSix(sorted);
    assert c == [c[0]] + [c[1]] + [c[2]] + [c[3]] + [c[4]] + [c[5]];
  }

  lemma SortedOwnPoint(c: seq<Point>, s: seq<Point>, t: Thresholds, h: Hilbert2, limit: int, f: Face)
    requires |c| == 6 && forall g: Face :: FaceOf(c[g], t) == g
    requires s == [c[5], c[2], c[0], c[4], c[1], c[3]]
    requires Permutes(h)
    ensures h(f, limit, Bucket(s, t, f)) == [c[f]]
  {
    OnlyOneOnFace(c, s, t, f);
    assert PermutesBucket(h, f, limit, Bucket(s, t, f));
    SingletonPermutation(h(f, limit, Bucket(s, t, f)), c[f]);
  }

  /** Each face of the scrambled six-point range receives exactly its own point. */
  lemma OnlyOneOnFace(c: seq<Point>, s: seq<Point>, t: Thresholds, f: Face)
    requires |c| == 6 && forall g: Face :: FaceOf(c[g], t) == g
    requires s == [c[5], c[2], c[0], c[4], c[1], c[3]]
    ensures Bucket(s, t, f) == [c[f]]
  {
    BucketOfSix(s, t, f);
    assert Keep(c[5], t, f) == (if f == 5 then [c[5]] else []);
    assert Keep(c[2], t, f) == (if f == 2 then [c[2]] else []);
    assert Keep(c[0], t, f) == (if f == 0 then [c[0]] else []);
    assert Keep(c[4], t, f) == (if f == 4 then [c[4]] else []);
    assert Keep(c[1], t, f) == (if f == 1 then [c[1]] else []);
    assert Keep(c[3], t, f) == (if f == 3 then [c[3]] else []);
    if f == 0 {
      assert Bucket(s, t, f) == [] + [] + [c[0]] + [] + [] + [];
    } else if f == 1 {
      assert Bucket(s, t, f) == [] + [] + [] + [] + [c[1]] + [];
    } else if f == 2 {
      assert Bucket(s, t, f) == [] + [c[2]] + [] + [] + [] + [];
    } else if f == 3 {
      assert Bucket(s, t, f) == [] + [] + [] + [] + [] + [c[3]];
    } else if f == 4 {
      assert Bucket(s, t, f) == [] + [] + [] + [c[4]] + [] + [];
    } else {
      assert Bucket(s, t, f) == [c[5]] + [] + [] + [] + [] + [];
    }
  }

  /** The bucket of a six-point range, point by point. */
  lemma BucketOfSix(q: seq<Point>, t: Thresholds, f: Face)
    requires |q| == 6
    ensures Bucket(q, t, f) == Keep(q[0], t, f) + Keep(q[1], t, f) + Keep(q[2], t, f) +
                               Keep(q[3], t, f) + Keep(q[4], t, f) + Keep(q[5], t, f)
  {
    assert Bucket(q[..1], t, f) == Keep(q[0], t, f) by {
      assert q[..1][..0] == [];
    }
    assert Bucket(q[..2], t, f) == Keep(q[0], t, f) + Keep(q[1], t, f) by {
      assert q[..2][..1] == q[..1];
    }
    assert Bucket(q[..3], t, f) == Keep(q[0], t, f) + Keep(q[1], t, f) + Keep(q[2], t, f) by {
      assert q[..3][..2] == q[..2];
    }
    assert Bucket(q[..4], t, f) == Keep(q[0], t, f) + Keep(q[1], t, f) + Keep(q[2], t, f) + Keep(q[3], t, f) by {
      assert q[..4][..3] == q[..3];
    }
    assert Bucket(q[..5], t, f) == Keep(q[0], t, f) + Keep(q[1], t, f) + Keep(q[2], t, f) +
                                   Keep(q[3], t, f) + Keep(q[4], t, f) by {
      assert q[..5][..4] == q[..4];
    }
    assert q[..6] == q;
  }

  /** On the default unit sphere, the point where each face's axis leaves the sphere lies on that face. */
  lemma FaceCentresOnTheirFaces(t: Thresholds)
    requires t == ThresholdsFor(UnitSphere(), 1.0)
    ensures forall g: Face :: FaceOf(FaceCentre(g), t) == g
  {
  }

  /** The six face centres of the unit sphere, scrambled, are sorted back into face order. */
  lemma UnitSphereFaceCentres(h: Hilbert2, limit: int)
    requires Permutes(h)
    ensures var t := ThresholdsFor(UnitSphere(), 1.0);
      SortOnSphere([FaceCentre(5), FaceCentre(2), FaceCentre(0), FaceCentre(4), FaceCentre(1), FaceCentre(3)], t, h, limit)
      == [FaceCentre(0), FaceCentre(1), FaceCentre(2), FaceCentre(3), FaceCentre(4), FaceCentre(5)]
  {
    var t := ThresholdsFor(UnitSphere(), 1.0);
    var c := [FaceCentre(0), FaceCentre(1), FaceCentre(2), FaceCentre(3), FaceCentre(4), FaceCentre(5)];
    FaceCentresOnTheirFaces(t);
    OnePointPerFace(c, t, h, limit);
  }
}
