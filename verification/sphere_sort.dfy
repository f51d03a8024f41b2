/**
 * The sphere sorter itself: an object configured once with a sphere, a
 * bucket-size limit and the face sorters, whose call reorders a range of an
 * array in place.
 */
module SphereSort {
  import opened Geometry
  import opened Faces
  import opened Bucketing

  /**
   * One pass over the range a[begin..end], pushing each point at the back of
   * the bucket of its face.
   */
  method Distribute(a: array<Point>, begin: int, end: int, t: Thresholds) returns (vec: seq<seq<Point>>)
    requires 0 <= begin <= end <= a.Length
    ensures vec == Buckets(a[begin..end], t)
  {
    vec := [[], [], [], [], [], []];
    var i := begin;
    while i != end
      invariant begin <= i <= end
      invariant vec == Buckets(a[begin..i], t)
    {
      var p := a[i];
      var f := FaceOf(p, t);
      vec := vec[f := vec[f] + [p]];
      assert a[begin..i + 1] == a[begin..i] + [p];
      BucketsPush(a[begin..i], p, t);
      i := i + 1;
    }
  }

  /**
   * Copies the buckets, first to last and each in its order, into the array
   * from index begin on, advancing one position per point.
   */
  method WriteBack(a: array<Point>, begin: int, vec: seq<seq<Point>>)
    requires |vec| == 6
    requires 0 <= begin && begin + |Flatten(vec)| <= a.Length
    modifies a
    ensures a[begin..begin + |Flatten(vec)|] == Flatten(vec)
    ensures a[..begin] == old(a[..begin])
    ensures a[begin + |Flatten(vec)|..] == old(a[begin + |Flatten(vec)|..])
  {
    var pos := begin;
    for i := 0 to 6
      invariant pos == begin + |Flatten(vec[..i])| <= begin + |Flatten(vec)|
      invariant a[begin..pos] == Flatten(vec[..i])
      invariant forall k | 0 <= k < begin || pos <= k < a.Length :: a[k] == old(a[k])
    {
      FlattenPrefix(vec, i);
      for j := 0 to |vec[i]|
        invariant pos == begin + |Flatten(vec[..i])| + j
        invariant a[begin..pos] == Flatten(vec[..i]) + vec[i][..j]
        invariant forall k | 0 <= k < begin || pos <= k < a.Length :: a[k] == old(a[k])
      {
        a[pos] := vec[i][j];
        assert a[begin..pos + 1] == a[begin..pos] + [vec[i][j]];
        assert vec[i][..j + 1] == vec[i][..j] + [vec[i][j]];
        pos := pos + 1;
      }
      assert vec[i][..|vec[i]|] == vec[i];
    }
    assert vec[..6] == vec;
  }

  /** The sorter on the sphere, with the face sorters it was built with. */
  class HilbertSortOnSphere {
    const sphere: Sphere
    const limit: int
    /** The six face sorters: the two-dimensional Hilbert sorter under each face's coordinate remapping. */
    const hilbert2: Hilbert2

    /** Defaults: the unit sphere at the origin and a limit of 1, shared by all six face sorters. */
    constructor(hilbert2: Hilbert2, s: Sphere := UnitSphere(), limit: int := 1)
      ensures this.hilbert2 == hilbert2 && sphere == s && this.limit == limit
    {
      this.hilbert2 := hilbert2;
      sphere := s;
      this.limit := limit;
    }

    /**
     * Sorts a[begin..end] along the sphere: buckets by face, sorts each bucket
     * with its face's sorter, then writes the buckets back in face order 1 to
     * 6 over exactly the same positions. `root` stands for the square root
     * of the sphere's squared radius, which is never negative.
     */
    method Sort(a: array<Point>, begin: int, end: int, root: real)
      requires 0 <= begin <= end <= a.Length
      requires root >= 0.0
      requires Permutes(hilbert2)
      modifies a
      ensures a[begin..end] == SortOnSphere(old(a[begin..end]), ThresholdsFor(sphere, root), hilbert2, limit)
      ensures multiset(a[begin..end]) == multiset(old(a[begin..end]))
      ensures a[..begin] == old(a[..begin]) && a[end..] == old(a[end..])
    {
      var t := ThresholdsFor(sphere, root);
      ghost var input := a[begin..end];
      var vec := Distribute(a, begin, end, t);
      var sorted := [hilbert2(0, limit, vec[0]), hilbert2(1, limit, vec[1]), hilbert2(2, limit, vec[2]),
                     hilbert2(3, limit, vec[3]), hilbert2(4, limit, vec[4]), hilbert2(5, limit, vec[5])];
      SortOnSpherePermutes(input, t, hilbert2, limit);
      assert Flatten(sorted) == SortOnSphere(input, t, hilbert2, limit);
      assert begin + |Flatten(sorted)| == end;
      WriteBack(a, begin, sorted);
      assert a[begin..end] == Flatten(sorted);
    }
  }

  /** A sorter built with every default is on the unit sphere with limit 1. */
  method DefaultSorter(hilbert2: Hilbert2) returns (hs: HilbertSortOnSphere)
    ensures hs.sphere == Sphere(Point(0.0, 0.0, 0.0), 1.0) && hs.limit == 1 && hs.hilbert2 == hilbert2
  {
    hs := new HilbertSortOnSphere(hilbert2);
  }
}
