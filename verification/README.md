# Hilbert sort on the sphere

A Dafny model of CGAL's `Hilbert_sort_on_sphere_3`, the spatial sorter for
points on, or close to, a sphere. The sorter cuts the sphere into six faces,
like the faces of a cube, using five thresholds around the sphere's centre. It
drops each point of the range into the first face whose strict test the point
passes. It then orders each face's points with that face's two-dimensional
Hilbert sorter, and writes the six groups back into the range in face order
1 to 6.

The project has four modules:

- `Geometry` (geometry.dfy): points, spheres, and the default unit sphere.
- `Faces` (faces.dfy): the thresholds and the first-match classification of one point.
- `Bucketing` (buckets.dfy): the specification functions and the lemmas about them:
  - `Bucket` is the points of a range that fall on one face, in input order.
  - `SortedBuckets` applies the face sorters.
  - `Flatten` concatenates the buckets.
  - `SortOnSphere` is what the whole call leaves in the range.
- `SphereSort` (sphere_sort.dfy): the sorter as a class with its constructor,
  and the call operator as a method.
  - The method works on an array range `[begin, end)`.
  - Its distribution loop and nested write-back loop are proved against the
    specification functions.

Faces are numbered 0 to 5 in the model. These are the source's faces 1 to 6,
which live in `vec[0]` to `vec[5]`.

The six `Hilbert_sort_2` objects are one parameter, `hilbert2`. It maps a face,
the limit and a bucket to the sorted bucket. The only thing the model requires
of it is that it permutes its input (`Permutes`). So every property below holds
whatever order the face sorters choose within a face.

The comment on the last branch of the classification calls face 6 the points
with z below the negated threshold. The code has no such test: face 6 takes
every point that no earlier test claimed, including the sphere's centre and
points at the top of the z range. The model follows the code
(`Faces.LastFaceIsCatchAll`, `Faces.NoLowerZTest`).

## Model

| member | source | states |
|---|---|---|
| Faces.ThresholdsFor | Spatial_sorting/include/CGAL/Hilbert_sort_on_sphere_3.h:80-84 | the x and y thresholds lie the same offset below and above the centre, the z threshold lies that offset above it, and the offset is 0.57735026919 (sqrt(1/3)) times the given `root`, which stands for the square root of the squared radius |
| Faces.Meets | Spatial_sorting/include/CGAL/Hilbert_sort_on_sphere_3.h:91-96 | the five strict tests of faces 1 to 5 and the always-true test of face 6; what they decide is stated by `Faces.FaceOf`, `Faces.FaceOfIsFirstMatch` and `Faces.ThresholdIsExclusive` |
| Faces.FaceOf | Spatial_sorting/include/CGAL/Hilbert_sort_on_sphere_3.h:91-96 | the chosen face's test holds for the point, and the test of every earlier face fails |
| Faces.FaceOfIsFirstMatch | Spatial_sorting/include/CGAL/Hilbert_sort_on_sphere_3.h:91-96 | a point lands on face f exactly when f's test holds and no earlier face's test does |
| Faces.EdgePointGoesToLowerFace | Spatial_sorting/include/CGAL/Hilbert_sort_on_sphere_3.h:91-96 | a point passing the tests of two faces never goes to the later one; it goes to the earlier one exactly when it fails every test before that, otherwise to a face before both |
| Faces.ThresholdIsExclusive | Spatial_sorting/include/CGAL/Hilbert_sort_on_sphere_3.h:91-95 | the comparisons are strict: a point exactly on a threshold does not go to that threshold's face |
| Faces.LastFaceIsCatchAll | Spatial_sorting/include/CGAL/Hilbert_sort_on_sphere_3.h:96 | a point lands on face 6 exactly when none of the five tests holds |
| Faces.NoLowerZTest | Spatial_sorting/include/CGAL/Hilbert_sort_on_sphere_3.h:84-96 | with a non-negative radius, the centre and the point at the upper z threshold above it both go to face 6, so face 6 is not limited to low z |
| Geometry.UnitSphere | Spatial_sorting/include/CGAL/Hilbert_sort_on_sphere_3.h:63-64 | the default sphere: centred at the origin with squared radius 1; stated for a sorter built with defaults by `SphereSort.DefaultSorter` |
| Bucketing.Bucket | Spatial_sorting/include/CGAL/Hilbert_sort_on_sphere_3.h:86-97 | a bucket is no longer than the range, and holds only points of the range that belong to its face |
| Bucketing.Buckets | Spatial_sorting/include/CGAL/Hilbert_sort_on_sphere_3.h:86-97 | the six vectors after the distribution loop: six buckets, each holding only points of the range on its own face; the partition is `Bucketing.BucketsPartition` |
| Bucketing.SortedBuckets | Spatial_sorting/include/CGAL/Hilbert_sort_on_sphere_3.h:98-103 | each face's sorter applied to that face's bucket; under permuting sorters each result holds only points of its own face (`Bucketing.SortedBucketFaces`), and together the results permute the range (`Bucketing.SortOnSpherePermutes`) |
| Bucketing.SortOnSphere | Spatial_sorting/include/CGAL/Hilbert_sort_on_sphere_3.h:86-109 | what the call leaves in the range: the sorted buckets concatenated in face order; its properties are `Bucketing.SortOnSpherePermutes`, `Bucketing.SortOnSphereGroupsByFace` and `Bucketing.SortOnSphereReclassifies` |
| Bucketing.BucketCount | Spatial_sorting/include/CGAL/Hilbert_sort_on_sphere_3.h:86-97 | a face's bucket holds each point of its face as often as the range does, and no other point |
| Bucketing.EachPointInOneBucket | Spatial_sorting/include/CGAL/Hilbert_sort_on_sphere_3.h:86-97 | every point of the range is in the bucket of its own face and in no other bucket |
| Bucketing.BucketsPartition | Spatial_sorting/include/CGAL/Hilbert_sort_on_sphere_3.h:86-97 | the six buckets together are a permutation of the range, and their sizes add up to its length |
| Bucketing.BucketAppend | Spatial_sorting/include/CGAL/Hilbert_sort_on_sphere_3.h:86-97 | the bucket of two ranges joined is the two buckets joined, so buckets keep the input order |
| Bucketing.BucketPush | Spatial_sorting/include/CGAL/Hilbert_sort_on_sphere_3.h:91-96 | one more point extends its own face's bucket at the end, and leaves every other bucket unchanged |
| Bucketing.BucketsPush | Spatial_sorting/include/CGAL/Hilbert_sort_on_sphere_3.h:86-97 | one loop step: the six buckets of the longer range are the old ones with the point pushed onto its face's bucket |
| Bucketing.SortOnSpherePermutes | Spatial_sorting/include/CGAL/Hilbert_sort_on_sphere_3.h:98-109 | when the face sorters permute their input, the output is a permutation of the range with the same length |
| Bucketing.SortOnSphereGroupsByFace | Spatial_sorting/include/CGAL/Hilbert_sort_on_sphere_3.h:105-109 | the output lists face 1's points first, then face 2's, and so on up to face 6: faces never decrease along the output |
| Bucketing.SortOnSphereReclassifies | Spatial_sorting/include/CGAL/Hilbert_sort_on_sphere_3.h:86-109 | classifying the output again gives exactly the six sorted buckets, so each face's points appear in the order its sorter chose |
| Bucketing.EmptyRangeIsNoOp | Spatial_sorting/include/CGAL/Hilbert_sort_on_sphere_3.h:86-109 | an empty range gives six empty buckets and an empty output |
| Bucketing.OnePointPerFace | Spatial_sorting/include/CGAL/Hilbert_sort_on_sphere_3.h:86-109 | six points, one per face and given in scrambled order, come out in face order 1 to 6 |
| Bucketing.UnitSphereFaceCentres | Spatial_sorting/include/CGAL/Hilbert_sort_on_sphere_3.h:63-109 | on the default unit sphere, the six points where the axes leave the sphere are sorted into face order |
| SphereSort.Distribute | Spatial_sorting/include/CGAL/Hilbert_sort_on_sphere_3.h:86-97 | the distribution loop leaves in vec exactly the six buckets of the range |
| SphereSort.WriteBack | Spatial_sorting/include/CGAL/Hilbert_sort_on_sphere_3.h:107-109 | the nested loop writes the concatenation of the six vectors from begin on, and touches nothing else in the array |
| SphereSort.HilbertSortOnSphere.constructor | Spatial_sorting/include/CGAL/Hilbert_sort_on_sphere_3.h:63-72 | the sorter keeps the given sphere, the limit and the face sorters; the sphere defaults to the unit sphere at the origin and the limit to 1 |
| SphereSort.HilbertSortOnSphere.Sort | Spatial_sorting/include/CGAL/Hilbert_sort_on_sphere_3.h:75-110 | for a non-negative `root`, the range is replaced by the sorted buckets in face order, which is a permutation of the old range; the array outside the range is unchanged |
| SphereSort.DefaultSorter | Spatial_sorting/include/CGAL/Hilbert_sort_on_sphere_3.h:63-72 | a sorter built with the defaults uses the sphere centred at the origin with squared radius 1, limit 1, and the given face sorters |

## Left out

- The two-dimensional Hilbert sorter (`Hilbert_sort_2`) and the per-face coordinate remappings (`Transform_coordinates_traits_3`) are not part of this model. They are the parameter `hilbert2`, which is only required to permute its input.
- The offset is sqrt(1/3) times `sqrt(to_double(squared_radius))`, a floating-point square root. The model takes the root as a parameter `root` of `Sort`, and FT is modelled as exact reals. So rounding in `to_double`, `sqrt` and the kernel's arithmetic is not modelled.
- SphereSort.HilbertSortOnSphere.Sort: `root` is only required to be non-negative. It is not tied to the sphere's squared radius, because the source computes it with a floating-point square root.
- The kernel object `_k` and its coordinate accessors are left out. Points are read through their coordinates directly.
- Generic random-access iterators are modelled as an index range `[begin, end)` of an array. The temporary `std::vector`s are modelled as sequences.
- `std::ptrdiff_t limit` is modelled as an unbounded `int`. It is only handed on to the face sorters.
- The free functions `hilbert_sort_on_sphere` in hilbert_sort.h are not part of this model. They pick a kernel and a policy, shuffle the range at random (`std::random_shuffle` with `boost::rand48`), and only then build this class and call it. The random shuffle is left out, and so is the example program in Surface_mesh_topology.
- SphereSort.WriteBack: the loop counters are unbounded integers, so the model writes back buckets of any size. The source's counters are `int i` and `int j`, and `++j` overflows, which is undefined behaviour, for a bucket of more than 2^31 - 1 points.
- The source has no concurrency, and none is modelled.
