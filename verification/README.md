# kdbush: a verified model of the static 2D point index

kdbush is a static spatial index over a fixed set of 2D points. The index is
built once. After that it answers two queries:

- an axis-aligned box query;
- a radius query.

Each query reports the input identifiers of the matching points. The index
keeps two parallel arrays:

- `points` holds the input points, rearranged by the build.
- `ids[i]` is the input position of the point stored at `points[i]`.

It also keeps a leaf threshold `node_size`: ranges of at most
`node_size + 1` positions are leaf buckets.

The build lays the arrays out as an implicit KD-tree. For each range longer
than a bucket, it picks the mid position `m = (left + right) / 2` and uses
quickselect to place the range's median on the current axis (x or y) there.
Smaller coordinates go to its left and larger ones to its right. It then
recurses into both halves with the other axis.

The queries walk the same implicit tree:

- a bucket is scanned in position order;
- at an internal range, the mid point is matched against the region first;
- a half is only visited when the query region reaches across the mid point's coordinate.

The model has six modules:

- `Geometry`: points, axes, the squared distance, and the two query regions as one `Region` type. It proves that pruning by the region's reach on an axis is sound.
- `Layout`: the index datatype, the paired swap, and the invariants. `Paired` says that each position holds the input point its id names. `PermutedWithin` says that only a given range is rearranged. `KdOrdered` is the KD invariant. `Built` is everything a finished build guarantees.
- `Selection`: the selection loop, as methods over sequences with loop invariants.
- `Build`: the recursive layout and the checked entry point `Fill`.
- `Query`: a single traversal `Visit` that both queries share, and the brute-force `Scan` it is proved to agree with.
- `Wrappers`: the `Result` type that `Fill` returns.

Coordinates are unbounded integers, so every comparison and squared distance
is exact. The visitor callback is modelled by returning the visited ids in
visiting order.

## Model

| member | source | states |
|---|---|---|
| Geometry.SqDist | src/kdbush.rs:223-225 | The squared distance is never negative, and it is zero exactly when the two points coincide. |
| Geometry.PruneSound | src/kdbush.rs:140-148 | Every point a box contains lies between the box's bounds on the split axis. So does every point a disc of non-negative radius contains, with respect to the disc's `q - r` and `q + r`. Hence a half lying wholly beyond one of these reaches holds no match. |
| Layout.SwapItem | src/kdbush.rs:218-221 | Exactly positions `i` and `j` of both arrays are exchanged, and nothing else changes. Both arrays keep their multisets. If every position held the input point its id names, it still does. |
| Layout.IotaCount | src/kdbush.rs:27-30 | The initial ids `0, 1, ..., N-1` hold every identifier below N exactly once and no other identifier. |
| Selection.Exchange | src/kdbush.rs:190-200 | One round of the two-pointer scan swaps the out-of-place pair, moves `i` strictly right and `j` strictly left, and keeps both inside the old [i, j]. On exit, `i` stops on a value at least the pivot value and `j` on a value at most it. Everything left of `i` is at most the pivot and everything right of `j` is at least it. The pairing of ids with points is preserved. |
| Selection.Partition | src/kdbush.rs:181-207 | One pass over [left, right] with the pivot value taken from `k` ends with that value at a position `j` inside the range. Everything before `j` is no greater and everything after `j` no smaller. Only positions inside the range move, and ids stay paired with their points. The inner scans never leave the range. |
| Selection.SettlePivot | src/kdbush.rs:202-207 | After the pointers cross, the pivot value is at the left or the right end. Swapping it to `j` (left end) or to `j + 1` (right end) puts it at a position that separates the smaller side from the larger side. |
| Selection.PivotSettles | src/kdbush.rs:209-214 | After a pass over the current window, the settled pivot separates the whole original range at `j`, not only the window. This uses what earlier passes established at the window's ends. |
| Selection.Select | src/kdbush.rs:165-216 | On return, position `k` holds the value a sort of [left, right] on `axis` would put there: every coordinate in [left, k) is at most it and every one in (k, right] at least it. Only positions inside [left, right] are permuted, and ids move with their points. The loop terminates because the window strictly shrinks each pass. |
| Build.SortKd | src/kdbush.rs:151-163 | Afterwards [left, right] satisfies the KD invariant starting on `axis`, with the axis flipping at each level. Only positions inside the range are permuted, and the pairing of ids with input points is kept. A range with `right - left <= node_size` is left exactly as it was. |
| Build.SplitOrdered | src/kdbush.rs:155-162 | Suppose the median was selected at `m` and then each half was laid out in turn, the second without touching the first. Then the whole range is KD-ordered: the later layouts keep both halves on their side of the median. |
| Build.Identity | src/kdbush.rs:27-30 | The copy loop stores the input points in input order with ids `0..N-1`, so each position holds the input point its id names. |
| Build.BuiltFromSort | src/kdbush.rs:31 | Laying out the identity arrays over the whole range [0, N-1] with axis x yields an index satisfying every build guarantee. The ids are a permutation of `0..N-1`, `points[i]` is input point `ids[i]`, and the KD invariant holds. |
| Build.Fill | src/kdbush.rs:19-33 | A declared size other than the number of points, an empty input, and a node size of 0 over two or more points are each refused with their own error, in that order of precedence. Every other input succeeds. On success, the index's ids are a permutation of `0..N-1`, each point equals the input point its id names, the KD invariant holds over the whole array, and the given node size is kept. |
| Build.BuildIndex | src/kdbush.rs:22-31 | Copying the input with ids `0..N-1` and laying out [0, N-1] starting on the x axis yields an index with every build guarantee. |
| Query.Scan | src/kdbush.rs:72-81 | An id is in the bucket scan of [left, right] exactly when some position of the range holds that id and a point the region contains. |
| Query.Visit | src/kdbush.rs:72-107 | Soundness of the shared traversal: every id it reports belongs to a position of the range whose point the region contains. |
| Query.Range | src/kdbush.rs:36-52 | Box query soundness: every reported id belongs to a point with `minX <= x <= maxX` and `minY <= y <= maxY`, bounds inclusive. |
| Query.Within | src/kdbush.rs:55-59 | Radius query soundness: every reported id belongs to a point whose squared distance from the centre is at most `r * r`. |
| Query.PrunedBelow | src/kdbush.rs:91-94 | A part lying wholly below the region's lower reach on the split axis holds no match, so skipping it loses nothing. |
| Query.PrunedAbove | src/kdbush.rs:96-106 | A part lying wholly above the region's upper reach on the split axis holds no match, so skipping it loses nothing. |
| Query.VisitMatchesScan | src/kdbush.rs:83-106 | Over a KD-ordered range and a box or non-negative disc, the traversal reports exactly the ids of the brute-force scan, each the same number of times, possibly in another order. Pruning drops no match, and the parts `[left, m-1]`, `{m}` and `[m+1, right]` never overlap. |
| Query.ScanCount | src/kdbush.rs:73-79 | Over arrays pairing ids with input points, an id's count in a scan of a range is its count in the range's ids if the region contains its input point, and zero otherwise. |
| Query.QueryExactlyOnce | src/kdbush.rs:61-148 | On a built index, a query with a box or a non-negative disc reports each input point the region contains exactly once, and no other id. |
| Query.RangeExactlyOnce | src/kdbush.rs:36-52 | On a built index, the box query reports each input point inside the box exactly once, and no other id. |
| Query.WithinExactlyOnce | src/kdbush.rs:55-59 | On a built index with `r >= 0`, the radius query reports each input point within squared distance `r * r` of the centre exactly once, and no other id. |
| Query.VisitNone | src/kdbush.rs:72-106 | If no point of a range lies in the region, traversing the range reports nothing. |
| Query.InvertedBoxIsEmpty | src/kdbush.rs:72-89 | A box whose minimum exceeds its maximum on either axis yields no ids on any index. |
| Query.SampleIsBuilt | src/kdbush.rs:19-33 | The three-point sample index satisfies every guarantee of a build over its points with node size 1. |
| Query.NegativeRadiusMissesMatches | src/kdbush.rs:119-148 | A negative radius is accepted, and the query then disagrees with the brute-force scan even on a built index. The sample index satisfies every build guarantee. The disc of radius -1 around the origin contains its points 0 and 2 by the squared-radius test, yet the pruning by `q - r` and `q + r` skips both halves and reports nothing. |

## Left out

- The Floyd–Rivest sampling step at src/kdbush.rs:167-179. It computes a narrower window with `ln`, `exp` and `sqrt` on floating point and selects inside it first. It is a speed heuristic that only permutes positions inside [left, right], so the outer loop's postcondition does not depend on it.
- The layout can differ from the Rust build's on ranges of more than 601 positions, because the sampling step is left out. The order in which a query reports ids then differs too. The set of ids reported, and their multiplicity, are the same.
- Floating point: coordinates are unbounded integers. NaN and rounding in `powi` are not modelled.
- Machine integers: `usize` wrap-around and the panics it causes are not modelled.
- `Build.Fill`: the Rust implementation checks none of its arguments. The model refuses three kinds of input as invalid arguments, where the Rust implementation panics on some and not on others:
  - An empty input panics. With a declared size of 0 it underflows at `size - 1` (line 31). With any other declared size it either reads a point that is not there during the build, or underflows at `self.ids.len() - 1` in a query (lines 50, 58).
  - A node size of 0 over two or more points panics once the build reaches an empty child range, whose bounds underflow (line 152, 161 or 213). That happens for most sizes (2, 4, 5, 6, ...), but not for sizes of the form 2^k - 1, which the Rust implementation builds and queries correctly.
  - A declared size other than the number of points gives a correct index only when both the declared size and the real count are at most `node_size + 1`, so that nothing is laid out. A declared size of 0 underflows at line 31. A declared size beyond a bucket that exceeds the real count makes the selection read a point that is not there (line 181 or 186). A declared size smaller than the real count lays out only a prefix, and the queries can then miss points.
- `Layout.Built` requires a node size of at least 1 over two or more points, because only such indexes come out of `Build.Fill`. `Query.QueryExactlyOnce` and the lemmas built on it therefore do not cover the node-size-0 indexes that the Rust implementation builds for sizes 2^k - 1.
- The generic iterator input of `fill` and `Vec::with_capacity` are not modelled. The input is a sequence of points.
- The visitor callback is not modelled as a closure. A query returns the sequence of ids it would pass to the visitor, in the same order.
- Repeating a query gives the same sequence. This holds because the queries are pure functions of the index, so there is no separate lemma for it.
- The exact-order regression sequences of the tests (src/kdbush.rs:247-269) are not restated, because that would mean evaluating a build over 100 fixed points.
- `Query.Visit`: its own contract states soundness only. Completeness and the exact multiplicity are in `Query.VisitMatchesScan` and `Query.QueryExactlyOnce`.
- `Query.WithinExactlyOnce`: requires `r >= 0`. The Rust implementation accepts a negative radius, but then the query is not exact, as `Query.NegativeRadiusMissesMatches` shows.
- A radius of 0 returns the points exactly at the centre, not nothing. A negative radius returns a subset of the points within distance `|r|`. Both follow from the code: the containment test compares against `r * r`.
- `nodeSize` is a `nat` inside the index. Only `Build.Fill` takes it as a `NodeSize`, which is bounded below 256 like the Rust implementation's 8-bit field.
