# Tabulated function

A model in Dafny of the `functions` package of a small Java library for
one-dimensional tabulated functions. A `TabulatedFunction` is a sorted dynamic
array of `(x, y)` samples. It keeps a backing array with spare capacity and a
logical count. It promises that it always holds at least two samples and that
their x values are strictly ascending. Every mutator keeps that promise or does
nothing. `FunctionPoint` is the mutable `(x, y)` pair that crosses its interface.

Layout:

- `wrappers.dfy` (module `Wrappers`): `Option`, where `None` stands for the NaN
  the source returns, and `Result` with the one construction error,
  `InvalidArgument`.
- `points.dfy` (module `Points`): the `Point` value and the `FunctionPoint`
  class with its three constructors, getters and setters.
- `samples.dfy` (module `Samples`): pure definitions over the sample sequence.
  `Ascending` is the invariant. `Grid` is the constructors' layout. `Find` and
  `Bracket` are the lookup scans, `Lerp` the interpolation and `ValueAt` the
  function value. `Admits` is the neighbour check, `Remove` the deletion and
  `InsertPos`/`Insert` the insertion. The lemmas here state what each
  operation promises.
- `tabulated.dfy` (module `Tabulated`): the class `TabulatedFunction` over
  `points: array<Point>` and `count: nat`. `Valid()` is the invariant and
  `Contents()` is `points[..count]`. Every method is proved against the
  definitions in `Samples`. The shift loops, the reallocation and the scans
  are kept as loops over the array.
- `demo.dfy` (module `Demo`): the call sequence of the demonstration driver
  (`Main.java`), replayed with the values it prints. It also holds a client
  showing that editing the copy `GetPoint` returns leaves the container
  untouched.

The container stores `Point` values, not `FunctionPoint` objects. The source
copies a point whenever one enters or leaves the container (`setPoint`,
`addPoint`, `getPoint`), and no two slots ever share an object. So storing
immutable values is equivalent to storing private objects. `SetPointY`
replaces the slot's value where the source calls `setY` on the stored object.

Behaviour of the code that a reader might not expect:

- In the driver's scenario, the query at x = 3 hits a stored sample exactly
  and returns its y (3.0). It does not interpolate between x = 3 and x = 5.
  After (0, -1) is inserted, sample 2 has x = 3, not x = 2. So
  `setPoint(1, (1, 100))` is accepted because 0 < 1 < 3.
- The code never checks an index against the sample count. Here every index
  is a precondition (`index < count`).

## Model

| member | source | states |
|---|---|---|
| `Points.FunctionPoint.Origin` | functions/FunctionPoint.java:9-12 | the default point is (0, 0) |
| `Points.FunctionPoint.constructor` | functions/FunctionPoint.java:15-18 | the point holds exactly the given x and y |
| `Points.FunctionPoint.Copy` | functions/FunctionPoint.java:21-24 | the copy has the original's x and y |
| `Points.FunctionPoint.GetX` | functions/FunctionPoint.java:26 | returns the x the point currently holds |
| `Points.FunctionPoint.GetY` | functions/FunctionPoint.java:27 | returns the y the point currently holds |
| `Points.FunctionPoint.SetX` | functions/FunctionPoint.java:29 | afterwards GetX returns the new x and GetY is unchanged |
| `Points.FunctionPoint.SetY` | functions/FunctionPoint.java:30 | afterwards GetY returns the new y and GetX is unchanged |
| `Samples.Grid` | functions/TabulatedFunction.java:15-17 | the constructors' layout: as many points as values, the first at leftX, each next one exactly (rightX - leftX)/(count - 1) further right, point i carrying the i-th y |
| `Samples.Zeros` | functions/TabulatedFunction.java:16-18 | the count constructor's y values: count of them, every one 0 |
| `Samples.GridEnds` | functions/TabulatedFunction.java:15-17 | the generated grid starts at leftX and its last point lands exactly on rightX |
| `Samples.GridAscending` | functions/TabulatedFunction.java:27-30 | the generated grid is strictly ascending if and only if leftX < rightX |
| `Samples.Find` | functions/TabulatedFunction.java:42-46 | the exact-match scan returns the first index whose x equals x, and None exactly when no sample has that x |
| `Samples.FindUnique` | functions/TabulatedFunction.java:119-123 | in an ascending sequence, the exact-match scan for a sample's x finds that very sample |
| `Samples.BracketFrom` | functions/TabulatedFunction.java:49-52 | the interval scan stops at an i with x_i < x <= x_(i+1) and i + 1 < count |
| `Samples.Bracket` | functions/TabulatedFunction.java:49-52 | for x strictly inside the domain, the bracketing index i has x_i < x <= x_(i+1) |
| `Samples.BracketUnique` | functions/TabulatedFunction.java:48-52 | in an ascending sequence any interval containing x is the one the scan finds, so another search would give the same answer |
| `Samples.Lerp` | functions/TabulatedFunction.java:55-59 | the interpolated value lies on the straight line through the two bracketing samples |
| `Samples.LerpEndpoints` | functions/TabulatedFunction.java:55-59 | the interpolation line passes through both end samples, so an exact match and interpolation agree |
| `Samples.LerpBetween` | functions/TabulatedFunction.java:55-59 | inside an interval the interpolated value lies between the two samples' y |
| `Samples.ValueAt` | functions/TabulatedFunction.java:36-60 | undefined exactly outside [first x, last x]; the stored y at every sample's x; the linear interpolation of the two neighbours for every x strictly between them |
| `Samples.Admits` | functions/TabulatedFunction.java:72-87 | the three-case neighbour check accepts newX exactly when it lies above the left neighbour (if there is one) and below the right neighbour (if there is one) |
| `Samples.AdmitsExactly` | functions/TabulatedFunction.java:70-88 | the neighbour check for index 0, for the last index and for interior indexes accepts a new x exactly when the result stays strictly ascending |
| `Samples.SameXKeepsOrder` | functions/TabulatedFunction.java:118-122 | rewriting a sample at its own x is always admitted and keeps the order |
| `Samples.RemoveKeepsOrder` | functions/TabulatedFunction.java:106-113 | deletion leaves one fewer sample, keeps the order, keeps every other sample and leaves no sample at the removed x |
| `Samples.InsertPos` | functions/TabulatedFunction.java:134-137 | the insertion scan stops at the first index whose x is not below x, and all earlier samples are below x |
| `Samples.InsertPosSplits` | functions/TabulatedFunction.java:134-137 | for a new x in an ascending sequence, a sample comes before the insertion index exactly when its x is smaller |
| `Samples.InsertLayout` | functions/TabulatedFunction.java:140-141 | after insertion the earlier samples are in place, the new point is at the insertion index and the later ones are shifted up by one |
| `Samples.InsertMultiset` | functions/TabulatedFunction.java:140-141 | insertion adds exactly the new point to the samples |
| `Samples.FillGap` | functions/TabulatedFunction.java:140-141 | shifting the tail up and storing the point in the gap gives the old samples with the point spliced in |
| `Samples.InsertKeepsOrder` | functions/TabulatedFunction.java:133-142 | inserting at a new x places the point after every smaller x and before every larger x, adds exactly that point, and keeps the order strict |
| `Tabulated.TabulatedFunction.WithCount` | functions/TabulatedFunction.java:9-19 | fails with InvalidArgument exactly when fewer than 2 points are asked for; otherwise count is the request, capacity is twice it, and point i is (leftX + step·i, 0) |
| `Tabulated.TabulatedFunction.WithValues` | functions/TabulatedFunction.java:21-31 | fails with InvalidArgument exactly when fewer than 2 values are given; otherwise count is their number, capacity is twice it, and point i is (leftX + step·i, values[i]) |
| `Tabulated.TabulatedFunction.GetLeftLimit` | functions/TabulatedFunction.java:33 | the first sample's x, which is the smallest x |
| `Tabulated.TabulatedFunction.GetRightLimit` | functions/TabulatedFunction.java:34 | the last sample's x, which is the largest x |
| `Tabulated.TabulatedFunction.GetPointsCount` | functions/TabulatedFunction.java:62-64 | the number of samples, which is never below 2 |
| `Tabulated.TabulatedFunction.GetPointX` | functions/TabulatedFunction.java:90-92 | the x of sample index, and exactly the samples before it have a smaller x |
| `Tabulated.TabulatedFunction.GetPointY` | functions/TabulatedFunction.java:98-100 | the y of sample index, which is the function's value at that sample's x |
| `Tabulated.TabulatedFunction.GetPoint` | functions/TabulatedFunction.java:66-68 | a freshly allocated point equal to sample index |
| `Tabulated.TabulatedFunction.GetFunctionValue` | functions/TabulatedFunction.java:36-60 | the function value ValueAt of the samples at x; None exactly when x lies outside [left limit, right limit] |
| `Tabulated.TabulatedFunction.FindExact` | functions/TabulatedFunction.java:42-46 | the loop returns the index of the sample at x, or None when no sample has that x |
| `Tabulated.TabulatedFunction.FindInterval` | functions/TabulatedFunction.java:49-52 | for x inside the domain and at no sample, the loop stops at the unique i with x_i < x < x_(i+1) |
| `Tabulated.TabulatedFunction.SetPoint` | functions/TabulatedFunction.java:70-88 | the slot takes a copy of the point exactly when the samples stay strictly ascending; otherwise nothing changes; the invariant holds afterwards |
| `Tabulated.TabulatedFunction.SetPointX` | functions/TabulatedFunction.java:94-96 | the sample moves to the new x with its y kept exactly when the order is kept; otherwise nothing changes |
| `Tabulated.TabulatedFunction.SetPointY` | functions/TabulatedFunction.java:102-104 | only that sample's y changes; count, every x and every other sample are unchanged |
| `Tabulated.TabulatedFunction.DeletePoint` | functions/TabulatedFunction.java:106-113 | a no-op when count ≤ 2; otherwise the samples lose exactly the one at index and count drops by 1; the invariant holds afterwards |
| `Tabulated.TabulatedFunction.ShiftLeft` | functions/TabulatedFunction.java:108-110 | the loop moves the tail down over the removed slot |
| `Tabulated.TabulatedFunction.AddPoint` | functions/TabulatedFunction.java:115-143 | at an existing x, count stays and that sample takes the point's y; at a new x, count grows by 1 and the point is spliced in before the first larger x; capacity grows by half exactly when the array was full; the invariant holds afterwards |
| `Tabulated.TabulatedFunction.Splice` | functions/TabulatedFunction.java:126-142 | for a new x: grows when full, then inserts in sorted position, keeping the invariant |
| `Tabulated.TabulatedFunction.Grow` | functions/TabulatedFunction.java:127-131 | the new array has length len + len/2, which exceeds count, and holds the same samples |
| `Tabulated.TabulatedFunction.InsertIndex` | functions/TabulatedFunction.java:134-137 | the loop returns the first index whose x is not below x |
| `Tabulated.TabulatedFunction.InsertAt` | functions/TabulatedFunction.java:140-142 | the tail moves up by one, the point fills the gap and count grows by 1 |
| `Demo.EditCopy` | functions/TabulatedFunction.java:66-68 | setting y on the copy that GetPoint returns leaves the container and its array unchanged |
| `Demo.Build` | Main.java:6-7 | eight values on [2, 9] give samples at x = 2, 3, …, 9 |
| `Demo.BuildAndEdit` | Main.java:13-19 | after deletePoint(2) and addPoint((0, -1)) the samples are (0,-1), (2,1), (3,3), (5,2), (6,6), (7,7), (8,26), (9,8) |
| `Demo.QueriesBetween` | Main.java:21-30 | the value at 0.5 is -0.5 and at 7.5 is 16.5, by interpolation |
| `Demo.Queries` | Main.java:21-30 | the six queries give undefined, -0.5, 3, 16.5, 8 and undefined |
| `Demo.Replay` | Main.java:6-37 | the whole driver sequence: the six query results, then y = 100 at index 1 after setPoint, and limits [0, 9] |

## Left out

- Floating point: coordinates are `real`. The source's `Double.NaN` result is `None`. `Double.compare` equality is real equality, so -0.0 and +0.0 are not told apart. The rounding of `leftX + step * i` is not modelled, so the last grid point lands exactly on rightX.
- `printTabFun` (functions/TabulatedFunction.java:145-149) and all console output of `Main.java`: formatted printing is I/O.
- Tabulated.TabulatedFunction.WithCount: requires leftX < rightX. The source does not check this, and `Samples.GridAscending` shows that without it the grid breaks the ascending invariant from the start. The same holds for WithValues.
- Tabulated.TabulatedFunction.WithValues: the Java constructors become static methods that return a `Result`, since a Dafny constructor cannot fail. The spare slots of the backing array hold a placeholder point instead of Java's `null`.
- Tabulated.TabulatedFunction.DeletePoint: requires index < count. The source never checks the index: with count > 2 and index ≥ count its loop does nothing but the last sample is still dropped. That accident is not modelled.
- Tabulated.TabulatedFunction.DeletePoint: the source sets the vacated slot to `null` for the garbage collector. The model leaves the stale value there. It is outside `points[..count]` and never observable.
- Index operations (`getPoint`, `getPointX`, `getPointY`, `setPoint`, `setPointX`, `setPointY`) require `index < count`. The source has no error path for a bad index: some bad indexes throw `ArrayIndexOutOfBoundsException` or read a `null` slot, others are silent no-ops (`setPoint(count, p)` with p.x not above the last x fails its first comparison at functions/TabulatedFunction.java:84 and stores nothing; `deletePoint` returns early at line 107 for any index while count ≤ 2).
- Integer width: `2 * count` and `len + len / 2` are unbounded here. Java `int` overflow at more than about 10⁹ points is not modelled.
- Tabulated.TabulatedFunction.SetPointY: replaces the stored value where the source mutates the stored `FunctionPoint` in place. Slots never share objects, so no other slot or outside reference can observe the difference.
