/** Clients of the container: the call sequence of the demonstration driver
    (Main.java) and the copy guarantee of getPoint. */
module Demo {
  import opened Wrappers
  import opened Points
  import opened Samples
  import opened Tabulated

  /** Editing the copy that GetPoint hands out never reaches the container. */
  method EditCopy(f: TabulatedFunction, index: nat, y: real) returns (p: FunctionPoint)
    requires f.Valid() && index < f.count
    ensures p.GetY() == y && p.GetX() == f.Contents()[index].x
    ensures unchanged(f, f.points)
  {
    p := f.GetPoint(index);
    p.SetY(y);
  }

  /** The samples built from the driver's eight values on [2, 9]: step 1. */
  lemma BuiltSamples()
    ensures Grid(2.0, 9.0, [1.0, 3.0, 5.0, 2.0, 6.0, 7.0, 26.0, 8.0]) ==
            [Point(2.0, 1.0), Point(3.0, 3.0), Point(4.0, 5.0), Point(5.0, 2.0),
             Point(6.0, 6.0), Point(7.0, 7.0), Point(8.0, 26.0), Point(9.0, 8.0)]
  {
    assert Step(2.0, 9.0, 8) == 1.0;
  }

  /** Deleting index 2 (x = 4) leaves the tail of the edited samples. */
  lemma DeletedSamples()
    ensures Remove([Point(2.0, 1.0), Point(3.0, 3.0), Point(4.0, 5.0), Point(5.0, 2.0),
                    Point(6.0, 6.0), Point(7.0, 7.0), Point(8.0, 26.0), Point(9.0, 8.0)], 2) == Edited()[1..]
  {
  }

  /** (0, -1) is at a new x and lands in front. */
  lemma AddedSample()
    ensures Find(Edited()[1..], 0.0).None?
    ensures Insert(Edited()[1..], Point(0.0, -1.0)) == Edited()
  {
    var s1 := Edited()[1..];
    assert forall k :: 0 <= k < |s1| ==> s1[k].x > 0.0;
    assert InsertPos(s1, 0.0) == 0;
  }

  function Edited(): seq<Point>
  {
    [Point(0.0, -1.0), Point(2.0, 1.0), Point(3.0, 3.0), Point(5.0, 2.0),
     Point(6.0, 6.0), Point(7.0, 7.0), Point(8.0, 26.0), Point(9.0, 8.0)]
  }

  lemma EditedAscending()
    ensures Ascending(Edited())
  {
  }

  /** Queries outside [0, 9] are undefined. */
  lemma QueriesOutside()
    ensures Ascending(Edited())
    ensures ValueAt(Edited(), -1.0) == None && ValueAt(Edited(), 10.0) == None
  {
    EditedAscending();
  }

  /** Queries at sample x values return the stored y. */
  lemma QueriesExact()
    ensures Ascending(Edited())
    ensures ValueAt(Edited(), 3.0) == Some(3.0) && ValueAt(Edited(), 9.0) == Some(8.0)
  {
    EditedAscending();
    var s := Edited();
    assert s[2].x == 3.0 && s[7].x == 9.0;
  }

  /** Queries between samples interpolate: a quarter of the way from
      (0, -1) to (2, 1) gives -0.5, halfway from (7, 7) to (8, 26) gives 16.5. */
  lemma QueriesBetween()
    ensures Ascending(Edited())
    ensures ValueAt(Edited(), 0.5) == Some(-0.5) && ValueAt(Edited(), 7.5) == Some(16.5)
  {
    EditedAscending();
    var s := Edited();
    assert s[0].x < 0.5 < s[1].x && s[5].x < 7.5 < s[6].x;
    assert Lerp(s[0], s[1], 0.5) == -0.5;
    assert Lerp(s[5], s[6], 7.5) == 16.5;
  }

  /** The driver's starting point: eight values on [2, 9]. */
  method Build() returns (f: TabulatedFunction)
    ensures fresh(f) && fresh(f.points) && f.Valid()
    ensures f.Contents() == [Point(2.0, 1.0), Point(3.0, 3.0), Point(4.0, 5.0), Point(5.0, 2.0),
                             Point(6.0, 6.0), Point(7.0, 7.0), Point(8.0, 26.0), Point(9.0, 8.0)]
  {
    var r := TabulatedFunction.WithValues(2.0, 9.0, [1.0, 3.0, 5.0, 2.0, 6.0, 7.0, 26.0, 8.0]);
    f := r.value;
    BuiltSamples();
  }

  /** The function the driver queries: the sample at index 2 (x = 4)
      deleted, then (0, -1) added in front. */
  method BuildAndEdit() returns (f: TabulatedFunction)
    ensures fresh(f) && fresh(f.points) && f.Valid() && f.Contents() == Edited()
  {
    f := Build();
    DeletedSamples();
    AddedSample();
    f.DeletePoint(2);
    assert f.Contents() == Edited()[1..];
    var p := new FunctionPoint(0.0, -1.0);
    f.AddPoint(p);
  }

  /** The six queries of the driver on the edited function. */
  method Queries(f: TabulatedFunction) returns (queries: seq<Option<real>>)
    requires f.Valid() && f.Contents() == Edited()
    ensures queries == [None, Some(-0.5), Some(3.0), Some(16.5), Some(8.0), None]
  {
    QueriesOutside();
    QueriesExact();
    QueriesBetween();
    var v0 := f.GetFunctionValue(-1.0);
    var v1 := f.GetFunctionValue(0.5);
    var v2 := f.GetFunctionValue(3.0);
    var v3 := f.GetFunctionValue(7.5);
    var v4 := f.GetFunctionValue(9.0);
    var v5 := f.GetFunctionValue(10.0);
    queries := [v0, v1, v2, v3, v4, v5];
  }

  /** The driver's sequence: build and edit, query six x values, then move
      sample 1 to (1, 100), which lies strictly between its neighbours' x
      (0 and 3), and read the limits. */
  method Replay() returns (queries: seq<Option<real>>, movedY: real, left: real, right: real)
    ensures queries == [None, Some(-0.5), Some(3.0), Some(16.5), Some(8.0), None]
    ensures movedY == 100.0 && left == 0.0 && right == 9.0
  {
    var f := BuildAndEdit();
    queries := Queries(f);
    var q := new FunctionPoint(1.0, 100.0);
    assert Admits(Edited(), 1, 1.0);
    f.SetPoint(1, q);
    assert f.Contents()[1] == Point(1.0, 100.0);
    assert f.Contents()[0].x == 0.0 && f.Contents()[7].x == 9.0;
    movedY := f.GetPointY(1);
    left := f.GetLeftLimit();
    right := f.GetRightLimit();
  }
}
