/** The tabulated function container (functions/TabulatedFunction.java): a
    dynamic array of samples with spare capacity and a logical count, kept
    strictly ascending in x by every operation. */
module Tabulated {
  import opened Wrappers
  import opened Points
  import opened Samples

  class TabulatedFunction {
    /** Backing storage; only the first `count` slots hold samples. */
    var points: array<Point>
    /** Number of samples currently held. */
    var count: nat

    /** The container's invariant: at least two samples, no more than the
        capacity, strictly ascending in x. */
    ghost predicate Valid()
      reads this, points
    {
      2 <= count <= points.Length && Ascending(points[..count])
    }

    /** The samples, in storage order. */
    ghost function Contents(): seq<Point>
      reads this, points
      requires Valid()
    {
      points[..count]
    }

    /** Takes ownership of a filled backing array. */
    constructor Wrap(a: array<Point>, n: nat)
      requires 2 <= n <= a.Length && Ascending(a[..n])
      ensures Valid() && points == a && count == n && Contents() == a[..n]
    {
      points := a;
      count := n;
    }

    /** `pointCount` samples evenly spaced over [leftX, rightX], all with
        y = 0, in a backing array of twice that capacity; fewer than two
        points is an InvalidArgument. */
    static method WithCount(leftX: real, rightX: real, pointCount: int) returns (r: Result<TabulatedFunction>)
      requires leftX < rightX
      ensures r.Failure? <==> pointCount < 2
      ensures r.Failure? ==> r.error == InvalidArgument
      ensures r.Success? ==> fresh(r.value) && fresh(r.value.points) && r.value.Valid()
      ensures r.Success? ==> r.value.count == pointCount && r.value.points.Length == 2 * pointCount
      ensures r.Success? ==> r.value.Contents() == Grid(leftX, rightX, Zeros(pointCount))
    {
      if pointCount < 2 {
        return Failure(InvalidArgument);
      }
      var n: nat := pointCount;
      var a := new Point[2 * n](_ => Point(0.0, 0.0));
      var step := Step(leftX, rightX, n);
      ghost var g := Grid(leftX, rightX, Zeros(n));
      for i := 0 to n
        invariant forall k :: 0 <= k < i ==> a[k] == g[k]
      {
        GridAt(leftX, rightX, Zeros(n), i);
        a[i] := Point(leftX + step * i as real, 0.0);
      }
      GridAscending(leftX, rightX, Zeros(n));
      assert a[..n] == g;
      var f := new TabulatedFunction.Wrap(a, n);
      return Success(f);
    }

    /** One sample per value, evenly spaced over [leftX, rightX], in a
        backing array of twice that capacity; fewer than two values is an
        InvalidArgument. */
    static method WithValues(leftX: real, rightX: real, values: seq<real>) returns (r: Result<TabulatedFunction>)
      requires leftX < rightX
      ensures r.Failure? <==> |values| < 2
      ensures r.Failure? ==> r.error == InvalidArgument
      ensures r.Success? ==> fresh(r.value) && fresh(r.value.points) && r.value.Valid()
      ensures r.Success? ==> r.value.count == |values| && r.value.points.Length == 2 * |values|
      ensures r.Success? ==> r.value.Contents() == Grid(leftX, rightX, values)
    {
      if |values| < 2 {
        return Failure(InvalidArgument);
      }
      var n := |values|;
      var a := new Point[2 * n](_ => Point(0.0, 0.0));
      var step := Step(leftX, rightX, n);
      ghost var g := Grid(leftX, rightX, values);
      for i := 0 to n
        invariant forall k :: 0 <= k < i ==> a[k] == g[k]
      {
        GridAt(leftX, rightX, values, i);
        a[i] := Point(leftX + step * i as real, values[i]);
      }
      GridAscending(leftX, rightX, values);
      assert a[..n] == g;
      var f := new TabulatedFunction.Wrap(a, n);
      return Success(f);
    }

    /** The left end of the domain: the smallest x of all samples. */
    function GetLeftLimit(): (r: real)
      reads this, points
      requires Valid()
      ensures r == Contents()[0].x
      ensures forall i :: 0 <= i < |Contents()| ==> r <= Contents()[i].x
    {
      points[0].x
    }

    /** The right end of the domain: the largest x of all samples. */
    function GetRightLimit(): (r: real)
      reads this, points
      requires Valid()
      ensures r == Contents()[|Contents()| - 1].x
      ensures forall i :: 0 <= i < |Contents()| ==> Contents()[i].x <= r
    {
      points[count - 1].x
    }

    /** The number of samples, never below two. */
    function GetPointsCount(): (r: nat)
      reads this, points
      requires Valid()
      ensures r == |Contents()| && r >= 2
    {
      count
    }

    /** The x of sample `index`, which is also its rank: exactly the samples
        before it have a smaller x. */
    function GetPointX(index: nat): (r: real)
      reads this, points
      requires Valid() && index < count
      ensures r == Contents()[index].x
      ensures forall j :: 0 <= j < |Contents()| ==> (Contents()[j].x < r <==> j < index)
    {
      points[index].x
    }

    /** The y of sample `index`: the function's value at that sample's x. */
    function GetPointY(index: nat): (r: real)
      reads this, points
      requires Valid() && index < count
      ensures r == Contents()[index].y
      ensures ValueAt(Contents(), GetPointX(index)) == Some(r)
    {
      points[index].y
    }

    /** A fresh copy of sample `index`; changing it cannot reach the container. */
    method GetPoint(index: nat) returns (p: FunctionPoint)
      requires Valid() && index < count
      ensures fresh(p) && p.Value() == Contents()[index]
    {
      p := new FunctionPoint(points[index].x, points[index].y);
    }

    /** The function value at x: None (the source's NaN) outside
        [left limit, right limit], the stored y on an exact match, the
        linear interpolation in the bracketing interval otherwise. */
    method GetFunctionValue(x: real) returns (r: Option<real>)
      requires Valid()
      ensures r == ValueAt(Contents(), x)
      ensures r.None? <==> x < GetLeftLimit() || x > GetRightLimit()
    {
      if x < points[0].x || x > points[count - 1].x {
        return None;
      }
      ghost var s := Contents();
      var found := FindExact(x);
      if found.Some? {
        assert ValueAt(s, x) == Some(s[found.value].y);
        return Some(points[found.value].y);
      }
      var i := FindInterval(x);
      assert ValueAt(s, x) == Some(Lerp(s[i], s[i + 1], x));
      return Some(Lerp(points[i], points[i + 1], x));
    }

    /** The exact-match scan: the index of the sample whose x is x, if any. */
    method FindExact(x: real) returns (r: Option<nat>)
      requires Valid()
      ensures r == Find(Contents(), x)
      ensures r.Some? ==> r.value < count && points[r.value].x == x
      ensures r.None? ==> forall k :: 0 <= k < count ==> points[k].x != x
    {
      for i := 0 to count
        invariant forall k :: 0 <= k < i ==> points[k].x != x
      {
        if points[i].x == x {
          FindUnique(Contents(), i);
          return Some(i);
        }
      }
      return None;
    }

    /** The interval scan: the i with x strictly inside (x_i, x_(i+1)), for an
        x strictly inside the domain that matches no sample. */
    method FindInterval(x: real) returns (i: nat)
      requires Valid() && points[0].x < x < points[count - 1].x
      requires forall k :: 0 <= k < count ==> points[k].x != x
      ensures i == Bracket(Contents(), x)
      ensures i + 1 < count && points[i].x < x < points[i + 1].x
    {
      ghost var s := Contents();
      i := 0;
      while i < count - 1 && points[i + 1].x < x
        invariant i + 1 < count
        invariant points[i].x < x
        invariant BracketFrom(s, x, i) == Bracket(s, x)
      {
        i := i + 1;
      }
      assert BracketFrom(s, x, i) == i by {
        assert s[i + 1].x >= x;
      }
    }

    /** Replaces sample `index` by a copy of `point` when the neighbour check
        admits its x, which is exactly when the samples stay strictly
        ascending; otherwise silently leaves everything as it was. */
    method SetPoint(index: nat, point: FunctionPoint)
      requires Valid() && index < count
      modifies points
      ensures Valid()
      ensures Contents() == if Ascending(old(Contents())[index := point.Value()])
                            then old(Contents())[index := point.Value()]
                            else old(Contents())
    {
      ghost var s := Contents();
      AdmitsExactly(s, index, point.Value());
      var newX := point.x;
      if index == 0 {
        if newX < points[1].x {
          points[index] := point.Value();
        }
      } else if index == count - 1 {
        if newX > points[count - 2].x {
          points[index] := point.Value();
        }
      } else {
        if points[index - 1].x < newX && newX < points[index + 1].x {
          points[index] := point.Value();
        }
      }
      assert points[..count] == if Admits(s, index, newX) then s[index := point.Value()] else s;
    }

    /** Moves sample `index` to x, keeping its y, when that keeps the samples
        strictly ascending (the neighbour check of SetPoint); otherwise
        nothing changes. */
    method SetPointX(index: nat, x: real)
      requires Valid() && index < count
      modifies points
      ensures Valid()
      ensures var s := old(Contents());
              var moved := s[index := Point(x, s[index].y)];
              Contents() == if Ascending(moved) then moved else s
    {
      var p := new FunctionPoint(x, points[index].y);
      SetPoint(index, p);
    }

    /** Changes the y of sample `index`; no check is needed since y plays no
        part in the order. */
    method SetPointY(index: nat, y: real)
      requires Valid() && index < count
      modifies points
      ensures Valid()
      ensures Contents() == old(Contents())[index := Point(old(Contents())[index].x, y)]
    {
      ghost var s := Contents();
      points[index] := points[index].(y := y);
      assert forall k :: 0 <= k < count ==> points[..count][k].x == s[k].x;
    }

    /** Removes sample `index`, shifting the later ones down, unless only two
        samples are left, in which case nothing changes. */
    method DeletePoint(index: nat)
      requires Valid() && index < count
      modifies this, points
      ensures Valid() && points == old(points)
      ensures old(count) <= 2 ==> count == old(count) && Contents() == old(Contents())
      ensures old(count) > 2 ==> count == old(count) - 1 && Contents() == Remove(old(Contents()), index)
    {
      if count <= 2 {
        return;
      }
      ghost var s := Contents();
      ShiftLeft(index);
      count := count - 1;
      assert points[..count] == Remove(s, index);
      RemoveKeepsOrder(s, index);
    }

    /** Moves slots index+1 .. count-1 down by one, over slot `index`
        (the loop of deletePoint). */
    method ShiftLeft(index: nat)
      requires index < count <= points.Length
      modifies points
      ensures points[..count - 1] == Remove(old(points[..count]), index)
    {
      ghost var s := points[..count];
      var i := index;
      while i < count - 1
        invariant index <= i <= count - 1
        invariant forall k :: 0 <= k < index ==> points[k] == s[k]
        invariant forall k :: index <= k < i ==> points[k] == s[k + 1]
        invariant forall k :: i <= k < count ==> points[k] == s[k]
      {
        points[i] := points[i + 1];
        i := i + 1;
      }
      assert points[..count - 1] == Remove(s, index);
    }

    /** Shifts slots k .. count-1 up by one (the System.arraycopy of
        addPoint, which copies as if through a buffer), stores p in the freed
        slot and counts it. */
    method InsertAt(k: nat, p: Point)
      requires k <= count < points.Length
      modifies this, points
      ensures points == old(points) && count == old(count) + 1
      ensures points[..count] == old(points[..count])[..k] + [p] + old(points[..count])[k..]
    {
      ghost var s := points[..count];
      var j := count;
      while j > k
        modifies points
        invariant k <= j <= count
        invariant forall i :: 0 <= i < j ==> points[i] == s[i]
        invariant forall i :: j < i <= count ==> points[i] == s[i - 1]
      {
        points[j] := points[j - 1];
        j := j - 1;
      }
      ghost var t := points[..count + 1];
      assert t[..k] == s[..k];
      assert t[k + 1..] == s[k..];
      points[k] := p;
      count := count + 1;
      assert points[..count] == t[k := p];
      FillGap(s, t, k, p);
    }

    /** Where a point at x belongs: the first index whose x is not below x
        (the insertion scan of addPoint). */
    method InsertIndex(x: real) returns (k: nat)
      requires Valid()
      ensures k == InsertPos(Contents(), x)
      ensures k <= count
      ensures forall j :: 0 <= j < count ==> (points[j].x < x <==> j < k)
    {
      k := 0;
      while k < count && points[k].x < x
        invariant 0 <= k <= count
        invariant forall j :: 0 <= j < k ==> points[j].x < x
      {
        k := k + 1;
      }
    }

    /** Replaces a full backing array by one half again as large holding the
        same samples. */
    method Grow()
      requires Valid() && count == points.Length
      modifies this
      ensures Valid() && fresh(points) && count == old(count) && Contents() == old(Contents())
      ensures points.Length == old(points.Length) + old(points.Length) / 2 > count
    {
      var grown := new Point[points.Length + points.Length / 2](_ => Point(0.0, 0.0));
      for j := 0 to count
        modifies grown
        invariant forall k :: 0 <= k < j ==> grown[k] == points[k]
      {
        grown[j] := points[j];
      }
      assert grown[..count] == points[..count];
      points := grown;
    }

    /** Adds a copy of `point`. At an x already present it only replaces that
        sample's y (through SetPoint); at a new x it grows the capacity by half
        when full, then splices the point in before the first larger x. */
    method AddPoint(point: FunctionPoint)
      requires Valid()
      modifies this, points
      ensures Valid()
      ensures Find(old(Contents()), point.x).Some? ==>
                points == old(points) && count == old(count) &&
                Contents() == old(Contents())[Find(old(Contents()), point.x).value := point.Value()]
      ensures Find(old(Contents()), point.x).None? ==>
                count == old(count) + 1 && Contents() == Insert(old(Contents()), point.Value())
      ensures Find(old(Contents()), point.x).None? && old(count) == old(points.Length) ==>
                fresh(points) && points.Length == old(points.Length) + old(points.Length) / 2
      ensures Find(old(Contents()), point.x).None? && old(count) < old(points.Length) ==>
                points == old(points)
    {
      ghost var s := Contents();
      var found := FindExact(point.x);
      if found.Some? {
        SameXKeepsOrder(s, found.value, point.y);
        SetPoint(found.value, point);
        return;
      }
      Splice(point.Value());
    }

    /** The insertion half of addPoint, for an x not yet present: grow when
        full, scan for the first larger x, shift the tail up, store the point. */
    method Splice(p: Point)
      requires Valid() && Find(Contents(), p.x).None?
      modifies this, points
      ensures Valid()
      ensures count == old(count) + 1 && Contents() == Insert(old(Contents()), p)
      ensures old(count) == old(points.Length) ==>
                fresh(points) && points.Length == old(points.Length) + old(points.Length) / 2
      ensures old(count) < old(points.Length) ==> points == old(points)
    {
      ghost var s := Contents();
      if count >= points.Length {
        Grow();
      }
      var insertIndex := InsertIndex(p.x);
      InsertAt(insertIndex, p);
      InsertKeepsOrder(s, p);
    }
  }
}
