/** The abstract content of a tabulated function: the sequence of its samples
    in storage order, and the pure definitions every operation on the
    container is specified against (functions/TabulatedFunction.java). */
module Samples {
  import opened Wrappers
  import opened Points

  /** The container's invariant on its samples: x strictly ascending, so no
      two samples share an x. */
  predicate Ascending(s: seq<Point>)
  {
    forall i, j :: 0 <= i < j < |s| ==> s[i].x < s[j].x
  }

  // ---------------------------------------------------------------------
  // Construction on a uniform grid
  // ---------------------------------------------------------------------

  /** Distance between neighbouring grid points when `n` points span
      [leftX, rightX]. */
  function Step(leftX: real, rightX: real, n: nat): real
    requires n >= 2
  {
    (rightX - leftX) / (n - 1) as real
  }

  /** The samples both constructors produce: the first at leftX, each next
      one exactly Step further right, sample i carrying ys[i]. */
  function Grid(leftX: real, rightX: real, ys: seq<real>): (s: seq<Point>)
    requires |ys| >= 2
    ensures |s| == |ys| && s[0].x == leftX
    ensures forall i :: 0 < i < |s| ==> s[i].x - s[i - 1].x == Step(leftX, rightX, |ys|)
    ensures forall i :: 0 <= i < |s| ==> s[i].y == ys[i]
  {
    seq(|ys|, i requires 0 <= i < |ys| => Point(leftX + Step(leftX, rightX, |ys|) * i as real, ys[i]))
  }

  /** Closed form of the grid: sample i sits at leftX + Step * i. */
  lemma GridAt(leftX: real, rightX: real, ys: seq<real>, i: nat)
    requires |ys| >= 2 && i < |ys|
    ensures Grid(leftX, rightX, ys)[i] == Point(leftX + Step(leftX, rightX, |ys|) * i as real, ys[i])
  {
  }

  /** The y values of the grid constructor that takes only a count: n
      samples, every one of them 0. */
  function Zeros(n: nat): (ys: seq<real>)
    ensures |ys| == n && forall v :: v in ys ==> v == 0.0
  {
    seq(n, _ => 0.0)
  }

  /** The grid starts at leftX and ends exactly at rightX. */
  lemma GridEnds(leftX: real, rightX: real, ys: seq<real>)
    requires |ys| >= 2
    ensures Grid(leftX, rightX, ys)[0].x == leftX
    ensures Grid(leftX, rightX, ys)[|ys| - 1].x == rightX
  {
    var m := (|ys| - 1) as real;
    assert Step(leftX, rightX, |ys|) * m == rightX - leftX;
  }

  /** A grid is strictly ascending exactly when its bounds are in order. */
  lemma GridAscending(leftX: real, rightX: real, ys: seq<real>)
    requires |ys| >= 2
    ensures Ascending(Grid(leftX, rightX, ys)) <==> leftX < rightX
  {
    var s := Grid(leftX, rightX, ys);
    var step := Step(leftX, rightX, |ys|);
    GridEnds(leftX, rightX, ys);
    if leftX < rightX {
      assert step > 0.0;
      forall i, j | 0 <= i < j < |s| ensures s[i].x < s[j].x {
        GridPairAscending(leftX, rightX, ys, i, j);
      }
    } else {
      assert !(s[0].x < s[|s| - 1].x);
    }
  }

  lemma GridPairAscending(leftX: real, rightX: real, ys: seq<real>, i: nat, j: nat)
    requires |ys| >= 2 && leftX < rightX && i < j < |ys|
    ensures Grid(leftX, rightX, ys)[i].x < Grid(leftX, rightX, ys)[j].x
  {
    var s := Grid(leftX, rightX, ys);
    var step := Step(leftX, rightX, |ys|);
    assert step > 0.0;
    GridAt(leftX, rightX, ys, i);
    GridAt(leftX, rightX, ys, j);
    StepMonotone(step, i as real, j as real);
    calc {
      s[i].x;
    ==
      leftX + step * i as real;
    <
      leftX + step * j as real;
    ==
      s[j].x;
    }
  }

  lemma StepMonotone(step: real, a: real, b: real)
    requires step > 0.0 && a < b
    ensures step * a < step * b
  {
    assert step * b - step * a == step * (b - a);
  }

  // ---------------------------------------------------------------------
  // Lookup
  // ---------------------------------------------------------------------

  /** Index of the first sample whose x equals `x` (the source's exact-match
      scan), or None when no sample has that x. */
  function Find(s: seq<Point>, x: real): (r: Option<nat>)
    ensures r.Some? ==> r.value < |s| && s[r.value].x == x
    ensures r.Some? ==> forall j :: 0 <= j < r.value ==> s[j].x != x
    ensures r.None? <==> forall j :: 0 <= j < |s| ==> s[j].x != x
  {
    if s == [] then None
    else if s[0].x == x then Some(0)
    else match Find(s[1..], x)
      case Some(k) => Some(k + 1)
      case None => None
  }

  /** In an ascending sequence an x names at most one sample, so Find
      returns the index of any sample carrying x. */
  lemma FindUnique(s: seq<Point>, k: nat)
    requires Ascending(s) && k < |s|
    ensures Find(s, s[k].x) == Some(k)
  {
  }

  /** The bracketing interval scan, started at `i`: move right while the next
      sample's x is still below `x`. */
  function BracketFrom(s: seq<Point>, x: real, i: nat): (j: nat)
    requires i + 1 < |s| && s[i].x < x < s[|s| - 1].x
    ensures i <= j && j + 1 < |s| && s[j].x < x <= s[j + 1].x
    decreases |s| - i
  {
    if s[i + 1].x < x then BracketFrom(s, x, i + 1) else i
  }

  /** The interval [j, j + 1] that the source interpolates in, for an x
      strictly inside the domain. */
  function Bracket(s: seq<Point>, x: real): (j: nat)
    requires |s| >= 2 && s[0].x < x < s[|s| - 1].x
    ensures j + 1 < |s| && s[j].x < x <= s[j + 1].x
  {
    BracketFrom(s, x, 0)
  }

  /** In an ascending sequence the bracketing interval is unique, so any
      search for it (linear or binary) finds the one the scan finds. */
  lemma BracketUnique(s: seq<Point>, x: real, k: nat)
    requires Ascending(s) && |s| >= 2 && s[0].x < x < s[|s| - 1].x
    requires k + 1 < |s| && s[k].x < x <= s[k + 1].x
    ensures Bracket(s, x) == k
  {
  }

  /** The straight line through samples a and b, evaluated at x. */
  function Lerp(a: Point, b: Point, x: real): (r: real)
    requires a.x != b.x
    ensures (r - a.y) * (b.x - a.x) == (b.y - a.y) * (x - a.x)
  {
    a.y + (b.y - a.y) * (x - a.x) / (b.x - a.x)
  }

  /** The line passes through both samples, so an exact match and an
      interpolation agree at the ends of an interval. */
  lemma LerpEndpoints(a: Point, b: Point)
    requires a.x != b.x
    ensures Lerp(a, b, a.x) == a.y && Lerp(a, b, b.x) == b.y
  {
    assert (b.y - a.y) * (b.x - a.x) / (b.x - a.x) == b.y - a.y;
  }

  /** Inside an interval the interpolated value lies between the two samples' y. */
  lemma LerpBetween(a: Point, b: Point, x: real)
    requires a.x < x < b.x
    ensures a.y <= b.y ==> a.y <= Lerp(a, b, x) <= b.y
    ensures b.y <= a.y ==> b.y <= Lerp(a, b, x) <= a.y
  {
    var d, u := b.x - a.x, x - a.x;
    var t := u / d;
    assert t * d == u;
    if t <= 0.0 { assert false; }
    if t >= 1.0 { assert false; }
    assert (b.y - a.y) * u / d == (b.y - a.y) * t;
    ScaleBetween(b.y - a.y, t);
  }

  lemma ScaleBetween(c: real, t: real)
    requires 0.0 < t < 1.0
    ensures c >= 0.0 ==> 0.0 <= c * t <= c
    ensures c <= 0.0 ==> c <= c * t <= 0.0
  {
    assert c - c * t == c * (1.0 - t);
  }

  /** The function value at x: undefined outside [first x, last x], the
      stored y on an exact match, the linear interpolation in the
      bracketing interval otherwise. */
  function ValueAt(s: seq<Point>, x: real): (r: Option<real>)
    requires |s| >= 2 && Ascending(s)
    ensures r.None? <==> x < s[0].x || x > s[|s| - 1].x
    ensures forall k :: 0 <= k < |s| && s[k].x == x ==> r == Some(s[k].y)
    ensures forall k :: 0 <= k < |s| - 1 && s[k].x < x < s[k + 1].x ==> r == Some(Lerp(s[k], s[k + 1], x))
  {
    if x < s[0].x || x > s[|s| - 1].x then None
    else match Find(s, x)
      case Some(k) =>
        FindUniqueAll(s, x);
        Some(s[k].y)
      case None =>
        var j := Bracket(s, x);
        BracketUniqueAll(s, x);
        Some(Lerp(s[j], s[j + 1], x))
  }

  lemma FindUniqueAll(s: seq<Point>, x: real)
    requires Ascending(s) && Find(s, x).Some?
    ensures forall k :: 0 <= k < |s| && s[k].x == x ==> k == Find(s, x).value
  {
    forall k | 0 <= k < |s| && s[k].x == x ensures k == Find(s, x).value {
      FindUnique(s, k);
    }
  }

  lemma BracketUniqueAll(s: seq<Point>, x: real)
    requires Ascending(s) && |s| >= 2 && s[0].x < x < s[|s| - 1].x
    ensures forall k :: 0 <= k < |s| - 1 && s[k].x < x < s[k + 1].x ==> k == Bracket(s, x)
  {
    forall k | 0 <= k < |s| - 1 && s[k].x < x < s[k + 1].x ensures k == Bracket(s, x) {
      BracketUnique(s, x, k);
    }
  }

  // ---------------------------------------------------------------------
  // Replacing a sample (setPoint)
  // ---------------------------------------------------------------------

  /** The source's neighbour check: may slot `index` take a point with x
      `newX`? Its three cases amount to one rule: newX lies strictly above
      the left neighbour, if any, and strictly below the right one, if any. */
  predicate Admits(s: seq<Point>, index: nat, newX: real): (ok: bool)
    requires 2 <= |s| && index < |s|
    ensures ok <==> (0 < index ==> s[index - 1].x < newX) && (index < |s| - 1 ==> newX < s[index + 1].x)
  {
    if index == 0 then newX < s[1].x
    else if index == |s| - 1 then newX > s[|s| - 2].x
    else s[index - 1].x < newX < s[index + 1].x
  }

  /** The neighbour check accepts a replacement exactly when the result is
      still strictly ascending: nothing valid is refused, nothing invalid
      is let through. */
  lemma AdmitsExactly(s: seq<Point>, index: nat, p: Point)
    requires 2 <= |s| && index < |s| && Ascending(s)
    ensures Admits(s, index, p.x) <==> Ascending(s[index := p])
  {
    var t := s[index := p];
    if Admits(s, index, p.x) {
      forall i, j | 0 <= i < j < |t| ensures t[i].x < t[j].x {
        if i == index {
          assert t[j].x >= s[index + 1].x by {
            if j > index + 1 { assert s[index + 1].x < s[j].x; }
          }
        } else if j == index {
          assert t[i].x <= s[index - 1].x by {
            if i < index - 1 { assert s[i].x < s[index - 1].x; }
          }
        }
      }
    } else {
      if index == 0 {
        assert !(t[0].x < t[1].x);
      } else if index == |s| - 1 {
        assert !(t[index - 1].x < t[index].x);
      } else if !(s[index - 1].x < p.x) {
        assert !(t[index - 1].x < t[index].x);
      } else {
        assert !(t[index].x < t[index + 1].x);
      }
    }
  }

  /** Replacing a sample by one at the same x keeps the order, and the
      neighbour check admits it. */
  lemma SameXKeepsOrder(s: seq<Point>, index: nat, y: real)
    requires 2 <= |s| && index < |s| && Ascending(s)
    ensures Ascending(s[index := Point(s[index].x, y)])
    ensures Admits(s, index, s[index].x)
  {
    var t := s[index := Point(s[index].x, y)];
    assert forall k :: 0 <= k < |t| ==> t[k].x == s[k].x;
    AdmitsExactly(s, index, Point(s[index].x, y));
  }

  // ---------------------------------------------------------------------
  // Removing a sample (deletePoint)
  // ---------------------------------------------------------------------

  /** The samples with the one at `index` taken out. */
  function Remove(s: seq<Point>, index: nat): seq<Point>
    requires index < |s|
  {
    s[..index] + s[index + 1..]
  }

  /** Removal keeps the order, keeps every other sample, and leaves no
      sample at the removed x. */
  lemma RemoveKeepsOrder(s: seq<Point>, index: nat)
    requires index < |s| && Ascending(s)
    ensures |Remove(s, index)| == |s| - 1
    ensures Ascending(Remove(s, index))
    ensures multiset(Remove(s, index)) + multiset{s[index]} == multiset(s)
    ensures forall k :: 0 <= k < |s| - 1 ==> Remove(s, index)[k].x != s[index].x
  {
    var r := Remove(s, index);
    assert forall k :: 0 <= k < index ==> r[k] == s[k];
    assert forall k :: index <= k < |r| ==> r[k] == s[k + 1];
    forall i, j | 0 <= i < j < |r| ensures r[i].x < r[j].x {
      var i' := if i < index then i else i + 1;
      var j' := if j < index then j else j + 1;
      assert r[i] == s[i'] && r[j] == s[j'];
    }
    forall k | 0 <= k < |r| ensures r[k].x != s[index].x {
      var k' := if k < index then k else k + 1;
      assert r[k] == s[k'];
    }
    assert s == s[..index] + [s[index]] + s[index + 1..];
  }

  // ---------------------------------------------------------------------
  // Inserting a sample (addPoint)
  // ---------------------------------------------------------------------

  /** The source's insertion scan: the first index whose x is not below `x`
      (|s| when there is none). */
  function InsertPos(s: seq<Point>, x: real): (k: nat)
    ensures k <= |s|
    ensures forall j :: 0 <= j < k ==> s[j].x < x
    ensures k < |s| ==> s[k].x >= x
  {
    if s == [] then 0
    else if s[0].x < x then 1 + InsertPos(s[1..], x)
    else 0
  }

  /** The samples with `p` spliced in where the insertion scan stops. */
  function Insert(s: seq<Point>, p: Point): seq<Point>
  {
    var k := InsertPos(s, p.x);
    s[..k] + [p] + s[k..]
  }

  /** Where the new point lands: every old sample before it, every old
      sample after it shifted up by one. */
  lemma InsertLayout(s: seq<Point>, p: Point)
    ensures |Insert(s, p)| == |s| + 1
    ensures Insert(s, p)[InsertPos(s, p.x)] == p
    ensures forall j :: 0 <= j < InsertPos(s, p.x) ==> Insert(s, p)[j] == s[j]
    ensures forall j :: InsertPos(s, p.x) < j <= |s| ==> Insert(s, p)[j] == s[j - 1]
  {
  }

  /** Insertion adds exactly the new point to the samples. */
  lemma InsertMultiset(s: seq<Point>, p: Point)
    ensures multiset(Insert(s, p)) == multiset(s) + multiset{p}
  {
    var k := InsertPos(s, p.x);
    var t := Insert(s, p);
    assert t == (s[..k] + [p]) + s[k..];
    calc {
      multiset(t);
      multiset(s[..k] + [p]) + multiset(s[k..]);
      multiset(s[..k]) + multiset{p} + multiset(s[k..]);
      { assert s == s[..k] + s[k..]; }
      multiset(s) + multiset{p};
    }
  }

  /** Filling the gap left at position k of a copy of `s` whose tail was
      shifted up by one yields s with p spliced in at k. */
  lemma FillGap(s: seq<Point>, t: seq<Point>, k: nat, p: Point)
    requires k <= |s| && |t| == |s| + 1
    requires t[..k] == s[..k] && t[k + 1..] == s[k..]
    ensures t[k := p] == s[..k] + [p] + s[k..]
  {
    forall i | 0 <= i < |t| ensures t[k := p][i] == (s[..k] + [p] + s[k..])[i] {
      if i < k {
        assert t[i] == t[..k][i];
      } else if i > k {
        assert t[i] == t[k + 1..][i - k - 1];
      }
    }
  }

  /** In an ascending sequence without a sample at x, the insertion scan
      stops exactly after the samples whose x is below x. */
  lemma InsertPosSplits(s: seq<Point>, x: real)
    requires Ascending(s) && Find(s, x).None?
    ensures forall j :: 0 <= j < |s| ==> (s[j].x < x <==> j < InsertPos(s, x))
  {
    var k := InsertPos(s, x);
    forall j | 0 <= j < |s| && j >= k ensures x < s[j].x {
      if j > k { assert s[k].x < s[j].x; }
    }
  }

  /** Inserting a point at a new x puts it after every smaller x and before
      every larger one, keeps all the old samples, and keeps the order. */
  lemma InsertKeepsOrder(s: seq<Point>, p: Point)
    requires Ascending(s) && Find(s, p.x).None?
    ensures |Insert(s, p)| == |s| + 1
    ensures Insert(s, p)[InsertPos(s, p.x)] == p
    ensures forall j :: 0 <= j < |s| ==> (s[j].x < p.x <==> j < InsertPos(s, p.x))
    ensures multiset(Insert(s, p)) == multiset(s) + multiset{p}
    ensures Ascending(Insert(s, p))
  {
    var k := InsertPos(s, p.x);
    var t := Insert(s, p);
    InsertLayout(s, p);
    InsertMultiset(s, p);
    InsertPosSplits(s, p.x);
    forall i, j | 0 <= i < j < |t| ensures t[i].x < t[j].x {
      var i' := if i < k then i else i - 1;
      var j' := if j <= k then j else j - 1;
      if j < k || k < i {
        assert t[i] == s[i'] && t[j] == s[j'];
      } else if j == k {
        assert t[i] == s[i];
      } else if i == k {
        assert t[j] == s[j - 1];
      } else {
        assert t[i] == s[i] && t[j] == s[j - 1];
      }
    }
  }
}
