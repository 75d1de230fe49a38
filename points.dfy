/** A single sample (x, y) of a tabulated function (functions/FunctionPoint.java). */
module Points {

  /** The value of a sample. The container only ever stores and hands out
      copies, so a sample inside it is modelled as an immutable value. */
  datatype Point = Point(x: real, y: real)

  /** The mutable point object that crosses the container's interface. */
  class FunctionPoint {
    var x: real
    var y: real

    /** The point (0, 0). */
    constructor Origin()
      ensures Value() == Point(0.0, 0.0)
    {
      x := 0.0;
      y := 0.0;
    }

    /** The point with exactly the given coordinates. */
    constructor (x: real, y: real)
      ensures Value() == Point(x, y)
    {
      this.x := x;
      this.y := y;
    }

    /** A new point with the same coordinates as `other`; the two share nothing. */
    constructor Copy(other: FunctionPoint)
      ensures Value() == other.Value()
    {
      x := other.x;
      y := other.y;
    }

    /** The coordinates this object currently holds, as a value. */
    function Value(): Point
      reads this
    {
      Point(x, y)
    }

    /** The point's current x. */
    function GetX(): (r: real)
      reads this
      ensures r == Value().x
    {
      x
    }

    /** The point's current y. */
    function GetY(): (r: real)
      reads this
      ensures r == Value().y
    {
      y
    }

    /** Moves the point horizontally; its y is left alone. */
    method SetX(v: real)
      modifies this
      ensures GetX() == v && GetY() == old(GetY())
    {
      x := v;
    }

    /** Moves the point vertically; its x is left alone. */
    method SetY(v: real)
      modifies this
      ensures GetY() == v && GetX() == old(GetX())
    {
      y := v;
    }
  }
}
