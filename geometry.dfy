/** The geometry primitives: a mutable point and a mutable axis-aligned
    rectangle that caches its second corner. */
module Geometry {
  import opened Wrappers

  /** A point whose coordinates can be overwritten in place. */
  class Point {
    var x: real
    var y: real

    constructor(x: real, y: real)
      ensures GetX() == x && GetY() == y
    {
      this.x := x;
      this.y := y;
    }

    function GetX(): real
      reads this
    {
      x
    }

    function GetY(): real
      reads this
    {
      y
    }

    /** Two points are equal when both coordinates are. */
    predicate Equals(p: Point)
      reads this, p
      ensures Equals(p) <==> GetX() == p.GetX() && GetY() == p.GetY()
    {
      p.x == x && p.y == y
    }

    /** Overwrites both coordinates. */
    method SetLocation(x: real, y: real)
      modifies this
      ensures GetX() == x && GetY() == y
    {
      this.x := x;
      this.y := y;
    }
  }

  /** Point equality is an equivalence relation. */
  lemma PointEqualsIsEquivalence(p: Point, q: Point, r: Point)
    ensures p.Equals(p)
    ensures p.Equals(q) ==> q.Equals(p)
    ensures p.Equals(q) && q.Equals(r) ==> p.Equals(r)
  {
  }

  /** The optional fields a rectangle is built from; a missing one reads as 0. */
  datatype RectangleProps = RectangleProps(
    x: Option<real>, y: Option<real>, height: Option<real>, width: Option<real>)

  /** No fields at all: `new Rectangle()`. */
  const NoProps := RectangleProps(None, None, None, None)

  const InvalidSize := "Rectangle has invalid size"

  /** An axis-aligned rectangle; `x2`/`y2` cache its second corner. */
  class Rectangle {
    var x: real
    var y: real
    var height: real
    var width: real
    var x2: real
    var y2: real

    /** The cached second corner agrees with the four public fields. */
    predicate SecondCoordsInSync()
      reads this
    {
      x2 == x + width && y2 == y + height
    }

    /** Assigns the fields exactly as the source constructor does; `Create`
        adds the validation the source constructor ends with. */
    constructor Init(props: RectangleProps)
      ensures x == props.x.GetOr(0.0) && y == props.y.GetOr(0.0)
      ensures height == props.height.GetOr(0.0) && width == props.width.GetOr(0.0)
      ensures SecondCoordsInSync()
    {
      x := props.x.GetOr(0.0);
      y := props.y.GetOr(0.0);
      height := props.height.GetOr(0.0);
      width := props.width.GetOr(0.0);
      x2 := props.x.GetOr(0.0) + props.width.GetOr(0.0);
      y2 := props.y.GetOr(0.0) + props.height.GetOr(0.0);
    }

    /** The rectangle constructor: fields default to 0, and a negative width
        or height makes it throw. */
    static method Create(props: RectangleProps) returns (res: Result<Rectangle, string>)
      ensures res.Failure? <==> props.width.GetOr(0.0) < 0.0 || props.height.GetOr(0.0) < 0.0
      ensures res.Failure? ==> res.error == InvalidSize
      ensures res.Success? ==>
        && res.value.x == props.x.GetOr(0.0) && res.value.y == props.y.GetOr(0.0)
        && res.value.width == props.width.GetOr(0.0)
        && res.value.height == props.height.GetOr(0.0)
        && res.value.GetX2() == res.value.x + res.value.width
        && res.value.GetY2() == res.value.y + res.value.height
    {
      var r := new Rectangle.Init(props);
      var outcome := ValidateRect(r);
      if outcome.Fail? {
        return Failure(outcome.error);
      }
      return Success(r);
    }

    function GetX2(): real
      reads this
    {
      x2
    }

    function GetY2(): real
      reads this
    {
      y2
    }

    /** Throws exactly for a negative width or height. */
    static function ValidateRect(r: Rectangle): (o: Outcome<string>)
      reads r
      ensures o.Fail? <==> r.width < 0.0 || r.height < 0.0
      ensures o.Fail? ==> o.error == InvalidSize
    {
      if r.width < 0.0 || r.height < 0.0 then Fail(InvalidSize) else Pass
    }

    /** Equal position and size; the cached corner is not compared. */
    predicate Equals(rect: Rectangle)
      reads this, rect
      ensures Equals(rect) <==>
        x == rect.x && y == rect.y && height == rect.height && width == rect.width
    {
      x == rect.x && y == rect.y && height == rect.height && width == rect.width
    }

    /** The source's per-axis test: "outside" is written as lying both before
        the start and after the end of the axis range. */
    predicate InsideAxisX(px: real)
      reads this
    {
      !(px < x && px > x + width)
    }

    predicate InsideAxisY(py: real)
      reads this
    {
      !(py < y && py > y + height)
    }

    /** Whether a point lies inside: for a rectangle of non-negative size the
        "outside" conditions can never hold, so every point is inside. */
    predicate IsInside(px: real, py: real)
      reads this
      ensures width >= 0.0 && height >= 0.0 ==> IsInside(px, py)
      ensures !IsInside(px, py) ==> (x + width < px < x) || (y + height < py < y)
    {
      var isOutsideX := px < x && px > x + width;
      var isOutsideY := py < y && py > y + height;
      !(isOutsideX || isOutsideY)
    }

    /** The evident intent of `IsInside`: a point is outside when it lies
        before the start or after the end of either axis range. */
    predicate IsInsideCorrected(px: real, py: real)
      reads this
      ensures IsInsideCorrected(px, py) <==> x <= px <= x + width && y <= py <= y + height
    {
      var isOutsideX := px < x || px > x + width;
      var isOutsideY := py < y || py > y + height;
      !(isOutsideX || isOutsideY)
    }

    /** Whether `r` intersects this rectangle: any one of r's four edge
        coordinates passing the per-axis test suffices, so the answer is
        always true once this rectangle has a non-negative width or height. */
    predicate Intersects(r: Rectangle)
      reads this, r
      ensures width >= 0.0 || height >= 0.0 ==> Intersects(r)
      ensures !Intersects(r) ==> x + width < r.x < x && y + height < r.y < y
    {
      var isXInside := InsideAxisX(r.x);
      var isWidthInside := InsideAxisX(r.x + r.width);
      var isYInside := InsideAxisY(r.y);
      var isHeightInside := InsideAxisY(r.y + r.height);
      isHeightInside || isWidthInside || isXInside || isYInside
    }

    /** The intersection, or None (the source's null) exactly when the two
        do not intersect. The start of each axis is r's when r's start passes
        the axis test; the extent is cut back from this rectangle's. The
        fields are assigned after construction, so the cached corner of the
        result stays at the origin and no size validation takes place. */
    method CreateIntersection(r: Rectangle) returns (res: Option<Rectangle>)
      ensures res.None? <==> !Intersects(r)
      ensures res.Some? ==>
        && res.value != this && res.value != r
        && res.value.x == (if InsideAxisX(r.x) then r.x else x)
        && res.value.y == (if InsideAxisY(r.y) then r.y else y)
        && res.value.width
           == (if InsideAxisX(r.x + r.width) then width - (r.x + r.width) else width - (x - res.value.x))
        && res.value.height
           == (if InsideAxisY(r.y + r.height) then height - (r.y + r.height) else height - (y - res.value.y))
        && res.value.GetX2() == 0.0 && res.value.GetY2() == 0.0
    {
      if !Intersects(r) {
        return None;
      }
      var rect := new Rectangle.Init(NoProps);
      rect.x := x;
      if InsideAxisX(r.x) {
        rect.x := r.x;
      }
      rect.y := y;
      if InsideAxisY(r.y) {
        rect.y := r.y;
      }
      rect.width := width - (x - rect.x);
      if InsideAxisX(r.x + r.width) {
        rect.width := width - (r.x + r.width);
      }
      rect.height := height - (y - rect.y);
      if InsideAxisY(r.y + r.height) {
        rect.height := height - (r.y + r.height);
      }
      return Some(rect);
    }

    /** Copies position and size from `r` and recomputes the cached corner,
        without validating. */
    method SetRect(r: Rectangle)
      modifies this
      ensures x == old(r.x) && y == old(r.y)
      ensures height == old(r.height) && width == old(r.width)
      ensures SecondCoordsInSync()
    {
      var rx, ry, rh, rw := r.x, r.y, r.height, r.width;
      x := rx;
      y := ry;
      height := rh;
      width := rw;
      x2 := x + width;
      y2 := y + height;
    }

    /** Recomputes the cached corner from the public fields. */
    method Recalculate2ndCoords()
      modifies this`x2, this`y2
      ensures SecondCoordsInSync()
      ensures GetX2() == x + width && GetY2() == y + height
    {
      x2 := x + width;
      y2 := y + height;
    }
  }

  /** As written, `isInside` accepts a point beyond the far edge of a valid
    rectangle, which the corrected test rejects: for the unit rectangle at
    the origin, (5, 5) is "inside". */
  lemma IsInsideAcceptsFarPoints(rect: Rectangle, px: real, py: real)
    requires rect.width >= 0.0 && rect.height >= 0.0
    requires px > rect.x + rect.width
    ensures rect.IsInside(px, py)
    ensures !rect.IsInsideCorrected(px, py)
  {
  }

  /** Rectangle equality is an equivalence relation. */
  lemma RectangleEqualsIsEquivalence(p: Rectangle, q: Rectangle, r: Rectangle)
    ensures p.Equals(p)
    ensures p.Equals(q) ==> q.Equals(p)
    ensures p.Equals(q) && q.Equals(r) ==> p.Equals(r)
  {
  }
}
