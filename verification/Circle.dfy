// The Bresenham outline of a circle, drawn a quadrant at a time.
module Circle {
  import opened Words

  datatype Point = Point(x: int, y: int)

  // How far the square of a point's distance from the center is from the square of the radius.
  function Deviation(r: int, p: Point): int { p.x * p.x + p.y * p.y - r * r }

  // The error term of the algorithm: the deviation of the diagonal neighbour.
  function ErrorTerm(r: int, p: Point): int { Deviation(r, Point(p.x + 1, p.y + 1)) }

  // The walk from (-r, 0) to (0, r) never strays further from the circle than this.
  predicate Near(r: int, p: Point) {
    && -r <= p.x <= 0 && 0 <= p.y <= r
    && -Max(-p.x, p.y) <= Deviation(r, p) <= Max(-p.x, p.y)
  }

  function Next(r: int, p: Point): Point {
    var e := ErrorTerm(r, p);
    Point(if e > p.x then p.x + 1 else p.x, if e <= p.y then p.y + 1 else p.y)
  }

  predicate Adjacent(p: Point, q: Point) { p != q && -1 <= p.x - q.x <= 1 && -1 <= p.y - q.y <= 1 }

  lemma NextDeviation(r: int, p: Point)
    ensures var q, d := Next(r, p), Deviation(r, p);
            && ErrorTerm(r, p) == d + 2 * p.x + 2 * p.y + 2
            && Deviation(r, q) == d + (if q.x > p.x then 2 * p.x + 1 else 0) + (if q.y > p.y then 2 * p.y + 1 else 0)
  {
    NextSquare(p.x);
    NextSquare(p.y);
  }

  lemma SquareGrows(a: int, b: int)
    requires 0 <= a <= b
    ensures a * a <= b * b
  {
    assert b * b - a * a == (b - a) * (b + a);
  }

  lemma NextSquare(a: int)
    ensures (a + 1) * (a + 1) == a * a + 2 * a + 1
  {
  }

  // On the axis the only near point is the top one.
  lemma TopOnly(r: int, y: int)
    requires r >= 1 && Near(r, Point(0, y))
    ensures y == r
  {
    assert Deviation(r, Point(0, y)) == y * y - r * r;
    if y < r {
      SquareGrows(y + 1, r);
      NextSquare(y);
    }
  }

  lemma NextNear(r: int, p: Point)
    requires r >= 1 && Near(r, p) && p.x < 0
    ensures Near(r, Next(r, p)) && Adjacent(p, Next(r, p))
    ensures Next(r, p).x + Next(r, p).y > p.x + p.y
    ensures Next(r, p).x == 0 ==> Next(r, p).y == r
  {
    var q := Next(r, p);
    NextDeviation(r, p);
    assert -Max(-q.x, q.y) <= Deviation(r, q) <= Max(-q.x, q.y);
    NextSquare(r);
    assert q.x * q.x >= 0;
    assert q.y == r + 1 ==> Deviation(r, q) == q.x * q.x + 2 * r + 1;
    if q.x == 0 {
      TopOnly(r, q.y);
    }
  }

  // The points the quadrant loop plots, from p on.
  function ArcFrom(r: int, p: Point): (a: seq<Point>)
    requires r >= 1 && Near(r, p) && p.x < 0
    ensures a != [] && a[0] == p
    decreases r - p.y - p.x
  {
    NextNear(r, p);
    [p] + if Next(r, p).x < 0 then ArcFrom(r, Next(r, p)) else []
  }

  // A circle of radius zero is one point.
  function Arc(r: nat): (a: seq<Point>)
    ensures a != [] && a[0] == Point(0 - r, 0)
  {
    if r == 0 then [Point(0, 0)]
    else
      StartNear(r);
      ArcFrom(r, Point(0 - r, 0))
  }

  lemma {:induction false} ArcFromNear(r: int, p: Point)
    requires r >= 1 && Near(r, p) && p.x < 0
    ensures var a := ArcFrom(r, p);
            && (forall i :: 0 <= i < |a| ==> a[i].x < 0 && Near(r, a[i]))
            && (forall i :: 0 <= i < |a| - 1 ==> Adjacent(a[i], a[i + 1]))
            && Adjacent(a[|a| - 1], Point(0, r))
    decreases r - p.y - p.x
  {
    NextNear(r, p);
    if Next(r, p).x < 0 {
      ArcFromNear(r, Next(r, p));
    }
  }

  lemma HalfSquares(r: int)
    ensures (2 * r - 1) * (2 * r - 1) == 4 * (r * r) - 4 * r + 1
    ensures (2 * r + 1) * (2 * r + 1) == 4 * (r * r) + 4 * r + 1
  {
  }

  lemma OnTheEdge(r: int, p: Point)
    requires -p.x == r || p.y == r
    ensures Deviation(r, p) >= 0
  {
    assert p.x * p.x == (-p.x) * (-p.x);
    assert p.x * p.x >= 0 && p.y * p.y >= 0;
  }

  lemma NearWithinHalf(r: int, p: Point)
    requires r >= 1 && Near(r, p)
    ensures (2 * r - 1) * (2 * r - 1) <= 4 * (p.x * p.x + p.y * p.y) <= (2 * r + 1) * (2 * r + 1)
  {
    HalfSquares(r);
    var d := Deviation(r, p);
    assert p.x * p.x + p.y * p.y == r * r + d;
    if -p.x == r || p.y == r {
      OnTheEdge(r, p);
    }
    assert 1 - r <= d <= r;
  }

  lemma StartNear(r: int)
    requires r >= 1
    ensures Near(r, Point(0 - r, 0))
  {
    assert (0 - r) * (0 - r) == r * r;
  }

  lemma ArcPointNear(r: nat, p: Point)
    requires r >= 1 && p in Arc(r)
    ensures Near(r, p)
  {
    StartNear(r);
    ArcFromNear(r, Point(0 - r, 0));
    var i :| 0 <= i < |Arc(r)| && Arc(r)[i] == p;
  }

  // Every plotted point is within half a pixel of the circle.
  lemma ArcOnCircle(r: nat, p: Point)
    requires r >= 1 && p in Arc(r)
    ensures (2 * r - 1) * (2 * r - 1) <= 4 * (p.x * p.x + p.y * p.y) <= (2 * r + 1) * (2 * r + 1)
  {
    ArcPointNear(r, p);
    NearWithinHalf(r, p);
  }

  // A point of the arc turned by quarter turns about the center.
  function Turned(cx: int, cy: int, p: Point, quarter: nat): Point {
    if quarter == 0 then Point(cx - p.x, cy + p.y)
    else if quarter == 1 then Point(cx - p.y, cy - p.x)
    else if quarter == 2 then Point(cx + p.x, cy - p.y)
    else Point(cx + p.y, cy + p.x)
  }

  function TurnedArc(cx: int, cy: int, a: seq<Point>, quarter: nat): (t: seq<Point>)
    ensures |t| == |a|
  {
    seq(|a|, i requires 0 <= i < |a| => Turned(cx, cy, a[i], quarter))
  }

  function Outline(cx: int, cy: int, r: nat): seq<Point> {
    var a := Arc(r);
    TurnedArc(cx, cy, a, 0) + TurnedArc(cx, cy, a, 1) + TurnedArc(cx, cy, a, 2) + TurnedArc(cx, cy, a, 3)
  }

  lemma TurnKeepsAdjacent(cx: int, cy: int, p: Point, q: Point, quarter: nat)
    requires Adjacent(p, q)
    ensures Adjacent(Turned(cx, cy, p, quarter), Turned(cx, cy, q, quarter))
  {
  }

  // Where a quarter starts.
  function Offset(quarter: nat, n: nat): nat {
    if quarter == 0 then 0 else if quarter == 1 then n else if quarter == 2 then n + n else n + n + n
  }

  lemma OutlineAt(cx: int, cy: int, r: nat, quarter: nat, k: nat)
    requires quarter < 4 && k < |Arc(r)|
    ensures var n := |Arc(r)|;
            && |Outline(cx, cy, r)| == 4 * n
            && Outline(cx, cy, r)[Offset(quarter, n) + k] == Turned(cx, cy, Arc(r)[k], quarter)
  {
  }

  // The four arcs join: walking the outline takes single-pixel steps and closes.
  lemma OutlineCloses(cx: int, cy: int, r: nat)
    requires r >= 1
    ensures var o := Outline(cx, cy, r);
            forall i :: 0 <= i < |o| ==> Adjacent(o[i], o[if i == |o| - 1 then 0 else i + 1])
  {
    var a, o := Arc(r), Outline(cx, cy, r);
    StartNear(r);
    ArcFromNear(r, Point(0 - r, 0));
    forall i | 0 <= i < |o|
      ensures Adjacent(o[i], o[if i == |o| - 1 then 0 else i + 1])
    {
      var n := |a|;
      var q := if i < n then 0 else if i < n + n then 1 else if i < n + n + n then 2 else 3;
      var k := i - Offset(q, n);
      OutlineAt(cx, cy, r, q, k);
      if k < n - 1 {
        OutlineAt(cx, cy, r, q, k + 1);
        TurnKeepsAdjacent(cx, cy, a[k], a[k + 1], q);
      } else {
        var next := if q == 3 then 0 else q + 1;
        OutlineAt(cx, cy, r, next, 0);
        TurnKeepsAdjacent(cx, cy, a[k], Point(0, r), q);
        assert Turned(cx, cy, a[0], next) == Turned(cx, cy, Point(0, r), q);
      }
    }
  }

  // ----- The drawing loop -----

  predicate Inside(image: array2<bool>, p: Point) { 0 <= p.x < image.Length0 && 0 <= p.y < image.Length1 }

  // A pixel outside the image is ignored.
  method Set(image: array2<bool>, x: int, y: int)
    modifies image
    ensures forall p: Point :: Inside(image, p) ==>
      image[p.x, p.y] == (old(image[p.x, p.y]) || p == Point(x, y))
  {
    if 0 <= x < image.Length0 && 0 <= y < image.Length1 {
      image[x, y] := true;
    }
  }

  // One of the four turns of a point of the arc.
  predicate IsTurn(cx: int, cy: int, c: Point, p: Point) {
    || p == Turned(cx, cy, c, 0) || p == Turned(cx, cy, c, 1)
    || p == Turned(cx, cy, c, 2) || p == Turned(cx, cy, c, 3)
  }

  ghost predicate Plotted(cx: int, cy: int, a: seq<Point>, p: Point) {
    exists i :: 0 <= i < |a| && IsTurn(cx, cy, a[i], p)
  }

  method Plot(image: array2<bool>, cx: int, cy: int, x1: int, y1: int)
    modifies image
    ensures forall p: Point :: Inside(image, p) ==>
      image[p.x, p.y] == (old(image[p.x, p.y]) || IsTurn(cx, cy, Point(x1, y1), p))
  {
    Set(image, cx - x1, cy + y1);
    Set(image, cx - y1, cy - x1);
    Set(image, cx + x1, cy - y1);
    Set(image, cx + y1, cy + x1);
  }

  method DrawCircleOutline(image: array2<bool>, cx: int, cy: int, r: nat) returns (bound: int)
    modifies image
    ensures forall p: Point :: Inside(image, p) ==>
      image[p.x, p.y] == (old(image[p.x, p.y]) || Plotted(cx, cy, Arc(r), p))
    ensures bound == FinalError(r)
  {
    var x1, y1, err := 0 - r, 0, 2 - 2 * r;
    ghost var done: seq<Point> := [];
    StartsAt(r);
    while true
      invariant At(r, done, Point(x1, y1), err)
      invariant forall p: Point :: Inside(image, p) ==>
        image[p.x, p.y] == (old(image[p.x, p.y]) || Plotted(cx, cy, done, p))
      decreases r - y1 - x1
    {
      Plot(image, cx, cy, x1, y1);
      ghost var c := Point(x1, y1);
      PlottedMore(cx, cy, done, c);
      Progress(r, done, c, err);
      done := done + [c];
      bound, x1, y1, err := Advance(r, x1, y1, err);
      if x1 >= 0 {
        return;
      }
    }
  }

  // What the loop knows after plotting some points.
  ghost predicate At(r: nat, done: seq<Point>, c: Point, err: int) {
    && err == ErrorTerm(r, c)
    && (r == 0 ==> c == Point(0, 0) && done == [])
    && (r == 1 ==> c == Point(-1, 0))
    && (r >= 1 ==> c.x < 0 && Near(r, c) && done + ArcFrom(r, c) == Arc(r))
  }

  lemma StartsAt(r: nat)
    ensures At(r, [], Point(0 - r, 0), 2 - 2 * r)
  {
    if r >= 1 {
      StartNear(r);
      assert [] + ArcFrom(r, Point(0 - r, 0)) == Arc(r);
    }
    assert (1 - r) * (1 - r) == r * r - 2 * r + 1;
  }

  method Advance(r: nat, x0: int, y0: int, err0: int) returns (e: int, x1: int, y1: int, err: int)
    requires err0 == ErrorTerm(r, Point(x0, y0))
    ensures e == err0 && Point(x1, y1) == Next(r, Point(x0, y0)) && err == ErrorTerm(r, Point(x1, y1))
  {
    x1, y1, err := x0, y0, err0;
    e := err;
    if e > x1 {
      x1 := x1 + 1;
      err := err + x1 * 2 + 1;
    }
    if e <= y1 {
      y1 := y1 + 1;
      err := err + y1 * 2 + 1;
    }
    NextSquare(x0 + 1);
    NextSquare(y0 + 1);
  }

  // Another turn of the loop, or its end.
  lemma Progress(r: nat, done: seq<Point>, c: Point, err: int)
    requires At(r, done, c, err)
    ensures var q := Next(r, c);
            && (q.x < 0 ==> At(r, done + [c], q, ErrorTerm(r, q)) && q.y + q.x > c.y + c.x && q.y + q.x <= r)
            && (q.x >= 0 ==> done + [c] == Arc(r) && err == FinalError(r))
  {
    if r >= 1 {
      NextPosition(r, c);
      ArcStep(r, done, c);
    }
  }

  function FinalError(r: nat): int { if r == 0 then 2 else if r == 1 then 0 else 2 * r + 1 }

  lemma NextPosition(r: nat, c: Point)
    requires r >= 1 && Near(r, c) && c.x < 0 && (r == 1 ==> c == Point(-1, 0))
    ensures var q := Next(r, c);
            && Near(r, q) && q.y + q.x > c.y + c.x && (q.x < 0 ==> r > 1)
            && (q.x >= 0 ==> ErrorTerm(r, c) == FinalError(r))
  {
    NextNear(r, c);
    if r == 1 {
      RadiusOne();
    }
    if Next(r, c).x == 0 {
      LastError(r, c);
    }
  }

  lemma RadiusOne()
    ensures Next(1, Point(-1, 0)) == Point(0, 1)
  {
    assert ErrorTerm(1, Point(-1, 0)) == 0;
  }

  lemma ArcStep(r: nat, done: seq<Point>, c: Point)
    requires r >= 1 && Near(r, c) && c.x < 0 && done + ArcFrom(r, c) == Arc(r)
    ensures var q := Next(r, c);
            && Near(r, q)
            && (done + [c]) + (if q.x < 0 then ArcFrom(r, q) else []) == Arc(r)
  {
    NextNear(r, c);
  }

  lemma PlottedMore(cx: int, cy: int, a: seq<Point>, c: Point)
    ensures forall p :: Plotted(cx, cy, a + [c], p) <==> Plotted(cx, cy, a, p) || IsTurn(cx, cy, c, p)
  {
    forall p
      ensures Plotted(cx, cy, a + [c], p) <==> Plotted(cx, cy, a, p) || IsTurn(cx, cy, c, p)
    {
      assert forall i :: 0 <= i < |a| ==> (a + [c])[i] == a[i];
      assert (a + [c])[|a|] == c;
    }
  }

  function SquaredLength(dx: int, dy: int): int { dx * dx + dy * dy }

  lemma TurnKeepsLength(cx: int, cy: int, a: Point, p: Point)
    requires IsTurn(cx, cy, a, p)
    ensures SquaredLength(p.x - cx, p.y - cy) == SquaredLength(a.x, a.y)
  {
    var dx, dy := p.x - cx, p.y - cy;
    assert || (dx == -a.x && dy == a.y) || (dx == -a.y && dy == -a.x)
           || (dx == a.x && dy == -a.y) || (dx == a.y && dy == a.x);
    TurnedSquares(dx, dy, a);
  }

  // Every painted pixel is within half a pixel of the circle about its center.
  lemma PaintedOnCircle(cx: int, cy: int, r: nat, p: Point)
    requires r >= 1 && Plotted(cx, cy, Arc(r), p)
    ensures (2 * r - 1) * (2 * r - 1) <= 4 * SquaredLength(p.x - cx, p.y - cy) <= (2 * r + 1) * (2 * r + 1)
  {
    var i :| 0 <= i < |Arc(r)| && IsTurn(cx, cy, Arc(r)[i], p);
    ArcOnCircle(r, Arc(r)[i]);
    TurnKeepsLength(cx, cy, Arc(r)[i], p);
  }

  lemma TurnedSquares(dx: int, dy: int, a: Point)
    requires || (dx == -a.x && dy == a.y) || (dx == -a.y && dy == -a.x)
             || (dx == a.x && dy == -a.y) || (dx == a.y && dy == a.x)
    ensures SquaredLength(dx, dy) == SquaredLength(a.x, a.y)
  {
  }

  // The four points straight ahead of the center are painted, even when they are all one.
  lemma CompassPainted(cx: int, cy: int, r: nat)
    ensures Plotted(cx, cy, Arc(r), Point(cx + r, cy)) && Plotted(cx, cy, Arc(r), Point(cx - r, cy))
    ensures Plotted(cx, cy, Arc(r), Point(cx, cy + r)) && Plotted(cx, cy, Arc(r), Point(cx, cy - r))
  {
    assert IsTurn(cx, cy, Arc(r)[0], Point(cx + r, cy));
    assert IsTurn(cx, cy, Arc(r)[0], Point(cx - r, cy));
    assert IsTurn(cx, cy, Arc(r)[0], Point(cx, cy + r));
    assert IsTurn(cx, cy, Arc(r)[0], Point(cx, cy - r));
  }

  // A circle of radius zero is its center.
  lemma PointPainted(cx: int, cy: int, p: Point)
    ensures Plotted(cx, cy, Arc(0), p) <==> p == Point(cx, cy)
  {
    assert IsTurn(cx, cy, Arc(0)[0], Point(cx, cy));
  }

  // The error the loop finishes on, which its caller takes for a radius.
  lemma LastError(r: int, p: Point)
    requires r >= 1 && Near(r, p) && p.x < 0 && Next(r, p).x == 0
    requires r == 1 ==> p == Point(-1, 0)
    ensures ErrorTerm(r, p) == FinalError(r)
  {
    NextNear(r, p);
    NextDeviation(r, p);
    NextSquare(r - 1);
    assert p.x == -1 && Deviation(r, p) == 1 + p.y * p.y - r * r;
    assert p.y == r - 1 ==> Deviation(r, p) == 2 - 2 * r;
  }
}
