/** Lines, circles and rectangles on a 1280-pixel-wide linear frame buffer. */
module Raster {
  import opened Memory

  datatype Point = Point(x: int, y: int)

  datatype Color = Color(b: Byte, g: Byte, r: Byte)

  const PITCH: int := 1280
  const ROWS: int := 1024
  const SPACE: nat := 0x1_0000_0000

  function Abs(a: int): (r: int) { if a < 0 then -a else a }

  /** C division: truncated toward zero. */
  function TDiv(a: int, b: int): (q: int)
    requires b > 0
  {
    if a >= 0 then a / b else -((-a) / b)
  }

  // ---------- painting ----------

  /** `setpixel`'s offset, in 32-bit unsigned arithmetic; always a multiple of four. */
  function Offset(p: Point): (o: nat)
    ensures o + 4 <= SPACE
  {
    (p.x + p.y * 1280) * 4 % 0x1_0000_0000
  }

  function Bytes(c: Color): (bs: seq<Byte>)
    ensures |bs| == 4
  {
    [c.b, c.g, c.r, 0]
  }

  /** The frame buffer after a list of pixels is set in one colour. */
  ghost function Paint(video: seq<Byte>, ps: seq<Point>, c: Color): (r: seq<Byte>)
    requires |video| == SPACE
    ensures |r| == |video|
    decreases |ps|
  {
    if ps == [] then video
    else Put(Paint(video, ps[..|ps| - 1], c), Offset(ps[|ps| - 1]), Bytes(c))
  }

  predicate OnScreen(p: Point)
  {
    0 <= p.x < PITCH && 0 <= p.y < ROWS
  }

  ghost function PixelAt(video: seq<Byte>, p: Point): (bs: seq<Byte>)
    requires |video| == SPACE
  {
    video[Offset(p)..Offset(p) + 4]
  }

  lemma OffsetsApart(p: Point, q: Point)
    requires OnScreen(p) && OnScreen(q) && p != q
    ensures Offset(p) + 4 <= Offset(q) || Offset(q) + 4 <= Offset(p)
  {
    assert Offset(p) == (p.x + p.y * 1280) * 4 && Offset(q) == (q.x + q.y * 1280) * 4;
  }

  lemma SetOne(video: seq<Byte>, q: Point, c: Color, p: Point)
    requires |video| == SPACE && OnScreen(p) && OnScreen(q)
    ensures PixelAt(Put(video, Offset(q), Bytes(c)), p) == if p == q then Bytes(c) else PixelAt(video, p)
  {
    if p != q {
      OffsetsApart(p, q);
    }
    hide Offset, Bytes, OnScreen;
  }

  /** On screen, exactly the listed pixels take the colour and all others stay. */
  lemma {:induction false} PaintShows(video: seq<Byte>, ps: seq<Point>, c: Color, p: Point)
    requires |video| == SPACE && OnScreen(p) && forall i :: 0 <= i < |ps| ==> OnScreen(ps[i])
    ensures PixelAt(Paint(video, ps, c), p) == if p in ps then Bytes(c) else PixelAt(video, p)
    decreases |ps|
  {
    if ps != [] {
      hide OnScreen, PixelAt, Put, Offset, Bytes;
      var rest, q := ps[..|ps| - 1], ps[|ps| - 1];
      PaintShows(video, rest, c, p);
      SetOne(Paint(video, rest, c), q, c, p);
      InInit(ps, p);
    }
  }

  lemma InInit(ps: seq<Point>, p: Point)
    requires ps != []
    ensures p in ps <==> p in ps[..|ps| - 1] || p == ps[|ps| - 1]
  {
    assert ps == ps[..|ps| - 1] + [ps[|ps| - 1]];
  }

  /** Every pixel of the list has the colour in the end, on screen or not, because pixels
      never overlap in part. On screen, its blue byte is at 4 * (x + 1280 * y). */
  lemma {:induction false} PaintSets(video: seq<Byte>, ps: seq<Point>, c: Color, p: Point)
    requires |video| == SPACE && p in ps
    ensures PixelAt(Paint(video, ps, c), p) == Bytes(c)
    decreases |ps|
  {
    hide PixelAt, Put, Offset, Bytes;
    var rest, q := ps[..|ps| - 1], ps[|ps| - 1];
    InInit(ps, p);
    if p in rest {
      PaintSets(video, rest, c, p);
    }
    SetAgain(Paint(video, rest, c), q, c, p);
  }

  lemma SetAgain(video: seq<Byte>, q: Point, c: Color, p: Point)
    requires |video| == SPACE
    ensures p == q || PixelAt(video, p) == Bytes(c) ==> PixelAt(Put(video, Offset(q), Bytes(c)), p) == Bytes(c)
  {
    OffsetAligned(p);
    OffsetAligned(q);
    hide Offset, Bytes;
    var a, b, r := Offset(p), Offset(q), Put(video, Offset(q), Bytes(c));
    if a == b {
      assert r[a..a + 4] == Bytes(c);
    } else {
      assert a + 4 <= b || b + 4 <= a;
      assert r[a..a + 4] == video[a..a + 4];
    }
  }

  lemma OffsetAligned(p: Point)
    ensures Offset(p) % 4 == 0
  {
    var a, q := (p.x + p.y * 1280) * 4, (p.x + p.y * 1280) * 4 / 0x1_0000_0000;
    assert Offset(p) == 4 * (p.x + p.y * 1280 - 0x4000_0000 * q);
  }

  /** Blue, green, red and a zero, from byte 4 * (x + 1280 * y) on. */
  lemma PaintedBytes(video: seq<Byte>, ps: seq<Point>, c: Color, p: Point)
    requires |video| == SPACE && p in ps && 0 <= p.x < 1280 && 0 <= p.y < 1024
    ensures var r, a := Paint(video, ps, c), 4 * (p.x + 1280 * p.y);
            r[a] == c.b && r[a + 1] == c.g && r[a + 2] == c.r && r[a + 3] == 0
  {
    hide Paint;
    PaintSets(video, ps, c, p);
    var r, a := Paint(video, ps, c), 4 * (p.x + 1280 * p.y);
    assert Offset(p) == a;
    assert forall j :: 0 <= j < 4 ==> r[a + j] == PixelAt(r, p)[j];
  }

  lemma {:induction false} PaintAppend(video: seq<Byte>, ps: seq<Point>, qs: seq<Point>, c: Color)
    requires |video| == SPACE
    ensures Paint(video, ps + qs, c) == Paint(Paint(video, ps, c), qs, c)
    decreases |qs|
  {
    if qs == [] {
      assert ps + qs == ps;
    } else {
      PaintAppend(video, ps, qs[..|qs| - 1], c);
      assert (ps + qs)[..|ps + qs| - 1] == ps + qs[..|qs| - 1];
    }
  }

  lemma PaintSnoc(video: seq<Byte>, ps: seq<Point>, p: Point, c: Color)
    requires |video| == SPACE
    ensures Paint(video, ps + [p], c) == Put(Paint(video, ps, c), Offset(p), Bytes(c))
  {
    assert (ps + [p])[..|ps|] == ps;
  }

  // ---------- lines ----------

  /** The pixels of `drawline`, in order. Only the major coordinate is put in order. */
  function LinePixels(a: Point, b: Point): (ps: seq<Point>)
    requires a != b
  {
    var dx, dy := b.x - a.x, b.y - a.y;
    if Abs(dx) >= Abs(dy) then
      var start := if a.x > b.x then b.x else a.x;
      seq(Abs(dx) + 1, i requires 0 <= i <= Abs(dx) => Point(start + i, a.y + TDiv(dy * i, Abs(dx))))
    else
      var start := if a.y > b.y then b.y else a.y;
      seq(Abs(dy) + 1, i requires 0 <= i <= Abs(dy) => Point(a.x + TDiv(dx * i, Abs(dy)), start + i))
  }

  /** Steep lines are flat lines with the coordinates exchanged. */
  predicate Flat(a: Point, b: Point) { Abs(b.x - a.x) >= Abs(b.y - a.y) }

  function Major(a: Point, b: Point, p: Point): int { if Flat(a, b) then p.x else p.y }

  function Minor(a: Point, b: Point, p: Point): int { if Flat(a, b) then p.y else p.x }

  predicate Ascending(a: Point, b: Point) { Major(a, b, a) <= Major(a, b, b) }

  /** Products with a positive factor keep the order of integers. */
  lemma ProductOrder(x: int, y: int, n: int)
    requires n > 0
    ensures x < y ==> x * n + n <= y * n
    ensures y < x ==> y * n + n <= x * n
    ensures x == y ==> x * n == y * n
  {
    if x < y {
      ProductGrows(x, y - x, n);
    } else if y < x {
      ProductGrows(y, x - y, n);
    }
  }

  lemma ProductGrows(x: int, k: int, n: int)
    requires n > 0 && k >= 1
    ensures (x + k) * n >= x * n + n
  {
    assert (x + k) * n == x * n + (k - 1) * n + n;
    assert (k - 1) * n >= 0;
  }

  lemma DivFacts(a: int, n: int)
    requires n > 0 && a >= 0
    ensures a / n >= 0 && a / n * n <= a < a / n * n + n
  {
  }

  /** The truncated quotient is nearer to zero than the true one, by less than one. */
  lemma TDivNear(a: int, n: int)
    requires n > 0
    ensures var q := TDiv(a, n);
            if a >= 0 then q >= 0 && q * n <= a < q * n + n else q <= 0 && q * n - n < a <= q * n
  {
    if a >= 0 {
      DivFacts(a, n);
    } else {
      DivFacts(-a, n);
      var k := (-a) / n;
      assert (-k) * n == -(k * n);
    }
  }

  lemma SignOf(d: int, i: nat)
    ensures d >= 0 ==> d * i >= 0
    ensures d <= 0 ==> d * i <= 0
  {
  }

  /** Along the line the quotient moves by at most one, in the direction of `d`. */
  lemma TDivStep(d: int, i: nat, n: int)
    requires n > 0 && Abs(d) <= n
    ensures var q0, q1 := TDiv(d * i, n), TDiv(d * (i + 1), n);
            if d >= 0 then q0 <= q1 <= q0 + 1 else q0 - 1 <= q1 <= q0
  {
    var a := d * i;
    assert d * (i + 1) == a + d;
    SignOf(d, i);
    SignOf(d, i + 1);
    Advance(a, d, n);
  }

  lemma Advance(a: int, d: int, n: int)
    requires n > 0 && Abs(d) <= n
    requires (d >= 0 ==> a >= 0) && (d <= 0 ==> a <= 0)
    ensures var q0, q1 := TDiv(a, n), TDiv(a + d, n);
            if d >= 0 then q0 <= q1 <= q0 + 1 else q0 - 1 <= q1 <= q0
  {
    var q0, q1 := TDiv(a, n), TDiv(a + d, n);
    TDivNear(a, n);
    TDivNear(a + d, n);
    hide TDiv;
    ProductOrder(q0, q1, n);
    ProductOrder(q0 + 1, q1, n);
    ProductOrder(q0 - 1, q1, n);
    assert (q0 + 1) * n == q0 * n + n && (q0 - 1) * n == q0 * n - n;
  }

  lemma TDivExact(d: int, n: int)
    requires n > 0
    ensures TDiv(d * n, n) == d
  {
    var q := TDiv(d * n, n);
    TDivNear(d * n, n);
    hide TDiv;
    ProductOrder(q, d, n);
  }

  lemma TDivEnds(d: int, n: nat)
    requires n > 0
    ensures TDiv(d * 0, n) == 0 && TDiv(d * n, n) == d
  {
    TDivExact(d, n);
    TDivExact(0, n);
  }

  lemma TDivBetween(d: int, i: nat, n: nat)
    requires n > 0 && i <= n
    ensures if d >= 0 then 0 <= TDiv(d * i, n) <= d else d <= TDiv(d * i, n) <= 0
  {
    var q, a := TDiv(d * i, n), d * i;
    TDivNear(a, n);
    SignOf(d, i);
    SignOf(d, n - i);
    assert d * n - a == d * (n - i);
    hide TDiv;
    ProductOrder(q, d, n);
  }

  lemma FlatPixels(a: Point, b: Point)
    requires a != b && Flat(a, b)
    ensures var dx, dy, ps := b.x - a.x, b.y - a.y, LinePixels(a, b);
            && |ps| == Abs(dx) + 1
            && forall i :: 0 <= i < |ps| ==>
                 ps[i] == Point((if a.x > b.x then b.x else a.x) + i, a.y + TDiv(dy * i, Abs(dx)))
  {
  }

  lemma SteepPixels(a: Point, b: Point)
    requires a != b && !Flat(a, b)
    ensures var dx, dy, ps := b.x - a.x, b.y - a.y, LinePixels(a, b);
            && |ps| == Abs(dy) + 1
            && forall i :: 0 <= i < |ps| ==>
                 ps[i] == Point(a.x + TDiv(dx * i, Abs(dy)), (if a.y > b.y then b.y else a.y) + i)
  {
  }

  /** Pixel `i` of a line, whichever coordinate is the major one. */
  lemma LineCoordinates(a: Point, b: Point, i: nat)
    requires a != b && i < |LinePixels(a, b)|
    ensures var p, n, d := LinePixels(a, b)[i], |LinePixels(a, b)| - 1, Minor(a, b, b) - Minor(a, b, a);
            && n == Abs(Major(a, b, b) - Major(a, b, a)) > 0 && Abs(d) <= n
            && Major(a, b, p) == (if Ascending(a, b) then Major(a, b, a) else Major(a, b, b)) + i
            && Minor(a, b, p) == Minor(a, b, a) + TDiv(d * i, n)
  {
  }

  /** With the major coordinate ascending, the line has one pixel per major step, starts and
      ends on the endpoints, is 8-connected and monotone, and every pixel is less than one
      off the true line. */
  lemma LineIsSound(a: Point, b: Point)
    requires a != b && Ascending(a, b)
    ensures var ps, n, d := LinePixels(a, b), Major(a, b, b) - Major(a, b, a), Minor(a, b, b) - Minor(a, b, a);
            && |ps| == n + 1 && ps[0] == a && ps[n] == b
            && (forall i :: 0 <= i < n ==> Adjacent(a, b, ps[i], ps[i + 1]))
            && (forall i :: 0 <= i <= n ==> Abs((Minor(a, b, ps[i]) - Minor(a, b, a)) * n - d * i) < n)
  {
    var ps, n, d := LinePixels(a, b), Major(a, b, b) - Major(a, b, a), Minor(a, b, b) - Minor(a, b, a);
    LineCoordinates(a, b, 0);
    LineCoordinates(a, b, n);
    TDivEnds(d, n);
    assert |ps| == n + 1 && ps[0] == a && ps[n] == b by { hide LinePixels, TDiv; }
    hide LinePixels, TDiv, Adjacent, Major, Minor;
    forall i | 0 <= i < n ensures Adjacent(a, b, ps[i], ps[i + 1]) {
      LineStep(a, b, i);
    }
    forall i | 0 <= i <= n ensures Abs((Minor(a, b, ps[i]) - Minor(a, b, a)) * n - d * i) < n {
      LineCoordinates(a, b, i);
      TDivNear(d * i, n);
    }
  }

  lemma LineStep(a: Point, b: Point, i: nat)
    requires a != b && i + 1 < |LinePixels(a, b)|
    ensures Adjacent(a, b, LinePixels(a, b)[i], LinePixels(a, b)[i + 1])
  {
    hide LinePixels, TDiv, Major, Minor;
    LineCoordinates(a, b, i);
    LineCoordinates(a, b, i + 1);
    TDivStep(Minor(a, b, b) - Minor(a, b, a), i, |LinePixels(a, b)| - 1);
  }

  /** One step on, and the minor coordinate moves by at most one toward the far endpoint. */
  predicate Adjacent(a: Point, b: Point, p: Point, q: Point)
  {
    && Major(a, b, q) == Major(a, b, p) + 1
    && (if Minor(a, b, b) >= Minor(a, b, a)
        then Minor(a, b, p) <= Minor(a, b, q) <= Minor(a, b, p) + 1
        else Minor(a, b, p) - 1 <= Minor(a, b, q) <= Minor(a, b, p))
  }

  /** The line passes through both its endpoints exactly when the major coordinate ascends or
      the line is parallel to an axis: otherwise the swap of one coordinate mirrors it. */
  lemma EndpointsDrawn(a: Point, b: Point)
    requires a != b
    ensures a in LinePixels(a, b) && b in LinePixels(a, b) <==> Ascending(a, b) || Minor(a, b, a) == Minor(a, b, b)
  {
    var ps := LinePixels(a, b);
    var n, d := |ps| - 1, Minor(a, b, b) - Minor(a, b, a);
    TDivEnds(d, n);
    LineCoordinates(a, b, 0);
    LineCoordinates(a, b, n);
    if Ascending(a, b) {
      assert ps[0] == a && ps[n] == b;
    } else if d == 0 {
      assert ps[0] == b && ps[n] == a;
    } else {
      forall i | 0 <= i < |ps| ensures ps[i] != a {
        LineCoordinates(a, b, i);
      }
    }
  }

  /** Between endpoints on screen the line stays on screen, so it shows exactly its pixels. */
  lemma LineShows(video: seq<Byte>, a: Point, b: Point, c: Color, p: Point)
    requires |video| == SPACE && a != b && OnScreen(a) && OnScreen(b) && OnScreen(p)
    ensures PixelAt(Paint(video, LinePixels(a, b), c), p) ==
            if p in LinePixels(a, b) then Bytes(c) else PixelAt(video, p)
  {
    var ps := LinePixels(a, b);
    var n, d := |ps| - 1, Minor(a, b, b) - Minor(a, b, a);
    forall i | 0 <= i < |ps| ensures OnScreen(ps[i]) {
      LineCoordinates(a, b, i);
      TDivBetween(d, i, n);
    }
    hide *;
    PaintShows(video, ps, c, p);
  }

  // ---------- square root ----------

  predicate IsRoot(r: int, n: int) { r >= 0 && r * r < n <= (r + 1) * (r + 1) }

  /** The root that the search finds: the largest integer strictly below the square root. */
  function Root(n: int): (r: int)
    requires n >= 1
    ensures IsRoot(r, n)
  {
    RootFrom(n, 0)
  }

  function RootFrom(n: int, i: int): (r: int)
    requires i >= 0
    requires i * i < n
    ensures IsRoot(r, n)
    decreases n - i
  {
    if (i + 1) * (i + 1) >= n then i
    else
      assert i + 1 <= (i + 1) * (i + 1);
      RootFrom(n, i + 1)
  }

  lemma RootIsUnique(n: int, r: int, s: int)
    requires IsRoot(r, n) && IsRoot(s, n)
    ensures r == s
  {
    SquareOrder(r + 1, s);
    SquareOrder(s + 1, r);
  }

  lemma SquareOrder(x: int, y: int)
    requires x >= 0
    ensures x <= y ==> x * x <= y * y
  {
    if x <= y {
      assert y * y - x * x == (y - x) * (y + x);
      assert (y - x) * (y + x) >= 0;
    }
  }

  /** A perfect square gets one less than its root. */
  lemma RootOfSquare(k: nat)
    requires k >= 1
    ensures Root(k * k) == k - 1
  {
    assert IsRoot(k - 1, k * k);
    RootIsUnique(k * k, Root(k * k), k - 1);
  }

  /** A point at distance `d` along one axis and `s` along the other is inside the circle of
      radius `R`, and one step further out it is not. */
  predicate Hugs(R: int, d: int, s: int)
  {
    d * d + s * s < R * R <= d * d + (Abs(s) + 1) * (Abs(s) + 1)
  }

  lemma RootHugs(R: nat, d: int)
    requires Abs(d) < R
    ensures R * R - d * d >= 1
    ensures Hugs(R, d, Root(R * R - d * d)) && Hugs(R, d, -Root(R * R - d * d))
  {
    assert R * R - d * d == (R - d) * (R + d);
    assert (R - d) * (R + d) >= 1;
    var r: int := Root(R * R - d * d);
    assert (-r) * (-r) == r * r;
  }

  /** The pair of pixels that one turn of a sweep sets, at signed distance `d` from the centre
      along the swept axis. At the two poles the search returns nothing and the other
      coordinate is whatever was left. */
  predicate SweptPair(center: Point, R: nat, d: int, vertical: bool, p: Point, q: Point)
    requires Abs(d) <= R
  {
    && (if vertical then p.x == q.x == center.x + d else p.y == q.y == center.y + d)
    && (Abs(d) < R ==>
          assert R * R - d * d >= 1 by { RootHugs(R, d); }
          var s := Root(R * R - d * d);
          if vertical then p.y == center.y - s && q.y == center.y + s
          else p.x == center.x - s && q.x == center.x + s)
  }

  /** The distance from the centre along the swept axis, at turn `t` of sweep `k`. */
  function SweepDistance(R: int, k: nat, t: int): (d: int)
    requires k < 4 && 0 <= t <= R
    ensures Abs(d) <= R
  {
    if k == 0 then R - t else if k == 1 then -t else if k == 2 then -R + t else t
  }

  /** The pixels of the first `n` turns of sweep `k`, by pairs. */
  ghost predicate SweepPixels(center: Point, R: nat, k: nat, n: nat, ps: seq<Point>)
    requires k < 4 && n <= R + 1
  {
    && |ps| == 2 * n
    && forall t :: 0 <= t < n ==> SweptPair(center, R, SweepDistance(R, k, t), k < 2, ps[2 * t], ps[2 * t + 1])
  }

  /** Sweep `k` of all the pixels of a circle. */
  function SweepOf(R: nat, k: nat, ps: seq<Point>): (s: seq<Point>)
    requires k < 4 && |ps| == 8 * (R + 1)
    ensures |s| == 2 * (R + 1)
  {
    if k == 0 then ps[..2 * (R + 1)] else if k == 1 then ps[2 * (R + 1)..4 * (R + 1)]
    else if k == 2 then ps[4 * (R + 1)..6 * (R + 1)] else ps[6 * (R + 1)..]
  }

  /** The pixels of `drawcircle`: four sweeps of R + 1 turns. */
  ghost predicate CirclePixels(center: Point, R: nat, ps: seq<Point>)
  {
    && |ps| == 8 * (R + 1)
    && forall k :: 0 <= k < 4 ==> SweepPixels(center, R, k, R + 1, SweepOf(R, k, ps))
  }

  /** The circle is complete: for every column and every row strictly inside the radius, the
      two points of the circle on it are plotted, on opposite sides of the centre. */
  lemma CircleCovers(center: Point, R: nat, ps: seq<Point>, d: int) returns (s: nat)
    requires CirclePixels(center, R, ps) && d < R && -d < R
    ensures d * d + s * s < R * R <= d * d + (s + 1) * (s + 1)
    ensures Point(center.x + d, center.y - s) in ps && Point(center.x + d, center.y + s) in ps
    ensures Point(center.x - s, center.y + d) in ps && Point(center.x + s, center.y + d) in ps
  {
    RootHugs(R, d);
    s := Root(R * R - d * d);
    hide Root, SweptPair;
    var column, row := if d >= 0 then 0 else 1, if d <= 0 then 2 else 3;
    TurnPlotted(center, R, ps, column, if d >= 0 then R - d else -d, d);
    TurnPlotted(center, R, ps, row, if d <= 0 then d + R else d, d);
  }

  lemma TurnPlotted(center: Point, R: nat, ps: seq<Point>, k: nat, t: nat, d: int)
    requires CirclePixels(center, R, ps) && k < 4 && t <= R && SweepDistance(R, k, t) == d && d < R && -d < R
    ensures R * R - d * d >= 1
    ensures var s := Root(R * R - d * d);
            if k < 2 then Point(center.x + d, center.y - s) in ps && Point(center.x + d, center.y + s) in ps
            else Point(center.x - s, center.y + d) in ps && Point(center.x + s, center.y + d) in ps
  {
    RootHugs(R, d);
    hide Root, Hugs, SweepDistance;
    var sweep := SweepOf(R, k, ps);
    assert SweepPixels(center, R, k, R + 1, sweep);
    InSweep(R, k, ps, 2 * t);
    InSweep(R, k, ps, 2 * t + 1);
    assert SweptPair(center, R, d, k < 2, sweep[2 * t], sweep[2 * t + 1]);
  }

  lemma InSweep(R: nat, k: nat, ps: seq<Point>, i: nat)
    requires k < 4 && |ps| == 8 * (R + 1) && i < 2 * (R + 1)
    ensures SweepOf(R, k, ps)[i] in ps
  {
  }

  /** Nothing else is plotted: every pixel is at a pole of its sweep, or is the last of its
      column or of its row strictly inside the circle. */
  lemma CirclePixelsOnly(center: Point, R: nat, ps: seq<Point>, p: Point)
    requires CirclePixels(center, R, ps) && p in ps
    ensures var dx, dy := Abs(p.x - center.x), Abs(p.y - center.y);
            || dx == R || dy == R
            || dx * dx + dy * dy < R * R <= dx * dx + (dy + 1) * (dy + 1)
            || dx * dx + dy * dy < R * R <= dy * dy + (dx + 1) * (dx + 1)
  {
    var i :| 0 <= i < |ps| && ps[i] == p;
    var k, j := PlaceInSweep(R, ps, i);
    hide SweptPair, Root, Abs;
    PixelOfTurn(center, R, ps, k, j / 2, j % 2);
    assert j == 2 * (j / 2) + j % 2;
  }

  lemma PlaceInSweep(R: nat, ps: seq<Point>, i: nat) returns (k: nat, j: nat)
    requires |ps| == 8 * (R + 1) && i < |ps|
    ensures k < 4 && j < 2 * (R + 1) && SweepOf(R, k, ps)[j] == ps[i]
  {
    var n := 2 * (R + 1);
    k := if i < n then 0 else if i < 2 * n then 1 else if i < 3 * n then 2 else 3;
    j := if i < n then i else if i < 2 * n then i - n else if i < 3 * n then i - 2 * n else i - 3 * n;
  }

  lemma PixelOfTurn(center: Point, R: nat, ps: seq<Point>, k: nat, t: nat, side: nat)
    requires CirclePixels(center, R, ps) && k < 4 && t <= R && side < 2
    ensures var p := SweepOf(R, k, ps)[2 * t + side];
            var dx, dy := Abs(p.x - center.x), Abs(p.y - center.y);
            || dx == R || dy == R
            || dx * dx + dy * dy < R * R <= dx * dx + (dy + 1) * (dy + 1)
            || dx * dx + dy * dy < R * R <= dy * dy + (dx + 1) * (dx + 1)
  {
    var p, d := SweepOf(R, k, ps)[2 * t + side], SweepDistance(R, k, t);
    assert SweptPair(center, R, d, k < 2, SweepOf(R, k, ps)[2 * t], SweepOf(R, k, ps)[2 * t + 1]) by {
      hide SweptPair, SweepDistance;
      assert SweepPixels(center, R, k, R + 1, SweepOf(R, k, ps));
    }
    if Abs(d) < R {
      CirclePixelsHug(center, R, ps, k, t);
      AbsSquare(p.x - center.x);
      AbsSquare(p.y - center.y);
    }
  }

  lemma AbsSquare(a: int)
    ensures Abs(a) * Abs(a) == a * a
  {
  }

  /** In all four sweeps, every pixel away from the poles is strictly inside the circle, and
      the next one outward along the other axis is on it or outside. */
  lemma CirclePixelsHug(center: Point, R: nat, ps: seq<Point>, k: nat, t: nat)
    requires CirclePixels(center, R, ps) && k < 4 && t <= R && Abs(SweepDistance(R, k, t)) < R
    ensures var p, q := SweepOf(R, k, ps)[2 * t], SweepOf(R, k, ps)[2 * t + 1];
            if k < 2
            then Hugs(R, p.x - center.x, p.y - center.y) && Hugs(R, q.x - center.x, q.y - center.y)
            else Hugs(R, p.y - center.y, p.x - center.x) && Hugs(R, q.y - center.y, q.x - center.x)
  {
    RootHugs(R, SweepDistance(R, k, t));
    hide Root, Hugs, SweepDistance, SweepOf;
    assert SweepPixels(center, R, k, R + 1, SweepOf(R, k, ps));
  }

  lemma SweepSnoc(center: Point, R: nat, k: nat, t: nat, ps: seq<Point>, p: Point, q: Point)
    requires k < 4 && t <= R && SweepPixels(center, R, k, t, ps)
    requires SweptPair(center, R, SweepDistance(R, k, t), k < 2, p, q)
    ensures SweepPixels(center, R, k, t + 1, ps + [p] + [q])
  {
    hide SweptPair, SweepDistance;
  }

  lemma FourSweeps(center: Point, R: nat, a: seq<Point>, b: seq<Point>, c: seq<Point>, d: seq<Point>)
    requires SweepPixels(center, R, 0, R + 1, a) && SweepPixels(center, R, 1, R + 1, b)
    requires SweepPixels(center, R, 2, R + 1, c) && SweepPixels(center, R, 3, R + 1, d)
    ensures CirclePixels(center, R, a + b + c + d)
  {
    hide SweptPair;
    var ps := a + b + c + d;
    assert SweepOf(R, 0, ps) == a && SweepOf(R, 1, ps) == b && SweepOf(R, 2, ps) == c && SweepOf(R, 3, ps) == d;
  }

  // ---------- rectangles ----------

  function RowPixels(x: int, y: int, w: int): (ps: seq<Point>)
  {
    seq(if w < 0 then 0 else w, j => Point(x + j, y))
  }

  /** The pixels of `fillrect`, row by row; a width or height below one sets nothing. */
  function RectPixels(x: int, y: int, w: int, h: int): (ps: seq<Point>)
    decreases if h < 0 then 0 else h
  {
    if h <= 0 then [] else RectPixels(x, y, w, h - 1) + RowPixels(x, y + h - 1, w)
  }

  lemma {:induction false} RectIsFilled(x: int, y: int, w: int, h: int, p: Point)
    ensures p in RectPixels(x, y, w, h) <==> x <= p.x < x + w && y <= p.y < y + h
    decreases if h < 0 then 0 else h
  {
    if h > 0 {
      RectIsFilled(x, y, w, h - 1, p);
      var row := RowPixels(x, y + h - 1, w);
      assert p in row <==> x <= p.x < x + w && p.y == y + h - 1 by {
        if x <= p.x < x + w && p.y == y + h - 1 {
          assert row[p.x - x] == p;
        }
      }
    }
  }

  lemma SelfSquare(i: nat)
    ensures i * i >= i
  {
  }

  lemma OffsetSteps(p: Point, j: int)
    ensures Offset(Point(p.x + j, p.y)) == (Offset(p) + j * 4) % 0x1_0000_0000
    ensures Offset(Point(p.x, p.y + 1)) == (Offset(p) + 5120) % 0x1_0000_0000
  {
    ModAdd((p.x + p.y * 1280) * 4, j * 4);
    ModAdd((p.x + p.y * 1280) * 4, 5120);
    assert (p.x + j + p.y * 1280) * 4 == (p.x + p.y * 1280) * 4 + j * 4;
    assert (p.x + (p.y + 1) * 1280) * 4 == (p.x + p.y * 1280) * 4 + 5120;
  }

  lemma ModAdd(a: int, b: int)
    ensures (a % 0x1_0000_0000 + b) % 0x1_0000_0000 == (a + b) % 0x1_0000_0000
  {
    var q := a / 0x1_0000_0000;
    assert a + b == a % 0x1_0000_0000 + b + 0x1_0000_0000 * q;
  }

  lemma RectRows(video: seq<Byte>, x: int, y: int, w: int, h: int, c: Color)
    requires |video| == SPACE
    ensures h >= 0 ==> Paint(video, RectPixels(x, y, w, h + 1), c) ==
                       Paint(Paint(video, RectPixels(x, y, w, h), c), RowPixels(x, y + h, w), c)
    ensures h <= 0 ==> Paint(video, RectPixels(x, y, w, h), c) == video
  {
    PaintAppend(video, RectPixels(x, y, w, h), RowPixels(x, y + h, w), c);
  }

  // ---------- the routines ----------

  /** The frame buffer, and the calls of `setpixel` made so far. */
  class Surface {
    const video: array<Byte>
    ghost var plots: seq<Point>

    constructor (video: array<Byte>)
      ensures this.video == video && plots == []
    {
      this.video, plots := video, [];
    }

    method SetPixel(p: Point, c: Color)
      requires video.Length == SPACE
      modifies this, video
      ensures plots == old(plots) + [p]
      ensures video[..] == Put(old(video[..]), Offset(p), Bytes(c))
    {
      StoreAt((p.x + p.y * 1280) * 4 % 0x1_0000_0000, c);
      plots := plots + [p];
    }

    method DrawLine(a: Point, b: Point, c: Color)
      requires video.Length == SPACE && a != b
      modifies this, video
      ensures plots == old(plots) + LinePixels(a, b)
      ensures video[..] == Paint(old(video[..]), LinePixels(a, b), c)
    {
      var x1, y1, x2, y2 := a.x, a.y, b.x, b.y;
      var dx, dy := x2 - x1, y2 - y1;
      var dxabs, dyabs := if dx < 0 then -dx else dx, if dy < 0 then -dy else dy;
      ghost var ps := LinePixels(a, b);
      hide LinePixels, TDiv, Paint;
      if dxabs >= dyabs {
        FlatPixels(a, b);
        if x1 > x2 {
          x1, x2 := x2, x1;
        }
        FlatLine(x1, x2, y1, dy, dxabs, ps, c);
      } else {
        SteepPixels(a, b);
        if y1 > y2 {
          y1, y2 := y2, y1;
        }
        SteepLine(y1, y2, x1, dx, dyabs, ps, c);
      }
    }

    /** The first `i` pixels of a list are set, and no others since. */
    ghost predicate Drawn(before: seq<Point>, was: seq<Byte>, ps: seq<Point>, i: nat, c: Color)
      reads this, video
    {
      && video.Length == SPACE == |was| && i <= |ps|
      && plots == before + ps[..i] && video[..] == Paint(was, ps[..i], c)
    }

    lemma DrawnNone(ps: seq<Point>, c: Color)
      requires video.Length == SPACE
      ensures Drawn(plots, video[..], ps, 0, c)
    {
    }

    lemma DrawnAll(before: seq<Point>, was: seq<Byte>, ps: seq<Point>, c: Color)
      requires Drawn(before, was, ps, |ps|, c)
      ensures |was| == SPACE && plots == before + ps && video[..] == Paint(was, ps, c)
    {
      assert ps[..|ps|] == ps;
    }

    /** The loop over columns. */
    method FlatLine(x1: int, x2: int, y1: int, dy: int, dxabs: int, ghost ps: seq<Point>, c: Color)
      requires video.Length == SPACE && x1 <= x2 && dxabs > 0 && |ps| == x2 - x1 + 1
      requires forall i :: 0 <= i < |ps| ==> ps[i] == Point(x1 + i, y1 + TDiv(dy * i, dxabs))
      modifies this, video
      ensures plots == old(plots) + ps && video[..] == Paint(old(video[..]), ps, c)
    {
      ghost var before, was := plots, video[..];
      DrawnNone(ps, c);
      hide *;
      var px := x1;
      while px <= x2
        invariant x1 <= px <= x2 + 1
        invariant Drawn(before, was, ps, px - x1, c)
        decreases x2 + 1 - px
      {
        var tempy := dy * (px - x1);
        var py := y1 + TDiv(tempy, dxabs);
        PlotNext(before, was, ps, px - x1, Point(px, py), c);
        px := px + 1;
      }
      DrawnAll(before, was, ps, c);
    }

    /** The loop over rows. */
    method SteepLine(y1: int, y2: int, x1: int, dx: int, dyabs: int, ghost ps: seq<Point>, c: Color)
      requires video.Length == SPACE && y1 <= y2 && dyabs > 0 && |ps| == y2 - y1 + 1
      requires forall i :: 0 <= i < |ps| ==> ps[i] == Point(x1 + TDiv(dx * i, dyabs), y1 + i)
      modifies this, video
      ensures plots == old(plots) + ps && video[..] == Paint(old(video[..]), ps, c)
    {
      ghost var before, was := plots, video[..];
      DrawnNone(ps, c);
      hide *;
      var py := y1;
      while py <= y2
        invariant y1 <= py <= y2 + 1
        invariant Drawn(before, was, ps, py - y1, c)
        decreases y2 + 1 - py
      {
        var tempx := dx * (py - y1);
        var px := x1 + TDiv(tempx, dyabs);
        PlotNext(before, was, ps, py - y1, Point(px, py), c);
        py := py + 1;
      }
      DrawnAll(before, was, ps, c);
    }

    /** `setpixel`, as the next pixel of a list. */
    method PlotNext(ghost before: seq<Point>, ghost was: seq<Byte>, ghost ps: seq<Point>, ghost i: nat,
                    p: Point, c: Color)
      requires Drawn(before, was, ps, i, c) && i < |ps| && ps[i] == p
      modifies this, video
      ensures Drawn(before, was, ps, i + 1, c)
    {
      hide Paint, Offset, Bytes;
      assert ps[..i + 1] == ps[..i] + [p];
      PaintSnoc(was, ps[..i], p, c);
      SetPixel(p, c);
    }

    /** `sqrt`: falls off its end, leaving anything, when its argument is below one. */
    method Sqrt(square: int) returns (r: int)
      ensures square >= 1 ==> r == Root(square) && r >= 0 && r * r < square <= (r + 1) * (r + 1)
    {
      var i := 0;
      while i < square
        invariant 0 <= i && (square >= 1 ==> i * i < square)
        decreases square - i
      {
        if i * i <= square && (i + 1) * (i + 1) >= square {
          RootIsUnique(square, i, Root(square));
          return i;
        }
        i := i + 1;
      }
      SelfSquare(i);
      r := *;
    }

    method DrawCircle(center: Point, radius: int, c: Color) returns (ghost ps: seq<Point>)
      requires video.Length == SPACE
      modifies this, video
      ensures plots == old(plots) + ps && video[..] == Paint(old(video[..]), ps, c)
      ensures if radius < 0 then ps == [] else CirclePixels(center, radius, ps)
    {
      ps := [];
      ghost var was := video[..];
      assert Paint(was, [], c) == was;
      if radius < 0 {
        return;
      }
      hide SweepPixels, Paint, CirclePixels;
      ghost var right := Sweep(center, radius, 0, c);
      ghost var left := Sweep(center, radius, 1, c);
      PaintAppend(was, right, left, c);
      ghost var lower := Sweep(center, radius, 2, c);
      PaintAppend(was, right + left, lower, c);
      ghost var upper := Sweep(center, radius, 3, c);
      PaintAppend(was, right + left + lower, upper, c);
      ps := right + left + lower + upper;
      FourSweeps(center, radius, right, left, lower, upper);
    }

    /** One of the four loops: down the columns of the right and left halves, up the rows of
        the lower and upper halves. */
    method Sweep(center: Point, radius: nat, k: nat, c: Color) returns (ghost ps: seq<Point>)
      requires video.Length == SPACE && k < 4
      modifies this, video
      ensures plots == old(plots) + ps && video[..] == Paint(old(video[..]), ps, c)
      ensures SweepPixels(center, radius, k, radius + 1, ps)
    {
      ps := [];
      ghost var was := video[..];
      assert Paint(was, [], c) == was;
      for t := 0 to radius + 1
        invariant SweepPixels(center, radius, k, t, ps)
        invariant plots == old(plots) + ps && video[..] == Paint(was, ps, c)
      {
        hide Paint;
        var d := SweepDistance(radius, k, t);
        var p, q := SweepTurn(center, radius, d, k < 2);
        PaintSnoc(was, ps, p, c);
        SetPixel(p, c);
        PaintSnoc(was, ps + [p], q, c);
        SetPixel(q, c);
        SweepSnoc(center, radius, k, t, ps, p, q);
        ps := ps + [p] + [q];
      }
    }

    /** The two pixels of one turn, each from its own root search. */
    method SweepTurn(center: Point, radius: nat, d: int, vertical: bool) returns (p: Point, q: Point)
      requires Abs(d) <= radius
      ensures SweptPair(center, radius, d, vertical, p, q)
    {
      var temps := radius * radius - d * d;
      if Abs(d) < radius {
        RootHugs(radius, d);
      }
      hide Root, Hugs;
      var r1 := Sqrt(temps);
      var r2 := Sqrt(temps);
      if vertical {
        p, q := Point(center.x + d, center.y - r1), Point(center.x + d, center.y + r2);
      } else {
        p, q := Point(center.x - r1, center.y + d), Point(center.x + r2, center.y + d);
      }
    }

    /** `fillrect`: one running offset, advanced by a row of bytes at a time. */
    method FillRect(x: int, y: int, w: int, h: int, c: Color)
      requires video.Length == SPACE
      modifies video
      ensures video[..] == Paint(old(video[..]), RectPixels(x, y, w, h), c)
    {
      var offset := (x + y * 1280) * 4 % 0x1_0000_0000;
      assert offset == Offset(Point(x, y));
      hide *;
      FillRows(x, y, w, h, offset, c);
    }

    /** The first `rows` rows of the rectangle are painted. */
    ghost predicate RowsPainted(was: seq<Byte>, x: int, y: int, w: int, rows: int, c: Color)
      reads video
    {
      video.Length == SPACE == |was| && video[..] == Paint(was, RectPixels(x, y, w, rows), c)
    }

    lemma NoRowsPainted(x: int, y: int, w: int, rows: int, c: Color)
      requires video.Length == SPACE
      ensures rows <= 0 ==> RowsPainted(video[..], x, y, w, rows, c)
    {
      RectRows(video[..], x, y, w, rows, c);
    }

    lemma RowsPaintedMeans(was: seq<Byte>, x: int, y: int, w: int, rows: int, c: Color)
      requires RowsPainted(was, x, y, w, rows, c)
      ensures |was| == SPACE && video[..] == Paint(was, RectPixels(x, y, w, rows), c)
    {
    }

    method FillRows(x: int, y: int, w: int, h: int, first: nat, c: Color)
      requires video.Length == SPACE && first == Offset(Point(x, y))
      modifies video
      ensures video[..] == Paint(old(video[..]), RectPixels(x, y, w, h), c)
    {
      ghost var was := video[..];
      NoRowsPainted(x, y, w, 0, c);
      NoRowsPainted(x, y, w, h, c);
      hide *;
      if h < 0 {
        RowsPaintedMeans(was, x, y, w, h, c);
        return;
      }
      var offset := first;
      for i := 0 to h
        invariant offset == Offset(Point(x, y + i)) && RowsPainted(was, x, y, w, i, c)
      {
        offset := NextRow(was, x, y, w, i, offset, c);
      }
      RowsPaintedMeans(was, x, y, w, h, c);
    }

    /** One row, and the offset of the next. */
    method NextRow(ghost was: seq<Byte>, ghost x: int, ghost y: int, w: int, ghost i: nat, offset: nat, c: Color)
      returns (next: nat)
      requires RowsPainted(was, x, y, w, i, c) && offset == Offset(Point(x, y + i))
      modifies video
      ensures RowsPainted(was, x, y, w, i + 1, c) && next == Offset(Point(x, y + (i + 1)))
    {
      RectRows(was, x, y, w, i, c);
      OffsetSteps(Point(x, y + i), 0);
      hide Paint, RectPixels, RowPixels, Offset;
      FillRow(Point(x, y + i), offset, w, c);
      next := (offset + 5120) % 0x1_0000_0000;
    }

    method FillRow(ghost p: Point, offset: nat, w: int, c: Color)
      requires video.Length == SPACE && offset == Offset(p)
      modifies video
      ensures video[..] == Paint(old(video[..]), RowPixels(p.x, p.y, w), c)
    {
      ghost var was, ps := video[..], RowPixels(p.x, p.y, w);
      assert Paint(was, [], c) == was;
      assert RowPainted(was, p, w, 0, c);
      hide *;
      var j := 0;
      while j < w
        invariant 0 <= j && (j <= w || j == 0)
        invariant RowPainted(was, p, w, j, c)
        decreases w - j
      {
        StorePixel(was, p, offset, w, j, c);
        j := j + 1;
      }
      RowPaintedMeans(was, p, w, j, c);
    }

    /** The first `j` pixels of a row are painted. */
    ghost predicate RowPainted(was: seq<Byte>, p: Point, w: int, j: nat, c: Color)
      reads video
    {
      && video.Length == SPACE == |was| && j <= |RowPixels(p.x, p.y, w)|
      && video[..] == Paint(was, RowPixels(p.x, p.y, w)[..j], c)
    }

    lemma RowPaintedMeans(was: seq<Byte>, p: Point, w: int, j: nat, c: Color)
      requires RowPainted(was, p, w, j, c) && j >= w
      ensures |was| == SPACE && video[..] == Paint(was, RowPixels(p.x, p.y, w), c)
    {
      assert RowPixels(p.x, p.y, w)[..j] == RowPixels(p.x, p.y, w);
    }

    method StorePixel(ghost was: seq<Byte>, ghost p: Point, offset: nat, ghost w: int, j: nat, c: Color)
      requires RowPainted(was, p, w, j, c) && j < w && offset == Offset(p)
      modifies video
      ensures RowPainted(was, p, w, j + 1, c)
    {
      ghost var ps, q := RowPixels(p.x, p.y, w), Point(p.x + j, p.y);
      assert ps[..j + 1] == ps[..j] + [q];
      hide Paint, Offset, Bytes;
      OffsetSteps(p, j);
      PaintSnoc(was, ps[..j], q, c);
      StoreAt((offset + j * 4) % 0x1_0000_0000, c);
    }

    method StoreAt(offset: nat, c: Color)
      requires offset + 4 <= video.Length
      modifies video
      ensures video[..] == Put(old(video[..]), offset, Bytes(c))
    {
      video[offset], video[offset + 1], video[offset + 2], video[offset + 3] := c.b, c.g, c.r, 0;
    }
  }
}
