/** The pixels that the line and circle routines plot (drivers/graphics.c). */
module Graphics {
  import opened Machine

  datatype Point = Point(x: int, y: int)

  function Abs(n: int): nat { if n < 0 then -n else n }

  function Max(a: int, b: int): int { if a < b then b else a }

  /** The offset `n` counted in the direction in which `d` points. */
  function Along(d: int, n: int): int { if d > 0 then n else -n }

  // ----- Line -----

  /** How far `a` units of height `j` are above the ideal line at column `k`, times the run `a`. */
  function Deviation(a: int, b: int, k: int, j: int): int { a * j - b * k }

  lemma DeviationSteps(a: int, b: int, k: int, j: int)
    ensures Deviation(a, b, 0, 0) == 0
    ensures Deviation(a, b, k + 1, j) == Deviation(a, b, k, j) - b
    ensures Deviation(a, b, k, j + 1) == Deviation(a, b, k, j) + a
    ensures Deviation(a, b, k + 1, j + 1) == Deviation(a, b, k, j) + a - b
    ensures Deviation(a, b, k, j) == -Deviation(b, a, j, k)
    ensures a == b && k == j ==> Deviation(a, b, k, j) == 0
  {}

  /**
   * `j` is the height, in units of the ideal line's rise b over run a, that the pixel in column `k`
   * should have: within half a pixel, a tie going toward the start of the line.
   */
  predicate Nearest(a: int, b: int, k: int, j: int)
  {
    var dev := Deviation(a, b, k, j);
    -a <= 2 * dev && (2 * dev < a || a == 0)
  }

  /** Point number `k` of the line: the dominant coordinate has moved `k` times. */
  ghost predicate OnLine(p: Point, k: nat, x1: int, y1: int, x2: int, y2: int)
  {
    var dx, dy := x2 - x1, y2 - y1;
    var i, j := Along(dx, p.x - x1), Along(dy, p.y - y1);
    if Abs(dx) >= Abs(dy) then i == k && Nearest(Abs(dx), Abs(dy), k, j)
    else j == k && Nearest(Abs(dy), Abs(dx), k, i)
  }

  /**
   * The dominant coordinate of pixel `k` is `k` steps away from the start, and the other one is within half a pixel
   * of the ideal line; exactly half a pixel off, it is on the side of the start.
   */
  lemma OnLineMeaning(p: Point, k: nat, x1: int, y1: int, x2: int, y2: int)
    requires OnLine(p, k, x1, y1, x2, y2)
    ensures var dx, dy, u, v := x2 - x1, y2 - y1, p.x - x1, p.y - y1;
      var off := dx * v - dy * u;
      if Abs(dx) >= Abs(dy) then
        && (dx > 0 ==> u == k) && (dx <= 0 ==> -u == k) && Abs(2 * off) <= Abs(dx)
        && (dx != 0 && Abs(2 * off) == Abs(dx) ==> Abs(dx) * Abs(v) < Abs(dy) * k)
      else
        && (dy > 0 ==> v == k) && (dy <= 0 ==> -v == k) && Abs(2 * off) <= Abs(dy)
        && (Abs(2 * off) == Abs(dy) ==> Abs(dy) * Abs(u) < Abs(dx) * k)
  {
    var dx, dy, u, v := x2 - x1, y2 - y1, p.x - x1, p.y - y1;
    var i, j := Along(dx, u), Along(dy, v);
    SameOffset(dx, dy, u, v);
    if Abs(dy) > Abs(dx) {
      NotBehind(Abs(dy), Abs(dx), k, i);
    } else if dx != 0 {
      NotBehind(Abs(dx), Abs(dy), k, j);
    }
  }

  /** Mirrored so that the line goes right and up, the offset is the same but for the sign. */
  lemma SameOffset(dx: int, dy: int, u: int, v: int)
    ensures var dev := Deviation(Abs(dx), Abs(dy), Along(dx, u), Along(dy, v));
      dev == dx * v - dy * u || dev == -(dx * v - dy * u)
  {
    assert Abs(dx) * Along(dy, v) == dx * Along(dx, Along(dy, v));
  }

  lemma NotBehind(a: int, b: int, k: int, j: int)
    requires 0 <= b <= a && 0 < a && 0 <= k && Nearest(a, b, k, j)
    ensures j >= 0
  {
    if j <= -1 {
      MulOrder(j, -1, a);
      MulOrder(0, k, b);
      assert false;
    }
  }

  /** Half a pixel leaves no choice. */
  lemma NearestUnique(a: int, b: int, k: int, j: int, j': int)
    requires a > 0 && Nearest(a, b, k, j) && Nearest(a, b, k, j')
    ensures j == j'
  {
    if j + 1 <= j' {
      MulOrder(j + 1, j', a);
      assert false;
    } else if j' + 1 <= j {
      MulOrder(j' + 1, j, a);
      assert false;
    }
  }

  /** So the whole picture is determined by its end points. */
  lemma OnLineUnique(p: Point, q: Point, k: nat, x1: int, y1: int, x2: int, y2: int)
    requires Point(x1, y1) != Point(x2, y2)
    requires OnLine(p, k, x1, y1, x2, y2) && OnLine(q, k, x1, y1, x2, y2)
    ensures p == q
  {
    var dx, dy := x2 - x1, y2 - y1;
    if Abs(dx) >= Abs(dy) {
      NearestUnique(Abs(dx), Abs(dy), k, Along(dy, p.y - y1), Along(dy, q.y - y1));
    } else {
      NearestUnique(Abs(dy), Abs(dx), k, Along(dx, p.x - x1), Along(dx, q.x - x1));
    }
  }

  /** The end point is the only point with its number. */
  lemma EndOnLine(x1: int, y1: int, x2: int, y2: int)
    ensures OnLine(Point(x2, y2), Max(Abs(x2 - x1), Abs(y2 - y1)), x1, y1, x2, y2)
  {
    var a, b := Abs(x2 - x1), Abs(y2 - y1);
    DeviationSteps(a, b, b, a);
    assert Deviation(a, b, a, b) == 0 && Deviation(b, a, b, a) == 0;
  }

  /** One turn of the loop keeps the pixel nearest to the line, whichever way it steps. */
  lemma LineStep(a: int, b: int, i: int, j: int, err: int)
    requires a >= 0 && b >= 0 && a + b > 0
    requires if a >= b then Nearest(a, b, i, j) else Nearest(b, a, j, i)
    requires a == b ==> i == j
    requires err == a - b + Deviation(a, b, i, j)
    ensures a >= b ==> 2 * err > -b
    ensures a <= b ==> 2 * err < a
    ensures var i' := if 2 * err > -b then i + 1 else i;
      var j' := if 2 * err < a then j + 1 else j;
      if a >= b then Nearest(a, b, i', j') else Nearest(b, a, j', i')
    ensures var i' := if 2 * err > -b then i + 1 else i;
      var j' := if 2 * err < a then j + 1 else j;
      err + (if 2 * err > -b then -b else 0) + (if 2 * err < a then a else 0) == a - b + Deviation(a, b, i', j')
  {
    DeviationSteps(a, b, i, j);
    DeviationSteps(a, b, i + 1, j);
    DeviationSteps(a, b, i, j + 1);
    DeviationSteps(a, b, i + 1, j + 1);
    hide Deviation;
  }

  /** The loop's state when it is about to plot point number `k`. */
  ghost predicate AtStep(x: int, y: int, err: int, k: nat, x1: int, y1: int, x2: int, y2: int)
  {
    var dx, dy := x2 - x1, y2 - y1;
    var a, b, i, j := Abs(dx), Abs(dy), Along(dx, x - x1), Along(dy, y - y1);
    && OnLine(Point(x, y), k, x1, y1, x2, y2) && k <= Max(a, b)
    && err == a - b + Deviation(a, b, i, j) && (a == b ==> i == j)
  }

  lemma FirstStep(x1: int, y1: int, x2: int, y2: int)
    ensures AtStep(x1, y1, Abs(x2 - x1) - Abs(y2 - y1), 0, x1, y1, x2, y2)
  {
    DeviationSteps(Abs(x2 - x1), Abs(y2 - y1), 0, 0);
  }

  /** Short of the end, the loop steps to the next point. */
  lemma NextStep(x: int, y: int, err: int, k: nat, x1: int, y1: int, x2: int, y2: int)
    requires AtStep(x, y, err, k, x1, y1, x2, y2) && Point(x, y) != Point(x2, y2)
    ensures var a: int, b: int := Abs(x2 - x1), Abs(y2 - y1);
      var right, up := 2 * err > -b, 2 * err < a;
      AtStep(if right then x + (if x2 > x1 then 1 else -1) else x, if up then y + (if y2 > y1 then 1 else -1) else y,
             err - (if right then b else 0) + (if up then a else 0), k + 1, x1, y1, x2, y2)
  {
    hide Deviation, Nearest;
    var dx, dy := x2 - x1, y2 - y1;
    EndOnLine(x1, y1, x2, y2);
    if k == Max(Abs(dx), Abs(dy)) { OnLineUnique(Point(x, y), Point(x2, y2), k, x1, y1, x2, y2); }
    LineStep(Abs(dx), Abs(dy), Along(dx, x - x1), Along(dy, y - y1), err);
  }

  lemma StepFacts(x: int, y: int, err: int, k: nat, x1: int, y1: int, x2: int, y2: int)
    requires AtStep(x, y, err, k, x1, y1, x2, y2)
    ensures OnLine(Point(x, y), k, x1, y1, x2, y2) && k <= Max(Abs(x2 - x1), Abs(y2 - y1))
    ensures x == x2 && y == y2 ==> k == Max(Abs(x2 - x1), Abs(y2 - y1))
  {}

  method DrawLine(x1: int, y1: int, x2: int, y2: int) returns (plotted: seq<Point>)
    ensures |plotted| == Max(Abs(x2 - x1), Abs(y2 - y1)) + 1
    ensures forall k :: 0 <= k < |plotted| ==> OnLine(plotted[k], k, x1, y1, x2, y2)
    ensures plotted[0] == Point(x1, y1) && plotted[|plotted| - 1] == Point(x2, y2)
  {
    hide AtStep, OnLine, Deviation, Nearest;
    var dx := x2 - x1;
    var dy := y2 - y1;
    var absDx := if dx < 0 then -dx else dx;
    var absDy := if dy < 0 then -dy else dy;
    var sx := if dx > 0 then 1 else -1;
    var sy := if dy > 0 then 1 else -1;
    var err := absDx - absDy;
    var x := x1;
    var y := y1;
    plotted := [];
    FirstStep(x1, y1, x2, y2);
    while true
      invariant AtStep(x, y, err, |plotted|, x1, y1, x2, y2)
      invariant forall k :: 0 <= k < |plotted| ==> OnLine(plotted[k], k, x1, y1, x2, y2)
      invariant if plotted == [] then x == x1 && y == y1 else plotted[0] == Point(x1, y1)
      decreases Max(absDx, absDy) - |plotted|
    {
      StepFacts(x, y, err, |plotted|, x1, y1, x2, y2);
      ghost var k := |plotted|;
      plotted := plotted + [Point(x, y)];
      if x == x2 && y == y2 {
        break;
      }
      NextStep(x, y, err, k, x1, y1, x2, y2);
      var e2 := 2 * err;
      if e2 > -absDy {
        err := err - absDy;
        x := x + sx;
      }
      if e2 < absDx {
        err := err + absDx;
        y := y + sy;
      }
      StepFacts(x, y, err, |plotted|, x1, y1, x2, y2);
    }
  }

  // ----- Circle -----

  /** `y` is the height at column `x` of the circle of radius `r`, rounded to the nearest integer. */
  predicate NearestHeight(r: int, x: int, y: int)
  {
    y * y - y < r * r - x * x <= y * y + y
  }

  /** The same, said of the true height. */
  lemma NearestHeightMeaning(r: int, x: int, y: int, height: real)
    requires NearestHeight(r, x, y) && y >= 1
    requires height >= 0.0 && height * height == (r * r - x * x) as real
    ensures -0.5 < height - y as real < 0.5
  {
    var yr := y as real;
    assert ((y * y - y) as real) == yr * yr - yr && ((y * y + y) as real) == yr * yr + yr;
    var h2 := r * r - x * x;
    assert (h2 as real) >= ((y * y - y + 1) as real);
    if height >= yr + 0.5 {
      SquareOrder(yr + 0.5, height);
      assert false;
    }
    if height <= yr - 0.5 {
      SquareOrder(height, yr - 0.5);
      assert false;
    }
  }

  lemma SquareOrder(a: real, b: real)
    requires 0.0 <= a <= b
    ensures a * a <= b * b
  {}

  lemma NearestHeightUnique(r: int, x: int, y: int, y': int)
    requires NearestHeight(r, x, y) && NearestHeight(r, x, y') && y >= 0 && y' >= 0
    ensures y == y'
  {
    if y + 1 <= y' {
      StepUp(y, y');
    } else if y' + 1 <= y {
      StepUp(y', y);
    }
  }

  lemma StepUp(y: int, y': int)
    requires 0 <= y && y + 1 <= y'
    ensures y * y + y <= y' * y' - y'
  {
    MulOrder(y + 1, y', y');
    MulOrder(y, y' - 1, y + 1);
    assert (y' - 1) * (y + 1) <= (y' - 1) * y' by { MulOrder(y + 1, y', y' - 1); }
  }

  /** The eight pixels plotted for one octant point, in the order of the calls. */
  function Reflections(cx: int, cy: int, x: int, y: int): (ps: seq<Point>)
    ensures |ps| == 8
  {
    [Point(cx + x, cy + y), Point(cx + x, cy - y), Point(cx - x, cy + y), Point(cx - x, cy - y),
     Point(cx + y, cy + x), Point(cx + y, cy - x), Point(cx - y, cy + x), Point(cx - y, cy - x)]
  }

  /** All pixels for the octant heights `ys`, one per column starting at 0. */
  function AllReflections(cx: int, cy: int, ys: seq<int>): (ps: seq<Point>)
    ensures |ps| == 8 * |ys|
  {
    if ys == [] then []
    else AllReflections(cx, cy, ys[..|ys| - 1]) + Reflections(cx, cy, |ys| - 1, ys[|ys| - 1])
  }

  lemma AllReflectionsSnoc(cx: int, cy: int, ys: seq<int>, y: int)
    ensures AllReflections(cx, cy, ys + [y]) == AllReflections(cx, cy, ys) + Reflections(cx, cy, |ys|, y)
  {
    assert (ys + [y])[..|ys|] == ys;
  }

  /** Block `k` of eight has `k` and the height there as its two offsets, with every sign and either way round. */
  lemma {:induction false} BlockAt(cx: int, cy: int, ys: seq<int>, k: nat)
    requires k < |ys|
    ensures var y := ys[k];
      AllReflections(cx, cy, ys)[8 * k..8 * k + 8] ==
        [Point(cx + k, cy + y), Point(cx + k, cy - y), Point(cx - k, cy + y), Point(cx - k, cy - y),
         Point(cx + y, cy + k), Point(cx + y, cy - k), Point(cx - y, cy + k), Point(cx - y, cy - k)]
  {
    var front := ys[..|ys| - 1];
    if k < |front| {
      BlockAt(cx, cy, front, k);
      assert AllReflections(cx, cy, ys)[8 * k..8 * k + 8] == AllReflections(cx, cy, front)[8 * k..8 * k + 8];
    }
  }

  /** The two offsets of a pixel from the center, the larger one second, are a column and its height. */
  ghost predicate Offsets(cx: int, cy: int, p: Point, x: nat, y: nat)
  {
    (Abs(p.x - cx), Abs(p.y - cy)) == (x, y) || (Abs(p.x - cx), Abs(p.y - cy)) == (y, x)
  }

  lemma PlottedHasOffsets(cx: int, cy: int, ys: seq<int>, i: nat)
    requires i < 8 * |ys| && forall x :: 0 <= x < |ys| ==> 0 <= ys[x]
    ensures Offsets(cx, cy, AllReflections(cx, cy, ys)[i], i / 8, ys[i / 8])
  {
    hide AllReflections;
    BlockAt(cx, cy, ys, i / 8);
    assert AllReflections(cx, cy, ys)[i] == AllReflections(cx, cy, ys)[8 * (i / 8)..8 * (i / 8) + 8][i % 8];
  }

  lemma OffsetsArePlotted(cx: int, cy: int, ys: seq<int>, p: Point, x: nat)
    requires x < |ys| && 0 <= ys[x] && Offsets(cx, cy, p, x, ys[x])
    ensures p in AllReflections(cx, cy, ys)
  {
    hide AllReflections;
    BlockAt(cx, cy, ys, x);
    assert p in AllReflections(cx, cy, ys)[8 * x..8 * x + 8];
  }

  /**
   * The picture as a whole: a pixel is plotted exactly if, going along its longer offset, it is the pixel nearest to
   * the circle. So the picture is symmetric about both axes and both diagonals.
   */
  lemma CirclePixels(r: int, cx: int, cy: int, ys: seq<int>, p: Point)
    requires r >= 1 && Octant(r, ys)
    ensures var dx, dy := Abs(p.x - cx), Abs(p.y - cy);
      var short, long := if dx < dy then dx else dy, if dx < dy then dy else dx;
      p in AllReflections(cx, cy, ys) <==> long * long - long < r * r - short * short <= long * long + long
  {
    hide AllReflections;
    var dx, dy := Abs(p.x - cx), Abs(p.y - cy);
    var short, long := if dx < dy then dx else dy, if dx < dy then dy else dx;
    var ps := AllReflections(cx, cy, ys);
    if i: nat :| i < |ps| && ps[i] == p { PlottedHasOffsets(cx, cy, ys, i); }
    if NearestHeight(r, short, long) {
      OctantIsWhole(r, ys, short, long);
      NearestHeightUnique(r, short, long, ys[short]);
      OffsetsArePlotted(cx, cy, ys, p, short);
    }
  }

  /** The upper octant: the nearest height of every column left of or on the diagonal. */
  ghost predicate Octant(r: int, ys: seq<int>)
  {
    && (forall x :: 0 <= x < |ys| ==> x <= ys[x] && NearestHeight(r, x, ys[x]))
    && forall y :: |ys| <= y ==> !NearestHeight(r, |ys|, y)
  }

  lemma OctantNotShorter(r: int, ys: seq<int>, zs: seq<int>, x: nat)
    requires Octant(r, ys) && Octant(r, zs) && x < |zs|
    ensures x != |ys|
  {
    assert x <= zs[x] && NearestHeight(r, x, zs[x]);
  }

  /** There is only one such octant. */
  lemma OctantUnique(r: int, ys: seq<int>, zs: seq<int>)
    requires Octant(r, ys) && Octant(r, zs)
    ensures ys == zs
  {
    if |ys| < |zs| { OctantNotShorter(r, ys, zs, |ys|); }
    if |zs| < |ys| { OctantNotShorter(r, zs, ys, |zs|); }
    forall x | 0 <= x < |ys|
      ensures ys[x] == zs[x]
    {
      NearestHeightUnique(r, x, ys[x], zs[x]);
    }
  }

  /** Right of the octant, nothing on or above the diagonal is nearest to the circle. */
  lemma OctantIsWhole(r: int, ys: seq<int>, x: nat, y: nat)
    requires Octant(r, ys) && x <= y && NearestHeight(r, x, y)
    ensures x < |ys|
  {
    var m := |ys|;
    if m <= x {
      if m * m - m < r * r - m * m { NearestExists(r, m, m); }
      MulOrder(m, x, m);
      MulOrder(m, x, x);
      SquareLess(m, x);
      SquareLess(x, y);
      assert false;
    }
  }

  lemma SquareLess(a: nat, b: nat)
    requires a <= b
    ensures a * a <= b * b && a * a - a <= b * b - b
  {
    if a < b {
      MulOrder(a, b - 1, a);
      MulOrder(a, b - 1, b);
    }
  }

  /** Some height from `y` on is the nearest, if the circle is not below `y`. */
  lemma {:induction false} NearestExists(r: int, x: int, y: nat)
    requires y * y - y < r * r - x * x
    ensures exists z: nat :: y <= z && NearestHeight(r, x, z)
    decreases r * r - y
  {
    if y * y + y < r * r - x * x {
      assert (y + 1) * (y + 1) - (y + 1) == y * y + y;
      SquareIsNat(x);
      SquareIsNat(y);
      NearestExists(r, x, y + 1);
    } else {
      assert NearestHeight(r, x, y);
    }
  }

  lemma SquareIsNat(x: int)
    ensures x * x >= 0
  {}

  /** What the circle loop knows about its current column. */
  ghost predicate CircleAt(r: int, x: int, y: int, d: int)
  {
    && 0 <= x && 0 <= y
    && d == (x + 1) * (x + 1) + y * y - y - r * r
    && r * r - x * x <= y * y + y
    && (x <= y ==> NearestHeight(r, x, y))
  }

  lemma CircleStart(r: int)
    requires r >= 1
    ensures CircleAt(r, 0, r, 1 - r)
  {}

  lemma CircleStep(r: int, x: int, y: int, d: int)
    requires CircleAt(r, x, y, d) && x <= y
    ensures d < 0 ==> CircleAt(r, x + 1, y, d + 2 * x + 3)
    ensures d >= 0 ==> CircleAt(r, x + 1, y - 1, d + 2 * (x - y) + 5)
  {
    assert (x + 2) * (x + 2) == x * x + 4 * x + 4 && (x + 1) * (x + 1) == x * x + 2 * x + 1;
    assert (y - 1) * (y - 1) == y * y - 2 * y + 1;
    var x2, y2, r2 := x * x, y * y, r * r;
  }

  lemma CircleEnd(r: int, x: int, y: int, d: int)
    requires CircleAt(r, x, y, d) && x > y
    ensures forall z :: x <= z ==> !NearestHeight(r, x, z)
  {
    forall z | x <= z
      ensures !NearestHeight(r, x, z)
    {
      StepUp(y, z);
    }
  }

  method DrawCircle(cx: int, cy: int, radius: int) returns (plotted: seq<Point>)
    ensures radius >= 1 ==> exists ys :: Octant(radius, ys) && plotted == AllReflections(cx, cy, ys)
    ensures radius >= 1 ==> forall p: Point ::
              var dx, dy := Abs(p.x - cx), Abs(p.y - cy);
              var short, long := if dx < dy then dx else dy, if dx < dy then dy else dx;
              p in plotted <==> long * long - long < radius * radius - short * short <= long * long + long
    ensures radius == 0 ==> plotted == seq(8, _ => Point(cx, cy))
    ensures radius < 0 ==> plotted == []
  {
    var x := 0;
    var y := radius;
    var d := 1 - radius;
    plotted := [];
    ghost var ys: seq<int> := [];
    assert plotted == AllReflections(cx, cy, ys);
    if radius >= 1 { CircleStart(radius); }
    hide CircleAt;
    hide NearestHeight;
    hide AllReflections;
    hide Octant;
    while x <= y
      invariant 0 <= x == |ys|
      invariant plotted == AllReflections(cx, cy, ys)
      invariant radius >= 1 ==> CircleAt(radius, x, y, d)
      invariant radius >= 1 ==> forall k :: 0 <= k < x ==> k <= ys[k] && NearestHeight(radius, k, ys[k])
      invariant radius == 0 ==> (x == 0 && y == 0 && ys == [] && d == 1) || (x == 1 && y == -1 && ys == [0])
      invariant radius < 0 ==> x == 0 && y < 0
      decreases y - x
    {
      plotted := plotted +
        [Point(cx + x, cy + y), Point(cx + x, cy - y), Point(cx - x, cy + y), Point(cx - x, cy - y),
         Point(cx + y, cy + x), Point(cx + y, cy - x), Point(cx - y, cy + x), Point(cx - y, cy - x)];
      AllReflectionsSnoc(cx, cy, ys, y);
      ys := ys + [y];
      if radius >= 1 { CircleStep(radius, x, y, d); NearestNow(radius, x, y, d); }
      if d < 0 {
        d := d + 2 * x + 3;
      } else {
        d := d + 2 * (x - y) + 5;
        y := y - 1;
      }
      x := x + 1;
    }
    if radius >= 1 {
      CircleEnd(radius, x, y, d);
      OctantFrom(radius, ys);
      forall p: Point { CirclePixels(radius, cx, cy, ys, p); }
    }
  }

  lemma OctantFrom(r: int, ys: seq<int>)
    requires forall x :: 0 <= x < |ys| ==> x <= ys[x] && NearestHeight(r, x, ys[x])
    requires forall y :: |ys| <= y ==> !NearestHeight(r, |ys|, y)
    ensures Octant(r, ys)
  {}

  lemma NearestNow(r: int, x: int, y: int, d: int)
    requires CircleAt(r, x, y, d) && x <= y
    ensures NearestHeight(r, x, y)
  {}
}
