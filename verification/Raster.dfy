/** The line and circle rasterisers of the framebuffer driver.

    `fb_put_pixel` is a call into the framebuffer; each method returns the
    pixels it puts, in call order. All variables of the source are 32-bit
    signed: the invariants show that no intermediate value leaves that range.
 */
module Raster {
  import opened Common

  datatype Point = Point(x: int, y: int)

  const I32_MAX := 0x7FFF_FFFF

  predicate InI32(v: int) {
    -I32_MAX - 1 <= v <= I32_MAX
  }

  function Abs(v: int): int {
    if v < 0 then -v else v
  }

  /** k steps from `from` in the direction of `to` (the source's `sx` and `sy`). */
  function Along(from: int, to: int, k: int): int {
    if from < to then from + k else from - k
  }

  //////////////////////////////////////////////////////////////////////////
  // Lines
  //////////////////////////////////////////////////////////////////////////

  /** The deviation built up by i x-steps (each taking off dy) and j y-steps (each
      adding dx), as the loop accumulates it. */
  function Drift(dx: int, dy: int, i: nat, j: nat): int {
    if i > 0 then Drift(dx, dy, i - 1, j) - dy
    else if j > 0 then Drift(dx, dy, i, j - 1) + dx
    else 0
  }

  lemma {:induction false} DriftIsCrossProduct(dx: int, dy: int, i: nat, j: nat)
    ensures Drift(dx, dy, i, j) == j * dx - i * dy
    decreases i + j
  {
    if i > 0 {
      DriftIsCrossProduct(dx, dy, i - 1, j);
      assert (i - 1) * dy == i * dy - dy;
    } else if j > 0 {
      DriftIsCrossProduct(dx, dy, i, j - 1);
      assert (j - 1) * dx == j * dx - dx;
    }
  }

  /** After `k` steps along the longer axis and `j` along the shorter one the
      pixel is within half a pixel of the true line, a tie only below it. */
  predicate Close(k: nat, j: nat, minor: int, major: int) {
    -major <= 2 * Drift(major, minor, k, j) < major
  }

  /** The integer nearest to k * minor / major; a tie goes down. */
  function Nearest(k: nat, minor: nat, major: nat): int
    requires major > 0
  {
    (2 * (k * minor) + major - 1) / (2 * major)
  }

  /** Reference definition of pixel k of the line from a to b: k steps along the
      longer axis and the nearest number of steps along the shorter one. */
  predicate IsIdealPixel(a: Point, b: Point, k: nat, p: Point) {
    var dx, dy := Abs(b.x - a.x), Abs(b.y - a.y);
    var i, j := Abs(p.x - a.x), Abs(p.y - a.y);
    && p == Point(Along(a.x, b.x, i), Along(a.y, b.y, j))
    && (if dx >= dy then i == k && (if dx == 0 then j == 0 else Close(k, j, dy, dx))
        else j == k && Close(k, i, dx, dy))
  }

  /** Every pixel put so far is the ideal one for its position. */
  predicate IsIdealLine(a: Point, b: Point, pixels: seq<Point>) {
    pixels != [] ==>
      IsIdealLine(a, b, pixels[..|pixels| - 1]) && IsIdealPixel(a, b, |pixels| - 1, pixels[|pixels| - 1])
  }

  lemma {:induction false} IdealLineAt(a: Point, b: Point, pixels: seq<Point>, k: nat)
    requires IsIdealLine(a, b, pixels) && k < |pixels|
    ensures IsIdealPixel(a, b, k, pixels[k])
  {
    if k < |pixels| - 1 {
      IdealLineAt(a, b, pixels[..|pixels| - 1], k);
    }
  }

  lemma MulOrder(a: int, b: int, m: int)
    requires a < b && 0 < m
    ensures a * m + m <= b * m
  {
    assert (b - a - 1) * m >= 0;
    assert (b - a - 1) * m == b * m - a * m - m;
  }

  lemma CloseIsNearest(k: nat, j: nat, minor: nat, major: nat)
    requires major > 0
    ensures Close(k, j, minor, major) <==> j == Nearest(k, minor, major)
  {
    DriftIsCrossProduct(major, minor, k, j);
    NearestByQuotient(k * minor, j, j * major, major);
  }

  lemma NearestByQuotient(km: int, j: int, jm: int, major: nat)
    requires major > 0 && jm == j * major
    ensures -(major as int) <= 2 * (jm - km) < major <==> j == (2 * km + major - 1) / (2 * major)
  {
    var m := 2 * major;
    var v := 2 * km + major - 1;
    var q := v / m;
    assert q * m <= v < q * m + m;
    assert j * m == 2 * jm;
    if j < q {
      MulOrder(j, q, m);
    } else if j > q {
      MulOrder(q, j, m);
    }
  }

  /** At the last major step the line has arrived, and before it the minor
      steps never overshoot. */
  lemma NearestStaysInside(k: nat, minor: nat, major: nat)
    requires 0 < major && minor <= major && k <= major
    ensures 0 <= Nearest(k, minor, major) <= minor
    ensures k == major ==> Nearest(k, minor, major) == minor
    ensures k == 0 ==> Nearest(k, minor, major) == 0
  {
    var j := Nearest(k, minor, major);
    NearestByQuotient(k * minor, j, j * major, major);
    NearestBounds(k * minor, j * major, minor * major, j, k, minor, major);
  }

  lemma NearestBounds(km: int, jm: int, nm: int, j: int, k: nat, minor: nat, major: nat)
    requires km == k * minor && jm == j * major && nm == minor * major
    requires 0 < major && k <= major && -(major as int) <= 2 * (jm - km) < major
    ensures 0 <= j <= minor
    ensures k == major ==> j == minor
    ensures k == 0 ==> j == 0
  {
    assert 0 <= km <= nm by {
      assert (major - k) * minor >= 0;
      assert (major - k) * minor == nm - km;
    }
    if j < 0 {
      MulOrder(j, 0, major);
    } else if j > minor {
      MulOrder(minor, j, major);
    } else if j < minor {
      MulOrder(j, minor, major);
    }
    if j > 0 {
      MulOrder(0, j, major);
    }
  }

  /** The reference definition has exactly one solution, in closed form. */
  lemma IdealPixelIsUnique(a: Point, b: Point, k: nat, p: Point)
    requires a != b && k <= Max(Abs(b.x - a.x), Abs(b.y - a.y))
    ensures var dx, dy := Abs(b.x - a.x), Abs(b.y - a.y);
            IsIdealPixel(a, b, k, p) <==>
            p == (if dx >= dy then Point(Along(a.x, b.x, k), Along(a.y, b.y, Nearest(k, dy, dx)))
                  else Point(Along(a.x, b.x, Nearest(k, dx, dy)), Along(a.y, b.y, k)))
  {
    var dx, dy := Abs(b.x - a.x), Abs(b.y - a.y);
    if dx >= dy {
      NearestStaysInside(k, dy, dx);
      CloseIsNearest(k, Abs(p.y - a.y), dy, dx);
    } else {
      NearestStaysInside(k, dx, dy);
      CloseIsNearest(k, Abs(p.x - a.x), dx, dy);
    }
  }

  /** Every ideal pixel lies within half a pixel of the true line: the cross
      product of the pixel's offset and the line's direction is at most half the
      longer side. */
  lemma IdealPixelWithinHalf(a: Point, b: Point, k: nat, p: Point)
    requires IsIdealPixel(a, b, k, p)
    ensures Abs(2 * ((p.y - a.y) * (b.x - a.x) - (p.x - a.x) * (b.y - a.y))) <= Max(Abs(b.x - a.x), Abs(b.y - a.y))
  {
    var dx, dy := Abs(b.x - a.x), Abs(b.y - a.y);
    var i, j := Abs(p.x - a.x), Abs(p.y - a.y);
    DriftIsCrossProduct(dx, dy, i, j);
    DriftIsCrossProduct(dy, dx, j, i);
    CrossProduct(a, b, i, j);
  }

  lemma CrossProduct(a: Point, b: Point, i: int, j: int)
    ensures var u, v := Along(a.x, b.x, i) - a.x, Along(a.y, b.y, j) - a.y;
            Abs(v * (b.x - a.x) - u * (b.y - a.y)) == Abs(j * Abs(b.x - a.x) - i * Abs(b.y - a.y))
  {
    var dx, dy := b.x - a.x, b.y - a.y;
    assert (-j) * dx == -(j * dx) && j * (-dx) == -(j * dx) && (-j) * (-dx) == j * dx;
    assert (-i) * dy == -(i * dy) && i * (-dy) == -(i * dy) && (-i) * (-dy) == i * dy;
  }

  /** The ideal line runs from a to b and never leaves their bounding box. */
  lemma IdealLineEndpoints(a: Point, b: Point, k: nat, p: Point)
    requires k <= Max(Abs(b.x - a.x), Abs(b.y - a.y)) && IsIdealPixel(a, b, k, p)
    ensures k == 0 ==> p == a
    ensures k == Max(Abs(b.x - a.x), Abs(b.y - a.y)) <==> p == b
    ensures Abs(p.x - a.x) + Abs(b.x - p.x) == Abs(b.x - a.x)
    ensures Abs(p.y - a.y) + Abs(b.y - p.y) == Abs(b.y - a.y)
  {
    var dx, dy := Abs(b.x - a.x), Abs(b.y - a.y);
    var i, j := Abs(p.x - a.x), Abs(p.y - a.y);
    if dx >= dy && dx > 0 {
      DriftIsCrossProduct(dx, dy, k, j);
      NearestBounds(k * dy, j * dx, dy * dx, j, k, dy, dx);
    } else if dy > dx {
      DriftIsCrossProduct(dy, dx, k, i);
      NearestBounds(k * dx, i * dy, dx * dy, i, k, dx, dy);
    }
  }

  /** What the loop of DrawLine keeps once `i` x-steps and `j` y-steps are done,
      for the deviation d == j * dx - i * dy. */
  predicate LineInv(dx: int, dy: int, d: int, err: int) {
    && err == d + dx - dy
    && (dx >= dy ==> -dx <= 2 * d && (2 * d < dx || dx == 0))
    && (dx < dy ==> -dy < 2 * d <= dy)
    && (dx == dy ==> d == 0)
  }

  /** One turn of the loop takes the major step always, and the minor step
      exactly when the invariant needs it. */
  lemma LineStep(dx: int, dy: int, d: int, err: int)
    requires LineInv(dx, dy, d, err)
    requires 0 <= dx && 0 <= dy && dx + dy > 0
    requires 3 * Max(dx, dy) <= I32_MAX
    ensures var xStep, yStep := 2 * err + dy > 0, 2 * err < dx;
            && LineInv(dx, dy, d - (if xStep then dy else 0) + (if yStep then dx else 0),
                       err - (if xStep then dy else 0) + (if yStep then dx else 0))
            && (dx >= dy ==> xStep)
            && (dx < dy ==> yStep)
    ensures InI32(err) && InI32(2 * err) && InI32(err - dy) && InI32(err + dx)
  {
  }

  lemma DriftStep(dx: int, dy: int, i: nat, j: nat)
    ensures Drift(dx, dy, i + 1, j) == Drift(dx, dy, i, j) - dy
    ensures Drift(dx, dy, i, j + 1) == Drift(dx, dy, i, j) + dx
    ensures Drift(dx, dy, i + 1, j + 1) == Drift(dx, dy, i, j) + dx - dy
    ensures Drift(dy, dx, j, i) == -Drift(dx, dy, i, j)
  {
    DriftIsCrossProduct(dx, dy, i, j);
    DriftIsCrossProduct(dx, dy, i, j + 1);
    DriftIsCrossProduct(dy, dx, j, i);
    assert (j + 1) * dx == j * dx + dx;
  }

  /** Under the invariant the current pixel is the ideal one. */
  lemma LineReaches(a: Point, b: Point, dx: int, dy: int, i: nat, j: nat, d: int, err: int)
    requires dx == Abs(b.x - a.x) && dy == Abs(b.y - a.y)
    requires LineInv(dx, dy, d, err) && d == Drift(dx, dy, i, j)
    requires a == b ==> i == j == 0
    ensures IsIdealPixel(a, b, if dx >= dy then i else j, Point(Along(a.x, b.x, i), Along(a.y, b.y, j)))
  {
    DriftStep(dx, dy, i, j);
    var p := Point(Along(a.x, b.x, i), Along(a.y, b.y, j));
    assert Abs(p.x - a.x) == i && Abs(p.y - a.y) == j;
    if dx < dy {
      assert Close(j, i, dx, dy);
    } else if dx > 0 {
      assert Close(i, j, dy, dx);
    }
  }

  /** The state of the loop of DrawLine before it puts its next pixel: `i` x-steps
      and `j` y-steps lead to `at`, and the pixels put so far are the ideal ones. */
  ghost predicate LineState(a: Point, b: Point, at: Point, err: int, i: nat, j: nat, pixels: seq<Point>) {
    var dx, dy := Abs(b.x - a.x), Abs(b.y - a.y);
    && LineInv(dx, dy, Drift(dx, dy, i, j), err)
    && at == Point(Along(a.x, b.x, i), Along(a.y, b.y, j))
    && |pixels| == (if dx >= dy then i else j) <= Max(dx, dy)
    && (a == b ==> i == j == 0)
    && IsIdealLine(a, b, pixels)
  }

  lemma LinePut(a: Point, b: Point, at: Point, err: int, i: nat, j: nat, pixels: seq<Point>)
    requires LineState(a, b, at, err, i, j, pixels)
    ensures IsIdealLine(a, b, pixels + [at])
    ensures at == b <==> |pixels| == Max(Abs(b.x - a.x), Abs(b.y - a.y))
  {
    var dx, dy := Abs(b.x - a.x), Abs(b.y - a.y);
    LineReaches(a, b, dx, dy, i, j, Drift(dx, dy, i, j), err);
    assert (pixels + [at])[..|pixels|] == pixels;
    IdealLineEndpoints(a, b, |pixels|, at);
  }

  lemma LineTurn(a: Point, b: Point, dx: int, dy: int, sx: int, sy: int,
                 at: Point, err: int, i: nat, j: nat, pixels: seq<Point>)
    returns (at': Point, err': int, i': nat, j': nat)
    requires LineState(a, b, at, err, i, j, pixels) && at != b
    requires dx == Abs(b.x - a.x) && dy == Abs(b.y - a.y) && 3 * Max(dx, dy) <= I32_MAX
    requires sx == (if a.x < b.x then 1 else -1) && sy == (if a.y < b.y then 1 else -1)
    ensures InI32(err) && InI32(2 * err) && InI32(err - dy) && InI32(err + dx)
    ensures i' == (if 2 * err > -dy then i + 1 else i)
    ensures j' == (if 2 * err < dx then j + 1 else j)
    ensures err' == err - (if 2 * err > -dy then dy else 0) + (if 2 * err < dx then dx else 0)
    ensures at'.x == at.x + (if 2 * err > -dy then sx else 0)
    ensures at'.y == at.y + (if 2 * err < dx then sy else 0)
    ensures |pixels| < Max(dx, dy)
    ensures LineState(a, b, at', err', i', j', pixels + [at])
  {
    LinePut(a, b, at, err, i, j, pixels);
    LineStep(dx, dy, Drift(dx, dy, i, j), err);
    DriftStep(dx, dy, i, j);
    i' := if 2 * err > -dy then i + 1 else i;
    j' := if 2 * err < dx then j + 1 else j;
    err' := err - (if 2 * err > -dy then dy else 0) + (if 2 * err < dx then dx else 0);
    at' := Point(Along(a.x, b.x, i'), Along(a.y, b.y, j'));
  }

  /** fb_draw_line puts exactly the ideal line, pixel by pixel, in order. */
  method DrawLine(x1: int, y1: int, x2: int, y2: int) returns (pixels: seq<Point>)
    requires InI32(x1) && InI32(y1) && InI32(x2) && InI32(y2)
    requires 3 * Max(Abs(x2 - x1), Abs(y2 - y1)) <= I32_MAX  // 2 * err does not wrap
    ensures |pixels| == Max(Abs(x2 - x1), Abs(y2 - y1)) + 1
    ensures IsIdealLine(Point(x1, y1), Point(x2, y2), pixels)
  {
    var x, y := x1, y1;
    var dx, dy := Abs(x2 - x), Abs(y2 - y);
    var sx := if x < x2 then 1 else -1;
    var sy := if y < y2 then 1 else -1;
    var err := dx - dy;
    ghost var a, b := Point(x1, y1), Point(x2, y2);
    ghost var i: nat, j: nat := 0, 0;
    pixels := [];
    ghost var state := (at: Point, err: int, i: nat, j: nat, pixels: seq<Point>) =>
      LineState(a, b, at, err, i, j, pixels);
    while true
      invariant state(Point(x, y), err, i, j, pixels)
      decreases Max(dx, dy) - |pixels|
    {
      LinePut(a, b, Point(x, y), err, i, j, pixels);
      ghost var before := pixels;
      pixels := pixels + [Point(x, y)];
      if x == x2 && y == y2 {
        break;
      }
      ghost var at', err', i', j' := LineTurn(a, b, dx, dy, sx, sy, Point(x, y), err, i, j, before);
      var e2 := 2 * err;
      if e2 > -dy {
        err := err - dy;
        x := x + sx;
      }
      if e2 < dx {
        err := err + dx;
        y := y + sy;
      }
      assert state(at', err', i', j', pixels);
      assert at' == Point(x, y) && err' == err;
      i, j := i', j';
    }
  }

  //////////////////////////////////////////////////////////////////////////
  // Circles
  //////////////////////////////////////////////////////////////////////////

  /** How far offset (x, y) is from the circle, as a difference of squares. */
  function Deviation(x: int, y: int, r: int): int {
    x * x + y * y - r * r
  }

  /** The four pixels on the axes. */
  function AxisPixels(cx: int, cy: int, r: int): seq<Point> {
    [Point(cx, cy + r), Point(cx, cy - r), Point(cx + r, cy), Point(cx - r, cy)]
  }

  /** The eight mirror images of one offset. */
  function Mirror(cx: int, cy: int, x: int, y: int): seq<Point> {
    [Point(cx + x, cy + y), Point(cx - x, cy + y), Point(cx + x, cy - y), Point(cx - x, cy - y),
     Point(cx + y, cy + x), Point(cx - y, cy + x), Point(cx + y, cy - x), Point(cx - y, cy - x)]
  }

  /** The pixels put for the rows `ys`, where ys[k] is the row of column k. */
  function CirclePixels(cx: int, cy: int, ys: seq<int>): seq<Point>
    requires |ys| > 0
  {
    if |ys| == 1 then AxisPixels(cx, cy, ys[0])
    else CirclePixels(cx, cy, ys[..|ys| - 1]) + Mirror(cx, cy, |ys| - 1, ys[|ys| - 1])
  }

  /** (x, y) is a good pixel: its squared distance is off by at most the larger
      coordinate, and inside the octant x <= y the true circle crosses column x
      strictly between the pixel's lower and upper half-way points. */
  predicate OnCircle(x: int, y: int, r: int) {
    && Abs(Deviation(x, y, r)) <= Max(x, y)
    && (0 < x <= y ==> 4 * (x * x) + (2 * y - 1) * (2 * y - 1) < 4 * (r * r) < 4 * (x * x) + (2 * y + 1) * (2 * y + 1))
  }

  /** The rows of one octant: they start at the top, fall by at most one pixel
      a column, and go on until the diagonal is reached. */
  predicate Octant(ys: seq<int>, r: int) {
    && |ys| > 0 && ys[0] == r
    && (forall k :: 0 <= k < |ys| ==> 0 <= ys[k] <= r && OnCircle(k, ys[k], r))
    && (forall k :: 0 <= k < |ys| - 1 ==> k < ys[k])
    && (forall k :: 1 <= k < |ys| ==> ys[k - 1] - 1 <= ys[k] <= ys[k - 1])
  }

  /** What the loop of DrawCircle keeps, for e == Deviation(x, y, r). */
  predicate CircleInv(f: int, ddFx: int, ddFy: int, x: int, y: int, r: int, e: int) {
    && 0 <= x <= y + 1 && 0 <= y <= r
    && f == e + 2 * x + 1 - y
    && ddFx == 2 * x && ddFy == -2 * y
    && -y <= e <= Max(x, y)
    && (x <= y && r > 0 ==> e <= y - 1)
  }

  lemma CircleStep(f: int, ddFx: int, ddFy: int, x: int, y: int, r: int, e: int)
    requires CircleInv(f, ddFx, ddFy, x, y, r, e) && x < y && r <= 0x3FFF_FFFE
    ensures f < 0 ==> CircleInv(f + ddFx + 3, ddFx + 2, ddFy, x + 1, y, r, e + 2 * x + 1)
    ensures f >= 0 ==>
      CircleInv(f + ddFy + 2 + ddFx + 3, ddFx + 2, ddFy + 2, x + 1, y - 1, r, e + 2 * x + 1 - 2 * y + 1)
    ensures InI32(f) && InI32(if f >= 0 then f + ddFy + 2 else f + ddFx + 3)
  {
  }

  lemma DeviationStep(x: int, y: int, r: int)
    ensures Deviation(x + 1, y, r) == Deviation(x, y, r) + 2 * x + 1
    ensures Deviation(x + 1, y - 1, r) == Deviation(x, y, r) + 2 * x + 1 - 2 * y + 1
  {
  }

  /** The decision variable of the source in closed form: it is negative exactly
      when the half-way point below row y is inside the circle. */
  lemma DecisionVariable(f: int, ddFx: int, ddFy: int, x: int, y: int, r: int)
    requires CircleInv(f, ddFx, ddFy, x, y, r, Deviation(x, y, r))
    ensures f == (x + 1) * (x + 1) + y * y - y - r * r
    ensures f < 0 <==> 4 * ((x + 1) * (x + 1)) + (2 * y - 1) * (2 * y - 1) < 4 * (r * r)
  {
    Squares(x, y);
  }

  lemma Squares(x: int, y: int)
    ensures (x + 1) * (x + 1) == x * x + 2 * x + 1
    ensures (2 * y - 1) * (2 * y - 1) == 4 * (y * y) - 4 * y + 1
    ensures (2 * y + 1) * (2 * y + 1) == 4 * (y * y) + 4 * y + 1
  {
  }

  lemma InvIsOnCircle(x: int, y: int, r: int)
    requires 0 <= x && 0 <= y
    requires -y <= Deviation(x, y, r) <= Max(x, y)
    requires 0 < x <= y ==> Deviation(x, y, r) <= y - 1
    ensures OnCircle(x, y, r)
  {
    Squares(x, y);
  }

  lemma OctantGrows(ys: seq<int>, y: int, r: int)
    requires Octant(ys, r) && |ys| - 1 < ys[|ys| - 1]
    requires 0 <= y <= r && OnCircle(|ys|, y, r)
    requires ys[|ys| - 1] - 1 <= y <= ys[|ys| - 1]
    ensures Octant(ys + [y], r)
  {
  }

  /** The state of the loop of DrawCircle: column x has been reached in row y. */
  ghost predicate CircleState(f: int, ddFx: int, ddFy: int, x: int, y: int, r: int, ys: seq<int>) {
    && CircleInv(f, ddFx, ddFy, x, y, r, Deviation(x, y, r))
    && |ys| == x + 1 && ys[x] == y && Octant(ys, r)
  }

  lemma CircleBegins(r: nat)
    ensures CircleState(1 - r, 0, -2 * r, 0, r, r, [r])
  {
    InvIsOnCircle(0, r, r);
  }

  lemma CircleTurn(f: int, ddFx: int, ddFy: int, x: int, y: int, r: int, ys: seq<int>)
    returns (f': int, ddFy': int, y': int)
    requires CircleState(f, ddFx, ddFy, x, y, r, ys) && x < y && r <= 0x3FFF_FFFE
    ensures y' == (if f >= 0 then y - 1 else y) && ddFy' == (if f >= 0 then ddFy + 2 else ddFy)
    ensures f' == f + (if f >= 0 then ddFy + 2 else 0) + ddFx + 3
    ensures CircleState(f', ddFx + 2, ddFy', x + 1, y', r, ys + [y'])
  {
    CircleStep(f, ddFx, ddFy, x, y, r, Deviation(x, y, r));
    DeviationStep(x, y, r);
    y' := if f >= 0 then y - 1 else y;
    ddFy' := if f >= 0 then ddFy + 2 else ddFy;
    f' := f + (if f >= 0 then ddFy + 2 else 0) + ddFx + 3;
    InvIsOnCircle(x + 1, y', r);
    OctantGrows(ys, y', r);
  }

  lemma PixelsGrow(cx: int, cy: int, ys: seq<int>, y: int)
    requires |ys| > 0
    ensures CirclePixels(cx, cy, ys + [y]) == CirclePixels(cx, cy, ys) + Mirror(cx, cy, |ys|, y)
  {
    assert (ys + [y])[..|ys|] == ys;
  }

  /** fb_draw_circle walks one octant of the circle and puts its mirror images. */
  method DrawCircle(cx: int, cy: int, r: nat) returns (pixels: seq<Point>, ghost ys: seq<int>)
    requires r <= 0x3FFF_FFFE  // no 32-bit value wraps
    requires InI32(cx - r) && InI32(cx + r) && InI32(cy - r) && InI32(cy + r)
    ensures Octant(ys, r) && ys[|ys| - 1] <= |ys| - 1
    ensures pixels == CirclePixels(cx, cy, ys)
    ensures |pixels| == 4 + 8 * (|ys| - 1)
    ensures forall p: Point :: p in pixels <==> IsPut(ys, Abs(p.x - cx), Abs(p.y - cy))
  {
    var f := 1 - r;
    var ddFx := 0;
    var ddFy := -2 * r;
    var x: int, y: int := 0, r;
    ys := [r];
    pixels := AxisPixels(cx, cy, r);
    CircleBegins(r);
    ghost var state := (f: int, ddFx: int, ddFy: int, x: int, y: int, ys: seq<int>) =>
      CircleState(f, ddFx, ddFy, x, y, r, ys);
    while x < y
      invariant state(f, ddFx, ddFy, x, y, ys)
      invariant |ys| == x + 1 && pixels == CirclePixels(cx, cy, ys)
      decreases y - x
    {
      ghost var f', ddFy', y' := CircleTurn(f, ddFx, ddFy, x, y, r, ys);
      if f >= 0 {
        y := y - 1;
        ddFy := ddFy + 2;
        f := f + ddFy;
      }
      x := x + 1;
      ddFx := ddFx + 2;
      f := f + ddFx + 1;
      PixelsGrow(cx, cy, ys, y);
      pixels := pixels + Mirror(cx, cy, x, y);
      assert state(f', ddFx, ddFy', x, y', ys + [y']);
      assert f == f' && ddFy == ddFy' && y == y';
      ys := ys + [y];
    }
    CircleIsWhole(cx, cy, r, ys);
  }

  /** The offsets a and b, whatever their signs, are a column and its row, or a row and its column. */
  predicate IsPut(ys: seq<int>, a: int, b: int) {
    (0 <= a < |ys| && ys[a] == b) || (0 <= b < |ys| && ys[b] == a)
  }

  lemma CircleIsWhole(cx: int, cy: int, r: nat, ys: seq<int>)
    requires Octant(ys, r)
    ensures |CirclePixels(cx, cy, ys)| == 4 + 8 * (|ys| - 1)
    ensures forall p: Point :: p in CirclePixels(cx, cy, ys) <==> IsPut(ys, Abs(p.x - cx), Abs(p.y - cy))
  {
    forall p: Point
      ensures p in CirclePixels(cx, cy, ys) <==> IsPut(ys, Abs(p.x - cx), Abs(p.y - cy))
    {
      CircleIsExact(cx, cy, ys, p);
    }
    CircleCalls(cx, cy, ys);
  }

  lemma {:induction false} CircleCalls(cx: int, cy: int, ys: seq<int>)
    requires |ys| > 0
    ensures |CirclePixels(cx, cy, ys)| == 4 + 8 * (|ys| - 1)
  {
    if |ys| > 1 {
      CircleCalls(cx, cy, ys[..|ys| - 1]);
    }
  }

  /** A pixel is put exactly when its offsets, whatever their signs and their order, are those
      of a pixel of the octant: so all eight octants are drawn, and nothing else. */
  lemma {:induction false} CircleIsExact(cx: int, cy: int, ys: seq<int>, p: Point)
    requires |ys| > 0 && forall k :: 0 <= k < |ys| ==> ys[k] >= 0
    ensures p in CirclePixels(cx, cy, ys) <==> IsPut(ys, Abs(p.x - cx), Abs(p.y - cy))
  {
    var n := |ys| - 1;
    var a, b := Abs(p.x - cx), Abs(p.y - cy);
    if n == 0 {
      AxisIsExact(cx, cy, ys[0], p);
    } else {
      CircleIsExact(cx, cy, ys[..n], p);
      MirrorIsExact(cx, cy, n, ys[n], p);
      assert IsPut(ys, a, b) <==> IsPut(ys[..n], a, b) || (a == n && b == ys[n]) || (b == n && a == ys[n]);
    }
  }

  lemma AxisIsExact(cx: int, cy: int, r: int, p: Point)
    requires r >= 0
    ensures var a, b := Abs(p.x - cx), Abs(p.y - cy);
            p in AxisPixels(cx, cy, r) <==> (a == 0 && b == r) || (b == 0 && a == r)
  {
    if p.x == cx && Abs(p.y - cy) == r {
      assert p == AxisPixels(cx, cy, r)[if p.y == cy + r then 0 else 1];
    } else if p.y == cy && Abs(p.x - cx) == r {
      assert p == AxisPixels(cx, cy, r)[if p.x == cx + r then 2 else 3];
    }
  }

  lemma MirrorIsExact(cx: int, cy: int, x: int, y: int, p: Point)
    requires x >= 0 && y >= 0
    ensures var a, b := Abs(p.x - cx), Abs(p.y - cy);
            p in Mirror(cx, cy, x, y) <==> (a == x && b == y) || (b == x && a == y)
  {
    var a, b := p.x - cx, p.y - cy;
    if Abs(a) == x && Abs(b) == y {
      assert p == Mirror(cx, cy, x, y)[(if a == x then 0 else 1) + (if b == y then 0 else 2)];
    } else if Abs(b) == x && Abs(a) == y {
      assert p == Mirror(cx, cy, x, y)[4 + (if a == y then 0 else 1) + (if b == x then 0 else 2)];
    }
  }

  /** The circle is symmetric in both axes and in the diagonal. */
  lemma CircleIsSymmetric(cx: int, cy: int, ys: seq<int>, a: int, b: int)
    requires |ys| > 0 && forall k :: 0 <= k < |ys| ==> ys[k] >= 0
    ensures var pixels := CirclePixels(cx, cy, ys);
            && (Point(cx + a, cy + b) in pixels <==> Point(cx - a, cy + b) in pixels)
            && (Point(cx + a, cy + b) in pixels <==> Point(cx + a, cy - b) in pixels)
            && (Point(cx + a, cy + b) in pixels <==> Point(cx + b, cy + a) in pixels)
  {
    OffsetIsPut(cx, cy, ys, a, b, Point(cx + a, cy + b));
    OffsetIsPut(cx, cy, ys, a, b, Point(cx - a, cy + b));
    OffsetIsPut(cx, cy, ys, a, b, Point(cx + a, cy - b));
    OffsetIsPut(cx, cy, ys, b, a, Point(cx + b, cy + a));
  }

  lemma OffsetIsPut(cx: int, cy: int, ys: seq<int>, a: int, b: int, p: Point)
    requires |ys| > 0 && forall k :: 0 <= k < |ys| ==> ys[k] >= 0
    requires (p.x == cx + a || p.x == cx - a) && (p.y == cy + b || p.y == cy - b)
    ensures p in CirclePixels(cx, cy, ys) <==> IsPut(ys, Abs(a), Abs(b))
  {
    CircleIsExact(cx, cy, ys, p);
  }

  /** In every column of the upper and lower octants there is a pixel above and one below. */
  lemma CircleColumns(cx: int, cy: int, ys: seq<int>, a: int)
    requires |ys| > 0 && (forall k :: 0 <= k < |ys| ==> ys[k] >= 0) && Abs(a) < |ys|
    ensures Point(cx + a, cy + ys[Abs(a)]) in CirclePixels(cx, cy, ys)
    ensures Point(cx + a, cy - ys[Abs(a)]) in CirclePixels(cx, cy, ys)
  {
    CircleIsExact(cx, cy, ys, Point(cx + a, cy + ys[Abs(a)]));
    CircleIsExact(cx, cy, ys, Point(cx + a, cy - ys[Abs(a)]));
  }

  /** Every pixel that fb_draw_circle puts is off the circle by at most the larger
      of its two offsets, in all eight octants. */
  lemma {:induction false} CirclePixelsNear(cx: int, cy: int, r: nat, ys: seq<int>, p: Point)
    requires Octant(ys, r) && p in CirclePixels(cx, cy, ys)
    ensures Abs(Deviation(p.x - cx, p.y - cy, r)) <= Max(Abs(p.x - cx), Abs(p.y - cy))
  {
    var n := |ys| - 1;
    if n > 0 {
      if p in CirclePixels(cx, cy, ys[..n]) {
        CirclePixelsNear(cx, cy, r, ys[..n], p);
      } else {
        MirrorNear(cx, cy, n, ys[n], r, p);
      }
    } else {
      MirrorNear(cx, cy, 0, r, r, p);
    }
  }

  lemma MirrorNear(cx: int, cy: int, x: int, y: int, r: int, p: Point)
    requires 0 <= x && 0 <= y && OnCircle(x, y, r) && p in Mirror(cx, cy, x, y)
    ensures Abs(Deviation(p.x - cx, p.y - cy, r)) <= Max(Abs(p.x - cx), Abs(p.y - cy))
  {
    assert (-x) * (-x) == x * x && (-y) * (-y) == y * y;
    var a, b := p.x - cx, p.y - cy;
    assert ((a == x || a == -x) && (b == y || b == -y)) || ((a == y || a == -y) && (b == x || b == -x));
    assert a * a + b * b == x * x + y * y;
  }

  /** The whole line: it starts at a and is at b at the last pixel and not before. */
  lemma LineEnds(a: Point, b: Point, pixels: seq<Point>, k: nat)
    requires IsIdealLine(a, b, pixels) && |pixels| == Max(Abs(b.x - a.x), Abs(b.y - a.y)) + 1
    requires k < |pixels|
    ensures pixels[0] == a
    ensures pixels[k] == b <==> k == |pixels| - 1
  {
    IdealLineAt(a, b, pixels, 0);
    IdealLineEndpoints(a, b, 0, pixels[0]);
    IdealLineAt(a, b, pixels, k);
    IdealLineEndpoints(a, b, k, pixels[k]);
  }

  /** The whole line: every pixel is a neighbour of the one before it. */
  lemma LineIsConnected(a: Point, b: Point, pixels: seq<Point>, k: nat)
    requires IsIdealLine(a, b, pixels) && a != b && k + 1 < |pixels|
    ensures Max(Abs(pixels[k + 1].x - pixels[k].x), Abs(pixels[k + 1].y - pixels[k].y)) == 1
  {
    IdealLineAt(a, b, pixels, k);
    IdealLineAt(a, b, pixels, k + 1);
    IdealNeighbours(a, b, k, pixels[k], pixels[k + 1]);
  }

  lemma IdealNeighbours(a: Point, b: Point, k: nat, p: Point, q: Point)
    requires IsIdealPixel(a, b, k, p) && IsIdealPixel(a, b, k + 1, q) && a != b
    ensures Max(Abs(q.x - p.x), Abs(q.y - p.y)) == 1
  {
    var dx, dy := Abs(b.x - a.x), Abs(b.y - a.y);
    if dx >= dy {
      CloseStep(k, Abs(p.y - a.y), Abs(q.y - a.y), dy, dx);
    } else {
      CloseStep(k, Abs(p.x - a.x), Abs(q.x - a.x), dx, dy);
    }
  }

  lemma CloseStep(k: nat, j: nat, j': nat, minor: nat, major: nat)
    requires 0 < major && minor <= major
    requires Close(k, j, minor, major) && Close(k + 1, j', minor, major)
    ensures j <= j' <= j + 1
  {
    DriftIsCrossProduct(major, minor, k, j);
    DriftIsCrossProduct(major, minor, k + 1, j');
    assert (k + 1) * minor == k * minor + minor;
    assert (j + 1) * major == j * major + major;
    if j' < j {
      MulOrder(j', j, major);
    } else if j' > j + 1 {
      MulOrder(j + 1, j', major);
    }
  }
}
