/** The line rasteriser of shared/ui/draw/draw.c (the loop of `fb_draw_line`): the
    points it plots, in closed form, and what is true of them. */
module Line {

  datatype Point = Point(x: int, y: int)

  function Abs(a: int): nat { if a < 0 then -a else a }
  function Max(a: int, b: int): int { if a < b then b else a }
  function Min(a: int, b: int): int { if a < b then a else b }

  /** The direction of a coordinate's steps, as the code picks it. */
  function Sign(from: int, to: int): int { if from < to then 1 else -1 }

  /** How far the minor coordinate has come after `k` of `major` steps, for a total
      of `minor`: k * minor / major rounded to nearest, halves down if `up` is false. */
  function Minor(k: nat, major: nat, minor: nat): nat
    requires major > 0
  {
    (k * minor + (major - 1 - major / 2)) / major
  }

  /** The `k`th point plotted from `a` to `b`. */
  function PointAt(a: Point, b: Point, k: nat): Point
    requires k <= Max(Abs(b.x - a.x), Abs(b.y - a.y))
  {
    var dx, dy := Abs(b.x - a.x), Abs(b.y - a.y);
    var sx, sy := Sign(a.x, b.x), Sign(a.y, b.y);
    if k == 0 then a
    else if dx > dy then Point(a.x + sx * k, a.y + sy * Minor(k, dx, dy))
    else Point(a.x + sx * Minor(k, dy, dx), a.y + sy * k)
  }

  /** The error term the loop carries: twice its distance from major/2 is how far the
      plotted minor coordinate is from the ideal line, in units of 1/(2 major). */
  function Error(k: nat, major: nat, minor: nat): int
    requires major > 0
  {
    major / 2 - k * minor + Minor(k, major, minor) * major
  }

  lemma DivBounds(n: nat, d: nat)
    requires d > 0
    ensures n / d * d <= n < n / d * d + d
  {
  }

  lemma ErrorRange(k: nat, major: nat, minor: nat)
    requires major > 0
    ensures 0 <= Error(k, major, minor) < major
  {
    DivBounds(k * minor + (major - 1 - major / 2), major);
  }

  /** The minor coordinate is the only one whose error is in range. */
  lemma MinorUnique(k: nat, major: nat, minor: nat, j: int)
    requires major > 0 && 0 <= major / 2 - k * minor + j * major < major
    ensures j == Minor(k, major, minor)
  {
    hide Minor;
    ErrorRange(k, major, minor);
    MultiplesApart(j, Minor(k, major, minor), major);
  }

  lemma MultiplesApart(i: int, j: int, d: nat)
    requires i * d - j * d < d && j * d - i * d < d
    ensures i == j
  {
    if i > j {
      AtLeastOnce(i, j, d);
    } else if i < j {
      AtLeastOnce(j, i, d);
    }
  }

  lemma AtLeastOnce(i: int, j: int, d: nat)
    requires i > j
    ensures i * d - j * d >= d
  {
    var n := i - j - 1;
    assert i * d == (j + 1 + n) * d == j * d + d + n * d;
    assert n * d >= 0;
  }

  /** One turn of the loop: the minor coordinate steps exactly when the error term is
      below `minor`, and the error term moves accordingly. */
  lemma MinorStep(k: nat, major: nat, minor: nat)
    requires minor <= major && major > 0
    ensures var e := Error(k, major, minor);
            && Minor(k + 1, major, minor) == Minor(k, major, minor) + (if e < minor then 1 else 0)
            && Error(k + 1, major, minor) == e - minor + (if e < minor then major else 0)
  {
    hide Minor;
    ErrorRange(k, major, minor);
    var e := Error(k, major, minor);
    var j := Minor(k, major, minor) + if e < minor then 1 else 0;
    assert j * major == Minor(k, major, minor) * major + if e < minor then major else 0;
    assert (k + 1) * minor == k * minor + minor;
    MinorUnique(k + 1, major, minor, j);
  }

  lemma MinorEnds(major: nat, minor: nat)
    requires minor <= major && major > 0
    ensures Minor(0, major, minor) == 0 && Minor(major, major, minor) == minor
  {
    hide Minor;
    MinorUnique(0, major, minor, 0);
    assert major * minor == minor * major;
    MinorUnique(major, major, minor, minor);
  }

  lemma {:induction false} MinorMonotone(k: nat, k': nat, major: nat, minor: nat)
    requires minor <= major && major > 0 && k <= k'
    ensures Minor(k, major, minor) <= Minor(k', major, minor)
    decreases k' - k
  {
    hide Minor, Error;
    if k < k' {
      MinorStep(k, major, minor);
      MinorMonotone(k + 1, k', major, minor);
    }
  }

  // --- What the plotted points are ---

  ghost predicate Between(a: int, v: int, b: int) {
    Min(a, b) <= v <= Max(a, b)
  }

  lemma PlotEnds(a: Point, b: Point)
    ensures PointAt(a, b, 0) == a
    ensures PointAt(a, b, Max(Abs(b.x - a.x), Abs(b.y - a.y))) == b
  {
    hide Minor, Error;
    var dx, dy := Abs(b.x - a.x), Abs(b.y - a.y);
    if dx > dy {
      MinorEnds(dx, dy);
    } else if dy > 0 {
      MinorEnds(dy, dx);
    }
  }

  lemma PlotInBox(a: Point, b: Point, k: nat)
    requires k <= Max(Abs(b.x - a.x), Abs(b.y - a.y))
    ensures Between(a.x, PointAt(a, b, k).x, b.x) && Between(a.y, PointAt(a, b, k).y, b.y)
  {
    hide Minor, Error;
    var dx, dy := Abs(b.x - a.x), Abs(b.y - a.y);
    if dx > dy {
      MinorEnds(dx, dy);
      MinorMonotone(k, dx, dx, dy);
    } else if dy > 0 {
      MinorEnds(dy, dx);
      MinorMonotone(k, dy, dy, dx);
    }
  }

  /** Consecutive points are distinct 8-neighbours, one step apart on the major axis. */
  lemma PlotConnected(a: Point, b: Point, k: nat)
    requires k < Max(Abs(b.x - a.x), Abs(b.y - a.y))
    ensures var p, q := PointAt(a, b, k), PointAt(a, b, k + 1);
            && Abs(q.x - p.x) <= 1 && Abs(q.y - p.y) <= 1
            && (if Abs(b.x - a.x) > Abs(b.y - a.y) then q.x - p.x == Sign(a.x, b.x) else q.y - p.y == Sign(a.y, b.y))
  {
    hide Minor, Error;
    var dx, dy := Abs(b.x - a.x), Abs(b.y - a.y);
    if dx > dy {
      MinorStep(k, dx, dy);
      MinorEnds(dx, dy);
    } else {
      MinorStep(k, dy, dx);
      MinorEnds(dy, dx);
    }
  }

  /** Every plotted point is within half a pixel of the segment, measured along the
      minor axis: at `k` steps along the major axis the ideal offset is
      k * minor / major. */
  lemma PlotAccurate(a: Point, b: Point, k: nat)
    requires k <= Max(Abs(b.x - a.x), Abs(b.y - a.y)) && a != b
    ensures var dx, dy, p := Abs(b.x - a.x), Abs(b.y - a.y), PointAt(a, b, k);
            if dx > dy then Abs(2 * (Abs(p.y - a.y) * dx - k * dy)) <= dx && Abs(p.x - a.x) == k
            else Abs(2 * (Abs(p.x - a.x) * dy - k * dx)) <= dy && Abs(p.y - a.y) == k
  {
    var dx, dy := Abs(b.x - a.x), Abs(b.y - a.y);
    if dx > dy {
      ErrorRange(k, dx, dy);
      MinorEnds(dx, dy);
    } else {
      ErrorRange(k, dy, dx);
      MinorEnds(dy, dx);
    }
  }
}
