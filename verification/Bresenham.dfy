/** drawline in console.c: Bresenham's line on the 80 by 25 text screen, rows counted from 1. */
module Bresenham {
  const COLUMNS := 80
  const ROWS := 25

  /** The line after the set-up: signs, the longer and the shorter extent, and whether the
      longer one is horizontal. */
  datatype Line = Line(ax: int, ay: int, sx: int, sy: int, major: int, minor: int, flat: bool)

  function Distance(a: int, b: int): (d: int)
    ensures 0 <= d
  {
    if a <= b then b - a else a - b
  }

  function Sign(a: int, b: int): int {
    if a <= b then 1 else -1
  }

  function LineOf(ax: int, ay: int, ex: int, ey: int): Line {
    var dx, dy := Distance(ax, ex), Distance(ay, ey);
    if dx >= dy then Line(ax, ay, Sign(ax, ex), Sign(ay, ey), dx, dy, true)
    else Line(ax, ay, Sign(ax, ex), Sign(ay, ey), dy, dx, false)
  }

  function Along(a: int, s: int, k: int): int {
    if s == 1 then a + k else a - k
  }

  function Cell(x: int, y: int): int {
    COLUMNS * (y - 1) + x
  }

  // ---- the ideal line ----

  /** The short coordinate after k steps on the long axis: k * minor / major, rounded. */
  function Offset(major: int, minor: int, k: int): int
    requires 0 < major
  {
    (2 * minor * k + major) / (2 * major)
  }

  /** m is within half a cell of the true line at step k. */
  ghost predicate Nearest(major: int, minor: int, k: int, m: int) {
    2 * (major * m) - major <= 2 * (minor * k) < 2 * (major * m) + major
  }

  lemma NearestIsOffset(major: int, minor: int, k: int, m: int)
    requires 0 < major
    ensures Nearest(major, minor, k, m) <==> m == Offset(major, minor, k)
  {
    var n, d := 2 * minor * k + major, 2 * major;
    assert n == 2 * (minor * k) + major;
    assert d * m == 2 * (major * m);
    DivisionUnique(n, d, m);
  }

  lemma DivisionUnique(n: int, d: int, m: int)
    requires 0 < d
    ensures d * m <= n < d * m + d <==> m == n / d
  {
    var q := n / d;
    assert d * q <= n < d * q + d;
    if d * m <= n < d * m + d {
      if m < q {
        MulMono(d, m + 1, q);
      } else if q < m {
        MulMono(d, q + 1, m);
      }
    }
  }

  lemma MulMono(d: int, a: int, b: int)
    requires 0 < d && a <= b
    ensures d * a <= d * b
  {
  }

  /** One step of the decision variable: straight on, or up to the next row. */
  lemma NearestStep(major: int, minor: int, k: int, m: int, av: int)
    requires 0 <= minor <= major && 0 < major && Nearest(major, minor, k, m)
    requires av == 2 * (minor * k) + 2 * minor - major - 2 * (major * m)
    ensures Nearest(major, minor, k + 1, if av >= 0 then m + 1 else m)
    ensures minor * (k + 1) == minor * k + minor && major * (m + 1) == major * m + major
  {
  }

  /** The rounded line starts at 0, ends at minor, and stays in between. */
  lemma NearestBounds(major: int, minor: int, k: int, m: int)
    requires 0 <= minor <= major && 0 < major && 0 <= k <= major && Nearest(major, minor, k, m)
    ensures 0 <= m <= minor && (k == major ==> m == minor) && (k == 0 ==> m == 0)
  {
    MulMono2(minor, k, major);
    assert minor * major == major * minor;
    if m < 0 {
      MulGap(major, m, 0);
    } else if m > minor {
      MulGap(major, minor, m);
    } else if k == 0 && m > 0 {
      MulGap(major, 0, m);
    } else if k == major && m < minor {
      MulGap(major, m, minor);
    }
  }

  lemma MulGap(d: int, a: int, b: int)
    requires 0 < d && a < b
    ensures d * a + d <= d * b
  {
    MulMono(d, a + 1, b);
    assert d * (a + 1) == d * a + d;
  }

  lemma MulMono2(d: int, a: int, b: int)
    requires 0 <= d && 0 <= a <= b
    ensures 0 <= d * a <= d * b
  {
  }

  // ---- what is drawn ----

  function X(l: Line, k: int): int
    requires 0 < l.major
  {
    Along(l.ax, l.sx, if l.flat then k else Offset(l.major, l.minor, k))
  }

  function Y(l: Line, k: int): int
    requires 0 < l.major
  {
    Along(l.ay, l.sy, if l.flat then Offset(l.major, l.minor, k) else k)
  }

  /** How many cells: every column but the last on a flat line; on a steep one the loop stops
      as soon as it reaches the last column, which on a vertical one is at once. */
  ghost predicate CellCount(l: Line, n: int) {
    if l.flat then n == l.major
    else if l.minor == 0 then n == 1
    else 2 * (l.minor * (l.major - n)) <= l.major < 2 * (l.minor * (l.major - n)) + 2 * l.minor
  }

  /** Everything short of the end point is drawn exactly on flat lines, on those less than
      twice as high as wide, and on vertical ones of length one. */
  lemma DrawsItAll(l: Line)
    requires 0 <= l.minor <= l.major && 0 < l.major
    ensures Steps(l) == l.major <==> l.flat || l.major < 2 * l.minor || (l.minor == 0 && l.major == 1)
  {
    var n := Steps(l);
    CountIsSteps(l, n);
    if !l.flat && 0 < l.minor && n < l.major {
      MulMono(l.minor, 1, l.major - n);
    }
  }

  /** The step after the last possible one is the end point, so a flat line, which takes them
      all, leaves the loop exactly there. */
  lemma EndsAtTarget(ax: int, ay: int, ex: int, ey: int)
    requires ax != ex || ay != ey
    ensures var l := LineOf(ax, ay, ex, ey); X(l, l.major) == ex && Y(l, l.major) == ey
  {
    var l := LineOf(ax, ay, ex, ey);
    assert Nearest(l.major, l.minor, l.major, l.minor);
    NearestIsOffset(l.major, l.minor, l.major, l.minor);
  }

  lemma SteepCount(l: Line, k: int, m: int)
    requires !l.flat && 0 < l.minor <= l.major && Nearest(l.major, l.minor, k - 1, l.minor - 1)
              && Nearest(l.major, l.minor, k, l.minor)
    ensures CellCount(l, k)
  {
    assert l.minor * (k - 1) == l.minor * k - l.minor;
    assert l.major * (l.minor - 1) == l.major * l.minor - l.major;
    assert l.minor * (l.major - k) == l.major * l.minor - l.minor * k;
  }

  function Steps(l: Line): int
    requires 0 <= l.minor
  {
    if l.flat then l.major else if l.minor == 0 then 1 else l.major - l.major / (2 * l.minor)
  }

  lemma CountIsSteps(l: Line, n: int)
    requires 0 <= l.minor <= l.major && 0 < l.major
    ensures CellCount(l, n) <==> n == Steps(l)
    ensures 0 < Steps(l) <= l.major
  {
    if !l.flat && 0 < l.minor {
      assert 2 * l.minor * (l.major - n) == 2 * (l.minor * (l.major - n));
      DivisionUnique(l.major, 2 * l.minor, l.major - n);
      DivisionSmall(l.major, 2 * l.minor);
    }
  }

  lemma DivisionSmall(n: int, d: int)
    requires 2 <= d && 0 < n
    ensures 0 <= n / d < n
  {
    var q := n / d;
    assert d * q <= n < d * q + d;
    if q < 0 {
      MulMono(d, q, -1);
    } else if n <= q {
      MulMono(d, n, q);
      MulMono(n, 2, d);
    }
  }

  ghost predicate Between(a: int, b: int, c: int) {
    a <= c <= b || b <= c <= a
  }

  /** k steps on the long axis and m on the short one stay in the end points' bounding box. */
  lemma BetweenEnds(ax: int, ay: int, ex: int, ey: int, k: int, m: int)
    requires 0 <= k <= LineOf(ax, ay, ex, ey).major && 0 <= m <= LineOf(ax, ay, ex, ey).minor
    ensures var l := LineOf(ax, ay, ex, ey);
            && Between(ax, ex, Along(ax, l.sx, if l.flat then k else m))
            && Between(ay, ey, Along(ay, l.sy, if l.flat then m else k))
            && (Along(ax, l.sx, if l.flat then k else m) == ex <==> if l.flat then k == l.major else m == l.minor)
  {
  }

  /** The loop's variables after k steps, m of them up or down a cell on the short axis. */
  ghost predicate At(l: Line, k: int, m: int, x: int, y: int, av: int) {
    && 0 <= k <= l.major && 0 <= m <= l.minor && Nearest(l.major, l.minor, k, m)
    && x == Along(l.ax, l.sx, if l.flat then k else m)
    && y == Along(l.ay, l.sy, if l.flat then m else k)
    && av == 2 * (l.minor * k) + 2 * l.minor - l.major - 2 * (l.major * m)
  }

  predicate LineOk(l: Line) {
    0 <= l.minor <= l.major && 0 < l.major && (l.sx == 1 || l.sx == -1) && (l.sy == 1 || l.sy == -1)
  }

  lemma AtSlanted(l: Line, k: int, m: int, x: int, y: int, av: int)
    requires LineOk(l) && At(l, k, m, x, y, av) && k < l.major && av >= 0
    ensures At(l, k + 1, m + 1, x + l.sx, y + l.sy, av + 2 * l.minor - 2 * l.major)
  {
    NearestStep(l.major, l.minor, k, m, av);
    NearestBounds(l.major, l.minor, k + 1, m + 1);
  }

  lemma AtStraight(l: Line, k: int, m: int, x: int, y: int, av: int)
    requires LineOk(l) && At(l, k, m, x, y, av) && k < l.major && av < 0
    ensures At(l, k + 1, m, if l.flat then x + l.sx else x, if l.flat then y else y + l.sy, av + 2 * l.minor)
  {
    NearestStep(l.major, l.minor, k, m, av);
    NearestBounds(l.major, l.minor, k + 1, m);
  }

  lemma AtCell(l: Line, k: int, m: int, x: int, y: int, av: int, ex: int, ey: int)
    requires l == LineOf(l.ax, l.ay, ex, ey) && 0 < l.major && At(l, k, m, x, y, av)
    ensures x == X(l, k) && y == Y(l, k) && Between(l.ax, ex, x) && Between(l.ay, ey, y)
    ensures x == ex <==> if l.flat then k == l.major else m == l.minor
    ensures k == l.major ==> x == ex
  {
    BetweenEnds(l.ax, l.ay, ex, ey, k, m);
    NearestBounds(l.major, l.minor, k, m);
    NearestIsOffset(l.major, l.minor, k, m);
  }

  ghost predicate Stepped(l: Line, k: int, m: int, next: int) {
    (next == m || next == m + 1) && Nearest(l.major, l.minor, k, m)
  }

  /** The loop has reached the last column, for the first time at step k. */
  lemma AtEnd(l: Line, k: int, m: int, x: int, y: int, av: int, before: int)
    requires LineOk(l) && At(l, k, m, x, y, av) && 0 < k
    requires if l.flat then k == l.major else m == l.minor && (before < l.minor || k == 1)
    requires Stepped(l, k - 1, before, m)
    ensures CellCount(l, k)
  {
    if !l.flat && l.minor != 0 {
      if k == 1 {
        NearestBounds(l.major, l.minor, 0, before);
      }
      SteepCount(l, k, m);
    }
  }

  /** The body of the loop after the cell is written. */
  method Advance(ghost l: Line, ghost k: int, ghost m: int, x0: int, y0: int, av0: int, dx: int, dy: int,
                 stepX: int, stepY: int, straightX: int, straightY: int)
    returns (x: int, y: int, av: int, ghost next: int)
    requires LineOk(l) && At(l, k, m, x0, y0, av0) && k < l.major && dx == l.major && dy == l.minor && stepX == l.sx
              && stepY == l.sy
    requires straightX == (if l.flat then stepX else 0) && straightY == if l.flat then 0 else stepY
    ensures At(l, k + 1, next, x, y, av) && Stepped(l, k, m, next)
  {
    var avR := 2 * dy;
    var avI := avR - dx - dx;
    if av0 >= 0 {
      AtSlanted(l, k, m, x0, y0, av0);
      x, y, av, next := x0 + stepX, y0 + stepY, av0 + avI, m + 1;
    } else {
      AtStraight(l, k, m, x0, y0, av0);
      x, y, av, next := x0 + straightX, y0 + straightY, av0 + avR, m;
    }
  }

  /** What the cells drawn are: the rounded line from the first end point on, inside the end
      points' bounding box and within half a cell of the true line. */
  ghost predicate Traced(l: Line, ex: int, ey: int, cells: seq<(int, int)>)
    requires 0 < l.major
  {
    forall k {:trigger cells[k]} :: 0 <= k < |cells| ==>
      && cells[k] == (X(l, k), Y(l, k))
      && Between(l.ax, ex, cells[k].0) && Between(l.ay, ey, cells[k].1)
      && Nearest(l.major, l.minor, k, if l.flat then Moved(l.ay, l.sy, cells[k].1) else Moved(l.ax, l.sx, cells[k].0))
  }

  function Moved(a: int, s: int, c: int): int {
    if s == 1 then c - a else a - c
  }

  lemma TracedMore(l: Line, ex: int, ey: int, cells: seq<(int, int)>, m: int, x: int, y: int, av: int)
    requires l == LineOf(l.ax, l.ay, ex, ey) && 0 < l.major && Traced(l, ex, ey, cells)
    requires At(l, |cells|, m, x, y, av)
    ensures Traced(l, ex, ey, cells + [(x, y)])
  {
    AtCell(l, |cells|, m, x, y, av, ex, ey);
  }

  /** The loop of drawline, keeping the cells it writes, for any two end points that differ. */
  method Trace(ghost l: Line, ex: int, ghost ey: int, dx: int, dy: int, ax: int, ay: int,
               stepX: int, stepY: int, straightX: int, straightY: int)
    returns (cells: seq<(int, int)>, x: int, y: int)
    requires l == LineOf(ax, ay, ex, ey) && 0 < dx == l.major && dy == l.minor && stepX == l.sx && stepY == l.sy
    requires straightX == (if l.flat then stepX else 0) && straightY == if l.flat then 0 else stepY
    ensures Traced(l, ex, ey, cells) && |cells| == Steps(l) && 0 < |cells| <= l.major
    ensures x == ex && (|cells| == l.major ==> y == ey)
  {
    var av := 2 * dy - dx;
    x, y, cells := ax, ay, [];
    ghost var m := 0;
    while true
      invariant |cells| < dx && At(l, |cells|, m, x, y, av) && Traced(l, ex, ey, cells)
      invariant !l.flat ==> m < dy || |cells| == 0
      decreases dx - |cells|
    {
      ghost var k, before := |cells|, m;
      TracedMore(l, ex, ey, cells, m, x, y, av);
      cells := cells + [(x, y)];
      x, y, av, m := Advance(l, k, m, x, y, av, dx, dy, stepX, stepY, straightX, straightY);
      AtCell(l, k + 1, m, x, y, av, ex, ey);
      if x == ex {
        AtEnd(l, k + 1, m, x, y, av, before);
        CountIsSteps(l, k + 1);
        EndsAtTarget(ax, ay, ex, ey);
        break;
      }
    }
  }

  /** drawline up to the writes: the cells in the order they are written, and where the loop
      stops. */
  method Cells(ax: int, ay: int, ex: int, ey: int) returns (cells: seq<(int, int)>, x: int, y: int)
    requires ax != ex || ay != ey
    ensures var l := LineOf(ax, ay, ex, ey);
            Traced(l, ex, ey, cells) && |cells| == Steps(l) && 0 < |cells| <= l.major && x == ex && (l.flat ==> y == ey)
  {
    var dx, dy, stepX, stepY, straightX, straightY := SetUp(ax, ay, ex, ey);
    cells, x, y := Trace(LineOf(ax, ay, ex, ey), ex, ey, dx, dy, ax, ay, stepX, stepY, straightX, straightY);
  }

  /** The signs, and the two extents swapped on a steep line. */
  method SetUp(ax: int, ay: int, ex: int, ey: int)
    returns (dx: int, dy: int, stepX: int, stepY: int, straightX: int, straightY: int)
    ensures var l := LineOf(ax, ay, ex, ey);
            && dx == l.major && dy == l.minor && stepX == l.sx && stepY == l.sy
            && straightX == (if l.flat then stepX else 0) && straightY == if l.flat then 0 else stepY
  {
    dx, dy := ex - ax, ey - ay;
    stepX, stepY := 1, 1;
    if dy < 0 {
      dy, stepY := -dy, -1;
    }
    if dx < 0 {
      dx, stepX := -dx, -1;
    }
    straightX, straightY := stepX, 0;
    if dx < dy {
      straightX, straightY := 0, stepY;
      dx, dy := dy, dx;
    }
  }

  // ---- widths ----

  ghost predicate Int32(v: int) {
    -0x8000_0000 <= v < 0x8000_0000
  }

  /** End points up to 2^24 away from the origin keep every value of the loop, the decision
      variable and the index included, inside 32 bits. */
  lemma LoopFits(l: Line, k: int, m: int, x: int, y: int, av: int, ex: int, ey: int)
    requires l == LineOf(l.ax, l.ay, ex, ey) && 0 < l.major && At(l, k, m, x, y, av)
    requires forall c :: c in [l.ax, l.ay, ex, ey] ==> -0x100_0000 <= c <= 0x100_0000
    ensures 2 * l.minor - 2 * l.major <= av < 2 * l.minor
    ensures Int32(x) && Int32(y) && Int32(av) && Int32(2 * l.minor) && Int32(2 * l.minor - 2 * l.major)
    ensures Int32(COLUMNS * (y - 1)) && Int32(Cell(x, y))
  {
    assert l.ax in [l.ax, l.ay, ex, ey] && l.ay in [l.ax, l.ay, ex, ey];
    assert ex in [l.ax, l.ay, ex, ey] && ey in [l.ax, l.ay, ex, ey];
    AtCell(l, k, m, x, y, av, ex, ey);
  }
}
