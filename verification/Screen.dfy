/** Where drawline in console.c writes: the indices of the text screen that a line's cells have,
    and exactly when all of them lie in the 80 by 25 screen. */
module Screen {
  import opened Bresenham

  predicate Inside(i: int) {
    0 <= i < COLUMNS * ROWS
  }

  /** The index the loop writes at step k. */
  function Index(l: Line, k: int): int
    requires 0 < l.major
  {
    Cell(X(l, k), Y(l, k))
  }

  ghost predicate AllInside(l: Line)
    requires LineOk(l)
  {
    forall k :: 0 <= k < Steps(l) ==> Inside(Index(l, k))
  }

  // ---- rows of the rounded line ----

  /** The first step on the long axis with offset r or more. */
  function RowStart(major: int, minor: int, r: int): int
    requires 0 < minor
  {
    ((2 * r - 1) * major + 2 * minor - 1) / (2 * minor)
  }

  lemma DivAtLeast(n: int, d: int, q: int)
    requires 0 < d
    ensures n / d >= q <==> n >= d * q
  {
    var e := n / d;
    assert d * e <= n < d * e + d;
    if q <= e {
      MulMono(d, q, e);
    } else {
      MulMono(d, e + 1, q);
    }
  }

  lemma RowStartIs(major: int, minor: int, r: int, k: int)
    requires 0 < minor <= major
    ensures Offset(major, minor, k) >= r <==> k >= RowStart(major, minor, r)
  {
    DivAtLeast(2 * minor * k + major, 2 * major, r);
    var a := (2 * r - 1) * major;
    assert a == 2 * major * r - major;
    var j := RowStart(major, minor, r);
    DivAtLeast(a + 2 * minor - 1, 2 * minor, k + 1);
    assert 2 * minor * (k + 1) == 2 * minor * k + 2 * minor;
  }

  lemma OffsetSteps(major: int, minor: int, j: int, k: int)
    requires 0 <= minor <= major && 0 < major && j <= k
    ensures 0 <= Offset(major, minor, k) - Offset(major, minor, j) <= k - j
  {
    var m, n := Offset(major, minor, j), Offset(major, minor, k);
    NearestIsOffset(major, minor, j, m);
    NearestIsOffset(major, minor, k, n);
    MulSpread(minor, major, k - j);
    assert minor * k == minor * j + minor * (k - j);
    if n < m {
      MulMono(major, n + 1, m);
    } else if k - j < n - m {
      MulMono(major, k - j + 1 + m, n);
    }
  }

  lemma MulSpread(a: int, b: int, d: int)
    requires 0 <= a <= b && 0 <= d
    ensures 0 <= a * d <= b * d
  {
  }

  // ---- flat lines that go up one way and down the other ----

  /** Up to sign and a constant, the index at step k. */
  function Drift(l: Line, k: int): int
    requires 0 < l.major
  {
    k - COLUMNS * Offset(l.major, l.minor, k)
  }

  /** The same at the first step of row r. */
  function RowDrift(major: int, minor: int, r: int): int
    requires 0 < minor
  {
    RowStart(major, minor, r) - COLUMNS * r
  }

  /** Row starts are at least 80 columns apart, or at most, according to the slope. */
  lemma RowDriftStep(major: int, minor: int, r: int)
    requires 0 < minor <= major
    ensures major >= COLUMNS * minor ==> RowDrift(major, minor, r) <= RowDrift(major, minor, r + 1)
    ensures major <= COLUMNS * minor ==> RowDrift(major, minor, r) >= RowDrift(major, minor, r + 1)
  {
    var d := 2 * minor;
    var n, n' := (2 * r - 1) * major + d - 1, (2 * (r + 1) - 1) * major + d - 1;
    assert n' == n + 2 * major;
    var q, q' := n / d, n' / d;
    assert d * (q + COLUMNS) == d * q + COLUMNS * d;
    if major >= COLUMNS * minor {
      DivAtLeast(n', d, q + COLUMNS);
    }
    if major <= COLUMNS * minor {
      assert d * (q' - COLUMNS) == d * q' - COLUMNS * d;
      DivAtLeast(n, d, q' - COLUMNS);
    }
  }

  lemma {:induction false} RowDriftRun(major: int, minor: int, r: int, t: int)
    requires 0 < minor <= major && r <= t
    ensures major >= COLUMNS * minor ==> RowDrift(major, minor, r) <= RowDrift(major, minor, t)
    ensures major <= COLUMNS * minor ==> RowDrift(major, minor, r) >= RowDrift(major, minor, t)
    decreases t - r
  {
    if r < t {
      RowDriftStep(major, minor, r);
      RowDriftRun(major, minor, r + 1, t);
    }
  }

  /** The drift at a row's start lies between those at the starts of row one and of the last row. */
  lemma RowDriftBetween(major: int, minor: int, r: int, last: int)
    requires 0 < minor <= major && 1 <= r <= last
    ensures Between(RowDrift(major, minor, 1), RowDrift(major, minor, last), RowDrift(major, minor, r))
  {
    RowDriftRun(major, minor, 1, r);
    RowDriftRun(major, minor, r, last);
  }

  predicate Crossing(l: Line) {
    l.flat && l.sx != l.sy
  }

  function LastRow(l: Line): int
    requires 0 <= l.minor && 0 < l.major
  {
    Offset(l.major, l.minor, Steps(l) - 1)
  }

  /** What a caller can look at: the first and the last cell, and on a flat line whose columns
      and rows run opposite ways also the cells on both sides of its first and last change of
      row. */
  predicate CornersInside(l: Line)
    requires LineOk(l)
  {
    && Inside(Index(l, 0)) && Inside(Index(l, Steps(l) - 1))
    && (Crossing(l) && 1 <= LastRow(l) && 0 < l.minor ==>
          && Inside(Index(l, RowStart(l.major, l.minor, 1) - 1))
          && Inside(Index(l, RowStart(l.major, l.minor, 1)))
          && Inside(Index(l, RowStart(l.major, l.minor, LastRow(l)) - 1))
          && Inside(Index(l, RowStart(l.major, l.minor, LastRow(l)))))
  }

  lemma OffsetAtZero(major: int, minor: int)
    requires 0 <= minor <= major && 0 < major
    ensures Offset(major, minor, 0) == 0
  {
    NearestIsOffset(major, minor, 0, 0);
  }

  /** Row starts of the rows reached are steps of the line, after the first. */
  lemma RowStartInRange(l: Line, r: int)
    requires LineOk(l) && 0 < l.minor && 1 <= r <= LastRow(l)
    ensures 1 <= RowStart(l.major, l.minor, r) <= Steps(l) - 1
    ensures Offset(l.major, l.minor, RowStart(l.major, l.minor, r)) == r
    ensures Offset(l.major, l.minor, RowStart(l.major, l.minor, r) - 1) == r - 1
  {
    var j := RowStart(l.major, l.minor, r);
    OffsetAtZero(l.major, l.minor);
    RowStartIs(l.major, l.minor, r, 0);
    RowStartIs(l.major, l.minor, r, Steps(l) - 1);
    RowStartIs(l.major, l.minor, r, j);
    RowStartIs(l.major, l.minor, r, j - 1);
    OffsetSteps(l.major, l.minor, j - 1, j);
  }

  /** d lies between two of the drifts at the corners. */
  ghost predicate Hemmed(l: Line, d: int)
    requires LineOk(l) && 0 < l.minor && 1 <= LastRow(l)
  {
    var first, last := RowStart(l.major, l.minor, 1), RowStart(l.major, l.minor, LastRow(l));
    && (Drift(l, 0) <= d || Drift(l, first) <= d || Drift(l, last) <= d)
    && (d <= Drift(l, first - 1) || d <= Drift(l, last - 1) || d <= Drift(l, Steps(l) - 1))
  }

  lemma DriftHemmed(l: Line, k: int)
    requires LineOk(l) && 0 < l.minor && 1 <= LastRow(l) && 0 <= k < Steps(l)
    ensures Hemmed(l, Drift(l, k))
  {
    var r, last := Offset(l.major, l.minor, k), LastRow(l);
    OffsetAtZero(l.major, l.minor);
    OffsetSteps(l.major, l.minor, 0, k);
    OffsetSteps(l.major, l.minor, k, Steps(l) - 1);
    RowStartInRange(l, 1);
    RowStartInRange(l, last);
    if r == 0 {
      RowStartIs(l.major, l.minor, 1, k);
    } else {
      RowStartIs(l.major, l.minor, r, k);
      RowDriftBetween(l.major, l.minor, r, last);
      if r < last {
        RowStartIs(l.major, l.minor, r + 1, k);
        RowDriftBetween(l.major, l.minor, r + 1, last);
      }
    }
  }

  lemma CrossingIndex(l: Line, k: int)
    requires LineOk(l) && Crossing(l)
    ensures Index(l, k) == Cell(l.ax, l.ay) + (if l.sx == 1 then Drift(l, k) else -Drift(l, k))
  {
  }

  lemma CrossingInside(l: Line, k: int)
    requires LineOk(l) && Crossing(l) && CornersInside(l) && 0 <= k < Steps(l)
    ensures Inside(Index(l, k))
  {
    CrossingIndex(l, k);
    CrossingIndex(l, 0);
    CrossingIndex(l, Steps(l) - 1);
    OffsetAtZero(l.major, l.minor);
    OffsetSteps(l.major, l.minor, 0, k);
    OffsetSteps(l.major, l.minor, k, Steps(l) - 1);
    if 0 < l.minor && 1 <= LastRow(l) {
      var first, last := RowStart(l.major, l.minor, 1), RowStart(l.major, l.minor, LastRow(l));
      DriftHemmed(l, k);
      CrossingIndex(l, first - 1);
      CrossingIndex(l, first);
      CrossingIndex(l, last - 1);
      CrossingIndex(l, last);
    } else if l.minor == 0 {
      NearestIsOffset(l.major, 0, Steps(l) - 1, 0);
    }
  }

  /** On every other line the index only grows, or only shrinks. */
  lemma MonotoneInside(l: Line, k: int)
    requires LineOk(l) && !Crossing(l) && CornersInside(l) && 0 <= k < Steps(l)
    ensures Inside(Index(l, k))
  {
    OffsetAtZero(l.major, l.minor);
    OffsetSteps(l.major, l.minor, 0, k);
    OffsetSteps(l.major, l.minor, k, Steps(l) - 1);
  }

  /** Every index written is inside the screen exactly when those of the corners are. */
  lemma InsideExactly(l: Line)
    requires LineOk(l)
    ensures AllInside(l) <==> CornersInside(l)
  {
    CountIsSteps(l, Steps(l));
    if AllInside(l) {
      if Crossing(l) && 0 < l.minor && 1 <= LastRow(l) {
        RowStartInRange(l, 1);
        RowStartInRange(l, LastRow(l));
      }
    }
    if CornersInside(l) {
      forall k | 0 <= k < Steps(l) ensures Inside(Index(l, k)) {
        if Crossing(l) {
          CrossingInside(l, k);
        } else {
          MonotoneInside(l, k);
        }
      }
    }
  }

  /** End points on the screen are enough. */
  lemma OnScreenInside(ax: int, ay: int, ex: int, ey: int)
    requires ax != ex || ay != ey
    requires 0 <= ax < COLUMNS && 0 <= ex < COLUMNS && 1 <= ay <= ROWS && 1 <= ey <= ROWS
    ensures CornersInside(LineOf(ax, ay, ex, ey))
  {
    var l := LineOf(ax, ay, ex, ey);
    CountIsSteps(l, Steps(l));
    forall k | 0 <= k < Steps(l) ensures Inside(Index(l, k)) {
      var m := Offset(l.major, l.minor, k);
      NearestIsOffset(l.major, l.minor, k, m);
      NearestBounds(l.major, l.minor, k, m);
      BetweenEnds(ax, ay, ex, ey, k, m);
    }
    InsideExactly(l);
  }

  /** Row 0, which the system call accepts, lies before the screen: a line from (0, 0) to
      (5, 0) begins 80 cells before its start. */
  lemma RowZeroOutside()
    ensures Index(LineOf(0, 0, 5, 0), 0) == -80 && !AllInside(LineOf(0, 0, 5, 0))
  {
    var l := LineOf(0, 0, 5, 0);
    NearestIsOffset(l.major, l.minor, 0, 0);
    assert Index(l, 0) == -80;
    InsideExactly(l);
  }

  // ---- the screen ----

  /** The n cells of the rounded line have the ink, and no other cell changed. */
  ghost predicate Drawn(was: seq<int>, now: seq<int>, l: Line, n: int, ink: int)
    requires 0 < l.major
  {
    && |now| == |was|
    && (forall k :: 0 <= k < n ==> 0 <= Cell(X(l, k), Y(l, k)) < |now| && now[Cell(X(l, k), Y(l, k))] == ink)
    && (forall c :: 0 <= c < |now| && now[c] != was[c] ==> exists k :: 0 <= k < n && c == Cell(X(l, k), Y(l, k)))
  }

  lemma DrawnMore(was: seq<int>, now: seq<int>, l: Line, n: int, ink: int)
    requires 0 < l.major && 0 <= n && Drawn(was, now, l, n, ink)
    requires 0 <= Cell(X(l, n), Y(l, n)) < |now|
    ensures Drawn(was, now[Cell(X(l, n), Y(l, n)) := ink], l, n + 1, ink)
  {
    var next := now[Cell(X(l, n), Y(l, n)) := ink];
    forall c | 0 <= c < |next| && next[c] != was[c]
      ensures exists k :: 0 <= k < n + 1 && c == Cell(X(l, k), Y(l, k))
    {
      if c != Cell(X(l, n), Y(l, n)) {
        var k :| 0 <= k < n && c == Cell(X(l, k), Y(l, k));
      }
    }
  }

  method Plot(crt: array<int>, x: int, y: int, ink: int, ghost was: seq<int>, ghost l: Line, ghost n: int)
    requires crt.Length == COLUMNS * ROWS && Inside(Cell(x, y))
    requires 0 < l.major && 0 <= n && x == X(l, n) && y == Y(l, n) && Drawn(was, crt[..], l, n, ink)
    modifies crt
    ensures Drawn(was, crt[..], l, n + 1, ink)
  {
    DrawnMore(was, crt[..], l, n, ink);
    ghost var now := crt[..];
    crt[COLUMNS * (y - 1) + x] := ink;
    assert crt[..] == now[Cell(x, y) := ink];
  }

  lemma ShortOfEnd(major: int, minor: int, n: int, k: int, m: int)
    requires 0 < minor <= major && 0 <= n && m < minor && Nearest(major, minor, k, m)
    requires 2 * (minor * (major - n)) <= major
    ensures k < n
  {
    assert minor * (major - n) == major * minor - minor * n;
    MulGap(major, m, minor);
    if n <= k {
      MulMono2(minor, n, k);
    }
  }

  /** The loop goes on only while steps are left. */
  lemma StillGoing(l: Line, k: int, m: int)
    requires LineOk(l) && Nearest(l.major, l.minor, k, m) && k < l.major && (!l.flat ==> m < l.minor || k == 0)
    requires 0 <= m
    ensures k < Steps(l)
  {
    CountIsSteps(l, Steps(l));
    if !l.flat && k != 0 {
      ShortOfEnd(l.major, l.minor, Steps(l), k, m);
    }
  }

  /** The loop of drawline on the screen. */
  method Walk(crt: array<int>, ghost l: Line, ex: int, ghost ey: int, dx: int, dy: int, ax: int, ay: int,
              stepX: int, stepY: int, straightX: int, straightY: int, ink: int) returns (ghost n: int)
    requires crt.Length == COLUMNS * ROWS
    requires l == LineOf(ax, ay, ex, ey) && 0 < dx == l.major && dy == l.minor && stepX == l.sx && stepY == l.sy
    requires straightX == (if l.flat then stepX else 0) && straightY == if l.flat then 0 else stepY
    requires AllInside(l)
    modifies crt
    ensures n == Steps(l) && Drawn(old(crt[..]), crt[..], l, n, ink)
  {
    ghost var was := crt[..];
    var x, y, av := ax, ay, 2 * dy - dx;
    ghost var m := 0;
    n := 0;
    while true
      invariant 0 <= n < dx && At(l, n, m, x, y, av) && Drawn(was, crt[..], l, n, ink)
      invariant !l.flat ==> m < dy || n == 0
      decreases dx - n
    {
      AtCell(l, n, m, x, y, av, ex, ey);
      StillGoing(l, n, m);
      assert Inside(Index(l, n));
      Plot(crt, x, y, ink, was, l, n);
      ghost var before := m;
      x, y, av, m := Advance(l, n, m, x, y, av, dx, dy, stepX, stepY, straightX, straightY);
      n := n + 1;
      AtCell(l, n, m, x, y, av, ex, ey);
      if x == ex {
        AtEnd(l, n, m, x, y, av, before);
        CountIsSteps(l, n);
        break;
      }
    }
  }

  /** drawline, ink being the cell value made from the character and the colours. */
  method Drawline(crt: array<int>, ax: int, ay: int, ex: int, ey: int, ink: int)
    requires crt.Length == COLUMNS * ROWS && (ax != ex || ay != ey) && CornersInside(LineOf(ax, ay, ex, ey))
    modifies crt
    ensures Drawn(old(crt[..]), crt[..], LineOf(ax, ay, ex, ey), Steps(LineOf(ax, ay, ex, ey)), ink)
  {
    InsideExactly(LineOf(ax, ay, ex, ey));
    var dx, dy, stepX, stepY, straightX, straightY := SetUp(ax, ay, ex, ey);
    var n := Walk(crt, LineOf(ax, ay, ex, ey), ex, ey, dx, dy, ax, ay, stepX, stepY, straightX, straightY, ink);
  }
}
