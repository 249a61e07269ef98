/**
 * Day 7: a tachyon beam enters at `S` and travels down the grid. A beam that
 * reaches an empty cell continues into it; a beam that reaches a splitter `^`
 * stops there and continues from the cells on either side of it instead.
 * Part 1 sweeps the grid once, row by row, drawing the beams as `|` in place,
 * and counts the splitters it hits. Part 2 is not solved in the source and
 * always answers 0.
 */
module Day7 {
  import opened Common
  import opened Points
  import opened Grids

  const SOURCE: byte := 83     // 'S'
  const BEAM: byte := 124      // '|'
  const SPLITTER: byte := 94   // '^'

  /**
   * How part 1 ends: the number of splitters hit, or the splitter at the left
   * or right edge of its row whose side write goes out of the buffer (a panic
   * in the source).
   */
  datatype Outcome = Beams(count: nat) | EdgeSplit(at: Point)

  // ---------------------------------------------------------------------------
  // Cells
  // ---------------------------------------------------------------------------

  /** Every splitter in the buffer. */
  function Splitters(g: Grid): set<Point> {
    set x: int, y: int | 0 <= y < |g.vec| && 0 <= x < |g.vec[y]| && g.vec[y][x] == SPLITTER :: Point(x, y)
  }

  lemma SplittersMember(g: Grid, p: Point)
    ensures p in Splitters(g) <==> GetPoint(g, p) == Some(SPLITTER)
  {
    if GetPoint(g, p) == Some(SPLITTER) {
      assert Point(p.x, p.y) in Splitters(g);
    }
  }

  /** `h` is `g` with some cells overwritten by beams: same shape, every other cell as it was. */
  ghost predicate Beamed(g: Grid, h: Grid) {
    && h.width == g.width && h.height == g.height && |h.vec| == |g.vec|
    && (forall y :: 0 <= y < |g.vec| ==> |h.vec[y]| == |g.vec[y]|)
    && forall q: Point {:trigger GetPoint(h, q)} :: GetPoint(h, q) == GetPoint(g, q) || GetPoint(h, q) == Some(BEAM)
  }

  /** `h'` is `h` with beams drawn in row `r` only. */
  ghost predicate BeamedInRow(h: Grid, h': Grid, r: int) {
    && Beamed(h, h')
    && forall q: Point :: q.y != r ==> GetPoint(h', q) == GetPoint(h, q)
  }

  lemma BeamedTrans(f: Grid, g: Grid, h: Grid)
    requires Beamed(f, g) && Beamed(g, h)
    ensures Beamed(f, h)
  {
  }

  /**
   * The beam does not stop at `q`: below a source there is a beam, and below
   * a beam there is a beam, or a splitter with beams on both sides.
   */
  ghost predicate Continues(h: Grid, q: Point) {
    && (GetPoint(h, q.Add(UP)) == Some(SOURCE) ==> GetPoint(h, q) == Some(BEAM))
    && (GetPoint(h, q.Add(UP)) == Some(BEAM) ==>
          || GetPoint(h, q) == Some(BEAM)
          || (&& GetPoint(h, q) == Some(SPLITTER)
              && GetPoint(h, q.Add(LEFT)) == Some(BEAM)
              && GetPoint(h, q.Add(RIGHT)) == Some(BEAM)))
  }

  /**
   * The cell above `q`, read by row and column: absent on row 0 and off the
   * grid. The sweep's description below reads the row above through this.
   */
  function Above(h: Grid, q: Point): Option<byte> {
    if q.x < 0 || q.y < 1 then None else Get(h, q.x, q.y - 1)
  }

  lemma AboveIs(h: Grid, q: Point)
    ensures Above(h, q) == GetPoint(h, q.Add(UP))
  {
  }

  /** Drawing beams in `q`'s row or a later one keeps `q`'s beam going. */
  lemma ContinuesStable(h: Grid, h': Grid, r: int, q: Point)
    requires Continues(h, q) && BeamedInRow(h, h', r) && q.y <= r
    ensures Continues(h', q)
  {
    assert GetPoint(h', q.Add(UP)) == GetPoint(h, q.Add(UP));
  }

  // ---------------------------------------------------------------------------
  // One cell
  // ---------------------------------------------------------------------------

  /** The grid after visiting one cell and whether a splitter was hit, or the edge panic. */
  datatype Visited = Next(grid: Grid, hit: bool) | Edge

  /**
   * The loop body at `p`: read `grid[p]`, look at the cell above (absent on
   * row 0), and draw a beam into `p` below `S`, into both side cells when a
   * beam meets a splitter, and into `p` below any other beam.
   */
  function Visit(h: Grid, p: Point): (v: Visited)
    requires InBounds(h, p)
    ensures v.Next? ==> BeamedInRow(h, v.grid, p.y) && Continues(v.grid, p)
    ensures v.Next? ==> (v.hit <==> GetPoint(h, p) == Some(SPLITTER) && GetPoint(h, p.Add(UP)) == Some(BEAM))
    ensures v.Next? && v.hit ==> InBounds(h, p.Add(LEFT)) && InBounds(h, p.Add(RIGHT))
    ensures v.Edge? <==> && GetPoint(h, p.Add(UP)) == Some(BEAM) && GetPoint(h, p) == Some(SPLITTER)
                         && (p.x == 0 || p.x + 1 >= |h.vec[p.y]|)
  {
    var cur := At(h, p);
    match GetPoint(h, p.Add(UP))
    case None => Next(h, false)
    case Some(prev) =>
      if prev == SOURCE then
        Next(Set(h, p, BEAM), false)
      else if prev == BEAM && cur == SPLITTER then
        var left, right := p.Add(LEFT), p.Add(RIGHT);
        if InBounds(h, left) && InBounds(h, right) then
          var h1 := Set(h, left, BEAM);
          var h2 := Set(h1, right, BEAM);
          assert GetPoint(h2, p) == Some(SPLITTER);
          Next(h2, true)
        else
          Edge
      else if prev == BEAM then
        Next(Set(h, p, BEAM), false)
      else
        Next(h, false)
  }

  /** The cells visiting `p` overwrites with a beam (when they exist). */
  predicate Writes(h: Grid, p: Point, q: Point) {
    var up := GetPoint(h, p.Add(UP));
    || (q == p && up == Some(SOURCE))
    || (q == p && up == Some(BEAM) && GetPoint(h, p) != Some(SPLITTER))
    || ((q == p.Add(LEFT) || q == p.Add(RIGHT)) && up == Some(BEAM) && GetPoint(h, p) == Some(SPLITTER))
  }

  /** Visiting `p` draws a beam into exactly the cells it writes, and leaves every other cell alone. */
  lemma VisitCells(h: Grid, p: Point)
    requires InBounds(h, p) && Visit(h, p).Next?
    ensures forall q :: GetPoint(Visit(h, p).grid, q) ==
              if InBounds(h, q) && Writes(h, p, q) then Some(BEAM) else GetPoint(h, q)
  {
  }

  /** Row 0 has no cell above, so visiting it changes nothing. */
  lemma FirstRowUntouched(h: Grid, p: Point)
    requires InBounds(h, p) && p.y == 0
    ensures Visit(h, p) == Next(h, false)
  {
  }

  // ---------------------------------------------------------------------------
  // What the sweep draws and hits
  // ---------------------------------------------------------------------------

  /**
   * Every `grid[p]` the loops read is in bounds: the rectangle is empty, or
   * every row it spans exists and reaches `width`.
   */
  predicate Indexable(g: Grid) {
    g.width <= 0 || g.height <= 0 || Covers(g)
  }

  /** `Indexable` says exactly that every cell of the `width` by `height` rectangle exists. */
  lemma IndexableIff(g: Grid)
    ensures Indexable(g) <==> forall p :: InRect(g, p) ==> InBounds(g, p)
  {
    if !Indexable(g) {
      if g.height > |g.vec| {
        assert InRect(g, Point(0, |g.vec|));
      } else {
        var y :| 0 <= y < g.height && g.width > |g.vec[y]|;
        assert InRect(g, Point(|g.vec[y]|, y));
      }
    }
  }

  /** The sweep has visited `q` before reaching `(x, y)`. */
  predicate Seen(g: Grid, q: Point, y: int, x: int) {
    InRect(g, q) && Before(q, y, x)
  }

  /**
   * The sweep over `g` hits the splitter at `q`, with `h` the grid as drawn:
   * `q` is a splitter of `g` under a beam, and the cell to its left is not a
   * hit itself. A hit on the left draws a beam over `q` before `q` is read,
   * so `q` no longer reads as a splitter.
   */
  predicate Hit(g: Grid, h: Grid, q: Point)
    decreases if q.x < 0 then 0 else q.x + 1
  {
    && InRect(g, q)
    && GetPoint(g, q) == Some(SPLITTER)
    && Above(h, q) == Some(BEAM)
    && (q.x == 0 || !Hit(g, h, q.Add(LEFT)))
  }

  /**
   * A beam has been drawn into `q` by the cells visited before `(x, y)`:
   * `q` was visited under `S`, or under a beam without being a hit, or `q`
   * lies beside a visited hit.
   */
  predicate Drawn(g: Grid, h: Grid, q: Point, y: int, x: int) {
    || (Seen(g, q, y, x) && Above(h, q) == Some(SOURCE))
    || (Seen(g, q, y, x) && Above(h, q) == Some(BEAM) && !Hit(g, h, q))
    || (Seen(g, q.Add(LEFT), y, x) && Hit(g, h, q.Add(LEFT)))
    || (Seen(g, q.Add(RIGHT), y, x) && Hit(g, h, q.Add(RIGHT)))
  }

  /**
   * `h` is `g` with beams drawn in exactly the cells the visits before
   * `(x, y)` draw into, and nowhere else.
   */
  ghost predicate Swept(g: Grid, h: Grid, y: int, x: int) {
    forall q {:trigger GetPoint(h, q)} ::
      GetPoint(h, q) == if InBounds(g, q) && Drawn(g, h, q, y, x) then Some(BEAM) else GetPoint(g, q)
  }

  /** No hit visited before `(x, y)` sits on the edge of its row. */
  ghost predicate NoEdgeHit(g: Grid, h: Grid, y: int, x: int) {
    forall r {:trigger Hit(g, h, r)} :: Seen(g, r, y, x) && Hit(g, h, r) ==> InBounds(g, r.Add(LEFT)) && InBounds(g, r.Add(RIGHT))
  }

  /** The hits among the cells visited before `(x, y)`. */
  function HitsBefore(g: Grid, h: Grid, y: int, x: int): set<Point> {
    set i: int, j: int | 0 <= j < g.height && 0 <= i < g.width && Before(Point(i, j), y, x)
      && Hit(g, h, Point(i, j)) :: Point(i, j)
  }

  lemma HitsBeforeMember(g: Grid, h: Grid, y: int, x: int, q: Point)
    ensures q in HitsBefore(g, h, y, x) <==> Seen(g, q, y, x) && Hit(g, h, q)
  {
    if Seen(g, q, y, x) && Hit(g, h, q) {
      assert Point(q.x, q.y) in HitsBefore(g, h, y, x);
    }
  }

  /** Every hit is a splitter. */
  lemma HitsAreSplitters(g: Grid, h: Grid, y: int, x: int)
    ensures HitsBefore(g, h, y, x) <= Splitters(g)
  {
    forall q | q in HitsBefore(g, h, y, x) ensures q in Splitters(g) {
      HitsBeforeMember(g, h, y, x, q);
      SplittersMember(g, q);
    }
  }

  /** Whether `q` is hit depends only on the row above it. */
  lemma {:induction false} HitFrame(g: Grid, h: Grid, h': Grid, q: Point)
    requires forall r: Point :: r.y == q.y - 1 ==> GetPoint(h, r) == GetPoint(h', r)
    ensures Hit(g, h, q) == Hit(g, h', q)
    decreases if q.x < 0 then 0 else q.x + 1
  {
    AboveIs(h, q);
    AboveIs(h', q);
    if InRect(g, q) && q.x > 0 {
      HitFrame(g, h, h', q.Add(LEFT));
    }
  }

  /** Whether a beam is drawn into `q` depends only on the row above it. */
  lemma DrawnFrame(g: Grid, h: Grid, h': Grid, q: Point, y: int, x: int)
    requires forall r: Point :: r.y == q.y - 1 ==> GetPoint(h, r) == GetPoint(h', r)
    ensures Drawn(g, h, q, y, x) == Drawn(g, h', q, y, x)
  {
    AboveIs(h, q);
    AboveIs(h', q);
    HitFrame(g, h, h', q);
    HitFrame(g, h, h', q.Add(LEFT));
    HitFrame(g, h, h', q.Add(RIGHT));
  }

  // ---------------------------------------------------------------------------
  // One step of the sweep
  // ---------------------------------------------------------------------------

  /** Mid-sweep, the cell about to be visited reads as a splitter under a beam exactly when it is a hit. */
  lemma HitNow(g: Grid, h: Grid, y: int, x: int)
    requires 0 <= y < g.height && 0 <= x < g.width && Swept(g, h, y, x)
    ensures Hit(g, h, Point(x, y)) <==>
              GetPoint(h, Point(x, y).Add(UP)) == Some(BEAM) && GetPoint(h, Point(x, y)) == Some(SPLITTER)
  {
    var p := Point(x, y);
    AboveIs(h, p);
    assert !Seen(g, p, y, x) && !Seen(g, p.Add(RIGHT), y, x);
    assert x > 0 ==> Seen(g, p.Add(LEFT), y, x);
  }

  /** Visiting `(x, y)` adds exactly that cell to the visited ones. */
  lemma SeenNext(g: Grid, q: Point, y: int, x: int)
    requires 0 <= y < g.height && 0 <= x < g.width
    ensures Seen(g, q, y, x + 1) <==> Seen(g, q, y, x) || q == Point(x, y)
  {
  }

  /** The cells drawn once `(x, y)` is visited: those drawn before, and those the visit draws. */
  lemma DrawnStep(g: Grid, h: Grid, h': Grid, q: Point, y: int, x: int)
    requires 0 <= y < g.height && 0 <= x < g.width
    requires forall r: Point :: r.y != y ==> GetPoint(h', r) == GetPoint(h, r)
    ensures var p := Point(x, y);
            var up := Above(h, p);
            Drawn(g, h', q, y, x + 1) <==>
              || Drawn(g, h, q, y, x)
              || (q == p && up == Some(SOURCE))
              || (q == p && up == Some(BEAM) && !Hit(g, h, p))
              || ((q == p.Add(LEFT) || q == p.Add(RIGHT)) && Hit(g, h, p))
  {
    var p := Point(x, y);
    if q.y <= y {
      DrawnFrame(g, h, h', q, y, x + 1);
    }
    SeenNext(g, q, y, x);
    SeenNext(g, q.Add(LEFT), y, x);
    SeenNext(g, q.Add(RIGHT), y, x);
    assert q.Add(LEFT) == p <==> q == p.Add(RIGHT);
    assert q.Add(RIGHT) == p <==> q == p.Add(LEFT);
  }

  /** Visiting `(x, y)` without a panic draws exactly what `Drawn` promises, and hits exactly `Hit`. */
  lemma SweptStep(g: Grid, h: Grid, y: int, x: int)
    requires 0 <= y < g.height && 0 <= x < g.width && Indexable(g)
    requires Beamed(g, h) && Swept(g, h, y, x)
    requires Visit(h, Point(x, y)).Next?
    ensures Swept(g, Visit(h, Point(x, y)).grid, y, x + 1)
    ensures Visit(h, Point(x, y)).hit == Hit(g, h, Point(x, y))
  {
    var p := Point(x, y);
    var h' := Visit(h, p).grid;
    HitNow(g, h, y, x);
    AboveIs(h, p);
    VisitCells(h, p);
    forall q ensures GetPoint(h', q) == if InBounds(g, q) && Drawn(g, h', q, y, x + 1) then Some(BEAM) else GetPoint(g, q) {
      DrawnStep(g, h, h', q, y, x);
    }
  }

  /** A hit visited without a panic has both side cells. */
  lemma EdgeStep(g: Grid, h: Grid, y: int, x: int)
    requires 0 <= y < g.height && 0 <= x < g.width && Indexable(g)
    requires Beamed(g, h) && Swept(g, h, y, x) && NoEdgeHit(g, h, y, x)
    requires Visit(h, Point(x, y)).Next?
    ensures NoEdgeHit(g, Visit(h, Point(x, y)).grid, y, x + 1)
  {
    var p := Point(x, y);
    var v := Visit(h, p);
    SweptStep(g, h, y, x);
    forall r | Seen(g, r, y, x + 1) && Hit(g, v.grid, r)
      ensures InBounds(g, r.Add(LEFT)) && InBounds(g, r.Add(RIGHT))
    {
      HitFrame(g, h, v.grid, r);
      if r == p {
        assert v.hit;
        assert InBounds(h, p.Add(LEFT)) && InBounds(h, p.Add(RIGHT));
      } else {
        assert Seen(g, r, y, x);
      }
    }
  }

  /** Visiting `(x, y)` adds it to the hits exactly when it is hit. */
  lemma HitsStep(g: Grid, h: Grid, h': Grid, y: int, x: int)
    requires 0 <= y < g.height && 0 <= x < g.width
    requires forall r: Point :: r.y != y ==> GetPoint(h', r) == GetPoint(h, r)
    ensures HitsBefore(g, h', y, x + 1) ==
              HitsBefore(g, h, y, x) + (if Hit(g, h, Point(x, y)) then {Point(x, y)} else {})
    ensures Point(x, y) !in HitsBefore(g, h, y, x)
  {
    var p := Point(x, y);
    HitsBeforeMember(g, h, y, x, p);
    forall q ensures q in HitsBefore(g, h', y, x + 1) <==>
                     q in HitsBefore(g, h, y, x) || (q == p && Hit(g, h, p))
    {
      HitsBeforeMember(g, h, y, x, q);
      HitsBeforeMember(g, h', y, x + 1, q);
      if q.y <= y {
        HitFrame(g, h, h', q);
      }
    }
  }

  // ---------------------------------------------------------------------------
  // The sweep
  // ---------------------------------------------------------------------------

  /**
   * The grid of a sweep of `g` that has reached `(x, y)`: only beams were
   * drawn, row 0 is as it was, and every visited cell keeps its beam going.
   */
  ghost predicate GridInv(g: Grid, h: Grid, y: int, x: int) {
    && Beamed(g, h)
    && (forall q: Point {:trigger GetPoint(h, q)} :: q.y == 0 ==> GetPoint(h, q) == GetPoint(g, q))
    && (forall q {:trigger Continues(h, q)} :: InRect(g, q) && Before(q, y, x) ==> Continues(h, q))
  }

  /** The splitters hit so far are the hits visited so far, `count` of them. */
  ghost predicate HitInv(g: Grid, h: Grid, y: int, x: int, hits: set<Point>, count: nat) {
    hits == HitsBefore(g, h, y, x) && count == |hits|
  }

  ghost predicate SweepInv(g: Grid, h: Grid, y: int, x: int, hits: set<Point>, count: nat) {
    && GridInv(g, h, y, x) && Swept(g, h, y, x) && NoEdgeHit(g, h, y, x)
    && HitInv(g, h, y, x, hits, count)
  }

  /** Visiting `(x, y)` without a panic keeps the grid invariant. */
  lemma GridStep(g: Grid, h: Grid, y: int, x: int)
    requires Indexable(g) && 0 <= y < g.height && 0 <= x < g.width
    requires GridInv(g, h, y, x)
    requires Visit(h, Point(x, y)).Next?
    ensures GridInv(g, Visit(h, Point(x, y)).grid, y, x + 1)
  {
    var p := Point(x, y);
    var h' := Visit(h, p).grid;
    BeamedTrans(g, h, h');
    forall q | InRect(g, q) && Before(q, y, x + 1)
      ensures Continues(h', q)
    {
      if q != p {
        ContinuesStable(h, h', y, q);
      }
    }
    if y == 0 {
      FirstRowUntouched(h, p);
    }
  }

  /** Visiting `(x, y)` without a panic keeps the sweep state. */
  lemma SweepStep(g: Grid, h: Grid, y: int, x: int, hits: set<Point>, count: nat)
    requires Indexable(g) && 0 <= y < g.height && 0 <= x < g.width
    requires SweepInv(g, h, y, x, hits, count)
    requires Visit(h, Point(x, y)).Next?
    ensures var v := Visit(h, Point(x, y));
            SweepInv(g, v.grid, y, x + 1, if v.hit then hits + {Point(x, y)} else hits,
                     if v.hit then count + 1 else count)
  {
    var p := Point(x, y);
    var v := Visit(h, p);
    var hits', count' := if v.hit then hits + {p} else hits, if v.hit then count + 1 else count;
    GridStep(g, h, y, x);
    SweptStep(g, h, y, x);
    EdgeStep(g, h, y, x);
    HitsStep(g, h, v.grid, y, x);
    assert HitInv(g, v.grid, y, x + 1, hits', count');
  }

  /** Finishing row `y` is starting row `y + 1`. */
  lemma SweepRowDone(g: Grid, h: Grid, y: int, x: int, hits: set<Point>, count: nat)
    requires x >= g.width && SweepInv(g, h, y, x, hits, count)
    ensures SweepInv(g, h, y + 1, 0, hits, count)
  {
    forall r ensures Seen(g, r, y, x) == Seen(g, r, y + 1, 0) {
    }
    forall q ensures Drawn(g, h, q, y, x) == Drawn(g, h, q, y + 1, 0) {
    }
    forall q ensures q in HitsBefore(g, h, y, x) <==> q in HitsBefore(g, h, y + 1, 0) {
      HitsBeforeMember(g, h, y, x, q);
      HitsBeforeMember(g, h, y + 1, 0, q);
    }
  }

  /**
   * The loop body at `(x, y)`: the next state, or `true` for the splitter on
   * the edge whose side write panics.
   */
  method VisitCell(g: Grid, h: Grid, y: int, x: int, ghost hits: set<Point>, count: nat)
    returns (h': Grid, ghost hits': set<Point>, count': nat, edge: bool)
    requires Indexable(g) && 0 <= y < g.height && 0 <= x < g.width
    requires SweepInv(g, h, y, x, hits, count)
    ensures !edge ==> SweepInv(g, h', y, x + 1, hits', count')
    ensures edge ==> Hit(g, h, Point(x, y)) && (x == 0 || x + 1 >= |g.vec[y]|)
  {
    var p := Point(x, y);
    var v := Visit(h, p);
    if v.Edge? {
      HitNow(g, h, y, x);
      return h, hits, count, true;
    }
    SweepStep(g, h, y, x, hits, count);
    h' := v.grid;
    hits', count' := if v.hit then hits + {p} else hits, if v.hit then count + 1 else count;
    edge := false;
  }

  /** The inner loop over one row, stopping at a splitter on the edge. */
  method SweepRow(g: Grid, h0: Grid, y: int, ghost hits0: set<Point>, count0: nat)
    returns (h: Grid, ghost hits: set<Point>, count: nat, edge: Option<Point>)
    requires Indexable(g) && 0 <= y < g.height
    requires SweepInv(g, h0, y, 0, hits0, count0)
    ensures edge.None? ==> SweepInv(g, h, y + 1, 0, hits, count)
    ensures edge.Some? ==> && edge.value.y == y && SweepInv(g, h, y, edge.value.x, hits, count)
                           && Hit(g, h, edge.value) && InRect(g, edge.value)
                           && (edge.value.x == 0 || edge.value.x + 1 >= |g.vec[y]|)
  {
    h, hits, count := h0, hits0, count0;
    var x := 0;
    while x < g.width
      invariant 0 <= x
      invariant SweepInv(g, h, y, x, hits, count)
    {
      var h', hits', count', stop := VisitCell(g, h, y, x, hits, count);
      if stop {
        return h, hits, count, Some(Point(x, y));
      }
      h, hits, count := h', hits', count';
      x := x + 1;
    }
    SweepRowDone(g, h, y, x, hits, count);
    edge := None;
  }

  /** A sweep past the last row has visited the whole rectangle. */
  lemma SweepDone(g: Grid, h: Grid, y: int, hits: set<Point>, count: nat)
    requires y >= g.height && SweepInv(g, h, y, 0, hits, count)
    ensures SweepInv(g, h, g.height, 0, hits, count)
    ensures forall q :: InRect(g, q) ==> Continues(h, q)
    ensures count <= |Splitters(g)|
  {
    forall r ensures Seen(g, r, y, 0) == Seen(g, r, g.height, 0) {
    }
    forall q ensures Drawn(g, h, q, y, 0) == Drawn(g, h, q, g.height, 0) {
    }
    forall q ensures q in HitsBefore(g, h, y, 0) <==> q in HitsBefore(g, h, g.height, 0) {
      HitsBeforeMember(g, h, y, 0, q);
      HitsBeforeMember(g, h, g.height, 0, q);
    }
    HitsAreSplitters(g, h, y, 0);
    SubsetCard(hits, Splitters(g));
  }

  /** The state at the start of the sweep. */
  lemma SweepStart(g: Grid)
    ensures SweepInv(g, g, 0, 0, {}, 0)
  {
    forall q ensures q !in HitsBefore(g, g, 0, 0) {
      HitsBeforeMember(g, g, 0, 0, q);
    }
  }

  /**
   * `part1`'s double loop on a grid whose rectangle lies in the buffer. When
   * no hit splitter sits on the edge of its row, the sweep draws a beam into
   * exactly the cells `Drawn` names, the count is the number of hits, and
   * every beam in the rectangle continues. Otherwise it stops at the first
   * hit splitter on the edge, whose side write is out of bounds.
   */
  method Sweep(g: Grid) returns (h: Grid, o: Outcome)
    requires Indexable(g)
    ensures Beamed(g, h)
    ensures o.Beams? ==> && Swept(g, h, g.height, 0) && NoEdgeHit(g, h, g.height, 0)
                         && o.count == |HitsBefore(g, h, g.height, 0)|
    ensures o.Beams? ==> forall q: Point :: q.y == 0 ==> GetPoint(h, q) == GetPoint(g, q)
    ensures o.Beams? ==> forall q :: InRect(g, q) ==> Continues(h, q)
    ensures o.Beams? ==> o.count <= |Splitters(g)|
    ensures o.EdgeSplit? ==> && Swept(g, h, o.at.y, o.at.x) && NoEdgeHit(g, h, o.at.y, o.at.x)
                             && Hit(g, h, o.at) && GetPoint(g, o.at) == Some(SPLITTER)
                             && (o.at.x == 0 || o.at.x + 1 >= |g.vec[o.at.y]|)
  {
    h := g;
    ghost var hits: set<Point> := {};
    var count := 0;
    SweepStart(g);
    var y := 0;
    while y < g.height
      invariant 0 <= y
      invariant SweepInv(g, h, y, 0, hits, count)
    {
      var edge;
      h, hits, count, edge := SweepRow(g, h, y, hits, count);
      if edge.Some? {
        return h, EdgeSplit(edge.value);
      }
      y := y + 1;
    }
    SweepDone(g, h, y, hits, count);
    o := Beams(count);
  }

  // ---------------------------------------------------------------------------
  // The drawing is unique
  // ---------------------------------------------------------------------------

  /** Two grids drawn as `Swept` describes agree on every row, by induction from the row above the first. */
  lemma {:induction false} SweptRowsAgree(g: Grid, h1: Grid, h2: Grid, y: int, x: int, j: int)
    requires Swept(g, h1, y, x) && Swept(g, h2, y, x)
    ensures forall q: Point :: q.y == j ==> GetPoint(h1, q) == GetPoint(h2, q)
    decreases if j < 0 then 0 else j + 1
  {
    if j >= 0 {
      SweptRowsAgree(g, h1, h2, y, x, j - 1);
      forall q: Point | q.y == j ensures GetPoint(h1, q) == GetPoint(h2, q) {
        DrawnFrame(g, h1, h2, q, y, x);
      }
    }
  }

  /**
   * `Swept` fixes the drawing: any two grids it describes read alike
   * everywhere and have the same hits, so the count is determined by `g`.
   */
  lemma SweptUnique(g: Grid, h1: Grid, h2: Grid, y: int, x: int)
    requires Swept(g, h1, y, x) && Swept(g, h2, y, x)
    ensures forall q :: GetPoint(h1, q) == GetPoint(h2, q)
    ensures HitsBefore(g, h1, y, x) == HitsBefore(g, h2, y, x)
  {
    forall q ensures GetPoint(h1, q) == GetPoint(h2, q) {
      SweptRowsAgree(g, h1, h2, y, x, q.y);
    }
    forall q ensures q in HitsBefore(g, h1, y, x) <==> q in HitsBefore(g, h2, y, x) {
      HitsBeforeMember(g, h1, y, x, q);
      HitsBeforeMember(g, h2, y, x, q);
      HitFrame(g, h1, h2, q);
    }
  }

  // ---------------------------------------------------------------------------
  // Parts
  // ---------------------------------------------------------------------------

  /**
   * When every cell of the rectangle `from_vec` writes exists, that grid is
   * the one `FromVec` builds, or its rectangle is empty (no non-empty line),
   * so the sweep visits nothing either way.
   */
  lemma AsWrittenIndexable(lines: seq<string>)
    requires Indexable(FromVecAsWritten(lines))
    ensures Indexable(FromVec(lines))
    ensures FromVecAsWritten(lines) == FromVec(lines) || FromVec(lines).width == 0
  {
    var a, c := FromVecAsWritten(lines), FromVec(lines);
    assert a.vec == c.vec;
  }

  /**
   * `part1`: `grid[p]` reads every cell of the rectangle of the grid
   * `from_vec` builds, so that rectangle lies in the buffer. The count is the
   * number of hits of the unique drawing; or the sweep stops at a hit
   * splitter on the edge.
   */
  method Part1(lines: seq<string>) returns (o: Outcome)
    requires Indexable(FromVecAsWritten(lines))
    ensures var g := FromVec(lines);
            o.Beams? ==> exists h :: && Beamed(g, h) && Swept(g, h, g.height, 0) && NoEdgeHit(g, h, g.height, 0)
                                     && o.count == |HitsBefore(g, h, g.height, 0)|
    ensures var g := FromVec(lines);
            o.EdgeSplit? ==> exists h :: && Swept(g, h, o.at.y, o.at.x) && NoEdgeHit(g, h, o.at.y, o.at.x)
                                         && Hit(g, h, o.at)
                                         && (o.at.x == 0 || o.at.x + 1 >= |g.vec[o.at.y]|)
  {
    AsWrittenIndexable(lines);
    var h;
    h, o := Sweep(FromVec(lines));
  }

  /** `part2`: not solved; it always answers 0. */
  function Part2(lines: seq<string>): (r: Result<nat>)
    ensures r.Ok? && r.value == 0
  {
    Ok(0)
  }
}
