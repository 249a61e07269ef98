/**
 * Day 4: paper rolls (`@`) on a grid. A roll is accessible when fewer than
 * four of its neighbours hold rolls. Part 1 counts the accessible rolls;
 * part 2 sweeps the grid row by row, clearing each accessible roll in place
 * (later cells of the same sweep see the earlier removals), and repeats the
 * sweep until one removes nothing.
 *
 * The neighbour offsets are a parameter `dirs`: the offset list the source
 * uses is defined outside this model.
 */
module Day4 {
  import opened Common
  import opened Points
  import opened Grids

  const ROLL: byte := 64      // '@'
  const CLEARED: byte := 46   // '.'

  /** A roll is accessible with fewer than this many neighbouring rolls. */
  const LIMIT := 4

  // ---------------------------------------------------------------------------
  // Neighbours
  // ---------------------------------------------------------------------------

  /** The number of offsets in `dirs` that lead from `p` to a roll; off-grid cells hold none. */
  function Neighbours(g: Grid, p: Point, dirs: seq<Point>): (n: nat)
    ensures n <= |dirs|
  {
    if |dirs| == 0 then 0
    else
      Neighbours(g, p, dirs[..|dirs| - 1])
      + (if GetPoint(g, p.Add(dirs[|dirs| - 1])) == Some(ROLL) then 1 else 0)
  }

  /** The positions in `dirs` of the offsets that lead from `p` to a roll. */
  function RollOffsets(g: Grid, p: Point, dirs: seq<Point>): set<int> {
    set i | 0 <= i < |dirs| && GetPoint(g, p.Add(dirs[i])) == Some(ROLL)
  }

  /** The neighbour count is the number of offsets that hit a roll (the `filter().count()`). */
  lemma {:induction false} NeighboursCount(g: Grid, p: Point, dirs: seq<Point>)
    ensures Neighbours(g, p, dirs) == |RollOffsets(g, p, dirs)|
  {
    if |dirs| == 0 {
      assert RollOffsets(g, p, dirs) == {};
    } else {
      var k := |dirs| - 1;
      NeighboursCount(g, p, dirs[..k]);
      var before := RollOffsets(g, p, dirs[..k]);
      if GetPoint(g, p.Add(dirs[k])) == Some(ROLL) {
        assert RollOffsets(g, p, dirs) == before + {k};
      } else {
        assert RollOffsets(g, p, dirs) == before;
      }
    }
  }

  /** A roll with fewer than `LIMIT` neighbouring rolls. */
  predicate Accessible(g: Grid, p: Point, dirs: seq<Point>) {
    GetPoint(g, p) == Some(ROLL) && Neighbours(g, p, dirs) < LIMIT
  }

  // ---------------------------------------------------------------------------
  // Cell sets
  // ---------------------------------------------------------------------------

  /** Every roll in the buffer. */
  function Rolls(g: Grid): set<Point> {
    set x: int, y: int | 0 <= y < |g.vec| && 0 <= x < |g.vec[y]| && g.vec[y][x] == ROLL :: Point(x, y)
  }

  lemma RollsMember(g: Grid, p: Point)
    ensures p in Rolls(g) <==> GetPoint(g, p) == Some(ROLL)
  {
    if GetPoint(g, p) == Some(ROLL) {
      assert Point(p.x, p.y) in Rolls(g);
    }
  }

  /** The accessible rolls inside the rectangle: what part 1 counts. */
  function AccessibleCells(g: Grid, dirs: seq<Point>): set<Point> {
    set x: int, y: int | 0 <= y < g.height && 0 <= x < g.width && Accessible(g, Point(x, y), dirs) :: Point(x, y)
  }

  lemma AccessibleMember(g: Grid, dirs: seq<Point>, p: Point)
    ensures p in AccessibleCells(g, dirs) <==> InRect(g, p) && Accessible(g, p, dirs)
  {
    if InRect(g, p) && Accessible(g, p, dirs) {
      assert Point(p.x, p.y) in AccessibleCells(g, dirs);
    }
  }

  /** The accessible rolls the row-major scan has passed before reaching `(x, y)`. */
  function AccessibleBefore(g: Grid, dirs: seq<Point>, y: int, x: int): set<Point> {
    set i: int, j: int | 0 <= j < g.height && 0 <= i < g.width && Before(Point(i, j), y, x)
      && Accessible(g, Point(i, j), dirs) :: Point(i, j)
  }

  lemma AccessibleBeforeMember(g: Grid, dirs: seq<Point>, y: int, x: int, p: Point)
    ensures p in AccessibleBefore(g, dirs, y, x) <==> InRect(g, p) && Before(p, y, x) && Accessible(g, p, dirs)
  {
    if InRect(g, p) && Before(p, y, x) && Accessible(g, p, dirs) {
      assert Point(p.x, p.y) in AccessibleBefore(g, dirs, y, x);
    }
  }

  /** Every accessible cell is a roll, so part 1 is at most the number of rolls. */
  lemma AccessibleAreRolls(g: Grid, dirs: seq<Point>)
    ensures AccessibleCells(g, dirs) <= Rolls(g)
    ensures |AccessibleCells(g, dirs)| <= |Rolls(g)|
  {
    forall p | p in AccessibleCells(g, dirs)
      ensures p in Rolls(g)
    {
      AccessibleMember(g, dirs, p);
      RollsMember(g, p);
    }
    SubsetCard(AccessibleCells(g, dirs), Rolls(g));
  }

  // ---------------------------------------------------------------------------
  // Part 1
  // ---------------------------------------------------------------------------

  /** One more visited cell adds itself to the scanned set when accessible. */
  lemma BeforeStep(g: Grid, dirs: seq<Point>, y: int, x: int)
    requires 0 <= y < g.height && 0 <= x < g.width
    ensures AccessibleBefore(g, dirs, y, x + 1) ==
              AccessibleBefore(g, dirs, y, x)
              + (if Accessible(g, Point(x, y), dirs) then {Point(x, y)} else {})
    ensures Point(x, y) !in AccessibleBefore(g, dirs, y, x)
  {
    var p := Point(x, y);
    AccessibleBeforeMember(g, dirs, y, x, p);
    forall q ensures q in AccessibleBefore(g, dirs, y, x + 1) <==>
                     q in AccessibleBefore(g, dirs, y, x) || (q == p && Accessible(g, p, dirs))
    {
      AccessibleBeforeMember(g, dirs, y, x, q);
      AccessibleBeforeMember(g, dirs, y, x + 1, q);
    }
  }

  /** The scanned set after the last column of row `y` is the one at the start of row `y + 1`. */
  lemma BeforeRow(g: Grid, dirs: seq<Point>, y: int, x: int)
    requires x >= g.width
    ensures AccessibleBefore(g, dirs, y, x) == AccessibleBefore(g, dirs, y + 1, 0)
  {
    forall q ensures q in AccessibleBefore(g, dirs, y, x) <==> q in AccessibleBefore(g, dirs, y + 1, 0) {
      AccessibleBeforeMember(g, dirs, y, x, q);
      AccessibleBeforeMember(g, dirs, y + 1, 0, q);
    }
  }

  /** Once every row has been scanned, the scanned set is every accessible cell. */
  lemma BeforeAll(g: Grid, dirs: seq<Point>, y: int)
    requires y >= g.height
    ensures AccessibleBefore(g, dirs, y, 0) == AccessibleCells(g, dirs)
  {
    forall q ensures q in AccessibleBefore(g, dirs, y, 0) <==> q in AccessibleCells(g, dirs) {
      AccessibleBeforeMember(g, dirs, y, 0, q);
      AccessibleMember(g, dirs, q);
    }
  }

  /** Nothing has been scanned before the first cell. */
  lemma BeforeStart(g: Grid, dirs: seq<Point>)
    ensures AccessibleBefore(g, dirs, 0, 0) == {}
  {
    forall q ensures q !in AccessibleBefore(g, dirs, 0, 0) {
      AccessibleBeforeMember(g, dirs, 0, 0, q);
    }
  }

  /** Scanning cell `(x, y)` adds one to the count exactly when it is accessible. */
  lemma BeforeStepCount(g: Grid, dirs: seq<Point>, y: int, x: int)
    requires 0 <= y < g.height && 0 <= x < g.width
    ensures |AccessibleBefore(g, dirs, y, x + 1)| ==
              |AccessibleBefore(g, dirs, y, x)| + (if Accessible(g, Point(x, y), dirs) then 1 else 0)
  {
    BeforeStep(g, dirs, y, x);
  }

  /** The inner loop of `part_1`: row `y` adds its accessible rolls to the count. */
  method CountRow(g: Grid, dirs: seq<Point>, y: int, count0: nat) returns (count: nat)
    requires 0 <= y < g.height
    requires count0 == |AccessibleBefore(g, dirs, y, 0)|
    ensures count == |AccessibleBefore(g, dirs, y + 1, 0)|
  {
    count := count0;
    var x := 0;
    while x < g.width
      invariant 0 <= x
      invariant count == |AccessibleBefore(g, dirs, y, x)|
    {
      var p := Point(x, y);
      BeforeStepCount(g, dirs, y, x);
      if GetPoint(g, p) == Some(ROLL) && Neighbours(g, p, dirs) < LIMIT {
        count := count + 1;
      }
      x := x + 1;
    }
    BeforeRow(g, dirs, y, x);
  }

  /** `part_1`'s double loop over a grid: the number of accessible rolls in the rectangle. */
  method CountAccessible(g: Grid, dirs: seq<Point>) returns (count: nat)
    ensures count == |AccessibleCells(g, dirs)|
    ensures count <= |Rolls(g)|
  {
    count := 0;
    BeforeStart(g, dirs);
    var y := 0;
    while y < g.height
      invariant 0 <= y
      invariant count == |AccessibleBefore(g, dirs, y, 0)|
    {
      count := CountRow(g, dirs, y, count);
      y := y + 1;
    }
    BeforeAll(g, dirs, y);
    AccessibleAreRolls(g, dirs);
  }

  // ---------------------------------------------------------------------------
  // Clearing rolls
  // ---------------------------------------------------------------------------

  /** `h` is `g` with some rolls cleared: same shape, and every other cell as it was. */
  ghost predicate Shrinks(g: Grid, h: Grid) {
    && h.width == g.width && h.height == g.height && |h.vec| == |g.vec|
    && (forall y :: 0 <= y < |g.vec| ==> |h.vec[y]| == |g.vec[y]|)
    && forall q: Point :: GetPoint(h, q) == GetPoint(g, q)
                          || (GetPoint(g, q) == Some(ROLL) && GetPoint(h, q) == Some(CLEARED))
  }

  lemma ShrinksTrans(f: Grid, g: Grid, h: Grid)
    requires Shrinks(f, g) && Shrinks(g, h)
    ensures Shrinks(f, h)
  {
  }

  /** Clearing rolls never adds a roll. */
  lemma ShrinksRolls(g: Grid, h: Grid)
    requires Shrinks(g, h)
    ensures Rolls(h) <= Rolls(g)
  {
    forall q | q in Rolls(h) ensures q in Rolls(g) {
      RollsMember(g, q);
      RollsMember(h, q);
    }
  }

  /** Clearing rolls never raises a neighbour count. */
  lemma {:induction false} ShrinksNeighbours(g: Grid, h: Grid, p: Point, dirs: seq<Point>)
    requires Shrinks(g, h)
    ensures Neighbours(h, p, dirs) <= Neighbours(g, p, dirs)
  {
    if |dirs| > 0 {
      ShrinksNeighbours(g, h, p, dirs[..|dirs| - 1]);
    }
  }

  /** A neighbour count reads only the cells the offsets reach: grids that read alike count alike. */
  lemma {:induction false} NeighboursAgree(g: Grid, h: Grid, p: Point, dirs: seq<Point>)
    requires forall q :: GetPoint(g, q) == GetPoint(h, q)
    ensures Neighbours(g, p, dirs) == Neighbours(h, p, dirs)
  {
    if |dirs| > 0 {
      NeighboursAgree(g, h, p, dirs[..|dirs| - 1]);
    }
  }

  /** Fewer rolls never give a larger neighbour count. */
  lemma {:induction false} RollsNeighbours(g: Grid, h: Grid, p: Point, dirs: seq<Point>)
    requires Rolls(h) <= Rolls(g)
    ensures Neighbours(h, p, dirs) <= Neighbours(g, p, dirs)
  {
    if |dirs| > 0 {
      RollsNeighbours(g, h, p, dirs[..|dirs| - 1]);
      var q := p.Add(dirs[|dirs| - 1]);
      RollsMember(g, q);
      RollsMember(h, q);
    }
  }

  /** Clearing one roll removes exactly that cell from the roll set. */
  lemma ClearOne(g: Grid, p: Point)
    requires GetPoint(g, p) == Some(ROLL)
    ensures Rolls(Set(g, p, CLEARED)) == Rolls(g) - {p}
    ensures p in Rolls(g)
  {
    var h := Set(g, p, CLEARED);
    forall q ensures q in Rolls(h) <==> q in Rolls(g) - {p} {
      RollsMember(g, q);
      RollsMember(h, q);
    }
    RollsMember(g, p);
  }

  /** A grid in which no roll in the rectangle is accessible. */
  ghost predicate Stable(g: Grid, dirs: seq<Point>) {
    forall x, y :: 0 <= y < g.height && 0 <= x < g.width && GetPoint(g, Point(x, y)) == Some(ROLL) ==>
      Neighbours(g, Point(x, y), dirs) >= LIMIT
  }

  /** Stability is exactly the absence of accessible cells, so part 1 of a stable grid is 0. */
  lemma StableIff(g: Grid, dirs: seq<Point>)
    ensures Stable(g, dirs) <==> AccessibleCells(g, dirs) == {}
  {
    if !Stable(g, dirs) {
      var x, y :| 0 <= y < g.height && 0 <= x < g.width && GetPoint(g, Point(x, y)) == Some(ROLL)
                  && Neighbours(g, Point(x, y), dirs) < LIMIT;
      AccessibleMember(g, dirs, Point(x, y));
    } else {
      forall q ensures q !in AccessibleCells(g, dirs) {
        AccessibleMember(g, dirs, q);
        assert q == Point(q.x, q.y);
      }
    }
  }

  // ---------------------------------------------------------------------------
  // Stable sub-grids
  // ---------------------------------------------------------------------------

  /** `h` is a stable grid reached from `g` by clearing rolls. */
  ghost predicate StableShrink(g: Grid, h: Grid, dirs: seq<Point>) {
    Shrinks(g, h) && Stable(h, dirs)
  }

  /** `h` still holds every roll of every stable grid reached from `g` by clearing rolls. */
  ghost predicate KeepsStable(g: Grid, h: Grid, dirs: seq<Point>) {
    forall h' :: StableShrink(g, h', dirs) ==> Rolls(h') <= Rolls(h)
  }

  /**
   * `h` is the largest stable grid reached from `g` by clearing rolls: it is
   * stable, and every other such grid keeps a subset of its rolls.
   */
  ghost predicate LargestStable(g: Grid, h: Grid, dirs: seq<Point>) {
    StableShrink(g, h, dirs) && KeepsStable(g, h, dirs)
  }

  /** The largest stable grid is unique: two of them hold the same rolls and read alike everywhere. */
  lemma LargestStableUnique(g: Grid, h1: Grid, h2: Grid, dirs: seq<Point>)
    requires LargestStable(g, h1, dirs) && LargestStable(g, h2, dirs)
    ensures Rolls(h1) == Rolls(h2)
    ensures forall q :: GetPoint(h1, q) == GetPoint(h2, q)
  {
    forall q ensures GetPoint(h1, q) == GetPoint(h2, q) {
      RollsMember(h1, q);
      RollsMember(h2, q);
    }
  }

  /** Two grids cleared from `g`, one keeping a subset of the other's rolls: the smaller is cleared from the larger. */
  lemma ShrinksBetween(g: Grid, h: Grid, h': Grid)
    requires Shrinks(g, h) && Shrinks(g, h') && Rolls(h') <= Rolls(h)
    ensures Shrinks(h, h')
  {
    forall q ensures GetPoint(h', q) == GetPoint(h, q)
                     || (GetPoint(h, q) == Some(ROLL) && GetPoint(h', q) == Some(CLEARED)) {
      RollsMember(h, q);
      RollsMember(h', q);
    }
  }

  /** A roll accessible in `h` belongs to no stable grid below `h`. */
  lemma AccessibleNotStable(h: Grid, h': Grid, p: Point, dirs: seq<Point>)
    requires Rolls(h') <= Rolls(h) && h'.width == h.width && h'.height == h.height
    requires Stable(h', dirs) && InRect(h, p) && Accessible(h, p, dirs)
    ensures p !in Rolls(h')
  {
    RollsMember(h', p);
    RollsNeighbours(h, h', p, dirs);
    assert p == Point(p.x, p.y);
  }

  /** Clearing a roll accessible in `h` keeps every stable grid's rolls. */
  lemma KeepsClear(g: Grid, h: Grid, p: Point, dirs: seq<Point>)
    requires Shrinks(g, h) && KeepsStable(g, h, dirs)
    requires InRect(g, p) && Accessible(h, p, dirs)
    ensures KeepsStable(g, Set(h, p, CLEARED), dirs)
  {
    ClearOne(h, p);
    forall h' | StableShrink(g, h', dirs) ensures Rolls(h') <= Rolls(Set(h, p, CLEARED)) {
      AccessibleNotStable(h, h', p, dirs);
    }
  }

  /** Every stable grid below `g` is below `h` when `h` keeps them and `next` keeps those below `h`. */
  lemma KeepsTrans(g: Grid, h: Grid, next: Grid, dirs: seq<Point>)
    requires Shrinks(g, h) && KeepsStable(g, h, dirs) && KeepsStable(h, next, dirs)
    ensures KeepsStable(g, next, dirs)
  {
    forall h' | StableShrink(g, h', dirs) ensures Rolls(h') <= Rolls(next) {
      ShrinksBetween(g, h, h');
      assert StableShrink(h, h', dirs);
    }
  }

  /** Nothing has been cleared yet: `g` holds the rolls of every grid cleared from it. */
  lemma KeepsStart(g: Grid, dirs: seq<Point>)
    ensures KeepsStable(g, g, dirs)
  {
    forall h' | StableShrink(g, h', dirs) ensures Rolls(h') <= Rolls(g) {
      ShrinksRolls(g, h');
    }
  }

  // ---------------------------------------------------------------------------
  // One sweep
  // ---------------------------------------------------------------------------

  /** `h` has the shape of `g`. */
  predicate SameShape(g: Grid, h: Grid) {
    |h.vec| == |g.vec| && forall y :: 0 <= y < |g.vec| ==> |h.vec[y]| == |g.vec[y]|
  }

  /**
   * What the sweep sees when it reaches `(x, y)`: the cells it has visited as
   * they are in `h`, and every other cell as it was in `g`.
   */
  function Mix(g: Grid, h: Grid, y: int, x: int): (m: Grid)
    requires SameShape(g, h)
    ensures forall q :: GetPoint(m, q) ==
              if InRect(g, q) && Before(q, y, x) then GetPoint(h, q) else GetPoint(g, q)
  {
    Grid(seq(|g.vec|, j requires 0 <= j < |g.vec| =>
           seq(|g.vec[j]|, i requires 0 <= i < |g.vec[j]| =>
             if InRect(g, Point(i, j)) && Before(Point(i, j), y, x) then h.vec[j][i] else g.vec[j][i])),
         g.width, g.height)
  }

  /** Grids that agree on the cells before `q` show `q` the same view. */
  lemma MixAgree(g: Grid, h: Grid, h': Grid, q: Point, dirs: seq<Point>)
    requires SameShape(g, h) && SameShape(g, h')
    requires forall r :: InRect(g, r) && Before(r, q.y, q.x) ==> GetPoint(h, r) == GetPoint(h', r)
    ensures Accessible(Mix(g, h, q.y, q.x), q, dirs) == Accessible(Mix(g, h', q.y, q.x), q, dirs)
  {
    NeighboursAgree(Mix(g, h, q.y, q.x), Mix(g, h', q.y, q.x), q, dirs);
  }

  /** Mid-sweep, the grid is exactly the view at the current cell. */
  lemma MixNow(g: Grid, h: Grid, y: int, x: int, dirs: seq<Point>)
    requires SameShape(g, h)
    requires forall q :: !(InRect(g, q) && Before(q, y, x)) ==> GetPoint(h, q) == GetPoint(g, q)
    ensures Accessible(Mix(g, h, y, x), Point(x, y), dirs) == Accessible(h, Point(x, y), dirs)
  {
    NeighboursAgree(Mix(g, h, y, x), h, Point(x, y), dirs);
  }

  /**
   * Every visited cell was cleared exactly when it was accessible in the view
   * the sweep had of the grid on reaching it.
   */
  ghost predicate ClearedWhenSeen(g: Grid, h: Grid, dirs: seq<Point>, y: int, x: int)
    requires SameShape(g, h)
  {
    forall q {:trigger Accessible(Mix(g, h, q.y, q.x), q, dirs)} :: InRect(g, q) && Before(q, y, x) ==>
      (GetPoint(h, q) != GetPoint(g, q) <==> Accessible(Mix(g, h, q.y, q.x), q, dirs))
  }

  /**
   * The state of a sweep of `g` that has reached cell `(x, y)` with grid `h`
   * and `r` removals: cells not yet visited are untouched, a visited cell was
   * cleared exactly when the sweep found it accessible, every cell that was
   * accessible at the start and has been visited is cleared, the removals are
   * exactly the rolls that are gone, and no roll of a stable grid below `g`
   * has been cleared.
   */
  ghost predicate SweepInv(g: Grid, h: Grid, dirs: seq<Point>, y: int, x: int, r: nat) {
    && Shrinks(g, h)
    && (forall q :: !(InRect(g, q) && Before(q, y, x)) ==> GetPoint(h, q) == GetPoint(g, q))
    && ClearedWhenSeen(g, h, dirs, y, x)
    && (forall q {:trigger Accessible(g, q, dirs)} :: InRect(g, q) && Before(q, y, x) && Accessible(g, q, dirs) ==>
          GetPoint(h, q) == Some(CLEARED))
    && Rolls(h) <= Rolls(g)
    && r == |Rolls(g)| - |Rolls(h)|
    && (r == 0 ==> h == g)
    && KeepsStable(g, h, dirs)
  }

  /** Visiting a cell keeps the record of earlier visits when the cell itself is left alone or cleared. */
  lemma SeenStep(g: Grid, h: Grid, h': Grid, dirs: seq<Point>, y: int, x: int)
    requires Shrinks(g, h) && Shrinks(g, h') && 0 <= y < g.height && 0 <= x < g.width
    requires forall q :: !(InRect(g, q) && Before(q, y, x)) ==> GetPoint(h, q) == GetPoint(g, q)
    requires ClearedWhenSeen(g, h, dirs, y, x)
    requires forall q :: q != Point(x, y) ==> GetPoint(h', q) == GetPoint(h, q)
    requires GetPoint(h', Point(x, y)) != GetPoint(g, Point(x, y)) <==> Accessible(h, Point(x, y), dirs)
    ensures ClearedWhenSeen(g, h', dirs, y, x + 1)
  {
    var p := Point(x, y);
    MixNow(g, h, y, x, dirs);
    forall q | InRect(g, q) && Before(q, y, x + 1)
      ensures GetPoint(h', q) != GetPoint(g, q) <==> Accessible(Mix(g, h', q.y, q.x), q, dirs)
    {
      MixAgree(g, h, h', q, dirs);
    }
  }

  /** Visiting a cell that is not cleared keeps the sweep state: it was not accessible at the start either. */
  lemma SweepKeep(g: Grid, h: Grid, dirs: seq<Point>, y: int, x: int, r: nat)
    requires 0 <= y < g.height && 0 <= x < g.width
    requires SweepInv(g, h, dirs, y, x, r)
    requires !Accessible(h, Point(x, y), dirs)
    ensures SweepInv(g, h, dirs, y, x + 1, r)
  {
    ShrinksNeighbours(g, h, Point(x, y), dirs);
    SeenStep(g, h, h, dirs, y, x);
  }

  /** Clearing a roll still only clears rolls, and the grid is no longer the start grid. */
  lemma ClearShrinks(g: Grid, h: Grid, p: Point)
    requires Shrinks(g, h) && GetPoint(h, p) == Some(ROLL)
    ensures Shrinks(g, Set(h, p, CLEARED)) && Set(h, p, CLEARED) != g
  {
    var h' := Set(h, p, CLEARED);
    assert GetPoint(h', p) != GetPoint(g, p);
  }

  /** Clearing a roll removes exactly one roll from the count. */
  lemma ClearCount(g: Grid, h: Grid, p: Point, r: nat)
    requires Rolls(h) <= Rolls(g) && r == |Rolls(g)| - |Rolls(h)|
    requires GetPoint(h, p) == Some(ROLL)
    ensures Rolls(Set(h, p, CLEARED)) <= Rolls(g)
    ensures r + 1 == |Rolls(g)| - |Rolls(Set(h, p, CLEARED))|
  {
    var h' := Set(h, p, CLEARED);
    ClearOne(h, p);
    SubsetCard(Rolls(h'), Rolls(h));
    SubsetCard(Rolls(h), Rolls(g));
  }

  /** Clearing the visited cell, found accessible, keeps the sweep state with one more removal. */
  lemma SweepClear(g: Grid, h: Grid, dirs: seq<Point>, y: int, x: int, r: nat)
    requires 0 <= y < g.height && 0 <= x < g.width
    requires SweepInv(g, h, dirs, y, x, r)
    requires Accessible(h, Point(x, y), dirs)
    ensures SweepInv(g, Set(h, Point(x, y), CLEARED), dirs, y, x + 1, r + 1)
  {
    var p := Point(x, y);
    ClearShrinks(g, h, p);
    ClearCount(g, h, p, r);
    KeepsClear(g, h, p, dirs);
    SeenStep(g, h, Set(h, p, CLEARED), dirs, y, x);
  }

  /** Finishing row `y` is starting row `y + 1`. */
  lemma SweepRow(g: Grid, h: Grid, dirs: seq<Point>, y: int, x: int, r: nat)
    requires x >= g.width && SweepInv(g, h, dirs, y, x, r)
    ensures SweepInv(g, h, dirs, y + 1, 0, r)
  {
  }

  /** One row of a pass in row-major order, clearing in place. */
  method SweepRowCells(g: Grid, h0: Grid, dirs: seq<Point>, y: int, r0: nat) returns (h: Grid, r: nat)
    requires 0 <= y < g.height
    requires SweepInv(g, h0, dirs, y, 0, r0)
    ensures SweepInv(g, h, dirs, y + 1, 0, r)
  {
    h, r := h0, r0;
    var x := 0;
    while x < g.width
      invariant 0 <= x
      invariant SweepInv(g, h, dirs, y, x, r)
    {
      var p := Point(x, y);
      if GetPoint(h, p) == Some(ROLL) && Neighbours(h, p, dirs) < LIMIT {
        SweepClear(g, h, dirs, y, x, r);
        h := Set(h, p, CLEARED);
        r := r + 1;
      } else {
        SweepKeep(g, h, dirs, y, x, r);
      }
      x := x + 1;
    }
    SweepRow(g, h, dirs, y, x, r);
  }

  /** The state at the start of a pass. */
  lemma SweepStart(g: Grid, dirs: seq<Point>)
    ensures SweepInv(g, g, dirs, 0, 0, 0)
  {
    KeepsStart(g, dirs);
  }

  /** A sweep past the last row has visited the whole rectangle. */
  lemma SweepDone(g: Grid, h: Grid, dirs: seq<Point>, y: int, r: nat)
    requires y >= g.height && SweepInv(g, h, dirs, y, 0, r)
    ensures forall q :: !InRect(g, q) ==> GetPoint(h, q) == GetPoint(g, q)
    ensures forall q {:trigger Accessible(Mix(g, h, q.y, q.x), q, dirs)} :: InRect(g, q) ==>
              (GetPoint(h, q) != GetPoint(g, q) <==> Accessible(Mix(g, h, q.y, q.x), q, dirs))
    ensures AccessibleCells(g, dirs) <= Rolls(g) - Rolls(h)
  {
    forall q | q in AccessibleCells(g, dirs) ensures q in Rolls(g) - Rolls(h) {
      AccessibleMember(g, dirs, q);
      RollsMember(g, q);
      RollsMember(h, q);
    }
  }

  /**
   * One sweep of `part_2`'s loop body: it clears rolls only, inside the
   * rectangle; a cell is cleared exactly when it is accessible in the grid as
   * the sweep sees it on reaching the cell (earlier cells as swept, later ones
   * as they were); it counts exactly what it clears, clears at least every
   * roll that was accessible when it started, and never clears a roll of a
   * stable grid below `g`. When it clears nothing the grid is unchanged.
   */
  method Sweep(g: Grid, dirs: seq<Point>) returns (h: Grid, r: nat)
    ensures Shrinks(g, h)
    ensures forall q :: !InRect(g, q) ==> GetPoint(h, q) == GetPoint(g, q)
    ensures forall q {:trigger Accessible(Mix(g, h, q.y, q.x), q, dirs)} :: InRect(g, q) ==>
              (GetPoint(h, q) != GetPoint(g, q) <==> Accessible(Mix(g, h, q.y, q.x), q, dirs))
    ensures Rolls(h) <= Rolls(g) && r == |Rolls(g)| - |Rolls(h)|
    ensures AccessibleCells(g, dirs) <= Rolls(g) - Rolls(h)
    ensures KeepsStable(g, h, dirs)
    ensures r == 0 ==> h == g
  {
    h, r := g, 0;
    SweepStart(g, dirs);
    var y := 0;
    while y < g.height
      invariant 0 <= y
      invariant SweepInv(g, h, dirs, y, 0, r)
    {
      h, r := SweepRowCells(g, h, dirs, y, r);
      y := y + 1;
    }
    SweepDone(g, h, dirs, y, r);
  }

  // ---------------------------------------------------------------------------
  // Part 2
  // ---------------------------------------------------------------------------

  /**
   * `part_2`'s outer loop: sweep until a sweep removes nothing. The result is
   * the largest stable grid reached from `g` by clearing rolls, the count is
   * every roll cleared, and every roll accessible at the start is among them.
   */
  method RemoveAll(g: Grid, dirs: seq<Point>) returns (h: Grid, removed: nat)
    ensures LargestStable(g, h, dirs)
    ensures Rolls(h) <= Rolls(g) && removed == |Rolls(g)| - |Rolls(h)|
    ensures AccessibleCells(g, dirs) <= Rolls(g) - Rolls(h)
  {
    h, removed := g, 0;
    KeepsStart(g, dirs);
    while true
      invariant Shrinks(g, h) && KeepsStable(g, h, dirs)
      invariant Rolls(h) <= Rolls(g) && removed == |Rolls(g)| - |Rolls(h)|
      invariant AccessibleCells(g, dirs) <= (Rolls(g) - Rolls(h)) + AccessibleCells(h, dirs)
      decreases |Rolls(h)|
    {
      var prev := removed;
      var next, r := Sweep(h, dirs);
      ShrinksTrans(g, h, next);
      KeepsTrans(g, h, next, dirs);
      SubsetCard(Rolls(next), Rolls(h));
      SubsetCard(Rolls(next), Rolls(g));
      AccessibleAreRolls(next, dirs);
      removed := removed + r;
      if prev == removed {
        StableIff(h, dirs);
        SubsetCard(Rolls(h), Rolls(h));
        h := next;
        break;
      }
      h := next;
    }
  }

  // ---------------------------------------------------------------------------
  // The height `from_vec` writes
  // ---------------------------------------------------------------------------

  /** `g` with its `height` field set to `n`; the buffer is unchanged. */
  function WithHeight(g: Grid, n: int): (h: Grid)
    ensures h.vec == g.vec && h.width == g.width && h.height == n
    ensures forall q :: GetPoint(h, q) == GetPoint(g, q)
  {
    Grid(g.vec, g.width, n)
  }

  lemma RollsWithHeight(g: Grid, n: int)
    ensures Rolls(WithHeight(g, n)) == Rolls(g)
  {
    forall q ensures q in Rolls(WithHeight(g, n)) <==> q in Rolls(g) {
      RollsMember(g, q);
      RollsMember(WithHeight(g, n), q);
    }
  }

  /** Rows past the buffer hold no roll, so stability does not depend on a height beyond it. */
  lemma StableWithHeight(g: Grid, n: int, dirs: seq<Point>)
    requires g.height >= |g.vec| && n >= |g.vec|
    ensures Stable(g, dirs) <==> Stable(WithHeight(g, n), dirs)
  {
    var h := WithHeight(g, n);
    forall x, y | 0 <= y < h.height && 0 <= x < h.width && GetPoint(h, Point(x, y)) == Some(ROLL)
      ensures Neighbours(g, Point(x, y), dirs) == Neighbours(h, Point(x, y), dirs)
    {
      NeighboursAgree(g, h, Point(x, y), dirs);
    }
  }

  /** Rows past the buffer hold no roll, so no accessible cell lies in them. */
  lemma AccessibleWithHeight(g: Grid, n: int, dirs: seq<Point>)
    requires g.height >= |g.vec| && n >= |g.vec|
    ensures AccessibleCells(WithHeight(g, n), dirs) == AccessibleCells(g, dirs)
  {
    var h := WithHeight(g, n);
    forall q ensures q in AccessibleCells(h, dirs) <==> q in AccessibleCells(g, dirs) {
      AccessibleMember(h, dirs, q);
      AccessibleMember(g, dirs, q);
      NeighboursAgree(g, h, q, dirs);
    }
  }

  /** The largest stable grid does not depend on a height beyond the buffer. */
  lemma LargestWithHeight(g: Grid, h: Grid, n: int, dirs: seq<Point>)
    requires g.height >= |g.vec| && n >= |g.vec|
    requires LargestStable(g, h, dirs)
    ensures LargestStable(WithHeight(g, n), WithHeight(h, n), dirs)
    ensures Rolls(WithHeight(h, n)) == Rolls(h)
  {
    var gn, hn := WithHeight(g, n), WithHeight(h, n);
    StableWithHeight(h, n, dirs);
    RollsWithHeight(h, n);
    forall h' | StableShrink(gn, h', dirs) ensures Rolls(h') <= Rolls(hn) {
      var back := WithHeight(h', g.height);
      StableWithHeight(h', g.height, dirs);
      RollsWithHeight(h', g.height);
      assert StableShrink(g, back, dirs);
    }
  }

  /** `from_vec` as written differs from `FromVec` only in a height beyond the buffer. */
  lemma AsWrittenTaller(lines: seq<string>)
    ensures FromVecAsWritten(lines) == WithHeight(FromVec(lines), |lines|)
    ensures |lines| >= |FromVec(lines).vec| == FromVec(lines).height
  {
  }

  /** `part_1`: the accessible rolls of the grid built from the lines, with either height. */
  method Part1(lines: seq<string>, dirs: seq<Point>) returns (count: nat)
    ensures count == |AccessibleCells(FromVec(lines), dirs)|
    ensures count == |AccessibleCells(FromVecAsWritten(lines), dirs)|
    ensures count <= |Rolls(FromVec(lines))|
  {
    count := CountAccessible(FromVec(lines), dirs);
    AsWrittenTaller(lines);
    AccessibleWithHeight(FromVec(lines), |lines|, dirs);
  }

  /**
   * `part_2`: the number of rolls removed, which is the roll count less that
   * of the largest stable grid below the start, with either height; never
   * fewer than part 1 counts, never more than there are.
   */
  method Part2(lines: seq<string>, dirs: seq<Point>) returns (removed: nat)
    ensures exists h :: LargestStable(FromVec(lines), h, dirs) && removed == |Rolls(FromVec(lines))| - |Rolls(h)|
    ensures exists h :: LargestStable(FromVecAsWritten(lines), h, dirs)
                        && removed == |Rolls(FromVecAsWritten(lines))| - |Rolls(h)|
    ensures |AccessibleCells(FromVec(lines), dirs)| <= removed <= |Rolls(FromVec(lines))|
  {
    var g := FromVec(lines);
    var h;
    h, removed := RemoveAll(g, dirs);
    SubsetCard(Rolls(h), Rolls(g));
    SubsetCard(AccessibleCells(g, dirs), Rolls(g) - Rolls(h));
    AsWrittenTaller(lines);
    LargestWithHeight(g, h, |lines|, dirs);
    RollsWithHeight(g, |lines|);
  }
}
