/**
 * The shared two-dimensional byte buffer: a row-major sequence of rows plus
 * `width` and `height` fields, built from text lines, read with and without
 * bounds checks, viewed by rows or by columns, written cell by cell, and
 * transposed.
 *
 * The rows are not required to have equal length: the constructor keeps
 * jagged input as it is, and bounds-checked reads consult the actual row.
 */
module Grids {
  import opened Common
  import opened Text
  import opened Points

  /** Value transpose writes for a cell that a short row does not have. */
  const SENTINEL: byte := 0

  datatype Grid = Grid(vec: seq<seq<byte>>, width: int, height: int)

  /** `Grid::default()`. */
  const EMPTY := Grid([], 0, 0)

  // ---------------------------------------------------------------------------
  // Construction
  // ---------------------------------------------------------------------------

  /** The non-empty lines, in their original order. */
  function Retained(v: seq<string>): (r: seq<string>)
    ensures |r| <= |v|
    ensures forall i :: 0 <= i < |r| ==> |r[i]| > 0
    ensures forall s :: s in r <==> s in v && |s| > 0
    ensures (forall i :: 0 <= i < |v| ==> |v[i]| > 0) ==> r == v
  {
    if |v| == 0 then []
    else if |v[|v| - 1]| == 0 then Retained(v[..|v| - 1])
    else
      assert v == v[..|v| - 1] + [v[|v| - 1]];
      Retained(v[..|v| - 1]) + [v[|v| - 1]]
  }

  /**
   * `from_vec` exactly as written: the rows drop empty lines but the height
   * counts every line, empty ones included.
   */
  function FromVecAsWritten(v: seq<string>): (g: Grid)
    ensures g.height == |v|
    ensures |g.vec| == |Retained(v)| <= g.height
  {
    var vec := seq(|Retained(v)|, i requires 0 <= i < |Retained(v)| => ToBytes(Retained(v)[i]));
    Grid(vec, if |vec| == 0 then 0 else |vec[0]|, |v|)
  }

  /**
   * `from_vec` with the height the tests expect: one row per non-empty line,
   * each character cast to a byte; the width is the length of the first row.
   */
  function FromVec(v: seq<string>): (g: Grid)
    ensures |g.vec| == |Retained(v)| == g.height
    ensures forall y :: 0 <= y < g.height ==> |g.vec[y]| == |Retained(v)[y]| > 0
    ensures g.width == (if g.height == 0 then 0 else |Retained(v)[0]|)
    ensures forall y, x :: 0 <= y < g.height && 0 <= x < |g.vec[y]| ==>
              g.vec[y][x] == CharToByte(Retained(v)[y][x])
  {
    var vec := seq(|Retained(v)|, i requires 0 <= i < |Retained(v)| => ToBytes(Retained(v)[i]));
    Grid(vec, if |vec| == 0 then 0 else |vec[0]|, |vec|)
  }

  /**
   * `Grid::parse`: the lines of a text, through `from_vec`, with the corrected
   * height. The rows are those the as-written `from_vec` stores: one per
   * non-empty line, in order.
   */
  function Parse(s: string): (g: Grid)
    ensures g.height == |g.vec| == |Retained(Lines(s))|
    ensures g.vec == FromVecAsWritten(Lines(s)).vec
    ensures forall y :: 0 <= y < g.height ==> |g.vec[y]| == |Retained(Lines(s))[y]| > 0
    ensures g.width == (if g.height == 0 then 0 else |Retained(Lines(s))[0]|)
  {
    FromVec(Lines(s))
  }

  // ---------------------------------------------------------------------------
  // Reads
  // ---------------------------------------------------------------------------

  /** The cell exists in the buffer (whatever the `width`/`height` fields say). */
  predicate InBounds(g: Grid, p: Point) {
    0 <= p.y < |g.vec| && 0 <= p.x < |g.vec[p.y]|
  }

  /** `get(x, y)` with unsigned coordinates. */
  function Get(g: Grid, x: nat, y: nat): (r: Option<byte>)
    ensures r.Some? <==> y < |g.vec| && x < |g.vec[y]|
    ensures r.Some? ==> r.value == g.vec[y][x]
  {
    if y < |g.vec| && x < |g.vec[y]| then Some(g.vec[y][x]) else None
  }

  /** `get_point(p)`: absent for negative coordinates, otherwise `get`. */
  function GetPoint(g: Grid, p: Point): (r: Option<byte>)
    ensures r.Some? <==> InBounds(g, p)
    ensures r.Some? ==> r.value == g.vec[p.y][p.x]
    ensures p.x >= 0 && p.y >= 0 ==> r == Get(g, p.x, p.y)
  {
    if p.x < 0 || p.y < 0 then None else Get(g, p.x, p.y)
  }

  /** `grid[p]`: unchecked read; out of range is a panic. */
  function At(g: Grid, p: Point): (b: byte)
    requires InBounds(g, p)
    ensures GetPoint(g, p) == Some(b)
  {
    g.vec[p.y][p.x]
  }

  /** `grid[i]` for an unsigned or signed row index. */
  function Row(g: Grid, i: int): (r: seq<byte>)
    requires 0 <= i < |g.vec|
    ensures forall x :: 0 <= x < |r| <==> GetPoint(g, Point(x, i)).Some?
    ensures forall x :: 0 <= x < |r| ==> GetPoint(g, Point(x, i)) == Some(r[x])
  {
    g.vec[i]
  }

  /** `rows()`: a copy of the buffer; every present cell is what `get` reads. */
  function Rows(g: Grid): (rows: seq<seq<byte>>)
    ensures |rows| == |g.vec|
    ensures forall y, x {:trigger Get(g, x, y)} :: 0 <= y && 0 <= x ==>
              Get(g, x, y) == (if y < |rows| && x < |rows[y]| then Some(rows[y][x]) else None)
  {
    g.vec
  }

  /** The `width` by `height` rectangle of cells that loops over a grid visit. */
  predicate InRect(g: Grid, p: Point) {
    0 <= p.x < g.width && 0 <= p.y < g.height
  }

  /** `p` comes before cell `(x, y)` in row-major order. */
  predicate Before(p: Point, y: int, x: int) {
    p.y < y || (p.y == y && p.x < x)
  }

  /** `columns()` reads every cell of the `width` by `height` rectangle. */
  predicate Covers(g: Grid) {
    && 0 <= g.width
    && 0 <= g.height <= |g.vec|
    && forall y :: 0 <= y < g.height ==> g.width <= |g.vec[y]|
  }

  /** `columns()`: column `x` lists rows `0..height` of that column. */
  function Columns(g: Grid): (cols: seq<seq<byte>>)
    requires Covers(g)
    ensures |cols| == g.width
    ensures forall x :: 0 <= x < g.width ==> |cols[x]| == g.height
    ensures forall x, y :: 0 <= x < g.width && 0 <= y < g.height ==>
              Get(g, x, y) == Some(cols[x][y]) && cols[x][y] == Rows(g)[y][x]
  {
    seq(g.width, x requires 0 <= x < g.width =>
      seq(g.height, y requires 0 <= y < g.height => g.vec[y][x]))
  }

  // ---------------------------------------------------------------------------
  // Writes
  // ---------------------------------------------------------------------------

  /** `grid[p] = v`: unchecked write of one cell. */
  function Set(g: Grid, p: Point, v: byte): (h: Grid)
    requires InBounds(g, p)
    ensures h.width == g.width && h.height == g.height && |h.vec| == |g.vec|
    ensures forall y :: 0 <= y < |g.vec| ==> |h.vec[y]| == |g.vec[y]|
    ensures GetPoint(h, p) == Some(v)
    ensures forall q: Point :: q != p ==> GetPoint(h, q) == GetPoint(g, q)
  {
    var row: seq<byte> := g.vec[p.y][p.x := v];
    g.(vec := g.vec[p.y := row])
  }

  /** `grid[i] = row` through the mutable row slice, whose length is fixed. */
  function SetRow(g: Grid, i: int, row: seq<byte>): (h: Grid)
    requires 0 <= i < |g.vec| && |row| == |g.vec[i]|
    ensures h.width == g.width && h.height == g.height && |h.vec| == |g.vec|
    ensures Row(h, i) == row
    ensures forall q: Point :: q.y != i ==> GetPoint(h, q) == GetPoint(g, q)
  {
    g.(vec := g.vec[i := row])
  }

  // ---------------------------------------------------------------------------
  // Transpose
  // ---------------------------------------------------------------------------

  /** Length of the longest row, 0 for no rows. */
  function MaxRowLen(vec: seq<seq<byte>>): (m: nat)
    ensures forall i :: 0 <= i < |vec| ==> |vec[i]| <= m
    ensures |vec| == 0 ==> m == 0
    ensures |vec| > 0 ==> exists i :: 0 <= i < |vec| && |vec[i]| == m
  {
    if |vec| == 0 then 0
    else
      var m := MaxRowLen(vec[..|vec| - 1]);
      assert forall i :: 0 <= i < |vec| - 1 ==> vec[..|vec| - 1][i] == vec[i];
      if |vec[|vec| - 1]| > m then |vec[|vec| - 1]| else m
  }

  /** The transposed buffer: cell `(i, j)` moves to `(j, i)`; gaps become `SENTINEL`. */
  function Transposed(vec: seq<seq<byte>>): seq<seq<byte>> {
    seq(MaxRowLen(vec), j requires 0 <= j < MaxRowLen(vec) =>
      seq(|vec|, i requires 0 <= i < |vec| => if j < |vec[i]| then vec[i][j] else SENTINEL))
  }

  /** `transpose` exactly as written: new buffer, `width` and `height` swapped. */
  function TransposeAsWritten(g: Grid): (h: Grid)
    ensures h.width == g.height && h.height == g.width
    ensures h.vec == Transposed(g.vec)
  {
    Grid(Transposed(g.vec), g.height, g.width)
  }

  /**
   * `transpose` with the dimensions the tests expect: the new width is the
   * old height and the new height is the longest old row.
   */
  function Transpose(g: Grid): (h: Grid)
    ensures |h.vec| == MaxRowLen(g.vec) == h.height
    ensures h.width == g.height
    ensures forall j :: 0 <= j < |h.vec| ==> |h.vec[j]| == |g.vec|
    ensures forall i, j {:trigger h.vec[j][i]} :: 0 <= i < |g.vec| && 0 <= j < |h.vec| ==>
              h.vec[j][i] == (if j < |g.vec[i]| then g.vec[i][j] else SENTINEL)
  {
    Grid(Transposed(g.vec), g.height, MaxRowLen(g.vec))
  }

  // ---------------------------------------------------------------------------
  // Properties
  // ---------------------------------------------------------------------------

  /** Every row has `width` cells, there are `height` rows, and no row is empty. */
  predicate Rectangular(g: Grid) {
    && g.height == |g.vec|
    && 0 <= g.width
    && (forall y :: 0 <= y < |g.vec| ==> |g.vec[y]| == g.width)
    && (g.height == 0 <==> g.width == 0)
  }

  /** On a rectangular grid `get` succeeds exactly inside `width` by `height`. */
  lemma GetInRectangle(g: Grid, x: int, y: int)
    requires Rectangular(g)
    ensures GetPoint(g, Point(x, y)).Some? <==> 0 <= x < g.width && 0 <= y < g.height
  {
  }

  /** Lines of equal length build a rectangular grid. */
  lemma FromVecRectangular(v: seq<string>)
    requires forall i, j :: 0 <= i < |Retained(v)| && 0 <= j < |Retained(v)| ==>
               |Retained(v)[i]| == |Retained(v)[j]|
    ensures Rectangular(FromVec(v))
  {
  }

  /** Transposing reads each cell back under swapped coordinates. */
  lemma TransposeGet(g: Grid, x: int, y: int)
    requires 0 <= y < |g.vec| && 0 <= x < MaxRowLen(g.vec)
    ensures GetPoint(Transpose(g), Point(y, x)) ==
              Some(if GetPoint(g, Point(x, y)).Some? then GetPoint(g, Point(x, y)).value else SENTINEL)
  {
  }

  /** On a rectangular grid the transposed buffer is the column view. */
  lemma TransposeIsColumns(g: Grid)
    requires Rectangular(g)
    ensures Covers(g)
    ensures Transpose(g).vec == Columns(g)
  {
    var t := Transpose(g).vec;
    var c := Columns(g);
    if |g.vec| > 0 {
      assert MaxRowLen(g.vec) == g.width;
    }
    assert |t| == |c|;
    forall j | 0 <= j < |t|
      ensures t[j] == c[j]
    {
      assert |t[j]| == |c[j]|;
    }
  }

  /** Transposing a rectangular grid swaps its dimensions. */
  lemma TransposeRectangular(g: Grid)
    requires Rectangular(g)
    ensures Rectangular(Transpose(g))
    ensures Transpose(g).width == g.height && Transpose(g).height == g.width
  {
    if |g.vec| > 0 {
      assert MaxRowLen(g.vec) == g.width;
    }
  }

  /** Transposing a rectangular grid twice restores buffer and dimensions. */
  lemma TransposeTwice(g: Grid)
    requires Rectangular(g)
    ensures Transpose(Transpose(g)) == g
  {
    TransposeRectangular(g);
    var t := Transpose(g);
    var tt := Transpose(t);
    TransposeRectangular(t);
    assert |tt.vec| == |g.vec|;
    forall i | 0 <= i < |g.vec|
      ensures tt.vec[i] == g.vec[i]
    {
      assert |tt.vec[i]| == |g.vec[i]|;
    }
  }

  /** The default grid is empty in every view. */
  lemma EmptyGrid()
    ensures EMPTY.width == 0 && EMPTY.height == 0
    ensures Rows(EMPTY) == [] && Covers(EMPTY) && Columns(EMPTY) == []
    ensures forall x: nat, y: nat :: Get(EMPTY, x, y) == None
  {
  }

  // ---------------------------------------------------------------------------
  // The unit tests' scenarios
  // ---------------------------------------------------------------------------

  /** `from_vec` on non-empty ASCII lines whose codes are listed in `rows`. */
  lemma FromVecAscii(v: seq<string>, rows: seq<seq<byte>>)
    requires |v| == |rows| > 0
    requires forall i :: 0 <= i < |v| ==> |v[i]| == |rows[i]| > 0
    requires forall i, j :: 0 <= i < |v| && 0 <= j < |v[i]| ==> v[i][j] as int == rows[i][j]
    ensures FromVec(v) == Grid(rows, |rows[0]|, |rows|)
  {
    assert Retained(v) == v;
    FromRetained(v, rows);
  }

  /** The grid of lines whose non-empty ones spell out `rows` in ASCII. */
  lemma FromRetained(v: seq<string>, rows: seq<seq<byte>>)
    requires |Retained(v)| == |rows| > 0
    requires forall i :: 0 <= i < |rows| ==> |Retained(v)[i]| == |rows[i]|
    requires forall i, j :: 0 <= i < |rows| && 0 <= j < |rows[i]| ==> Retained(v)[i][j] as int == rows[i][j]
    ensures FromVec(v) == Grid(rows, |rows[0]|, |rows|)
  {
    var g := FromVec(v);
    forall i | 0 <= i < |rows|
      ensures g.vec[i] == rows[i]
    {
      assert |g.vec[i]| == |rows[i]|;
    }
  }


  lemma SquareGridExample()
    ensures var g := FromVec(["123", "456", "789"]);
      && g.width == 3 && g.height == 3
      && Get(g, 0, 0) == Some(49) && Get(g, 2, 2) == Some(57) && Get(g, 3, 0) == None
      && Covers(g) && |Columns(g)| == 3 && Columns(g)[0] == [49, 52, 55]
      && |Rows(g)| == 3 && Rows(g)[1] == [52, 53, 54]
  {
    FromVecAscii(["123", "456", "789"], [[49, 50, 51], [52, 53, 54], [55, 56, 57]]);
    SquareGridViews(FromVec(["123", "456", "789"]));
  }

  lemma SquareGridViews(g: Grid)
    requires g == Grid([[49, 50, 51], [52, 53, 54], [55, 56, 57]], 3, 3)
    ensures Get(g, 0, 0) == Some(49) && Get(g, 2, 2) == Some(57) && Get(g, 3, 0) == None
    ensures Covers(g) && |Columns(g)| == 3 && Columns(g)[0] == [49, 52, 55]
    ensures |Rows(g)| == 3 && Rows(g)[1] == [52, 53, 54]
  {
    assert Columns(g)[0] == [49, 52, 55];
  }

  lemma WideGridTranspose()
    ensures var g := FromVec(["12345", "67890"]);
      && g.width == 5 && g.height == 2
      && Transpose(g) == Grid([[49, 54], [50, 55], [51, 56], [52, 57], [53, 48]], 2, 5)
  {
    FromVecAscii(["12345", "67890"], [[49, 50, 51, 52, 53], [54, 55, 56, 57, 48]]);
    WideGridTransposed(FromVec(["12345", "67890"]));
  }

  lemma WideGridTransposed(g: Grid)
    requires g == Grid([[49, 50, 51, 52, 53], [54, 55, 56, 57, 48]], 5, 2)
    ensures Transpose(g) == Grid([[49, 54], [50, 55], [51, 56], [52, 57], [53, 48]], 2, 5)
  {
    assert MaxRowLen(g.vec) == 5 by {
      assert MaxRowLen(g.vec[..1]) == 5;
    }
    var t := Transpose(g).vec;
    assert t[0] == [49, 54] && t[1] == [50, 55] && t[2] == [51, 56];
    assert t[3] == [52, 57] && t[4] == [53, 48];
  }

  /** On a rectangular grid the swap of `width` and `height` is right: both transposes agree. */
  lemma TransposeAgrees(g: Grid)
    requires Rectangular(g)
    ensures TransposeAsWritten(g) == Transpose(g)
  {
    if |g.vec| > 0 {
      assert MaxRowLen(g.vec) == g.width;
    }
  }

  lemma TallGridTranspose()
    ensures var g := FromVec(["12", "34", "56", "78"]);
      && g.width == 2 && g.height == 4
      && TransposeAsWritten(g) == Grid([[49, 51, 53, 55], [50, 52, 54, 56]], 4, 2)
  {
    FromVecAscii(["12", "34", "56", "78"], [[49, 50], [51, 52], [53, 54], [55, 56]]);
    TallGridTransposed(FromVec(["12", "34", "56", "78"]));
  }

  lemma TallGridTransposed(g: Grid)
    requires g == Grid([[49, 50], [51, 52], [53, 54], [55, 56]], 2, 4)
    ensures TransposeAsWritten(g) == Grid([[49, 51, 53, 55], [50, 52, 54, 56]], 4, 2)
  {
    TransposeAgrees(g);
    var t := Transpose(g).vec;
    assert t[0] == [49, 51, 53, 55] && t[1] == [50, 52, 54, 56];
  }

  lemma SingleRowTranspose()
    ensures var g := FromVec(["abcdef"]);
      && g.width == 6 && g.height == 1
      && TransposeAsWritten(g) == Grid([[97], [98], [99], [100], [101], [102]], 1, 6)
  {
    FromVecAscii(["abcdef"], [[97, 98, 99, 100, 101, 102]]);
    SingleRowTransposed(FromVec(["abcdef"]));
  }

  lemma SingleRowTransposed(g: Grid)
    requires g == Grid([[97, 98, 99, 100, 101, 102]], 6, 1)
    ensures TransposeAsWritten(g) == Grid([[97], [98], [99], [100], [101], [102]], 1, 6)
  {
    TransposeAgrees(g);
    var t := Transpose(g).vec;
    assert t[0] == [97] && t[1] == [98] && t[2] == [99];
    assert t[3] == [100] && t[4] == [101] && t[5] == [102];
  }

  lemma SingleColumnTranspose()
    ensures var g := FromVec(["a", "b", "c"]);
      && g.width == 1 && g.height == 3
      && TransposeAsWritten(g) == Grid([[97, 98, 99]], 3, 1)
  {
    FromVecAscii(["a", "b", "c"], [[97], [98], [99]]);
    SingleColumnTransposed(FromVec(["a", "b", "c"]));
  }

  lemma SingleColumnTransposed(g: Grid)
    requires g == Grid([[97], [98], [99]], 1, 3)
    ensures TransposeAsWritten(g) == Grid([[97, 98, 99]], 3, 1)
  {
    TransposeAgrees(g);
    assert MaxRowLen(g.vec[..1]) == 1 && g.vec[..2][..1] == g.vec[..1];
    var t := Transpose(g).vec;
    assert t[0] == [97, 98, 99];
  }

  lemma IndexingExample()
    ensures var g := FromVec(["12", "34"]);
      && At(g, Point(0, 0)) == 49 && At(g, Point(1, 1)) == 52
      && At(Set(g, Point(0, 0), 57), Point(0, 0)) == 57
  {
    FromVecAscii(["12", "34"], [[49, 50], [51, 52]]);
  }

  /**
   * Finding: `from_vec` counts empty lines in the height. The text
   * "\n12\n\n34\n" has the lines "", "12", "", "34" (see `LinesOfJoin`),
   * which give height 4 for a two-row buffer where the test expects 2;
   * `FromVec` gives 2.
   */
  lemma ParseEmptyLines(v: seq<string>)
    requires v == ["", "12", "", "34"]
    ensures FromVecAsWritten(v).height == 4 && |FromVecAsWritten(v).vec| == 2
    ensures FromVec(v) == Grid([[49, 50], [51, 52]], 2, 2)
  {
    ExampleRetained(v);
    BuiltFromKept(v);
  }

  /**
   * The text of `test_parse_empty_lines` itself: its lines are
   * `["", "12", "", "34"]`, `parse` keeps two rows of height 2, and the
   * as-written `from_vec` gives height 4.
   */
  lemma ParseEmptyLinesText()
    ensures Lines("\n12\n\n34\n") == ["", "12", "", "34"]
    ensures Parse("\n12\n\n34\n") == Grid([[49, 50], [51, 52]], 2, 2)
    ensures FromVecAsWritten(Lines("\n12\n\n34\n")).height == 4
  {
    var ls: seq<string> := ["", "12", "", "34"];
    assert Join(ls, '\n') + "\n" == "\n12\n\n34\n" by {
      assert ls == [""] + ls[1..] && ls[1..] == ["12"] + ls[2..] && ls[2..] == [""] + ["34"];
    }
    LinesOfJoin(ls);
    ParseEmptyLines(ls);
  }

  /**
   * Rows written one per line, none empty, parse back to exactly those rows:
   * `parse` inverts writing the grid out.
   */
  lemma ParseOfJoin(ls: seq<string>)
    requires |ls| >= 1
    requires forall i :: 0 <= i < |ls| ==> |ls[i]| > 0 && '\n' !in ls[i] && '\r' !in ls[i]
    ensures Parse(Join(ls, '\n') + "\n") == FromVec(ls)
    ensures Parse(Join(ls, '\n') + "\n").height == |ls|
    ensures forall y :: 0 <= y < |ls| ==> Parse(Join(ls, '\n') + "\n").vec[y] == ToBytes(ls[y])
  {
    var text := Join(ls, '\n') + "\n";
    LinesOfJoin(ls);
    assert Lines(text) == ls;
    assert Retained(ls) == ls;
    var g := FromVec(ls);
    forall y | 0 <= y < |ls| ensures g.vec[y] == ToBytes(ls[y]) {
      assert |g.vec[y]| == |ToBytes(ls[y])|;
      forall x | 0 <= x < |g.vec[y]| ensures g.vec[y][x] == ToBytes(ls[y])[x] { }
    }
  }

  /** Empty lines before and between two rows are dropped. */
  lemma RetainedGaps(v: seq<string>)
    requires |v| == 4 && |v[0]| == 0 && |v[1]| > 0 && |v[2]| == 0 && |v[3]| > 0
    ensures Retained(v) == [v[1], v[3]]
  {
    assert v[..3][..2] == v[..2] && v[..3][2] == v[2];
    assert v[..2][..1] == v[..1] && v[..2][1] == v[1];
    assert v[..1][..0] == [] && v[..1][0] == v[0];
    assert Retained(v[..1]) == [];
    assert Retained(v[..2]) == [v[1]];
    assert Retained(v[..3]) == [v[1]];
  }

  lemma ExampleRetained(v: seq<string>)
    requires v == ["", "12", "", "34"]
    ensures Retained(v) == ["12", "34"]
  {
    RetainedGaps(v);
  }

  lemma BuiltFromKept(v: seq<string>)
    requires Retained(v) == ["12", "34"]
    ensures FromVec(v) == Grid([[49, 50], [51, 52]], 2, 2)
  {
    var k, rows := Retained(v), [[49, 50], [51, 52]];
    assert k[0][0] as int == 49 && k[0][1] as int == 50 && k[1][0] as int == 51 && k[1][1] as int == 52;
    forall i, j | 0 <= i < |rows| && 0 <= j < |rows[i]|
      ensures k[i][j] as int == rows[i][j]
    {
      assert i == 0 || i == 1;
      assert j == 0 || j == 1;
    }
    FromRetained(v, rows);
  }

  /**
   * Finding: swapping `width` and `height` on a jagged grid gives height 2
   * for a transposed buffer of three rows, where the test expects 3;
   * `Transpose` gives the longest old row.
   */
  lemma JaggedTranspose()
    ensures var g := FromVec(["12", "345", "6"]);
      && g.width == 2 && g.height == 3
      && Transpose(g) == Grid([[49, 51, 54], [50, 52, 0], [0, 53, 0]], 3, 3)
      && TransposeAsWritten(g).vec == Transpose(g).vec
      && TransposeAsWritten(g).height == 2
  {
    FromVecAscii(["12", "345", "6"], [[49, 50], [51, 52, 53], [54]]);
    JaggedTransposed(FromVec(["12", "345", "6"]));
  }

  lemma JaggedTransposed(g: Grid)
    requires g == Grid([[49, 50], [51, 52, 53], [54]], 2, 3)
    ensures Transpose(g) == Grid([[49, 51, 54], [50, 52, 0], [0, 53, 0]], 3, 3)
  {
    assert MaxRowLen(g.vec) == 3 by {
      assert MaxRowLen(g.vec[..1]) == 2;
      assert g.vec[..2][..1] == g.vec[..1];
      assert MaxRowLen(g.vec[..2]) == 3;
    }
    var t := Transpose(g).vec;
    assert t[0] == [49, 51, 54] && t[1] == [50, 52, 0] && t[2] == [0, 53, 0];
  }
}
