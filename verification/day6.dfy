/**
 * Day 6: a worksheet of column problems. Every line but the last holds
 * whitespace-separated numbers, token `i` belonging to column `i`; the last
 * line holds one operator per column, `+` for the sum of the column and `*`
 * for its product. Part 1 adds up the per-column results. Part 2 is not
 * solved in the source and always fails.
 */
module Day6 {
  import opened Common
  import opened Text

  /** The error `part2` returns. */
  const GIVE_UP := "i give up"

  // ---------------------------------------------------------------------------
  // The worksheet
  // ---------------------------------------------------------------------------

  /** The parse of every token of every line but the last, row by row. */
  function ParsedTable(lines: seq<string>): (t: seq<seq<Result<nat>>>)
    requires |lines| >= 1
    ensures |t| == |lines| - 1
    ensures forall k :: 0 <= k < |t| ==> |t[k]| == |SplitWhitespace(lines[k])|
    ensures forall k, c :: 0 <= k < |t| && 0 <= c < |t[k]| ==> t[k][c] == ParseNat(SplitWhitespace(lines[k])[c])
    ensures forall k, c :: 0 <= k < |t| && 0 <= c < |t[k]| && t[k][c].Err? ==> t[k][c].msg == INVALID_DIGIT
  {
    seq(|lines| - 1, k requires 0 <= k < |lines| - 1 =>
      var ts := SplitWhitespace(lines[k]);
      seq(|ts|, c requires 0 <= c < |ts| => ParseNat(ts[c])))
  }

  /** The operator tokens of the last line. */
  function Ops(lines: seq<string>): seq<string>
    requires |lines| >= 1
  {
    SplitWhitespace(lines[|lines| - 1])
  }

  /** The number of columns: the token count of the first line, or 0 when there is only the operator line. */
  function Width(lines: seq<string>): (w: nat)
    requires |lines| >= 1
    ensures |lines| >= 2 ==> w == |ParsedTable(lines)[0]|
  {
    if |lines| >= 2 then |SplitWhitespace(lines[0])| else 0
  }

  /** Every token of every row parses. */
  predicate AllParse(table: seq<seq<Result<nat>>>) {
    forall k, c :: 0 <= k < |table| && 0 <= c < |table[k]| ==> table[k][c].Ok?
  }

  /** Column `c`: token `c` of every row that has one, top to bottom. */
  function Column(table: seq<seq<Result<nat>>>, c: nat): (col: seq<nat>)
    ensures |col| <= |table|
  {
    if |table| == 0 then []
    else
      (if c < |table[0]| && table[0][c].Ok? then [table[0][c].value] else [])
      + Column(table[1..], c)
  }

  /** The first `w` columns. */
  function Columns(table: seq<seq<Result<nat>>>, w: nat): (cols: seq<seq<nat>>)
    ensures |cols| == w && forall c :: 0 <= c < w ==> cols[c] == Column(table, c)
  {
    seq(w, c requires 0 <= c < w => Column(table, c))
  }

  // ---------------------------------------------------------------------------
  // The row loop
  // ---------------------------------------------------------------------------

  /** Where the row loop ends: columns filled, a parse error, or a token past the last column. */
  datatype Filling = Filled(columns: seq<seq<nat>>) | Failed(msg: string) | Overflow

  /** `columns[col].push(part.parse()?)` for tokens `j..` of one row: the index is checked before the parse. */
  function FillRow(cols: seq<seq<nat>>, row: seq<Result<nat>>, j: nat): (f: Filling)
    requires j <= |row|
    ensures f.Filled? ==> |f.columns| == |cols|
    ensures f.Filled? <==> (j == |row| || |row| <= |cols|) && forall c :: j <= c < |row| ==> row[c].Ok?
    ensures f.Failed? ==> exists c :: j <= c < |row| && row[c] == Err(f.msg)
    decreases |row| - j
  {
    if j == |row| then Filled(cols)
    else if j >= |cols| then Overflow
    else
      match row[j]
      case Err(e) => Failed(e)
      case Ok(v) => FillRow(cols[j := cols[j] + [v]], row, j + 1)
  }

  /** A filled row appends its token `c` to column `c`. */
  lemma {:induction false} FillRowColumns(cols: seq<seq<nat>>, row: seq<Result<nat>>, j: nat)
    requires j <= |row| && FillRow(cols, row, j).Filled?
    ensures forall c :: 0 <= c < |cols| ==>
              FillRow(cols, row, j).columns[c] == cols[c] + (if j <= c < |row| then [row[c].value] else [])
    decreases |row| - j
  {
    if j < |row| {
      var next := cols[j := cols[j] + [row[j].value]];
      FillRowColumns(next, row, j + 1);
    }
  }

  /** The whole row loop, row by row. */
  function FillRows(cols: seq<seq<nat>>, table: seq<seq<Result<nat>>>): (f: Filling)
    ensures f.Filled? ==> |f.columns| == |cols|
    ensures f.Filled? <==> AllParse(table) && forall k :: 0 <= k < |table| ==> |table[k]| <= |cols|
    ensures f.Failed? ==> exists k, c :: 0 <= k < |table| && 0 <= c < |table[k]| && table[k][c] == Err(f.msg)
    decreases |table|
  {
    if |table| == 0 then Filled(cols)
    else
      var first := FillRow(cols, table[0], 0);
      assert forall k :: 1 <= k < |table| ==> table[k] == table[1..][k - 1];
      match first
      case Filled(next) => FillRows(next, table[1..])
      case Failed(e) => Failed(e)
      case Overflow => Overflow
  }

  /** Filling appends each column of the table to the column it started with. */
  lemma {:induction false} FillRowsColumns(cols: seq<seq<nat>>, table: seq<seq<Result<nat>>>)
    requires FillRows(cols, table).Filled?
    ensures forall c :: 0 <= c < |cols| ==> FillRows(cols, table).columns[c] == cols[c] + Column(table, c)
    decreases |table|
  {
    if |table| > 0 {
      var next := FillRow(cols, table[0], 0).columns;
      FillRowColumns(cols, table[0], 0);
      FillRowsColumns(next, table[1..]);
    }
  }

  /** The row loop of `part1`, starting from `Width` empty columns. */
  function Fill(lines: seq<string>): Filling
    requires |lines| >= 1
  {
    FillRows(seq(Width(lines), _ => []), ParsedTable(lines))
  }

  /** When every token parses, the loop overruns the columns exactly when a later row is longer than the first. */
  lemma OverflowIff(lines: seq<string>)
    requires |lines| >= 1 && AllParse(ParsedTable(lines))
    ensures Fill(lines).Overflow? <==> exists k :: 1 <= k < |lines| - 1 && |SplitWhitespace(lines[k])| > Width(lines)
  {
  }

  /** Filled columns are the columns of the table. */
  lemma FillIsColumns(lines: seq<string>)
    requires |lines| >= 1 && Fill(lines).Filled?
    ensures Fill(lines).columns == Columns(ParsedTable(lines), Width(lines))
  {
    var empty: seq<seq<nat>> := seq(Width(lines), _ => []);
    FillRowsColumns(empty, ParsedTable(lines));
    forall c | 0 <= c < Width(lines)
      ensures Fill(lines).columns[c] == Column(ParsedTable(lines), c)
    {
      assert empty[c] == [];
    }
  }

  // ---------------------------------------------------------------------------
  // The operator loop
  // ---------------------------------------------------------------------------

  predicate IsOp(op: string) {
    op == "+" || op == "*"
  }

  /** The result of one problem: the sum or the product of its column. */
  function Apply(op: string, col: seq<nat>): (v: nat)
    requires IsOp(op)
    ensures op == "+" ==> v == Sum(col)
    ensures op == "*" ==> v == Product(col)
  {
    if op == "+" then Sum(col) else Product(col)
  }

  /** `sum += op_i(columns[i])` over the operators in order. */
  function OpsTotal(ops: seq<string>, cols: seq<seq<nat>>): nat
    requires |ops| <= |cols|
    requires forall i :: 0 <= i < |ops| ==> IsOp(ops[i])
  {
    if |ops| == 0 then 0 else OpsTotal(ops[..|ops| - 1], cols) + Apply(ops[|ops| - 1], cols[|ops| - 1])
  }

  /** Each problem adds its result: the total is at least every per-column result. */
  lemma {:induction false} OpsTotalBound(ops: seq<string>, cols: seq<seq<nat>>, i: int)
    requires |ops| <= |cols| && forall i :: 0 <= i < |ops| ==> IsOp(ops[i])
    requires 0 <= i < |ops|
    ensures Apply(ops[i], cols[i]) <= OpsTotal(ops, cols)
  {
    var n := |ops| - 1;
    if i < n {
      OpsTotalBound(ops[..n], cols, i);
    }
  }

  /** What `part1` needs to avoid a panic: at least one line, no token past the columns before an error, and after the rows one `+` or `*` per column at most. */
  predicate Solvable(lines: seq<string>) {
    && |lines| >= 1
    && !Fill(lines).Overflow?
    && (Fill(lines).Filled? ==> |Ops(lines)| <= Width(lines) && forall i :: 0 <= i < |Ops(lines)| ==> IsOp(Ops(lines)[i]))
  }

  /**
   * `part1`: an error when some number token does not parse; otherwise the
   * sum over the operators of the operator applied to its column.
   */
  function Part1(lines: seq<string>): (r: Result<nat>)
    requires Solvable(lines)
    ensures r.Err? <==> !AllParse(ParsedTable(lines))
    ensures r.Err? ==> r.msg == INVALID_DIGIT
    ensures r.Ok? ==> r.value == OpsTotal(Ops(lines), Columns(ParsedTable(lines), Width(lines)))
  {
    match Fill(lines)
    case Filled(cols) =>
      FillIsColumns(lines);
      Ok(OpsTotal(Ops(lines), cols))
    case Failed(e) => Err(e)
  }

  /** `part2`: not solved; it always fails. */
  function Part2(lines: seq<string>): (r: Result<nat>)
    ensures r.Err? && r.msg == GIVE_UP
  {
    Err(GIVE_UP)
  }

  // ---------------------------------------------------------------------------
  // The example worksheet
  // ---------------------------------------------------------------------------

  /** The numbers of the example, as parsed. */
  function ExampleTable(): seq<seq<Result<nat>>> {
    [[Ok(123), Ok(328), Ok(51), Ok(64)],
     [Ok(45), Ok(64), Ok(387), Ok(23)],
     [Ok(6), Ok(98), Ok(215), Ok(314)]]
  }

  /** The example's four problems give 33210 + 490 + 4243455 + 401 = 4277556. */
  lemma ExampleTotal(table: seq<seq<Result<nat>>>, ops: seq<string>)
    requires table == ExampleTable() && ops == ["*", "+", "*", "+"]
    ensures OpsTotal(ops, Columns(table, 4)) == 4277556
  {
    var cols := Columns(table, 4);
    ExampleColumns(table, cols);
    ExampleSolved(ops, cols);
  }

  /** Four problems total the sum of their four results. */
  lemma TotalOfFour(ops: seq<string>, cols: seq<seq<nat>>, a: nat, b: nat, c: nat, e: nat)
    requires |ops| == 4 <= |cols| && forall i :: 0 <= i < |ops| ==> IsOp(ops[i])
    requires Apply(ops[0], cols[0]) == a && Apply(ops[1], cols[1]) == b
    requires Apply(ops[2], cols[2]) == c && Apply(ops[3], cols[3]) == e
    ensures OpsTotal(ops, cols) == a + b + c + e
  {
    assert ops[..0] == [];
    OpsTotalSnoc(ops, cols, 0);
    OpsTotalSnoc(ops, cols, 1);
    OpsTotalSnoc(ops, cols, 2);
    OpsTotalSnoc(ops, cols, 3);
    assert ops[..4] == ops;
  }

  /** One more operator adds its column's result. */
  lemma OpsTotalSnoc(ops: seq<string>, cols: seq<seq<nat>>, i: nat)
    requires |ops| <= |cols| && forall i :: 0 <= i < |ops| ==> IsOp(ops[i])
    requires i < |ops|
    ensures OpsTotal(ops[..i + 1], cols) == OpsTotal(ops[..i], cols) + Apply(ops[i], cols[i])
  {
    assert ops[..i + 1][..i] == ops[..i];
  }

  /** The example's four columns under its operators, one by one and in total. */
  lemma ExampleSolved(ops: seq<string>, cols: seq<seq<nat>>)
    requires ops == ["*", "+", "*", "+"] && |cols| == 4
    requires cols[0] == [123, 45, 6] && cols[1] == [328, 64, 98]
    requires cols[2] == [51, 387, 215] && cols[3] == [64, 23, 314]
    ensures OpsTotal(ops, cols) == 4277556
  {
    ProductOf3(cols[0], 123, 45, 6);
    SumOf3(cols[1], 328, 64, 98);
    ProductOf3(cols[2], 51, 387, 215);
    SumOf3(cols[3], 64, 23, 314);
    TotalOfFour(ops, cols, 33210, 490, 4243455, 401);
  }

  lemma ExampleColumns(table: seq<seq<Result<nat>>>, cols: seq<seq<nat>>)
    requires table == ExampleTable() && cols == Columns(table, 4)
    ensures |cols| == 4
    ensures cols[0] == [123, 45, 6] && cols[1] == [328, 64, 98]
    ensures cols[2] == [51, 387, 215] && cols[3] == [64, 23, 314]
  {
    assert table[1..][1..][1..] == [];
  }

  lemma SumOf3(xs: seq<nat>, a: nat, b: nat, c: nat)
    requires xs == [a, b, c]
    ensures Sum(xs) == a + b + c
  {
    assert xs[..2] == [a, b] && xs[..2][..1] == [a] && xs[..2][..1][..0] == [];
    assert Sum([a]) == a;
    assert Sum([a, b]) == a + b;
  }

  lemma ProductOf3(xs: seq<nat>, a: nat, b: nat, c: nat)
    requires xs == [a, b, c]
    ensures Product(xs) == a * b * c
  {
    assert xs[..2] == [a, b] && xs[..2][..1] == [a] && xs[..2][..1][..0] == [];
    assert Product([a]) == a;
    assert Product([a, b]) == a * b;
  }
}
