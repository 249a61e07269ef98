/**
 * Day 5: fresh ingredient IDs. The input opens with inclusive ID ranges
 * `lo-hi`, one per line, ending at the first empty line or the first line
 * without a `-`. Part 1 counts the lines from the separator on that parse as
 * IDs inside some range; part 2 sorts the ranges by start, merges the ones
 * that overlap or touch, and sums the lengths of the merged ranges, which is
 * the number of distinct IDs the ranges cover.
 */
module Day5 {
  import opened Common
  import opened Text

  /** An inclusive range of IDs, `(usize, usize)` in the source. */
  datatype IdRange = IdRange(lo: nat, hi: nat)

  // ---------------------------------------------------------------------------
  // Reading the ranges
  // ---------------------------------------------------------------------------

  /** A line the range-reading loop accepts: non-empty, with a `-`. */
  predicate IsRangeLine(line: string) {
    |line| > 0 && '-' in line
  }

  /** The number of leading range lines: the loop stops at the first other line. */
  function Stop(lines: seq<string>): (n: nat)
    ensures n <= |lines|
    ensures forall k :: 0 <= k < n ==> IsRangeLine(lines[k])
    ensures n < |lines| ==> !IsRangeLine(lines[n])
  {
    if |lines| == 0 || !IsRangeLine(lines[0]) then 0
    else
      var n := 1 + Stop(lines[1..]);
      assert forall k :: 1 <= k < n ==> lines[k] == lines[1..][k - 1];
      n
  }

  /** The index `part_1` starts its scan from: the empty line that ended the ranges, or 0. */
  function Separator(lines: seq<string>): (s: nat)
    ensures s <= |lines|
    ensures s > 0 ==> s < |lines| && |lines[s]| == 0 && forall k :: 0 <= k < s ==> IsRangeLine(lines[k])
  {
    var n := Stop(lines);
    if n < |lines| && |lines[n]| == 0 then n else 0
  }

  /** `(lhs.parse()?, rhs.parse()?)` around the first `-`: the left side is parsed first. */
  function ParseRange(line: string): (r: Result<IdRange>)
    requires '-' in line
    ensures r.Err? ==> r.msg == EMPTY_NUMBER || r.msg == INVALID_DIGIT
  {
    var (lhs, rhs) := SplitOnce(line, '-').value;
    match ParseNat(lhs)
    case Err(e) => Err(e)
    case Ok(lo) =>
      match ParseNat(rhs)
      case Err(e) => Err(e)
      case Ok(hi) => Ok(IdRange(lo, hi))
  }

  /** The text of a range as the input writes it. */
  function RenderRange(r: IdRange): string {
    ToDecimal(r.lo) + "-" + ToDecimal(r.hi)
  }

  /** Reading a written range gives the range back. */
  lemma ParseRender(r: IdRange)
    ensures '-' in RenderRange(r)
    ensures ParseRange(RenderRange(r)) == Ok(r)
  {
    var lhs, rhs := ToDecimal(r.lo), ToDecimal(r.hi);
    assert RenderRange(r) == lhs + ['-'] + rhs;
    assert '-' !in lhs;
    SplitOnceJoin(lhs, '-', rhs);
    ParseDecimal(r.lo);
    ParseDecimal(r.hi);
  }

  predicate AllRangeLines(ls: seq<string>) {
    forall k :: 0 <= k < |ls| ==> IsRangeLine(ls[k])
  }

  /** The parse of each range line, in order. */
  function Parsed(ls: seq<string>): (ps: seq<Result<IdRange>>)
    requires AllRangeLines(ls)
    ensures |ps| == |ls| && forall k :: 0 <= k < |ls| ==> ps[k] == ParseRange(ls[k])
  {
    seq(|ls|, k requires 0 <= k < |ls| => ParseRange(ls[k]))
  }

  /** The ranges the loop reads, or the first parse error. */
  function Header(lines: seq<string>): (r: Result<seq<IdRange>>)
    ensures r.Ok? ==> |r.value| == Stop(lines)
  {
    Collect(Parsed(lines[..Stop(lines)]))
  }

  /** The lines the loop reads are exactly the leading range lines, and each becomes one range. */
  lemma HeaderRanges(lines: seq<string>)
    requires Header(lines).Ok?
    ensures forall k :: 0 <= k < Stop(lines) ==>
              IsRangeLine(lines[k]) && ParseRange(lines[k]) == Ok(Header(lines).value[k])
  {
    var n := Stop(lines);
    assert forall k :: 0 <= k < n ==> lines[..n][k] == lines[k];
  }

  /** Written ranges followed by an empty line are read back, and the scan then starts at that line. */
  lemma ReadWrittenRanges(rs: seq<IdRange>, rest: seq<string>)
    ensures var lines := seq(|rs|, k requires 0 <= k < |rs| => RenderRange(rs[k])) + [""] + rest;
            Header(lines) == Ok(rs) && Separator(lines) == |rs|
  {
    var written := seq(|rs|, k requires 0 <= k < |rs| => RenderRange(rs[k]));
    var lines := written + [""] + rest;
    WrittenLines(rs, written);
    assert forall k :: 0 <= k < |rs| ==> lines[k] == written[k];
    StopAt(lines, |rs|);
    assert lines[..|rs|] == written;
    CollectAllOk(Parsed(written), rs);
  }

  /** Each written range is a range line that reads back as the range. */
  lemma WrittenLines(rs: seq<IdRange>, written: seq<string>)
    requires written == seq(|rs|, k requires 0 <= k < |rs| => RenderRange(rs[k]))
    ensures AllRangeLines(written)
    ensures forall k :: 0 <= k < |rs| ==> ParseRange(written[k]) == Ok(rs[k])
  {
    forall k | 0 <= k < |rs| ensures IsRangeLine(written[k]) && ParseRange(written[k]) == Ok(rs[k]) {
      ParseRender(rs[k]);
    }
  }

  /** `Stop` is the first index that is not a range line. */
  lemma StopAt(lines: seq<string>, n: nat)
    requires n < |lines| && !IsRangeLine(lines[n])
    requires forall k :: 0 <= k < n ==> IsRangeLine(lines[k])
    ensures Stop(lines) == n
  {
  }

  /** An error in the parse of the `i`-th range line is the header's error. */
  lemma HeaderError(lines: seq<string>, i: nat)
    requires i < Stop(lines)
    requires Collect(Parsed(lines[..Stop(lines)])[..i + 1]).Err?
    ensures Header(lines) == Collect(Parsed(lines[..Stop(lines)])[..i + 1])
  {
    var results := Parsed(lines[..Stop(lines)]);
    ErrorSticks(results, i + 1, Stop(lines));
    assert results[..Stop(lines)] == results;
  }

  /** Once every range line parsed, the collected ranges are the header. */
  lemma HeaderDone(lines: seq<string>, ranges: seq<IdRange>)
    requires Collect(Parsed(lines[..Stop(lines)])[..Stop(lines)]) == Ok(ranges)
    ensures Header(lines) == Ok(ranges)
  {
    var results := Parsed(lines[..Stop(lines)]);
    assert results[..Stop(lines)] == results;
  }

  /** The range-reading loop of both parts, with `part_1`'s separator. */
  method ReadRanges(lines: seq<string>) returns (r: Result<seq<IdRange>>, separator: nat)
    ensures r == Header(lines)
    ensures r.Ok? ==> separator == Separator(lines)
  {
    separator := 0;
    var ranges: seq<IdRange> := [];
    ghost var results := Parsed(lines[..Stop(lines)]);
    var i := 0;
    while i < |lines|
      invariant i <= Stop(lines)
      invariant Collect(results[..i]) == Ok(ranges)
      invariant separator == 0
    {
      var line := lines[i];
      if |line| == 0 {
        separator := i;
        break;
      }
      if '-' !in line {
        break;
      }
      var parsed := ParseRange(line);
      assert results[i] == parsed;
      CollectSnoc(results, i);
      if parsed.Err? {
        HeaderError(lines, i);
        return Err(parsed.msg), separator;
      }
      ranges := ranges + [parsed.value];
      i := i + 1;
    }
    assert i == Stop(lines);
    HeaderDone(lines, ranges);
    r := Ok(ranges);
  }

  // ---------------------------------------------------------------------------
  // Part 1
  // ---------------------------------------------------------------------------

  /** `x` lies in some range. */
  predicate Covered(rs: seq<IdRange>, x: int) {
    exists i :: 0 <= i < |rs| && rs[i].lo <= x <= rs[i].hi
  }

  /** The line parses as an ID inside some range. */
  predicate Fresh(line: string, rs: seq<IdRange>) {
    ParseNat(line).Ok? && Covered(rs, ParseNat(line).value)
  }

  /** Whether each line is fresh. */
  function FreshFlags(lines: seq<string>, rs: seq<IdRange>): (f: seq<bool>)
    ensures |f| == |lines| && forall k :: 0 <= k < |lines| ==> f[k] == Fresh(lines[k], rs)
  {
    seq(|lines|, k requires 0 <= k < |lines| => Fresh(lines[k], rs))
  }

  /** The indices of the fresh lines among `from..|lines|`. */
  function FreshLines(lines: seq<string>, from: nat, rs: seq<IdRange>): set<int> {
    Marked(FreshFlags(lines, rs), from, |lines|)
  }

  /** The `filter_map(..).filter(..).count()` of `part_1`. */
  method CountFresh(lines: seq<string>, from: nat, rs: seq<IdRange>) returns (count: nat)
    requires from <= |lines|
    ensures count == |FreshLines(lines, from, rs)|
    ensures count <= |lines| - from
  {
    ghost var flags := FreshFlags(lines, rs);
    count := 0;
    var k := from;
    assert Marked(flags, from, k) == {};
    while k < |lines|
      invariant from <= k <= |lines|
      invariant count == |Marked(flags, from, k)|
    {
      MarkedStep(flags, from, k);
      if Fresh(lines[k], rs) {
        count := count + 1;
      }
      k := k + 1;
    }
    MarkedSize(flags, from, |lines|);
  }

  /**
   * `part_1`: a parse error among the range lines is returned; otherwise the
   * number of lines from the separator on that hold an ID inside some range.
   */
  method Part1(lines: seq<string>) returns (r: Result<nat>)
    ensures r.Err? <==> Header(lines).Err?
    ensures r.Err? ==> r.msg == Header(lines).msg
    ensures r.Ok? ==> r.value == |FreshLines(lines, Separator(lines), Header(lines).value)|
    ensures r.Ok? ==> r.value <= |lines| - Separator(lines)
  {
    var ranges, separator := ReadRanges(lines);
    if ranges.Err? {
      return Err(ranges.msg);
    }
    var count := CountFresh(lines, separator, ranges.value);
    r := Ok(count);
  }

  // ---------------------------------------------------------------------------
  // Sorting by start
  // ---------------------------------------------------------------------------

  predicate SortedByStart(rs: seq<IdRange>) {
    forall i, j :: 0 <= i < j < |rs| ==> rs[i].lo <= rs[j].lo
  }

  /** Inserts `r` before the first range that does not start earlier. */
  function Insert(r: IdRange, rs: seq<IdRange>): (out: seq<IdRange>)
    ensures multiset(out) == multiset(rs) + multiset{r}
    ensures |out| == |rs| + 1
  {
    if |rs| == 0 then [r]
    else if r.lo <= rs[0].lo then [r] + rs
    else
      assert rs == [rs[0]] + rs[1..];
      [rs[0]] + Insert(r, rs[1..])
  }

  /** Inserting into ranges sorted by start keeps them sorted; the new first range is `r` or the old first. */
  lemma {:induction false} InsertSorted(r: IdRange, rs: seq<IdRange>)
    requires SortedByStart(rs)
    ensures SortedByStart(Insert(r, rs))
    ensures Insert(r, rs)[0] == r || (|rs| > 0 && Insert(r, rs)[0] == rs[0])
  {
    if |rs| > 0 && r.lo > rs[0].lo {
      var tail := Insert(r, rs[1..]);
      InsertSorted(r, rs[1..]);
      assert tail[0].lo >= rs[0].lo;
      ConsSorted(rs[0], tail);
    } else if |rs| > 0 {
      ConsSorted(r, rs);
    }
  }

  /** A range that starts no later than the first of sorted ranges can lead them. */
  lemma ConsSorted(r: IdRange, rs: seq<IdRange>)
    requires SortedByStart(rs) && |rs| > 0 && r.lo <= rs[0].lo
    ensures SortedByStart([r] + rs)
  {
    var out := [r] + rs;
    forall i, j | 0 <= i < j < |out| ensures out[i].lo <= out[j].lo {
      assert out[j] == rs[j - 1];
      if i > 0 {
        assert out[i] == rs[i - 1];
      }
    }
  }

  /** `sort_unstable_by_key(|x| x.0)`, as a stable insertion sort (one of its allowed orders). */
  function SortByStart(rs: seq<IdRange>): (out: seq<IdRange>)
    ensures SortedByStart(out)
    ensures multiset(out) == multiset(rs)
    ensures |out| == |rs|
  {
    if |rs| == 0 then []
    else
      assert rs == [rs[0]] + rs[1..];
      InsertSorted(rs[0], SortByStart(rs[1..]));
      Insert(rs[0], SortByStart(rs[1..]))
  }

  /** Reordering keeps the covered IDs. */
  lemma CoveredPermutation(a: seq<IdRange>, b: seq<IdRange>, x: int)
    requires multiset(a) == multiset(b)
    ensures Covered(a, x) <==> Covered(b, x)
  {
    if Covered(a, x) {
      var i :| 0 <= i < |a| && a[i].lo <= x <= a[i].hi;
      assert a[i] in multiset(b);
      var j :| 0 <= j < |b| && b[j] == a[i];
    }
    if Covered(b, x) {
      var i :| 0 <= i < |b| && b[i].lo <= x <= b[i].hi;
      assert b[i] in multiset(a);
      var j :| 0 <= j < |a| && a[j] == b[i];
    }
  }

  /** Every range has its start no later than its end. */
  predicate WellFormed(rs: seq<IdRange>) {
    forall i :: 0 <= i < |rs| ==> rs[i].lo <= rs[i].hi
  }

  lemma WellFormedPermutation(a: seq<IdRange>, b: seq<IdRange>)
    requires multiset(a) == multiset(b) && WellFormed(a)
    ensures WellFormed(b)
  {
    forall i | 0 <= i < |b| ensures b[i].lo <= b[i].hi {
      assert b[i] in multiset(a);
      var j :| 0 <= j < |a| && a[j] == b[i];
    }
  }

  // ---------------------------------------------------------------------------
  // Merging
  // ---------------------------------------------------------------------------

  /** Well-formed, sorted, and each range starts more than one past the previous end. */
  predicate Gapped(ms: seq<IdRange>) {
    && WellFormed(ms)
    && forall i :: 0 <= i < |ms| - 1 ==> ms[i].hi + 1 < ms[i + 1].lo
  }

  lemma CoveredSnoc(rs: seq<IdRange>, c: IdRange, x: int)
    ensures Covered(rs + [c], x) <==> Covered(rs, x) || c.lo <= x <= c.hi
  {
    if Covered(rs, x) {
      var i :| 0 <= i < |rs| && rs[i].lo <= x <= rs[i].hi;
      assert (rs + [c])[i] == rs[i];
    }
    if c.lo <= x <= c.hi {
      assert (rs + [c])[|rs|] == c;
    }
  }

  /** The state of the merge after `k` input ranges: `merged + [current]` covers `rs[..k]`. */
  ghost predicate MergeInv(rs: seq<IdRange>, k: int, merged: seq<IdRange>, current: IdRange) {
    && 1 <= k <= |rs|
    && Gapped(merged + [current])
    && (k < |rs| ==> current.lo <= rs[k].lo)
    && |merged| < k
    && forall x :: Covered(merged + [current], x) <==> Covered(rs[..k], x)
  }

  lemma MergeStart(rs: seq<IdRange>)
    requires |rs| >= 1 && SortedByStart(rs) && WellFormed(rs)
    ensures MergeInv(rs, 1, [], rs[0])
  {
    assert [] + [rs[0]] == rs[..1];
  }

  /** Extending `current` with an overlapping or touching range. */
  lemma MergeExtend(rs: seq<IdRange>, k: int, merged: seq<IdRange>, current: IdRange)
    requires SortedByStart(rs) && WellFormed(rs)
    requires MergeInv(rs, k, merged, current) && k < |rs|
    requires rs[k].lo <= current.hi + 1
    ensures MergeInv(rs, k + 1, merged, IdRange(current.lo, if current.hi >= rs[k].hi then current.hi else rs[k].hi))
  {
    var next := IdRange(current.lo, if current.hi >= rs[k].hi then current.hi else rs[k].hi);
    assert rs[..k + 1] == rs[..k] + [rs[k]];
    assert k + 1 < |rs| ==> rs[k].lo <= rs[k + 1].lo;
    forall x ensures Covered(merged + [next], x) <==> Covered(rs[..k + 1], x) {
      CoveredSnoc(merged, current, x);
      CoveredSnoc(merged, next, x);
      CoveredSnoc(rs[..k], rs[k], x);
    }
    var before := merged + [current];
    var after := merged + [next];
    forall i | 0 <= i < |after| - 1 ensures after[i].hi + 1 < after[i + 1].lo {
      assert after[i] == before[i] && after[i + 1].lo == before[i + 1].lo;
    }
    assert WellFormed(after) by {
      forall i | 0 <= i < |after| ensures after[i].lo <= after[i].hi {
        if i < |merged| { assert after[i] == before[i]; }
      }
    }
    assert Gapped(after);
    assert k + 1 < |rs| ==> next.lo <= rs[k + 1].lo;
    assert |merged| < k + 1;
  }

  /** Closing `current` and starting a new range after a gap. */
  lemma MergeClose(rs: seq<IdRange>, k: int, merged: seq<IdRange>, current: IdRange)
    requires SortedByStart(rs) && WellFormed(rs)
    requires MergeInv(rs, k, merged, current) && k < |rs|
    requires rs[k].lo > current.hi + 1
    ensures MergeInv(rs, k + 1, merged + [current], rs[k])
  {
    assert rs[..k + 1] == rs[..k] + [rs[k]];
    forall x ensures Covered(merged + [current] + [rs[k]], x) <==> Covered(rs[..k + 1], x) {
      CoveredSnoc(merged + [current], rs[k], x);
      CoveredSnoc(rs[..k], rs[k], x);
    }
  }

  /**
   * The merge loop of `part_2`: sorted, well-formed ranges become gapped
   * ranges covering exactly the same IDs.
   */
  method Merge(rs: seq<IdRange>) returns (merged: seq<IdRange>)
    requires |rs| >= 1 && SortedByStart(rs) && WellFormed(rs)
    ensures Gapped(merged)
    ensures 1 <= |merged| <= |rs|
    ensures forall x :: Covered(merged, x) <==> Covered(rs, x)
  {
    merged := [];
    var current := rs[0];
    MergeStart(rs);
    var k := 1;
    while k < |rs|
      invariant MergeInv(rs, k, merged, current)
    {
      var IdRange(start, end) := rs[k];
      if start <= current.hi + 1 {
        MergeExtend(rs, k, merged, current);
        current := IdRange(current.lo, if current.hi >= end then current.hi else end);
      } else {
        MergeClose(rs, k, merged, current);
        merged := merged + [current];
        current := rs[k];
      }
      k := k + 1;
    }
    assert rs[..k] == rs;
    merged := merged + [current];
  }

  // ---------------------------------------------------------------------------
  // Counting the covered IDs
  // ---------------------------------------------------------------------------

  /** The set the abandoned `HashSet` version builds: every ID of every range. */
  function Ids(rs: seq<IdRange>): set<int> {
    if |rs| == 0 then {} else Ids(rs[..|rs| - 1]) + Interval(rs[|rs| - 1].lo, rs[|rs| - 1].hi)
  }

  lemma {:induction false} IdsMember(rs: seq<IdRange>, x: int)
    ensures x in Ids(rs) <==> Covered(rs, x)
  {
    if |rs| > 0 {
      var n := |rs| - 1;
      IdsMember(rs[..n], x);
      assert rs == rs[..n] + [rs[n]];
      CoveredSnoc(rs[..n], rs[n], x);
    }
  }

  /** Ranges covering the same IDs have the same ID set. */
  lemma IdsSame(a: seq<IdRange>, b: seq<IdRange>)
    requires forall x :: Covered(a, x) <==> Covered(b, x)
    ensures Ids(a) == Ids(b)
  {
    forall x ensures x in Ids(a) <==> x in Ids(b) {
      IdsMember(a, x);
      IdsMember(b, x);
    }
  }

  /** `r - l + 1` for each range, summed. */
  function TotalLength(ms: seq<IdRange>): (n: int)
    ensures WellFormed(ms) ==> n >= |ms|
  {
    if |ms| == 0 then 0 else TotalLength(ms[..|ms| - 1]) + (ms[|ms| - 1].hi - ms[|ms| - 1].lo + 1)
  }

  /** The IDs of gapped ranges split into those of all but the last range, and the last range's own. */
  lemma IdsSplit(ms: seq<IdRange>)
    requires |ms| >= 1 && Gapped(ms)
    ensures var n := |ms| - 1;
            Ids(ms) == Ids(ms[..n]) + Interval(ms[n].lo, ms[n].hi)
            && Ids(ms[..n]) * Interval(ms[n].lo, ms[n].hi) == {}
  {
    var n := |ms| - 1;
    var prefix := ms[..n];
    GappedBelow(ms);
    assert forall i :: 0 <= i < n ==> prefix[i].hi < ms[n].lo;
    IdsBelow(prefix, ms[n].lo);
  }

  /** Ranges that all end below `b` cover only IDs below `b`. */
  lemma IdsBelow(rs: seq<IdRange>, b: int)
    requires forall i :: 0 <= i < |rs| ==> rs[i].hi < b
    ensures forall x :: x in Ids(rs) ==> x < b
  {
    forall x | x in Ids(rs) ensures x < b {
      IdsMember(rs, x);
    }
  }

  /** In gapped ranges every earlier range ends before the last one starts. */
  lemma {:induction false} GappedBelow(ms: seq<IdRange>)
    requires |ms| >= 1 && Gapped(ms)
    ensures forall i :: 0 <= i < |ms| - 1 ==> ms[i].hi < ms[|ms| - 1].lo
  {
    var n := |ms| - 1;
    forall i | 0 <= i < n ensures ms[i].hi < ms[n].lo {
      GappedChain(ms, i, n);
    }
  }

  lemma {:induction false} GappedChain(ms: seq<IdRange>, i: int, j: int)
    requires Gapped(ms) && 0 <= i < j < |ms|
    ensures ms[i].hi < ms[j].lo
    decreases j - i
  {
    if j > i + 1 {
      GappedChain(ms, i, j - 1);
    }
  }

  /** For gapped ranges the summed lengths are the number of covered IDs. */
  lemma {:induction false} GappedTotal(ms: seq<IdRange>)
    requires Gapped(ms)
    ensures TotalLength(ms) == |Ids(ms)|
  {
    if |ms| == 0 {
      assert Ids(ms) == {};
    } else {
      var n := |ms| - 1;
      assert Gapped(ms[..n]);
      GappedTotal(ms[..n]);
      IdsSplit(ms);
      IntervalSize(ms[n].lo, ms[n].hi);
    }
  }

  // ---------------------------------------------------------------------------
  // Part 2
  // ---------------------------------------------------------------------------

  /**
   * `part_2`: a parse error among the range lines is returned; otherwise the
   * number of distinct IDs inside some range. The source indexes the first
   * range, so there must be one, and computes `r - l + 1`, so ranges must not
   * be inverted.
   */
  method Part2(lines: seq<string>) returns (r: Result<nat>)
    requires Stop(lines) >= 1
    requires Header(lines).Ok? ==> WellFormed(Header(lines).value)
    ensures r.Err? <==> Header(lines).Err?
    ensures r.Err? ==> r.msg == Header(lines).msg
    ensures r.Ok? ==> r.value == |Ids(Header(lines).value)|
  {
    var ranges, _ := ReadRanges(lines);
    if ranges.Err? {
      return Err(ranges.msg);
    }
    var sorted := SortByStart(ranges.value);
    WellFormedPermutation(ranges.value, sorted);
    var merged := Merge(sorted);
    forall x ensures Covered(merged, x) <==> Covered(ranges.value, x) {
      CoveredPermutation(sorted, ranges.value, x);
    }
    IdsSame(merged, ranges.value);
    GappedTotal(merged);
    r := Ok(TotalLength(merged));
  }

  /** The example's ranges 3-5, 10-14, 16-20 and 12-18 cover 14 distinct IDs. */
  lemma ExampleCoverage(rs: seq<IdRange>)
    requires rs == [IdRange(3, 5), IdRange(10, 14), IdRange(16, 20), IdRange(12, 18)]
    ensures |Ids(rs)| == 14
  {
    var merged := [IdRange(3, 5), IdRange(10, 20)];
    forall x ensures Covered(rs, x) <==> Covered(merged, x) {
      ExampleCovers(rs, merged, x);
    }
    IdsSame(rs, merged);
    ExampleMerged(merged);
  }

  lemma ExampleCovers(rs: seq<IdRange>, merged: seq<IdRange>, x: int)
    requires rs == [IdRange(3, 5), IdRange(10, 14), IdRange(16, 20), IdRange(12, 18)]
    requires merged == [IdRange(3, 5), IdRange(10, 20)]
    ensures Covered(rs, x) <==> Covered(merged, x)
  {
    if Covered(rs, x) {
      var i :| 0 <= i < |rs| && rs[i].lo <= x <= rs[i].hi;
      if i == 0 { assert merged[0].lo <= x <= merged[0].hi; }
      else { assert merged[1].lo <= x <= merged[1].hi; }
    }
    if Covered(merged, x) {
      if x <= 5 { assert rs[0].lo <= x <= rs[0].hi; }
      else if x <= 14 { assert rs[1].lo <= x <= rs[1].hi; }
      else if x <= 18 { assert rs[3].lo <= x <= rs[3].hi; }
      else { assert rs[2].lo <= x <= rs[2].hi; }
    }
  }

  lemma ExampleMerged(merged: seq<IdRange>)
    requires merged == [IdRange(3, 5), IdRange(10, 20)]
    ensures |Ids(merged)| == 14
  {
    ExampleMergedShape(merged);
    GappedTotal(merged);
  }

  lemma ExampleMergedShape(merged: seq<IdRange>)
    requires merged == [IdRange(3, 5), IdRange(10, 20)]
    ensures Gapped(merged) && TotalLength(merged) == 14
  {
    assert merged[..1] == [IdRange(3, 5)];
    assert merged[..1][..0] == [];
    assert TotalLength(merged[..1][..0]) == 0;
    assert TotalLength(merged[..1]) == 3;
  }

}
