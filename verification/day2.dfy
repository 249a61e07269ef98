/**
 * Day 2: product ID ranges `lo-hi` separated by commas. An ID is invalid in
 * part 1 when its decimal digits are one block written twice, and in part 2
 * when they are one block written two or more times; each part sums the
 * invalid IDs over all ranges.
 */
module Day2 {
  import opened Common
  import opened Text

  const INVALID_RANGE := "Invalid ID range input"

  /** An inclusive range of IDs, `lower..=upper`; empty when `lower > upper`. */
  type IdRange = (nat, nat)

  // ---------------------------------------------------------------------------
  // Input
  // ---------------------------------------------------------------------------

  /** One `start-end` piece: the text around the first `-`, both parsed as `usize`. */
  function ParseRange(piece: string): (r: Result<IdRange>)
    ensures '-' !in piece ==> r == Err(INVALID_RANGE)
    ensures '-' in piece && r.Err? ==> r.msg == EMPTY_NUMBER || r.msg == INVALID_DIGIT
  {
    match SplitOnce(piece, '-')
    case None => Err(INVALID_RANGE)
    case Some((a, b)) =>
      match ParseNat(a)
      case Err(e) => Err(e)
      case Ok(lo) =>
        match ParseNat(b)
        case Err(e) => Err(e)
        case Ok(hi) => Ok((lo, hi))
  }

  /** The parse of each piece, in order. */
  function ParsedPieces(pieces: seq<string>): (ps: seq<Result<IdRange>>)
    ensures |ps| == |pieces| && forall i :: 0 <= i < |pieces| ==> ps[i] == ParseRange(pieces[i])
  {
    seq(|pieces|, i requires 0 <= i < |pieces| => ParseRange(pieces[i]))
  }

  /** `collect` into a `Result`: every piece parsed, or the error of the first that is not. */
  function ParsePieces(pieces: seq<string>): Result<seq<IdRange>> {
    Collect(ParsedPieces(pieces))
  }

  /**
   * `prep`: the comma-separated ranges of one input line. It succeeds exactly
   * when every piece parses, with one range per piece in order; otherwise it
   * fails with the error of the first piece that does not parse.
   */
  function Prep(line: string): (r: Result<seq<IdRange>>)
    ensures var pieces := Split(line, ',');
            r.Ok? <==> forall k :: 0 <= k < |pieces| ==> ParseRange(pieces[k]).Ok?
    ensures var pieces := Split(line, ',');
            r.Ok? ==> |r.value| == |pieces| && forall k :: 0 <= k < |pieces| ==> ParseRange(pieces[k]) == Ok(r.value[k])
    ensures var pieces := Split(line, ',');
            r.Err? ==> exists k :: && 0 <= k < |pieces| && ParseRange(pieces[k]) == Err(r.msg)
                                   && forall j :: 0 <= j < k ==> ParseRange(pieces[j]).Ok?
    ensures ',' !in line ==> (r.Ok? <==> ParseRange(line).Ok?)
  {
    var pieces := Split(line, ',');
    PiecesFirstError(pieces);
    ParsePieces(pieces)
  }

  /** A failed `collect` carries the error of the first piece that does not parse. */
  lemma PiecesFirstError(pieces: seq<string>)
    ensures ParsePieces(pieces).Err? ==>
              exists k :: && 0 <= k < |pieces| && ParseRange(pieces[k]) == Err(ParsePieces(pieces).msg)
                          && forall j :: 0 <= j < k ==> ParseRange(pieces[j]).Ok?
  {
    var ps := ParsedPieces(pieces);
    if Collect(ps).Err? {
      FirstError(ps);
      var k :| 0 <= k < |ps| && ps[k] == Err(Collect(ps).msg) && forall j :: 0 <= j < k ==> ps[j].Ok?;
      assert ParseRange(pieces[k]) == Err(ParsePieces(pieces).msg);
    }
  }

  /** The input text of a list of ranges. */
  function RenderRange(r: IdRange): string {
    ToDecimal(r.0) + "-" + ToDecimal(r.1)
  }

  function RenderPieces(rs: seq<IdRange>): (ps: seq<string>)
    ensures |ps| == |rs| && forall i :: 0 <= i < |rs| ==> ps[i] == RenderRange(rs[i])
  {
    if |rs| == 0 then [] else [RenderRange(rs[0])] + RenderPieces(rs[1..])
  }

  function Render(rs: seq<IdRange>): string {
    Join(RenderPieces(rs), ',')
  }

  lemma NoSeparator(n: nat, c: char)
    requires !IsDigitChar(c)
    ensures c !in ToDecimal(n)
  {
    var s := ToDecimal(n);
    assert forall i :: 0 <= i < |s| ==> s[i] != c;
  }

  lemma ParseRender(r: IdRange)
    ensures ',' !in RenderRange(r)
    ensures ParseRange(RenderRange(r)) == Ok(r)
  {
    NoSeparator(r.0, '-');
    NoSeparator(r.0, ',');
    NoSeparator(r.1, ',');
    SplitOnceJoin(ToDecimal(r.0), '-', ToDecimal(r.1));
    ParseDecimal(r.0);
    ParseDecimal(r.1);
  }

  /** Printing a non-empty list of ranges and preparing it gives the list back. */
  lemma PrepRender(rs: seq<IdRange>)
    requires |rs| >= 1
    ensures Prep(Render(rs)) == Ok(rs)
  {
    var ps := RenderPieces(rs);
    forall i | 0 <= i < |rs|
      ensures ',' !in ps[i] && ParseRange(ps[i]) == Ok(rs[i])
    {
      ParseRender(rs[i]);
    }
    SplitJoin(ps, ',');
    PiecesParsed(ps, rs);
  }

  lemma PiecesParsed(ps: seq<string>, rs: seq<IdRange>)
    requires |ps| == |rs|
    requires forall i :: 0 <= i < |ps| ==> ParseRange(ps[i]) == Ok(rs[i])
    ensures ParsePieces(ps) == Ok(rs)
  {
    var r := ParsePieces(ps);
    assert r.Ok?;
    assert r.value == rs;
  }

  // ---------------------------------------------------------------------------
  // Repeated digit blocks
  // ---------------------------------------------------------------------------

  /** `b` written `m` times. */
  function Repeat(b: string, m: nat): (s: string)
    ensures |s| == m * |b|
  {
    if m == 0 then [] else b + Repeat(b, m - 1)
  }

  /** Part 1's test: an even number of digits whose two halves agree. */
  predicate HalvesEqual(s: string) {
    |s| % 2 == 0 && s[..|s| / 2] == s[|s| / 2..]
  }

  /** `bytes.chunks(k)`: consecutive pieces of `k`, the last one possibly shorter. */
  function Chunks(s: string, k: nat): (cs: seq<string>)
    requires k >= 1
    ensures forall i :: 0 <= i < |cs| ==> 1 <= |cs[i]| <= k
    ensures |s| == 0 <==> |cs| == 0
    decreases |s|
  {
    if |s| == 0 then []
    else if |s| <= k then [s]
    else [s[..k]] + Chunks(s[k..], k)
  }

  predicate AllEqual(cs: seq<string>, b: string) {
    forall i :: 0 <= i < |cs| ==> cs[i] == b
  }

  /** The digits are their first `k` written `|s| / k` times. */
  predicate RepeatsPrefix(s: string, k: nat) {
    1 <= k <= |s| && |s| % k == 0 && s == Repeat(s[..k], |s| / k)
  }

  /** Part 2's test: some block length up to half the digits repeats to the whole. */
  predicate IsRepetition(s: string) {
    exists k :: 1 <= k <= |s| / 2 && RepeatsPrefix(s, k)
  }

  /** A non-empty length that `k` divides is at least `k`, and one block shorter is still divisible. */
  lemma DropBlock(n: nat, k: nat)
    requires k >= 1 && n > 0 && n % k == 0
    ensures n >= k && (n - k) % k == 0 && (n - k) / k == n / k - 1
  {
    ModUnique(n, k, n / k, 0);
    MulAway(k, n / k);
    ModUnique(n - k, k, n / k - 1, 0);
  }

  lemma AllEqualCons(c: string, cs: seq<string>, b: string)
    ensures AllEqual([c] + cs, b) <==> c == b && AllEqual(cs, b)
  {
    var all := [c] + cs;
    assert all[0] == c;
    assert forall i :: 0 <= i < |cs| ==> all[i + 1] == cs[i];
    if c == b && AllEqual(cs, b) {
      forall i | 0 <= i < |all| ensures all[i] == b {
        if i > 0 { assert all[i] == cs[i - 1]; }
      }
    }
  }

  /** Chunking a text longer than `k` peels off its first `k` characters. */
  lemma ChunksUnfold(t: string, b: string)
    requires |b| >= 1 && |t| > |b|
    ensures AllEqual(Chunks(t, |b|), b) <==> t[..|b|] == b && AllEqual(Chunks(t[|b|..], |b|), b)
  {
    var k := |b|;
    assert Chunks(t, k) == [t[..k]] + Chunks(t[k..], k);
    AllEqualCons(t[..k], Chunks(t[k..], k), b);
  }

  /**
   * When `k` divides the length, every chunk equals `b` exactly when the
   * text is `b` repeated.
   */
  lemma {:induction false} ChunksMatch(t: string, b: string)
    requires |b| >= 1 && |t| % |b| == 0
    ensures AllEqual(Chunks(t, |b|), b) <==> t == Repeat(b, |t| / |b|)
    decreases |t|
  {
    var k := |b|;
    if |t| > 0 {
      DropBlock(|t|, k);
      var rest := t[k..];
      ChunksMatch(rest, b);
      assert t == t[..k] + rest;
      assert Repeat(b, |t| / k) == b + Repeat(b, |t| / k - 1);
      if |t| == k {
        assert Chunks(t, k) == [t];
        assert Repeat(b, 0) == [];
        AllEqualCons(t, [], b);
      } else {
        ChunksUnfold(t, b);
      }
    }
  }

  /** `is_invalid`: tries each block length that divides the digit count. */
  method IsInvalid(s: string) returns (r: bool)
    ensures r <==> IsRepetition(s)
  {
    var n := |s|;
    var k := 1;
    while k <= n / 2
      invariant 1 <= k <= n / 2 + 1
      invariant forall j :: 1 <= j < k ==> !RepeatsPrefix(s, j)
    {
      if n % k == 0 {
        ChunksMatch(s, s[..k]);
        if AllEqual(Chunks(s, k), s[..k]) {
          assert RepeatsPrefix(s, k);
          return true;
        }
      }
      k := k + 1;
    }
    return false;
  }

  /** A block length `k` with `RepeatsPrefix` gives `|s| / k` copies of the block. */
  lemma RepeatCount(s: string, k: nat)
    requires 1 <= k <= |s| / 2 && |s| % k == 0
    ensures |s| / k >= 2
  {
    DivLower(|s|, 2, k);
    DivLower(|s|, k, 2);
  }

  /** `Repeat` starts with its block. */
  lemma RepeatPrefix(b: string, m: nat)
    requires m >= 1
    ensures Repeat(b, m)[..|b|] == b
  {
    assert Repeat(b, m) == b + Repeat(b, m - 1);
  }

  /** Part 2's test holds exactly when the digits are some block written at least twice. */
  lemma RepetitionIff(s: string)
    ensures IsRepetition(s) <==> exists b, m :: |b| >= 1 && m >= 2 && s == Repeat(b, m)
  {
    if IsRepetition(s) {
      var k :| 1 <= k <= |s| / 2 && RepeatsPrefix(s, k);
      RepeatCount(s, k);
      assert s == Repeat(s[..k], |s| / k);
    }
    if exists b, m :: |b| >= 1 && m >= 2 && s == Repeat(b, m) {
      var b, m :| |b| >= 1 && m >= 2 && s == Repeat(b, m);
      var k := |b|;
      ModUnique(|s|, k, m, 0);
      MulMono(k, 2, m);
      DivLower(|s|, 2, k);
      RepeatPrefix(b, m);
      assert RepeatsPrefix(s, k);
    }
  }

  /** Every part 1 invalid ID is a part 2 invalid ID. */
  lemma HalvesRepeat(s: string)
    requires |s| >= 1 && HalvesEqual(s)
    ensures IsRepetition(s)
  {
    var k := |s| / 2;
    ModUnique(|s|, k, 2, 0);
    assert Repeat(s[..k], 2) == s[..k] + s[..k] + [];
    assert s == s[..k] + s[k..];
    assert RepeatsPrefix(s, k);
  }

  // ---------------------------------------------------------------------------
  // The two parts
  // ---------------------------------------------------------------------------

  /** The test of the given part applied to an ID's decimal form. */
  predicate Flagged(part: nat, x: nat) {
    if part == 1 then HalvesEqual(ToDecimal(x)) else IsRepetition(ToDecimal(x))
  }

  /** Sum of the flagged IDs in `lo..=hi`. */
  function RangeSum(part: nat, lo: nat, hi: int): nat
    decreases hi - lo
  {
    if hi < lo then 0 else RangeSum(part, lo, hi - 1) + (if Flagged(part, hi) then hi else 0)
  }

  /** Sum of the flagged IDs over a list of ranges. */
  function Total(part: nat, rs: seq<IdRange>): nat {
    if |rs| == 0 then 0 else Total(part, rs[..|rs| - 1]) + RangeSum(part, rs[|rs| - 1].0, rs[|rs| - 1].1)
  }

  /** The inner loop over one range; `part` 2 decides through `is_invalid`. */
  method SumRange(part: nat, lo: nat, hi: nat) returns (sum: nat)
    ensures sum == RangeSum(part, lo, hi)
  {
    sum := 0;
    var x := lo;
    while x <= hi
      invariant lo <= x && (lo <= hi ==> x <= hi + 1) && (hi < lo ==> x == lo)
      invariant sum == RangeSum(part, lo, x - 1)
    {
      var flagged: bool;
      if part == 1 {
        var s := ToDecimal(x);
        flagged := |s| % 2 == 0 && s[..|s| / 2] == s[|s| / 2..];
      } else {
        flagged := IsInvalid(ToDecimal(x));
      }
      if flagged {
        sum := sum + x;
      }
      x := x + 1;
    }
  }

  /** Both parts: the prepared ranges, each swept in order, or the preparation's error. */
  method Solve(part: nat, prepped: Result<seq<IdRange>>) returns (r: Result<nat>)
    ensures prepped.Err? ==> r == Err(prepped.msg)
    ensures prepped.Ok? ==> r == Ok(Total(part, prepped.value))
  {
    if prepped.Err? {
      return Err(prepped.msg);
    }
    var rs := prepped.value;
    var sum := 0;
    var i := 0;
    while i < |rs|
      invariant 0 <= i <= |rs|
      invariant sum == Total(part, rs[..i])
    {
      var s := SumRange(part, rs[i].0, rs[i].1);
      TotalStep(part, rs, i);
      sum := sum + s;
      i := i + 1;
    }
    assert rs[..|rs|] == rs;
    return Ok(sum);
  }

  lemma TotalStep(part: nat, rs: seq<IdRange>, i: nat)
    requires i < |rs|
    ensures Total(part, rs[..i + 1]) == Total(part, rs[..i]) + RangeSum(part, rs[i].0, rs[i].1)
  {
    assert rs[..i + 1][..i] == rs[..i];
  }

  method Part1(lines: seq<string>) returns (r: Result<nat>)
    requires |lines| >= 1
    ensures Prep(lines[0]).Err? ==> r == Err(Prep(lines[0]).msg)
    ensures Prep(lines[0]).Ok? ==> r == Ok(Total(1, Prep(lines[0]).value))
  {
    r := Solve(1, Prep(lines[0]));
  }

  method Part2(lines: seq<string>) returns (r: Result<nat>)
    requires |lines| >= 1
    ensures Prep(lines[0]).Err? ==> r == Err(Prep(lines[0]).msg)
    ensures Prep(lines[0]).Ok? ==> r == Ok(Total(2, Prep(lines[0]).value))
  {
    r := Solve(2, Prep(lines[0]));
  }

  /** Part 1's sum never exceeds part 2's, range by range. */
  lemma {:induction false} RangeSumsOrdered(lo: nat, hi: int)
    ensures RangeSum(1, lo, hi) <= RangeSum(2, lo, hi)
    decreases hi - lo
  {
    if hi >= lo {
      RangeSumsOrdered(lo, hi - 1);
      if HalvesEqual(ToDecimal(hi)) {
        HalvesRepeat(ToDecimal(hi));
      }
    }
  }

  lemma {:induction false} TotalsOrdered(rs: seq<IdRange>)
    ensures Total(1, rs) <= Total(2, rs)
  {
    if |rs| > 0 {
      TotalsOrdered(rs[..|rs| - 1]);
      RangeSumsOrdered(rs[|rs| - 1].0, rs[|rs| - 1].1);
    }
  }

  // ---------------------------------------------------------------------------
  // Small cases from the example
  // ---------------------------------------------------------------------------

  /** A two-digit ID fails part 1 exactly when both its digits are the same. */
  lemma TwoDigitFlagged(x: nat)
    requires 10 <= x <= 99
    ensures Flagged(1, x) <==> x / 10 == x % 10
  {
    var s := ToDecimal(x);
    assert 1 <= x / 10 < 10;
    assert ToDecimal(x / 10) == [DigitChar(x / 10)];
    assert s == [DigitChar(x / 10), DigitChar(x % 10)];
    assert s[..1] == [s[0]] && s[1..] == [s[1]];
  }

  /** IDs above `m` that pass part 1 add nothing to the range's sum. */
  lemma {:induction false} NoneFlaggedAbove(lo: nat, m: int, hi: int)
    requires lo - 1 <= m <= hi
    requires forall x: nat :: m < x <= hi ==> !Flagged(1, x)
    ensures RangeSum(1, lo, hi) == RangeSum(1, lo, m)
    decreases hi - m
  {
    if hi > m {
      NoneFlaggedAbove(lo, m, hi - 1);
    }
  }

  /** In `11-22` only 11 and 22 are invalid for part 1. */
  lemma ElevenToTwentyTwo()
    ensures RangeSum(1, 11, 22) == 33
  {
    forall x: nat | 11 <= x <= 22
      ensures Flagged(1, x) <==> x == 11 || x == 22
    {
      TwoDigitFlagged(x);
    }
    NoneFlaggedAbove(11, 11, 21);
    assert RangeSum(1, 11, 11) == 11;
    assert RangeSum(1, 11, 22) == RangeSum(1, 11, 21) + 22;
  }

}
