/**
 * Day 3: every non-empty line is a bank of batteries, one ASCII digit each.
 * Part 1 takes the largest two-digit number formed by two batteries in
 * order; part 2 the largest twelve-digit one, found greedily.
 */
module Day3 {
  import opened Common
  import opened Text

  // ---------------------------------------------------------------------------
  // Digits and their base-10 fold
  // ---------------------------------------------------------------------------

  /**
   * `(c - b'0') as usize`: the `u8` subtraction wraps below `'0'`, as in a
   * release build.
   */
  function DigitOf(c: byte): (v: nat)
    ensures v < 256
    ensures IsDigit(c) <==> v <= 9
    ensures IsDigit(c) ==> v == c - ZERO
  {
    (c - ZERO) % 256
  }

  function Pow10(n: nat): (p: nat)
    ensures p >= 1
  {
    if n == 0 then 1 else Pow10(n - 1) * 10
  }

  /** `chars_to_digit`: fold in base 10, most significant byte first. */
  function FoldDigits(cs: seq<byte>): nat {
    if |cs| == 0 then 0 else FoldDigits(cs[..|cs| - 1]) * 10 + DigitOf(cs[|cs| - 1])
  }

  predicate AllDigitBytes(d: seq<byte>) {
    forall i :: 0 <= i < |d| ==> IsDigit(d[i])
  }

  /** On the bytes of a decimal numeral the fold is the numeral's value, as `parse` reads it. */
  lemma {:induction false} FoldIsDecimalValue(s: string)
    requires AllDigits(s)
    ensures FoldDigits(AsBytes(s)) == DigitsValue(s)
  {
    AsBytesAscii(s);
    FoldCastIsValue(s);
  }

  lemma {:induction false} FoldCastIsValue(s: string)
    requires AllDigits(s)
    ensures FoldDigits(ToBytes(s)) == DigitsValue(s)
  {
    if |s| > 0 {
      var p := s[..|s| - 1];
      assert ToBytes(s)[..|s| - 1] == ToBytes(p);
      FoldCastIsValue(p);
    }
  }

  lemma Shift10(x: nat, p: nat, y: nat, z: nat)
    ensures (x * p + y) * 10 + z == x * (p * 10) + (y * 10 + z)
  {
  }

  /** Folding a concatenation shifts the first part left by the second's length. */
  lemma {:induction false} FoldAppend(a: seq<byte>, b: seq<byte>)
    ensures FoldDigits(a + b) == FoldDigits(a) * Pow10(|b|) + FoldDigits(b)
    decreases |b|
  {
    if |b| == 0 {
      assert a + b == a;
    } else {
      var b' := b[..|b| - 1];
      var c := b[|b| - 1];
      var ab := a + b;
      assert ab[..|ab| - 1] == a + b' && ab[|ab| - 1] == c;
      assert FoldDigits(ab) == FoldDigits(a + b') * 10 + DigitOf(c);
      FoldAppend(a, b');
      assert FoldDigits(b) == FoldDigits(b') * 10 + DigitOf(c);
      Shift10(FoldDigits(a), Pow10(|b'|), FoldDigits(b'), DigitOf(c));
    }
  }

  /** The leading byte contributes its digit times a power of ten. */
  lemma FoldCons(c: byte, rest: seq<byte>)
    ensures FoldDigits([c] + rest) == DigitOf(c) * Pow10(|rest|) + FoldDigits(rest)
  {
    assert FoldDigits([c]) == DigitOf(c) by {
      assert [c][..0] == [];
    }
    FoldAppend([c], rest);
  }

  /** `k` digits fold to less than `10^k`. */
  lemma {:induction false} FoldBound(cs: seq<byte>)
    requires AllDigitBytes(cs)
    ensures FoldDigits(cs) < Pow10(|cs|)
  {
    if |cs| > 0 {
      var p := cs[..|cs| - 1];
      FoldBound(p);
      MulMono(10, FoldDigits(p), Pow10(|p|) - 1);
    }
  }

  // ---------------------------------------------------------------------------
  // Part 1: the best pair
  // ---------------------------------------------------------------------------

  /** `chars_to_digit(&[chars[i], chars[j]])`. */
  function Pair(d: seq<byte>, i: int, j: int): nat
    requires 0 <= i < j < |d|
  {
    FoldDigits([d[i], d[j]])
  }

  /** Two bytes fold to ten times the first digit plus the second. */
  lemma PairValue(d: seq<byte>, i: int, j: int)
    requires 0 <= i < j < |d|
    ensures Pair(d, i, j) == 10 * DigitOf(d[i]) + DigitOf(d[j])
  {
    var cs := [d[i], d[j]];
    assert cs[..1] == [d[i]] && [d[i]][..0] == [];
    assert FoldDigits(cs) == FoldDigits([d[i]]) * 10 + DigitOf(d[j]);
    assert FoldDigits([d[i]]) == FoldDigits([]) * 10 + DigitOf(d[i]);
  }

  /**
   * `m` is what the nested loops leave in `max`: no pair beats it, and some
   * pair reaches it when there is a pair at all (otherwise it stays 0).
   */
  predicate IsPairMax(d: seq<byte>, m: nat) {
    && (forall i, j :: 0 <= i < j < |d| ==> Pair(d, i, j) <= m)
    && (if |d| >= 2 then exists i, j :: 0 <= i < j < |d| && Pair(d, i, j) == m else m == 0)
  }

  lemma PairMaxUnique(d: seq<byte>, a: nat, b: nat)
    requires IsPairMax(d, a) && IsPairMax(d, b)
    ensures a == b
  {
    if |d| >= 2 {
      var i, j :| 0 <= i < j < |d| && Pair(d, i, j) == a;
      var i', j' :| 0 <= i' < j' < |d| && Pair(d, i', j') == b;
    }
  }

  /** Index of a largest digit value in `p`. */
  function ArgMaxDigit(p: seq<byte>): (m: nat)
    requires |p| >= 1
    ensures m < |p| && forall i :: 0 <= i < |p| ==> DigitOf(p[i]) <= DigitOf(p[m])
  {
    if |p| == 1 then 0
    else
      var m := ArgMaxDigit(p[..|p| - 1]);
      assert forall i :: 0 <= i < |p| - 1 ==> p[..|p| - 1][i] == p[i];
      if DigitOf(p[|p| - 1]) > DigitOf(p[m]) then |p| - 1 else m
  }

  /**
   * Reference value for part 1, by the last battery used: either the best
   * pair avoids the last battery, or it pairs the last one with the best
   * digit before it.
   */
  function MaxPair(d: seq<byte>): nat {
    if |d| < 2 then 0
    else
      var best := MaxPair(d[..|d| - 1]);
      var last := Pair(d, ArgMaxDigit(d[..|d| - 1]), |d| - 1);
      if best >= last then best else last
  }

  /** A pair that ends at the last battery is led by at most the best earlier digit. */
  lemma LastPair(d: seq<byte>, i: int)
    requires |d| >= 2 && 0 <= i < |d| - 1
    ensures Pair(d, i, |d| - 1) <= Pair(d, ArgMaxDigit(d[..|d| - 1]), |d| - 1)
  {
    var n := |d|;
    var p := d[..n - 1];
    var m := ArgMaxDigit(p);
    PairValue(d, i, n - 1);
    PairValue(d, m, n - 1);
    assert p[i] == d[i] && p[m] == d[m];
  }

  /** No pair beats the reference value. */
  lemma {:induction false} MaxPairUpper(d: seq<byte>)
    ensures forall i, j :: 0 <= i < j < |d| ==> Pair(d, i, j) <= MaxPair(d)
  {
    if |d| >= 2 {
      var n := |d|;
      var p := d[..n - 1];
      MaxPairUpper(p);
      forall i, j | 0 <= i < j < n ensures Pair(d, i, j) <= MaxPair(d) {
        if j == n - 1 {
          LastPair(d, i);
        } else {
          assert Pair(d, i, j) == Pair(p, i, j);
        }
      }
    }
  }

  /** Some pair reaches the reference value when there is a pair at all. */
  lemma {:induction false} MaxPairReached(d: seq<byte>)
    requires |d| >= 2
    ensures exists i, j :: 0 <= i < j < |d| && Pair(d, i, j) == MaxPair(d)
  {
    var n := |d|;
    var p := d[..n - 1];
    var m := ArgMaxDigit(p);
    if n - 1 >= 2 && MaxPair(p) >= Pair(d, m, n - 1) {
      MaxPairReached(p);
      var i, j :| 0 <= i < j < n - 1 && Pair(p, i, j) == MaxPair(p);
      assert Pair(d, i, j) == MaxPair(d);
    } else {
      assert Pair(d, m, n - 1) == MaxPair(d);
    }
  }

  /** The reference value is the best pair: an upper bound that some pair reaches. */
  lemma MaxPairIsMax(d: seq<byte>)
    ensures IsPairMax(d, MaxPair(d))
  {
    MaxPairUpper(d);
    if |d| >= 2 {
      MaxPairReached(d);
    }
  }

  /** `part_1`'s nested loops over one line: the best ordered pair. */
  method LineMax(d: seq<byte>) returns (m: nat)
    ensures IsPairMax(d, m)
    ensures m == MaxPair(d)
  {
    m := 0;
    var i := 0;
    while i < |d|
      invariant 0 <= i <= |d|
      invariant forall a, b :: 0 <= a < i && a < b < |d| ==> Pair(d, a, b) <= m
      invariant m == 0 || exists a, b :: 0 <= a < b < |d| && Pair(d, a, b) == m
    {
      var j := i + 1;
      while j < |d|
        invariant i + 1 <= j <= |d|
        invariant forall a, b :: 0 <= a < i && a < b < |d| ==> Pair(d, a, b) <= m
        invariant forall b :: i < b < j ==> Pair(d, i, b) <= m
        invariant m == 0 || exists a, b :: 0 <= a < b < |d| && Pair(d, a, b) == m
      {
        var jolt := FoldDigits([d[i], d[j]]);
        assert jolt == Pair(d, i, j);
        if jolt > m {
          m := jolt;
        }
        j := j + 1;
      }
      i := i + 1;
    }
    if |d| >= 2 && m == 0 {
      assert Pair(d, 0, 1) <= m;
    }
    MaxPairIsMax(d);
    PairMaxUnique(d, m, MaxPair(d));
  }

  /** Sum of `MaxPair` of each non-empty line's UTF-8 bytes, in order. */
  function PairTotal(lines: seq<string>): nat {
    if |lines| == 0 then 0
    else
      var l := lines[|lines| - 1];
      PairTotal(lines[..|lines| - 1]) + (if |l| == 0 then 0 else MaxPair(AsBytes(l)))
  }

  /** Adding one more line adds its best pair, or nothing for an empty line. */
  lemma PairTotalSnoc(lines: seq<string>, i: nat)
    requires i < |lines|
    ensures PairTotal(lines[..i + 1]) == PairTotal(lines[..i]) + (if |lines[i]| == 0 then 0 else MaxPair(AsBytes(lines[i])))
  {
    assert lines[..i + 1][..i] == lines[..i];
  }

  /** `part_1`: the best pair of every non-empty line, summed. */
  method Part1(lines: seq<string>) returns (sum: nat)
    ensures sum == PairTotal(lines)
  {
    sum := 0;
    var i := 0;
    while i < |lines|
      invariant 0 <= i <= |lines|
      invariant sum == PairTotal(lines[..i])
    {
      PairTotalSnoc(lines, i);
      if |lines[i]| != 0 {
        var best := LineMax(AsBytes(lines[i]));
        sum := sum + best;
      }
      i := i + 1;
    }
    assert lines[..|lines|] == lines;
  }

  // ---------------------------------------------------------------------------
  // Part 2: the greedy choice of k digits
  // ---------------------------------------------------------------------------

  /** The inner loop of `max_joltage`: the first index of a largest byte in `d[lo..hi)`. */
  function FirstMax(d: seq<byte>, lo: nat, hi: nat): (m: nat)
    requires lo < hi <= |d|
    ensures lo <= m < hi
    decreases hi
  {
    if hi == lo + 1 then lo
    else
      var m := FirstMax(d, lo, hi - 1);
      if d[hi - 1] > d[m] then hi - 1 else m
  }

  /** `FirstMax` is a largest byte of the window, and every byte before it is strictly smaller. */
  lemma {:induction false} FirstMaxIsMax(d: seq<byte>, lo: nat, hi: nat)
    requires lo < hi <= |d|
    ensures forall i :: lo <= i < hi ==> d[i] <= d[FirstMax(d, lo, hi)]
    ensures forall i :: lo <= i < FirstMax(d, lo, hi) ==> d[i] < d[FirstMax(d, lo, hi)]
    decreases hi
  {
    if hi > lo + 1 {
      FirstMaxIsMax(d, lo, hi - 1);
    }
  }

  predicate Increasing(js: seq<nat>) {
    forall a, b :: 0 <= a < b < |js| ==> js[a] < js[b]
  }

  predicate IndicesFrom(js: seq<nat>, lo: nat, n: nat) {
    forall a :: 0 <= a < |js| ==> lo <= js[a] < n
  }

  /**
   * The indices `max_joltage` picks when `r` digits remain to be chosen at
   * or after `start`: the first largest byte in the window that still leaves
   * room for the other `r - 1`.
   */
  function Greedy(d: seq<byte>, start: nat, r: nat): (idx: seq<nat>)
    requires start + r <= |d|
    ensures |idx| == r && IndicesFrom(idx, start, |d|)
    decreases r
  {
    if r == 0 then []
    else
      var m := FirstMax(d, start, |d| - r + 1);
      var rest := Greedy(d, m + 1, r - 1);
      var idx := [m] + rest;
      assert forall a :: 1 <= a < |idx| ==> idx[a] == rest[a - 1];
      idx
  }

  /** The first greedy index is the window's first largest byte; the rest continue after it. */
  lemma GreedyHead(d: seq<byte>, start: nat, r: nat)
    requires 0 < r && start + r <= |d|
    ensures var m := FirstMax(d, start, |d| - r + 1);
      && Greedy(d, start, r)[0] == m
      && Greedy(d, start, r)[1..] == Greedy(d, m + 1, r - 1)
  {
    var m := FirstMax(d, start, |d| - r + 1);
    assert Greedy(d, start, r) == [m] + Greedy(d, m + 1, r - 1);
  }

  /** An index below every index of an increasing sequence can lead it. */
  lemma ConsIncreasing(m: nat, rest: seq<nat>, n: nat)
    requires Increasing(rest) && IndicesFrom(rest, m + 1, n)
    ensures Increasing([m] + rest)
  {
    var idx := [m] + rest;
    assert forall a :: 1 <= a < |idx| ==> idx[a] == rest[a - 1];
  }

  /** The greedy indices strictly increase, so they pick a subsequence. */
  lemma {:induction false} GreedyIncreasing(d: seq<byte>, start: nat, r: nat)
    requires start + r <= |d|
    ensures Increasing(Greedy(d, start, r))
    decreases r
  {
    if r > 0 {
      var g := Greedy(d, start, r);
      var m := FirstMax(d, start, |d| - r + 1);
      GreedyHead(d, start, r);
      GreedyIncreasing(d, m + 1, r - 1);
      ConsIncreasing(m, g[1..], |d|);
      assert g == [m] + g[1..];
    }
  }

  /** The bytes at the given indices, in order. */
  function Picked(d: seq<byte>, js: seq<nat>): (cs: seq<byte>)
    requires IndicesFrom(js, 0, |d|)
    ensures |cs| == |js| && forall a :: 0 <= a < |js| ==> cs[a] == d[js[a]]
  {
    seq(|js|, a requires 0 <= a < |js| => d[js[a]])
  }

  lemma PickedSnoc(d: seq<byte>, js: seq<nat>, j: nat)
    requires IndicesFrom(js, 0, |d|) && j < |d|
    ensures IndicesFrom(js + [j], 0, |d|)
    ensures Picked(d, js + [j]) == Picked(d, js) + [d[j]]
  {
  }

  /** No increasing choice of `k` of the bytes folds to more than `v`. */
  ghost predicate Dominates(d: seq<byte>, k: nat, v: nat) {
    forall js :: |js| == k && Increasing(js) && IndicesFrom(js, 0, |d|) ==> FoldDigits(Picked(d, js)) <= v
  }

  /** The value `max_joltage(d, k)` returns. */
  function GreedyValue(d: seq<byte>, k: nat): nat
    requires k <= |d|
  {
    FoldDigits(Picked(d, Greedy(d, 0, k)))
  }

  /** The inner loop of `max_joltage`: a strict `>` keeps the first largest byte. */
  method WindowMax(d: seq<byte>, start: nat, end: nat) returns (maxIdx: nat)
    requires start < end <= |d|
    ensures maxIdx == FirstMax(d, start, end)
    ensures start <= maxIdx < end && forall i :: start <= i < end ==> d[i] <= d[maxIdx]
  {
    maxIdx := start;
    var i := start;
    while i < end
      invariant start <= i <= end
      invariant maxIdx == (if i == start then start else FirstMax(d, start, i))
    {
      if d[i] > d[maxIdx] {
        maxIdx := i;
      }
      i := i + 1;
    }
    FirstMaxIsMax(d, start, end);
  }

  /** The bytes `max_joltage` pushes when `r` digits remain to be chosen at or after `start`. */
  function GreedyDigits(d: seq<byte>, start: nat, r: nat): (cs: seq<byte>)
    requires start + r <= |d|
    ensures |cs| == r
    decreases r
  {
    if r == 0 then []
    else
      var m := FirstMax(d, start, |d| - r + 1);
      [d[m]] + GreedyDigits(d, m + 1, r - 1)
  }

  /** The pushed bytes are the bytes at the greedy indices. */
  lemma {:induction false} GreedyDigitsPicked(d: seq<byte>, start: nat, r: nat)
    requires start + r <= |d|
    ensures GreedyDigits(d, start, r) == Picked(d, Greedy(d, start, r))
    decreases r
  {
    if r > 0 {
      var m := FirstMax(d, start, |d| - r + 1);
      GreedyDigitsPicked(d, m + 1, r - 1);
      assert Greedy(d, start, r) == [m] + Greedy(d, m + 1, r - 1);
    }
  }

  /** The greedy bytes chosen so far, followed by the rest still to choose, are all the greedy bytes. */
  predicate Progress(d: seq<byte>, k: nat, start: nat, left: nat, result: seq<byte>) {
    && start + left <= |d| && k <= |d|
    && result + GreedyDigits(d, start, left) == GreedyDigits(d, 0, k)
  }

  /** One pass of the outer loop moves the next greedy byte into the result. */
  lemma GreedyStep(d: seq<byte>, start: nat, left: nat, result: seq<byte>, k: nat, m: nat)
    requires 0 < left && Progress(d, k, start, left, result)
    requires m == FirstMax(d, start, |d| - left + 1)
    ensures m + 1 + (left - 1) <= |d|
    ensures Progress(d, k, m + 1, left - 1, result + [d[m]])
  {
    var rest := GreedyDigits(d, m + 1, left - 1);
    assert GreedyDigits(d, start, left) == [d[m]] + rest;
    assert result + ([d[m]] + rest) == (result + [d[m]]) + rest;
  }

  /** Once no digits are left to choose, the result holds all the greedy bytes. */
  lemma GreedyDone(d: seq<byte>, start: nat, result: seq<byte>, k: nat)
    requires Progress(d, k, start, 0, result)
    ensures result == Picked(d, Greedy(d, 0, k))
  {
    assert result + [] == result;
    GreedyDigitsPicked(d, 0, k);
  }

  /** The outer loop of `max_joltage`: the bytes at the greedy indices, in order. */
  method PickDigits(d: seq<byte>, k: nat) returns (result: seq<byte>)
    requires k <= |d|
    ensures result == Picked(d, Greedy(d, 0, k))
  {
    result := [];
    var start: nat := 0;
    var left: nat := k;
    assert Progress(d, k, start, left, result) by {
      assert result + GreedyDigits(d, 0, k) == GreedyDigits(d, 0, k);
    }
    while left > 0
      invariant Progress(d, k, start, left, result)
    {
      var end := |d| - left + 1;
      var maxIdx := WindowMax(d, start, end);
      GreedyStep(d, start, left, result, k, maxIdx);
      result := result + [d[maxIdx]];
      start := maxIdx + 1;
      left := left - 1;
    }
    GreedyDone(d, start, result, k);
  }

  /**
   * `max_joltage`: pick `k` digits greedily, then fold them; on digit bytes
   * no other choice of `k` digits in order does better.
   */
  method MaxJoltage(d: seq<byte>, k: nat) returns (v: nat)
    requires k <= |d|
    ensures v == GreedyValue(d, k)
    ensures AllDigitBytes(d) ==> Dominates(d, k, v)
  {
    var result := PickDigits(d, k);
    v := FoldDigits(result);
    GreedyValueOptimal(d, k);
  }

  /** No increasing choice of `k` digits folds to more than the greedy value. */
  lemma GreedyValueOptimal(d: seq<byte>, k: nat)
    requires k <= |d|
    ensures AllDigitBytes(d) ==> Dominates(d, k, GreedyValue(d, k))
  {
    if AllDigitBytes(d) {
      forall js | |js| == k && Increasing(js) && IndicesFrom(js, 0, |d|)
        ensures FoldDigits(Picked(d, js)) <= GreedyValue(d, k)
      {
        GreedyOptimal(d, 0, k, js);
      }
    }
  }

  /** In an increasing index sequence the `a`-th index is at least `a` past the first. */
  lemma {:induction false} Spread(js: seq<nat>, a: nat)
    requires Increasing(js) && a < |js|
    ensures js[a] >= js[0] + a
  {
    if a > 0 {
      Spread(js, a - 1);
    }
  }

  /** `a` is at most `b` in dictionary order; both have the same length. */
  predicate LexAtMost(a: seq<byte>, b: seq<byte>)
    requires |a| == |b|
  {
    |a| == 0 || a[0] < b[0] || (a[0] == b[0] && LexAtMost(a[1..], b[1..]))
  }

  /** On digit bytes of equal length, dictionary order is numeric order of the fold. */
  lemma {:induction false} LexFold(a: seq<byte>, b: seq<byte>)
    requires |a| == |b| && AllDigitBytes(a) && AllDigitBytes(b) && LexAtMost(a, b)
    ensures FoldDigits(a) <= FoldDigits(b)
  {
    if |a| > 0 {
      var ta, tb := a[1..], b[1..];
      assert a == [a[0]] + ta && b == [b[0]] + tb;
      FoldCons(a[0], ta);
      FoldCons(b[0], tb);
      if a[0] < b[0] {
        FoldBound(ta);
      } else {
        LexFold(ta, tb);
      }
      LeadingCompare(FoldDigits(a), FoldDigits(b), DigitOf(a[0]), DigitOf(b[0]), Pow10(|ta|),
                     FoldDigits(ta), FoldDigits(tb));
    }
  }

  /**
   * Two numbers written as a leading digit times `p` plus a rest below `p`:
   * a smaller leading digit, or the same one and a smaller rest, gives a smaller number.
   */
  lemma LeadingCompare(u: nat, v: nat, x: nat, y: nat, p: nat, a: nat, b: nat)
    requires u == x * p + a && v == y * p + b
    requires (x < y && a < p) || (x == y && a <= b)
    ensures u <= v
  {
    if x < y {
      MulMono(p, x + 1, y);
    }
  }

  /** Dictionary order decided at the first byte, or tied there and decided on the rest. */
  lemma LexCons(a: seq<byte>, b: seq<byte>)
    requires |a| == |b| > 0
    requires a[0] < b[0] || (a[0] == b[0] && LexAtMost(a[1..], b[1..]))
    ensures LexAtMost(a, b)
  {
  }

  /** Dropping the first index drops the first picked byte. */
  lemma PickedTail(d: seq<byte>, js: seq<nat>)
    requires |js| > 0 && IndicesFrom(js, 0, |d|)
    ensures IndicesFrom(js[1..], 0, |d|)
    ensures Picked(d, js)[1..] == Picked(d, js[1..])
  {
    var tail := js[1..];
    assert forall a :: 0 <= a < |tail| ==> tail[a] == js[a + 1];
  }

  /** Increasing indices after a first index at least `m` all lie past `m`. */
  lemma TailFrom(js: seq<nat>, m: nat, n: nat)
    requires |js| > 0 && Increasing(js) && IndicesFrom(js, 0, n) && js[0] >= m
    ensures Increasing(js[1..]) && IndicesFrom(js[1..], m + 1, n)
  {
    assert forall a :: 0 <= a < |js| - 1 ==> js[1..][a] == js[a + 1] && js[0] < js[a + 1];
  }

  /** The greedy bytes come first in dictionary order among all increasing choices of `r` indices. */
  lemma {:induction false} GreedyLex(d: seq<byte>, start: nat, r: nat, js: seq<nat>)
    requires start + r <= |d|
    requires |js| == r && Increasing(js) && IndicesFrom(js, start, |d|)
    ensures LexAtMost(Picked(d, js), Picked(d, Greedy(d, start, r)))
    decreases r
  {
    if r > 0 {
      var g := Greedy(d, start, r);
      var m := FirstMax(d, start, |d| - r + 1);
      FirstMaxIsMax(d, start, |d| - r + 1);
      GreedyHead(d, start, r);
      Spread(js, r - 1);
      PickedTail(d, js);
      PickedTail(d, g);
      if d[js[0]] == d[m] {
        TailFrom(js, m, |d|);
        GreedyLex(d, m + 1, r - 1, js[1..]);
      }
      LexCons(Picked(d, js), Picked(d, g));
    }
  }

  /**
   * On digit bytes the greedy choice is optimal: no increasing choice of `r`
   * indices at or after `start` folds to more.
   */
  lemma GreedyOptimal(d: seq<byte>, start: nat, r: nat, js: seq<nat>)
    requires AllDigitBytes(d) && start + r <= |d|
    requires |js| == r && Increasing(js) && IndicesFrom(js, start, |d|)
    ensures FoldDigits(Picked(d, js)) <= FoldDigits(Picked(d, Greedy(d, start, r)))
  {
    GreedyLex(d, start, r, js);
    LexFold(Picked(d, js), Picked(d, Greedy(d, start, r)));
  }

  /** Picking two indices folds the pair they form. */
  lemma PickedPair(d: seq<byte>, i: nat, j: nat)
    requires i < j < |d|
    ensures FoldDigits(Picked(d, [i, j])) == Pair(d, i, j)
  {
    assert Picked(d, [i, j]) == [d[i], d[j]];
  }

  /** The greedy pair is one of the pairs part 1 considers. */
  lemma GreedyIsPair(d: seq<byte>)
    requires |d| >= 2
    ensures GreedyValue(d, 2) <= MaxPair(d)
  {
    var i, j := GreedyPairIndices(d);
    MaxPairUpper(d);
  }

  /** The two greedy indices, as a pair part 1 considers. */
  lemma GreedyPairIndices(d: seq<byte>) returns (i: nat, j: nat)
    requires |d| >= 2
    ensures i < j < |d| && GreedyValue(d, 2) == Pair(d, i, j)
  {
    var g := Greedy(d, 0, 2);
    GreedyIncreasing(d, 0, 2);
    i, j := g[0], g[1];
    assert g == [i, j];
    PickedPair(d, i, j);
  }

  /** For two digits the greedy value is part 1's best pair. */
  lemma GreedyPair(d: seq<byte>)
    requires AllDigitBytes(d) && |d| >= 2
    ensures GreedyValue(d, 2) == MaxPair(d)
  {
    GreedyIsPair(d);
    MaxPairIsMax(d);
    var i, j :| 0 <= i < j < |d| && Pair(d, i, j) == MaxPair(d);
    PickedPair(d, i, j);
    GreedyOptimal(d, 0, 2, [i, j]);
  }

  /** Every non-empty line holds at least twelve bytes, as `part_2` needs. */
  predicate LongLines(lines: seq<string>) {
    forall i :: 0 <= i < |lines| && |lines[i]| != 0 ==> ByteLength(lines[i]) >= 12
  }

  /**
   * What `part_2` adds for one line: nothing for an empty line, else its best
   * twelve digits. A non-empty line of fewer than twelve bytes panics there;
   * `LongLines` rules it out, and it counts as nothing here.
   */
  function LineValue(l: string): nat {
    if |l| == 0 || ByteLength(l) < 12 then 0 else GreedyValue(AsBytes(l), 12)
  }

  /** Sum of the greedy twelve-digit values over the non-empty lines, in order. */
  function GreedyTotal(lines: seq<string>): nat {
    if |lines| == 0 then 0 else GreedyTotal(lines[..|lines| - 1]) + LineValue(lines[|lines| - 1])
  }

  /** Adding one more line adds its value. */
  lemma GreedyTotalSnoc(lines: seq<string>, i: nat)
    requires i < |lines|
    ensures GreedyTotal(lines[..i + 1]) == GreedyTotal(lines[..i]) + LineValue(lines[i])
  {
    assert lines[..i + 1][..i] == lines[..i];
  }

  /** One line of `part_2`: nothing for an empty line, else `max_joltage(line, 12)`. */
  method LineJoltage(line: string) returns (best: nat)
    requires |line| != 0 ==> ByteLength(line) >= 12
    ensures best == LineValue(line)
  {
    best := 0;
    if |line| != 0 {
      best := MaxJoltage(AsBytes(line), 12);
    }
  }

  /**
   * `part_2`: the best twelve-digit value of every non-empty line, summed; a
   * non-empty line shorter than twelve panics.
   */
  method Part2(lines: seq<string>) returns (sum: nat)
    requires LongLines(lines)
    ensures sum == GreedyTotal(lines)
  {
    sum := 0;
    var i := 0;
    while i < |lines|
      invariant 0 <= i <= |lines|
      invariant sum == GreedyTotal(lines[..i])
    {
      GreedyTotalSnoc(lines, i);
      var best := LineJoltage(lines[i]);
      sum := sum + best;
      i := i + 1;
    }
    assert lines[..|lines|] == lines;
  }
}
