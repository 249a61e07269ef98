/**
 * Day 1: a dial with positions 0..99 starts at 50 and is turned left or
 * right by a number of clicks. Part 1 counts the turns that end on 0; part 2
 * counts every click that lands on 0, using a closed form per turn.
 */
module Day1 {
  import opened Common
  import opened Text

  const START := 50
  const SIZE := 100

  // ---------------------------------------------------------------------------
  // Arithmetic
  // ---------------------------------------------------------------------------

  /** Rust `%` on `i64`: the magnitude is |a| mod |b|, the sign is the dividend's. */
  function TruncRem(a: int, b: int): (r: int)
    requires b != 0
    ensures a >= 0 ==> 0 <= r < (if b < 0 then -b else b)
    ensures a < 0 ==> -(if b < 0 then -b else b) < r <= 0
  {
    var m := (if a < 0 then -a else a) % (if b < 0 then -b else b);
    if a < 0 then -m else m
  }

  /**
   * `Knob::m`: the remainder of Python, always in `[0, b)` for `b > 0`;
   * `((a % b) + b) % b` with Rust's truncating `%`.
   */
  function M(a: int, b: int): (r: int)
    requires b != 0
    ensures b > 0 ==> 0 <= r < b && r == a % b
  {
    var t := TruncRem(a, b);
    if b > 0 then
      if a >= 0 then NonNegativeRem(a, b); TruncRem(t + b, b)
      else NegativeRem(a, b); TruncRem(t + b, b)
    else TruncRem(t + b, b)
  }

  /** For a non-negative dividend the truncating remainder is already the floored one. */
  lemma NonNegativeRem(a: int, b: int)
    requires a >= 0 && b > 0
    ensures TruncRem(TruncRem(a, b) + b, b) == a % b
  {
    var t := a % b;
    assert TruncRem(a, b) == t;
    ModUnique(t + b, b, 1, t);
  }

  /** For a negative dividend, adding the modulus once lifts the truncating remainder into `[0, b)`. */
  lemma NegativeRem(a: int, b: int)
    requires a < 0 && b > 0
    ensures TruncRem(TruncRem(a, b) + b, b) == a % b
  {
    var q, m := (-a) / b, (-a) % b;
    assert -a == b * q + m;
    assert TruncRem(a, b) == -m;
    if m == 0 {
      ModUnique(b, b, 1, 0);
      ModUnique(a, b, -q, 0);
    } else {
      ModUnique(b - m, b, 0, b - m);
      ModUnique(a, b, -q - 1, b - m);
    }
  }

  lemma PythonModulusExample()
    ensures M(-18, 100) == 82
  {
  }

  // ---------------------------------------------------------------------------
  // The knob
  // ---------------------------------------------------------------------------

  /** Current position and the number of clicks that have landed on 0. */
  datatype Knob = Knob(pos: int, passes: nat)

  /** Every position the knob takes is one of the `SIZE` dial marks. */
  predicate Valid(k: Knob) {
    0 <= k.pos < SIZE
  }

  /**
   * Reference count: the clicks `c` in `1..=steps` that leave the dial at 0
   * when turning from `pos` in direction `dir` (`-1` left, `+1` right).
   */
  function ZeroClicks(pos: int, dir: int, steps: nat): nat {
    if steps == 0 then 0
    else ZeroClicks(pos, dir, steps - 1) + (if (pos + dir * steps) % SIZE == 0 then 1 else 0)
  }

  /**
   * The closed form both turns use: `first` is the number of clicks to the
   * first 0 (`0` meaning the dial is already there, so the first 0 is a full
   * turn away).
   */
  function ClosedForm(first: int, steps: nat): nat
    requires 0 <= first < SIZE
  {
    if first == 0 then steps / SIZE
    else if steps < first then 0
    else 1 + (steps - first) / SIZE
  }

  /** `n / SIZE` grows by one exactly when `n` is a multiple of `SIZE`. */
  lemma DivStep(n: int)
    requires n >= 1
    ensures n / SIZE == (n - 1) / SIZE + (if n % SIZE == 0 then 1 else 0)
  {
    var q, r := (n - 1) / SIZE, (n - 1) % SIZE;
    ModUnique(n - 1, SIZE, q, r);
    if r == SIZE - 1 {
      ModUnique(n, SIZE, q + 1, 0);
    } else {
      ModUnique(n, SIZE, q, r + 1);
    }
  }

  /** One more click adds one to the closed form exactly when it lands on the first 0. */
  lemma ClosedFormStep(first: int, steps: nat)
    requires 0 <= first < SIZE && steps >= 1
    ensures ClosedForm(first, steps) ==
              ClosedForm(first, steps - 1) + (if steps % SIZE == first then 1 else 0)
  {
    if first == 0 {
      DivStep(steps);
    } else if steps < first {
      ModUnique(steps, SIZE, 0, steps);
    } else if steps == first {
      ModUnique(steps, SIZE, 0, steps);
    } else {
      DivStep(steps - first);
      ModShift(steps - first, SIZE, 0);
      ModUnique(steps, SIZE, steps / SIZE, steps % SIZE);
      ModShift(steps - first, SIZE, 0);
      var q := (steps - first) / SIZE;
      ModUnique(steps - first, SIZE, q, (steps - first) % SIZE);
      if (steps - first) % SIZE == 0 {
        ModUnique(steps, SIZE, q, first);
      } else if (steps - first) % SIZE < SIZE - first {
        ModUnique(steps, SIZE, q, (steps - first) % SIZE + first);
      } else {
        ModUnique(steps, SIZE, q + 1, (steps - first) % SIZE + first - SIZE);
      }
    }
  }

  /** A click `c` from `pos` lands on 0 exactly when `c` is `first` modulo `SIZE`. */
  lemma LandsOnZero(pos: int, dir: int, c: int, first: int)
    requires 0 <= pos < SIZE && 0 <= first < SIZE
    requires dir == -1 ==> first == pos
    requires dir == 1 ==> first == (SIZE - pos) % SIZE
    requires dir == -1 || dir == 1
    ensures (pos + dir * c) % SIZE == 0 <==> c % SIZE == first
  {
    var q, r := c / SIZE, c % SIZE;
    ModUnique(c, SIZE, q, r);
    if dir == -1 {
      ModShift(pos - r, SIZE, -q);
      assert pos + dir * c == (pos - r) + SIZE * (-q);
      if pos >= r {
        ModUnique(pos - r, SIZE, 0, pos - r);
      } else {
        ModUnique(pos - r, SIZE, -1, pos - r + SIZE);
      }
    } else {
      ModShift(pos + r, SIZE, q);
      assert pos + dir * c == (pos + r) + SIZE * q;
      if pos == 0 {
        ModUnique(SIZE, SIZE, 1, 0);
        ModUnique(pos + r, SIZE, 0, r);
      } else {
        ModUnique(SIZE - pos, SIZE, 0, SIZE - pos);
        if pos + r < SIZE {
          ModUnique(pos + r, SIZE, 0, pos + r);
        } else {
          ModUnique(pos + r, SIZE, 1, pos + r - SIZE);
        }
      }
    }
  }

  /** The closed form counts the same clicks as the reference count. */
  lemma {:induction false} ClosedFormCounts(pos: int, dir: int, first: int, steps: nat)
    requires 0 <= pos < SIZE && 0 <= first < SIZE
    requires dir == -1 ==> first == pos
    requires dir == 1 ==> first == (SIZE - pos) % SIZE
    requires dir == -1 || dir == 1
    ensures ClosedForm(first, steps) == ZeroClicks(pos, dir, steps)
  {
    if steps > 0 {
      ClosedFormCounts(pos, dir, first, steps - 1);
      ClosedFormStep(first, steps);
      LandsOnZero(pos, dir, steps, first);
    }
  }

  /** `Knob::left`: add the zero landings of this turn, then move. */
  function Left(k: Knob, step: nat): (r: Knob)
    requires Valid(k)
    ensures Valid(r) && r.pos == (k.pos - step) % SIZE
    ensures r.passes >= k.passes
  {
    // both operands of `/` are non-negative here, where Rust and Dafny agree
    var hits := if k.pos == 0 then step / SIZE
                else if step < k.pos then 0
                else 1 + (step - k.pos) / SIZE;
    Knob(M(k.pos - step, SIZE), k.passes + hits)
  }

  /** A left turn adds exactly the clicks that land on 0. */
  lemma {:induction false} LeftCounts(k: Knob, step: nat)
    requires Valid(k)
    ensures Left(k, step).passes == k.passes + ZeroClicks(k.pos, -1, step)
  {
    ClosedFormCounts(k.pos, -1, k.pos, step);
  }

  /** `Knob::right`: `dist` is the number of clicks to the next 0. */
  function Right(k: Knob, step: nat): (r: Knob)
    requires Valid(k)
    ensures Valid(r) && r.pos == (k.pos + step) % SIZE
    ensures r.passes >= k.passes
  {
    var dist := TruncRem(SIZE - k.pos, SIZE);
    var hits := if dist == 0 then step / SIZE
                else if step < dist then 0
                else 1 + (step - dist) / SIZE;
    Knob(M(k.pos + step, SIZE), k.passes + hits)
  }

  /** A right turn adds exactly the clicks that land on 0. */
  lemma {:induction false} RightCounts(k: Knob, step: nat)
    requires Valid(k)
    ensures Right(k, step).passes == k.passes + ZeroClicks(k.pos, 1, step)
  {
    ClosedFormCounts(k.pos, 1, (SIZE - k.pos) % SIZE, step);
  }

  // ---------------------------------------------------------------------------
  // Instructions
  // ---------------------------------------------------------------------------

  datatype Rotation = TurnLeft(steps: nat) | TurnRight(steps: nat)

  /** `split_at(1)` succeeds and the first character is `L` or `R`. */
  predicate IsInstruction(l: string) {
    |l| >= 1 && (l[0] == 'L' || l[0] == 'R')
  }

  /** One line: a direction letter and a decimal click count. */
  function ParseRotation(l: string): (r: Result<Rotation>)
    requires IsInstruction(l)
    ensures r.Ok? <==> ParseNat(l[1..]).Ok?
    ensures r.Err? ==> r == Err(ParseNat(l[1..]).msg)
  {
    match ParseNat(l[1..])
    case Err(e) => Err(e)
    case Ok(n) => if l[0] == 'L' then Ok(TurnLeft(n)) else Ok(TurnRight(n))
  }

  /** The text of a rotation, as it appears in the puzzle input. */
  function Render(r: Rotation): string {
    match r
    case TurnLeft(n) => "L" + ToDecimal(n)
    case TurnRight(n) => "R" + ToDecimal(n)
  }

  function RenderAll(rs: seq<Rotation>): (ls: seq<string>)
    ensures |ls| == |rs|
  {
    if |rs| == 0 then [] else [Render(rs[0])] + RenderAll(rs[1..])
  }

  lemma ParseRender(r: Rotation)
    ensures IsInstruction(Render(r))
    ensures ParseRotation(Render(r)) == Ok(r)
  {
    assert Render(r)[1..] == ToDecimal(r.steps);
    ParseDecimal(r.steps);
  }

  /**
   * The lines the loop reaches before a parse error are all instructions:
   * any other line is an `unreachable!()` panic, or `split_at` panics on an
   * empty line.
   */
  predicate Playable(lines: seq<string>) {
    forall i :: 0 <= i < |lines| ==>
      (forall j :: 0 <= j < i ==> IsInstruction(lines[j]) && ParseRotation(lines[j]).Ok?) ==>
        IsInstruction(lines[i])
  }

  /** All rotations, or the first parse error. */
  function ParseAll(lines: seq<string>): (r: Result<seq<Rotation>>)
    requires Playable(lines)
    ensures r.Ok? ==> |r.value| == |lines|
    ensures r.Ok? ==> forall i :: 0 <= i < |lines| ==>
              IsInstruction(lines[i]) && ParseRotation(lines[i]) == Ok(r.value[i])
  {
    if |lines| == 0 then Ok([])
    else
      assert IsInstruction(lines[0]);
      match ParseRotation(lines[0])
      case Err(e) => Err(e)
      case Ok(rot) =>
        assert Playable(lines[1..]) by {
          forall i | 0 <= i < |lines[1..]|
            ensures (forall j :: 0 <= j < i ==> IsInstruction(lines[1..][j]) && ParseRotation(lines[1..][j]).Ok?) ==>
                      IsInstruction(lines[1..][i])
          {
            if forall j :: 0 <= j < i ==> IsInstruction(lines[1..][j]) && ParseRotation(lines[1..][j]).Ok? {
              assert forall j :: 0 <= j < i + 1 ==> IsInstruction(lines[j]) && ParseRotation(lines[j]).Ok? by {
                forall j | 0 <= j < i + 1
                  ensures IsInstruction(lines[j]) && ParseRotation(lines[j]).Ok?
                {
                  if j > 0 { assert lines[j] == lines[1..][j - 1]; }
                }
              }
            }
          }
        }
        match ParseAll(lines[1..])
        case Err(e) => Err(e)
        case Ok(rest) => Ok([rot] + rest)
  }

  lemma ParseAllRender(rs: seq<Rotation>)
    ensures Playable(RenderAll(rs))
    ensures ParseAll(RenderAll(rs)) == Ok(rs)
  {
    var ls := RenderAll(rs);
    assert forall i :: 0 <= i < |rs| ==> ls[i] == Render(rs[i]) by {
      RenderAllAt(rs);
    }
    forall i | 0 <= i < |rs| ensures IsInstruction(ls[i]) && ParseRotation(ls[i]) == Ok(rs[i]) {
      ParseRender(rs[i]);
    }
    ParseAllOk(ls, rs);
  }

  lemma {:induction false} RenderAllAt(rs: seq<Rotation>)
    ensures forall i :: 0 <= i < |rs| ==> RenderAll(rs)[i] == Render(rs[i])
  {
    if |rs| > 0 {
      RenderAllAt(rs[1..]);
    }
  }

  lemma {:induction false} ParseAllOk(ls: seq<string>, rs: seq<Rotation>)
    requires |ls| == |rs|
    requires forall i :: 0 <= i < |ls| ==> IsInstruction(ls[i]) && ParseRotation(ls[i]) == Ok(rs[i])
    ensures Playable(ls) && ParseAll(ls) == Ok(rs)
  {
    if |ls| > 0 {
      ParseAllOk(ls[1..], rs[1..]);
      assert rs == [rs[0]] + rs[1..];
    }
  }

  // ---------------------------------------------------------------------------
  // The two parts
  // ---------------------------------------------------------------------------

  /** `-1` for a left turn, `+1` for a right turn. */
  function Dir(r: Rotation): int {
    if r.TurnLeft? then -1 else 1
  }

  /** The clicks of one rotation, signed by its direction. */
  function Signed(r: Rotation): int {
    Dir(r) * r.steps
  }

  function Turn(k: Knob, r: Rotation): (k': Knob)
    requires Valid(k)
    ensures Valid(k')
    ensures k'.pos == (k.pos + Signed(r)) % SIZE
    ensures k'.passes >= k.passes
  {
    match r
    case TurnLeft(n) => Left(k, n)
    case TurnRight(n) => Right(k, n)
  }

  lemma TurnCounts(k: Knob, r: Rotation)
    requires Valid(k)
    ensures Turn(k, r).passes == k.passes + ZeroClicks(k.pos, Dir(r), r.steps)
  {
    if r.TurnLeft? { LeftCounts(k, r.steps); } else { RightCounts(k, r.steps); }
  }

  /** Signed click total of a sequence of rotations. */
  function Offset(rs: seq<Rotation>): int {
    if |rs| == 0 then 0 else Offset(rs[..|rs| - 1]) + Signed(rs[|rs| - 1])
  }

  /** The knob after a sequence of turns, one loop iteration per rotation. */
  function Run(k: Knob, rs: seq<Rotation>): (k': Knob)
    requires Valid(k)
    ensures Valid(k') && k'.passes >= k.passes
  {
    if |rs| == 0 then k else Turn(Run(k, rs[..|rs| - 1]), rs[|rs| - 1])
  }

  /** The dial shows the starting mark moved by the signed total, modulo `SIZE`. */
  lemma {:induction false} RunPosition(k: Knob, rs: seq<Rotation>)
    requires Valid(k)
    ensures Run(k, rs).pos == (k.pos + Offset(rs)) % SIZE
  {
    if |rs| > 0 {
      var prefix := rs[..|rs| - 1];
      RunPosition(k, prefix);
      ModAdd(k.pos + Offset(prefix), Signed(rs[|rs| - 1]), SIZE);
    }
  }

  /** Whether the dial shows 0 once all of `rs` has been turned. */
  predicate EndsOnZero(k: Knob, rs: seq<Rotation>)
    requires Valid(k)
  {
    Run(k, rs).pos == 0
  }

  /** How many of the turns end with the dial on 0. */
  function CountStops(k: Knob, rs: seq<Rotation>): (n: nat)
    requires Valid(k)
    ensures n <= |rs|
  {
    if |rs| == 0 then 0
    else CountStops(k, rs[..|rs| - 1]) + (if EndsOnZero(k, rs) then 1 else 0)
  }

  /** For every prefix length, whether the dial shows 0 after that many turns. */
  function StopFlags(k: Knob, rs: seq<Rotation>): (f: seq<bool>)
    requires Valid(k)
    ensures |f| == |rs| + 1
    ensures forall i :: 0 <= i <= |rs| ==> f[i] == EndsOnZero(k, rs[..i])
  {
    seq(|rs| + 1, i requires 0 <= i <= |rs| => EndsOnZero(k, rs[..i]))
  }

  /** The non-empty prefix lengths after which the dial shows 0. */
  function StopSet(k: Knob, rs: seq<Rotation>): set<int>
    requires Valid(k)
  {
    Marked(StopFlags(k, rs), 1, |rs| + 1)
  }

  /** A prefix ends on 0 exactly when its signed total brings the start mark to a multiple of `SIZE`. */
  lemma StopSetMember(k: Knob, rs: seq<Rotation>, i: int)
    requires Valid(k)
    ensures i in StopSet(k, rs) <==> 1 <= i <= |rs| && (k.pos + Offset(rs[..i])) % SIZE == 0
  {
    if 1 <= i <= |rs| {
      RunPosition(k, rs[..i]);
    }
  }

  /** The turns ending on 0 among the first `j` are the stops up to prefix `j`. */
  lemma {:induction false} StopsCountedUpTo(k: Knob, rs: seq<Rotation>, j: nat)
    requires Valid(k) && j <= |rs|
    ensures CountStops(k, rs[..j]) == |Marked(StopFlags(k, rs), 1, j + 1)|
  {
    var flags := StopFlags(k, rs);
    if j == 0 {
      assert Marked(flags, 1, 1) == {};
    } else {
      StopsCountedUpTo(k, rs, j - 1);
      CountStopsStep(k, rs, j);
      MarkedStep(flags, 1, j);
    }
  }

  /** One more turn adds one stop exactly when it ends on 0. */
  lemma CountStopsStep(k: Knob, rs: seq<Rotation>, j: nat)
    requires Valid(k) && 1 <= j <= |rs|
    ensures CountStops(k, rs[..j]) == CountStops(k, rs[..j - 1]) + (if StopFlags(k, rs)[j] then 1 else 0)
  {
    var pre := rs[..j];
    assert pre[..|pre| - 1] == rs[..j - 1];
    assert CountStops(k, pre) == CountStops(k, pre[..|pre| - 1]) + (if EndsOnZero(k, pre) then 1 else 0);
  }

  /** The loop's count of turns ending on 0 is the number of prefixes that end on 0. */
  lemma StopsCounted(k: Knob, rs: seq<Rotation>)
    requires Valid(k)
    ensures CountStops(k, rs) == |StopSet(k, rs)|
  {
    StopsCountedUpTo(k, rs, |rs|);
    assert rs[..|rs|] == rs;
  }

  /** `part_1`: the number of instructions after which the dial shows 0. */
  function Part1(lines: seq<string>): (r: Result<nat>)
    requires Playable(lines)
    ensures r.Ok? <==> ParseAll(lines).Ok?
    ensures r.Ok? ==> r.value <= |lines|
    ensures r.Ok? ==> r.value == |StopSet(Knob(START, 0), ParseAll(lines).value)|
    ensures r.Err? ==> r == Err(ParseAll(lines).msg)
  {
    match ParseAll(lines)
    case Err(e) => Err(e)
    case Ok(rs) =>
      StopsCounted(Knob(START, 0), rs);
      Ok(CountStops(Knob(START, 0), rs))
  }

  /** Reference for part 2: the zero clicks of each turn, from the mark it starts at. */
  function TotalZeroClicks(pos: int, rs: seq<Rotation>): nat
    decreases |rs|
  {
    if |rs| == 0 then 0
    else ZeroClicks(pos, Dir(rs[0]), rs[0].steps) + TotalZeroClicks((pos + Signed(rs[0])) % SIZE, rs[1..])
  }

  /** Running a sequence is its first turn followed by the rest. */
  lemma {:induction false} RunFirst(k: Knob, rs: seq<Rotation>)
    requires Valid(k) && |rs| > 0
    ensures Run(k, rs) == Run(Turn(k, rs[0]), rs[1..])
    decreases |rs|
  {
    var n := |rs|;
    if n > 1 {
      RunFirst(k, rs[..n - 1]);
      assert rs[..n - 1][1..] == rs[1..][..n - 2];
      assert rs[..n - 1][0] == rs[0];
      assert rs[1..][n - 2] == rs[n - 1];
    } else {
      assert rs[..0] == [] && rs[1..] == [];
    }
  }

  lemma {:induction false} PassesAreZeroClicks(k: Knob, rs: seq<Rotation>)
    requires Valid(k)
    ensures Run(k, rs).passes == k.passes + TotalZeroClicks(k.pos, rs)
    decreases |rs|
  {
    if |rs| > 0 {
      RunFirst(k, rs);
      TurnCounts(k, rs[0]);
      PassesAreZeroClicks(Turn(k, rs[0]), rs[1..]);
    }
  }

  /** `part_2`: every click that leaves the dial on 0, over all instructions. */
  function Part2(lines: seq<string>): (r: Result<nat>)
    requires Playable(lines)
    ensures r.Ok? <==> ParseAll(lines).Ok?
    ensures r.Ok? ==> r.value == TotalZeroClicks(START, ParseAll(lines).value)
    ensures r.Err? ==> r == Err(ParseAll(lines).msg)
  {
    match ParseAll(lines)
    case Err(e) => Err(e)
    case Ok(rs) =>
      PassesAreZeroClicks(Knob(START, 0), rs);
      Ok(Run(Knob(START, 0), rs).passes)
  }

  /**
   * When no rotation is zero clicks long, every turn that stops on 0 has its
   * last click land there, so part 1 never exceeds part 2.
   */
  lemma {:induction false} StopsAreZeroClicks(k: Knob, rs: seq<Rotation>)
    requires Valid(k)
    requires forall i :: 0 <= i < |rs| ==> rs[i].steps > 0
    ensures CountStops(k, rs) <= Run(k, rs).passes - k.passes
  {
    if |rs| > 0 {
      var n := |rs|;
      var before := Run(k, rs[..n - 1]);
      var r := rs[n - 1];
      StopsAreZeroClicks(k, rs[..n - 1]);
      TurnCounts(before, r);
      assert ZeroClicks(before.pos, Dir(r), r.steps) >= (if Run(k, rs).pos == 0 then 1 else 0);
    }
  }

  /** A rotation of zero clicks on the 0 mark is a stop without a zero click. */
  lemma ZeroLengthStop()
    ensures CountStops(Knob(0, 0), [TurnLeft(0)]) == 1
    ensures Run(Knob(0, 0), [TurnLeft(0)]).passes == 0
  {
    var rs := [TurnLeft(0)];
    assert rs[..0] == [];
  }

  // ---------------------------------------------------------------------------
  // The unit tests' scenario
  // ---------------------------------------------------------------------------

  const EXAMPLE := [TurnLeft(68), TurnLeft(30), TurnRight(48), TurnLeft(5), TurnRight(60),
                    TurnLeft(55), TurnLeft(1), TurnLeft(99), TurnRight(14), TurnLeft(82)]

  /** The example instructions "L68" .. "L82": 3 stops on 0 and 6 zero clicks. */
  lemma Example()
    ensures Playable(RenderAll(EXAMPLE))
    ensures Part1(RenderAll(EXAMPLE)) == Ok(3)
    ensures Part2(RenderAll(EXAMPLE)) == Ok(6)
  {
    ParseAllRender(EXAMPLE);
    ExampleRun(EXAMPLE);
  }

  /** Appending a rotation performs one more turn and may add one stop. */
  lemma RunSnoc(k: Knob, rs: seq<Rotation>, r: Rotation)
    requires Valid(k)
    ensures Run(k, rs + [r]) == Turn(Run(k, rs), r)
    ensures CountStops(k, rs + [r]) == CountStops(k, rs) + (if Turn(Run(k, rs), r).pos == 0 then 1 else 0)
  {
    assert (rs + [r])[..|rs|] == rs;
  }

  /** One more turn from a known knob and stop count. */
  lemma StepFrom(k: Knob, rs: seq<Rotation>, r: Rotation, before: Knob, after: Knob, stops: nat)
    requires Valid(k) && Run(k, rs) == before && CountStops(k, rs) == stops && Turn(before, r) == after
    ensures Run(k, rs + [r]) == after
    ensures CountStops(k, rs + [r]) == stops + (if after.pos == 0 then 1 else 0)
  {
    RunSnoc(k, rs, r);
  }

  /** The first five turns of the example, one at a time. */
  lemma ExampleTurnsFirst()
    ensures Turn(Knob(50, 0), TurnLeft(68)) == Knob(82, 1)
    ensures Turn(Knob(82, 1), TurnLeft(30)) == Knob(52, 1)
    ensures Turn(Knob(52, 1), TurnRight(48)) == Knob(0, 2)
    ensures Turn(Knob(0, 2), TurnLeft(5)) == Knob(95, 2)
    ensures Turn(Knob(95, 2), TurnRight(60)) == Knob(55, 3)
  {
  }

  /** The last five turns of the example, one at a time. */
  lemma ExampleTurnsLast()
    ensures Turn(Knob(55, 3), TurnLeft(55)) == Knob(0, 4)
    ensures Turn(Knob(0, 4), TurnLeft(1)) == Knob(99, 4)
    ensures Turn(Knob(99, 4), TurnLeft(99)) == Knob(0, 5)
    ensures Turn(Knob(0, 5), TurnRight(14)) == Knob(14, 5)
    ensures Turn(Knob(14, 5), TurnLeft(82)) == Knob(32, 6)
  {
  }

  /** After the first five instructions the dial is at 55, having stopped on 0 once and passed it 3 times. */
  lemma ExampleRunFirst(rs: seq<Rotation>)
    requires rs == EXAMPLE[..5]
    ensures Run(Knob(START, 0), rs) == Knob(55, 3)
    ensures CountStops(Knob(START, 0), rs) == 1
  {
    ExampleTurnsFirst();
    var k := Knob(START, 0);
    var r0: seq<Rotation> := [];
    assert Run(k, r0) == k && CountStops(k, r0) == 0;
    var r1 := r0 + [TurnLeft(68)];
    StepFrom(k, r0, TurnLeft(68), k, Knob(82, 1), 0);
    var r2 := r1 + [TurnLeft(30)];
    StepFrom(k, r1, TurnLeft(30), Knob(82, 1), Knob(52, 1), 0);
    var r3 := r2 + [TurnRight(48)];
    StepFrom(k, r2, TurnRight(48), Knob(52, 1), Knob(0, 2), 0);
    var r4 := r3 + [TurnLeft(5)];
    StepFrom(k, r3, TurnLeft(5), Knob(0, 2), Knob(95, 2), 1);
    var r5 := r4 + [TurnRight(60)];
    StepFrom(k, r4, TurnRight(60), Knob(95, 2), Knob(55, 3), 1);
    assert r5 == rs;
  }

  lemma ExampleRun(rs: seq<Rotation>)
    requires rs == EXAMPLE
    ensures CountStops(Knob(START, 0), rs) == 3
    ensures Run(Knob(START, 0), rs).passes == 6
  {
    var pre := rs[..5];
    ExampleRunFirst(pre);
    ExampleTurnsLast();
    var k := Knob(START, 0);
    var r6 := pre + [TurnLeft(55)];
    StepFrom(k, pre, TurnLeft(55), Knob(55, 3), Knob(0, 4), 1);
    var r7 := r6 + [TurnLeft(1)];
    StepFrom(k, r6, TurnLeft(1), Knob(0, 4), Knob(99, 4), 2);
    var r8 := r7 + [TurnLeft(99)];
    StepFrom(k, r7, TurnLeft(99), Knob(99, 4), Knob(0, 5), 2);
    var r9 := r8 + [TurnRight(14)];
    StepFrom(k, r8, TurnRight(14), Knob(0, 5), Knob(14, 5), 3);
    var r10 := r9 + [TurnLeft(82)];
    StepFrom(k, r9, TurnLeft(82), Knob(14, 5), Knob(32, 6), 3);
    assert r10 == rs;
  }
}
