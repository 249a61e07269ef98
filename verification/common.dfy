/** Shared vocabulary: bytes, optional values and fallible results. */
module Common {

  /** An unsigned 8-bit value (Rust `u8`). */
  type byte = b: int | 0 <= b < 256

  /** Rust `Option<T>`. */
  datatype Option<+T> = None | Some(value: T)

  /** Rust `Result<T, Box<dyn Error>>`: the error is kept as its message. */
  datatype Result<+T> = Ok(value: T) | Err(msg: string)

  /** Character codes the puzzles compare cells and input bytes against. */
  const ZERO: byte := 48   // '0'
  const NINE: byte := 57   // '9'

  /** An ASCII decimal digit byte. */
  predicate IsDigit(b: byte) {
    ZERO <= b <= NINE
  }

  /** Sum of a sequence of naturals (Rust `iter().sum()`). */
  function Sum(xs: seq<nat>): (r: nat)
    ensures |xs| == 0 ==> r == 0
    ensures forall i :: 0 <= i < |xs| ==> xs[i] <= r
  {
    if |xs| == 0 then 0 else Sum(xs[..|xs| - 1]) + xs[|xs| - 1]
  }

  /** Product of a sequence of naturals (Rust `iter().product()`); 1 when empty. */
  function Product(xs: seq<nat>): (r: nat)
    ensures |xs| == 0 ==> r == 1
    ensures (exists i :: 0 <= i < |xs| && xs[i] == 0) <==> r == 0
  {
    if |xs| == 0 then 1 else Product(xs[..|xs| - 1]) * xs[|xs| - 1]
  }

  lemma {:induction false} SumAppend(xs: seq<nat>, ys: seq<nat>)
    ensures Sum(xs + ys) == Sum(xs) + Sum(ys)
    decreases |ys|
  {
    if |ys| == 0 {
      assert xs + ys == xs;
    } else {
      assert (xs + ys)[..|xs + ys| - 1] == xs + ys[..|ys| - 1];
      SumAppend(xs, ys[..|ys| - 1]);
    }
  }

  /** Cardinality of a subset and of the difference it leaves. */
  lemma SubsetCard<T>(a: set<T>, b: set<T>)
    requires a <= b
    ensures |a| <= |b| && |b - a| == |b| - |a|
  {
    assert b == a + (b - a);
    assert a * (b - a) == {};
  }

  // ---------------------------------------------------------------------------
  // Counting
  // ---------------------------------------------------------------------------

  /** `lower..=upper` as a set. */
  function Interval(lo: int, hi: int): (s: set<int>)
    ensures forall x :: x in s <==> lo <= x <= hi
    decreases hi - lo
  {
    if lo > hi then {} else Interval(lo, hi - 1) + {hi}
  }

  lemma {:induction false} IntervalSize(lo: int, hi: int)
    requires lo <= hi + 1
    ensures |Interval(lo, hi)| == hi - lo + 1
    decreases hi - lo
  {
    if lo <= hi {
      IntervalSize(lo, hi - 1);
      assert hi !in Interval(lo, hi - 1);
    }
  }

  /** The set positions in `from..upto`. */
  function Marked(flags: seq<bool>, from: nat, upto: int): set<int> {
    set k | from <= k < upto && k < |flags| && flags[k]
  }

  /** Looking at position `k` adds it to the marked positions below `k` exactly when it is set. */
  lemma MarkedStep(flags: seq<bool>, from: nat, k: nat)
    requires from <= k < |flags|
    ensures |Marked(flags, from, k + 1)| == |Marked(flags, from, k)| + (if flags[k] then 1 else 0)
  {
    var below := Marked(flags, from, k);
    assert k !in below;
    if flags[k] {
      assert Marked(flags, from, k + 1) == below + {k};
    } else {
      assert Marked(flags, from, k + 1) == below;
    }
  }

  /** At most one marked position per position. */
  lemma MarkedSize(flags: seq<bool>, from: nat, upto: int)
    ensures |Marked(flags, from, upto)| <= if upto < from then 0 else upto - from
  {
    assert Marked(flags, from, upto) <= Interval(from, upto - 1);
    if from <= upto {
      IntervalSize(from, upto - 1);
    }
    SubsetCard(Marked(flags, from, upto), Interval(from, upto - 1));
  }

  // ---------------------------------------------------------------------------
  // Collecting results
  // ---------------------------------------------------------------------------

  /** `collect::<Result<Vec<_>, _>>()`: every value in order, or the first error. */
  function Collect<T>(ps: seq<Result<T>>): (r: Result<seq<T>>)
    ensures r.Ok? <==> forall k :: 0 <= k < |ps| ==> ps[k].Ok?
    ensures r.Ok? ==> |r.value| == |ps| && forall k :: 0 <= k < |ps| ==> ps[k] == Ok(r.value[k])
  {
    if |ps| == 0 then Ok([])
    else
      var n := |ps| - 1;
      var init := ps[..n];
      assert forall k :: 0 <= k < n ==> init[k] == ps[k];
      match Collect(init)
      case Err(e) => Err(e)
      case Ok(vs) =>
        match ps[n]
        case Err(e) => Err(e)
        case Ok(v) =>
          var out := vs + [v];
          assert forall k :: 0 <= k < n ==> out[k] == vs[k];
          Ok(out)
  }

  /** Results that are all successes collect into exactly their values. */
  lemma CollectAllOk<T>(ps: seq<Result<T>>, vs: seq<T>)
    requires |ps| == |vs| && forall k :: 0 <= k < |ps| ==> ps[k] == Ok(vs[k])
    ensures Collect(ps) == Ok(vs)
  {
    var r := Collect(ps);
    assert r.Ok?;
    assert forall k :: 0 <= k < |ps| ==> r.value[k] == vs[k];
    assert r.value == vs;
  }

  /** One more result extends a successful chain or ends it with its error. */
  lemma CollectSnoc<T>(ps: seq<Result<T>>, i: nat)
    requires i < |ps| && Collect(ps[..i]).Ok?
    ensures ps[i].Ok? ==> Collect(ps[..i + 1]) == Ok(Collect(ps[..i]).value + [ps[i].value])
    ensures ps[i].Err? ==> Collect(ps[..i + 1]) == Err(ps[i].msg)
  {
    assert ps[..i + 1][..i] == ps[..i];
  }

  /** A failed chain reports the error of the first result that is an error. */
  lemma {:induction false} FirstError<T>(ps: seq<Result<T>>)
    requires Collect(ps).Err?
    ensures exists k :: 0 <= k < |ps| && ps[k] == Err(Collect(ps).msg)
              && (forall j :: 0 <= j < k ==> ps[j].Ok?)
  {
    var n := |ps| - 1;
    var init := ps[..n];
    if Collect(init).Err? {
      FirstError(init);
      var k :| 0 <= k < n && init[k] == Err(Collect(init).msg) && (forall j :: 0 <= j < k ==> init[j].Ok?);
      assert ps[k] == init[k];
      assert forall j :: 0 <= j < k ==> ps[j] == init[j];
    } else {
      assert forall j :: 0 <= j < n ==> ps[j] == init[j];
    }
  }

  /** An error among the first `i` results is the error of every longer prefix. */
  lemma {:induction false} ErrorSticks<T>(ps: seq<Result<T>>, i: nat, j: nat)
    requires i <= j <= |ps|
    requires Collect(ps[..i]).Err?
    ensures Collect(ps[..j]) == Collect(ps[..i])
    decreases j - i
  {
    if j > i {
      ErrorSticks(ps, i, j - 1);
      assert ps[..j][..j - 1] == ps[..j - 1];
      ErrorExtends(ps[..j]);
    }
  }

  /** A chain whose prefix failed fails with the prefix's error. */
  lemma ErrorExtends<T>(ps: seq<Result<T>>)
    requires |ps| > 0 && Collect(ps[..|ps| - 1]).Err?
    ensures Collect(ps) == Collect(ps[..|ps| - 1])
  {
  }

  // ---------------------------------------------------------------------------
  // Euclidean division facts
  // ---------------------------------------------------------------------------

  /** A non-zero multiple of `b` is at least `b` away from 0. */
  lemma MulAway(b: int, d: int)
    requires b > 0
    ensures d >= 1 ==> b * d >= b
    ensures d <= -1 ==> b * d <= -b
  {
  }

  /** `x` has remainder `r` by `b` when `x = b * q + r` with `0 <= r < b`. */
  lemma ModUnique(x: int, b: int, q: int, r: int)
    requires b > 0 && 0 <= r < b && x == b * q + r
    ensures x % b == r && x / b == q
  {
    var q', r' := x / b, x % b;
    MulAway(b, q' - q);
    assert b * (q' - q) == r - r';
  }

  /** Adding a multiple of the modulus does not change the remainder. */
  lemma ModShift(x: int, b: int, k: int)
    requires b > 0
    ensures (x + b * k) % b == x % b
  {
    ModUnique(x + b * k, b, x / b + k, x % b);
  }

  /** Reducing the first summand first does not change the remainder of a sum. */
  lemma ModAdd(x: int, s: int, b: int)
    requires b > 0
    ensures (x % b + s) % b == (x + s) % b
  {
    ModShift(x % b + s, b, x / b);
    assert x % b + s + b * (x / b) == x + s;
  }

  /** Multiplying by a non-negative factor keeps the order. */
  lemma MulMono(k: int, a: int, b: int)
    requires k >= 0 && a <= b
    ensures k * a <= k * b
  {
    assert k * b - k * a == k * (b - a);
  }

  /** `n / k` is at least `q` when `n` holds `q` copies of `k`. */
  lemma DivLower(n: int, k: int, q: int)
    requires k > 0 && n >= k * q
    ensures n / k >= q
  {
    MulAway(k, n / k - q);
    assert k * (n / k - q) == k * (n / k) - k * q;
  }
}
