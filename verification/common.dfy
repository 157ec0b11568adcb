/** Small shared vocabulary: an optional value and sums of reals. */
module Common {

  /** A value that may be absent, as a Python `None` or a missing dictionary key. */
  datatype Option<+T> = None | Some(value: T) {
    /** The carried value, or `default` when there is none (Python's `x if x is not None else default`). */
    function GetOr(default: T): T {
      match this
      case Some(v) => v
      case None => default
    }
  }

  function MaxReal(a: real, b: real): (r: real)
    ensures r >= a && r >= b
    ensures r == a || r == b
  {
    if a >= b then a else b
  }

  function MinReal(a: real, b: real): (r: real)
    ensures r <= a && r <= b
    ensures r == a || r == b
  {
    if a <= b then a else b
  }

  /** Python's `xs[lo:hi]` for non-negative bounds: clamped to the length, empty when `hi <= lo`. */
  function Slice<T>(xs: seq<T>, lo: nat, hi: nat): (r: seq<T>)
    ensures lo <= hi <= |xs| ==> r == xs[lo..hi]
    ensures hi <= lo || |xs| <= lo ==> r == []
    ensures |r| <= |xs|
  {
    var h := if hi < |xs| then hi else |xs|;
    if lo >= h then [] else xs[lo..h]
  }

  /** Python's `sum(xs)` over exact reals, added from the left. */
  function Sum(xs: seq<real>): real
    decreases |xs|
  {
    if xs == [] then 0.0 else Sum(xs[..|xs| - 1]) + xs[|xs| - 1]
  }

  /** The element-wise quotient `[x / c for x in xs]`. */
  function DivideAll(xs: seq<real>, c: real): (r: seq<real>)
    requires c != 0.0
    ensures |r| == |xs|
    ensures forall i :: 0 <= i < |xs| ==> r[i] == xs[i] / c
    decreases |xs|
  {
    if xs == [] then [] else DivideAll(xs[..|xs| - 1], c) + [xs[|xs| - 1] / c]
  }

  /** Dividing every term by `c` divides the sum by `c`. */
  lemma {:induction false} SumDivideAll(xs: seq<real>, c: real)
    requires c != 0.0
    ensures Sum(DivideAll(xs, c)) == Sum(xs) / c
    decreases |xs|
  {
    if xs != [] {
      var init := xs[..|xs| - 1];
      SumDivideAll(init, c);
      var d := DivideAll(xs, c);
      var last := xs[|xs| - 1];
      DivideAdd(Sum(init), last, c);
      assert d[..|d| - 1] == DivideAll(init, c);
      assert d[|d| - 1] == last / c;
      assert Sum(d) == Sum(d[..|d| - 1]) + d[|d| - 1];
      assert xs == init + [last];
      assert Sum(xs) == Sum(init) + last;
    }
  }

  /** Dividing every term by their positive sum leaves terms that sum to 1. */
  lemma SumDividedBySum(xs: seq<real>)
    requires Sum(xs) > 0.0
    ensures Sum(DivideAll(xs, Sum(xs))) == 1.0
  {
    var s := Sum(xs);
    SumDivideAll(xs, s);
    QuotientOfItself(s);
  }

  lemma QuotientOfItself(s: real)
    requires s != 0.0
    ensures s / s == 1.0
  {
  }

  lemma DivideAdd(a: real, b: real, c: real)
    requires c != 0.0
    ensures a / c + b / c == (a + b) / c
  {
  }

  /** A sum of zeros is zero. */
  lemma {:induction false} SumOfZeros(xs: seq<real>)
    requires forall i :: 0 <= i < |xs| ==> xs[i] == 0.0
    ensures Sum(xs) == 0.0
    decreases |xs|
  {
    if xs != [] {
      SumOfZeros(xs[..|xs| - 1]);
    }
  }

  /** A sum of `n` copies of `c` is `n * c`. */
  lemma {:induction false} SumConstant(xs: seq<real>, c: real)
    requires forall i :: 0 <= i < |xs| ==> xs[i] == c
    ensures Sum(xs) == |xs| as real * c
    decreases |xs|
  {
    if xs != [] {
      SumConstant(xs[..|xs| - 1], c);
    }
  }

  /** The element-wise product `[x * c for x in xs]`. */
  function ScaleAll(xs: seq<real>, c: real): (r: seq<real>)
    ensures |r| == |xs|
    ensures forall i :: 0 <= i < |xs| ==> r[i] == xs[i] * c
    decreases |xs|
  {
    if xs == [] then [] else ScaleAll(xs[..|xs| - 1], c) + [xs[|xs| - 1] * c]
  }

  /** Multiplying every term by `c` multiplies the sum by `c`. */
  lemma {:induction false} SumScaleAll(xs: seq<real>, c: real)
    ensures Sum(ScaleAll(xs, c)) == Sum(xs) * c
    decreases |xs|
  {
    if xs != [] {
      var init := xs[..|xs| - 1];
      SumScaleAll(init, c);
      var d := ScaleAll(xs, c);
      assert d[..|d| - 1] == ScaleAll(init, c);
      assert Sum(d) == Sum(init) * c + xs[|xs| - 1] * c;
    }
  }

  /** Splitting `c` in proportion to `xs` (with a non-zero total) hands out exactly `c`. */
  lemma SumProportional(xs: seq<real>, c: real)
    requires Sum(xs) != 0.0
    ensures Sum(ScaleAll(DivideAll(xs, Sum(xs)), c)) == c
  {
    var t := Sum(xs);
    SumScaleAll(DivideAll(xs, t), c);
    SumDivideAll(xs, t);
    SelfQuotient(Sum(DivideAll(xs, t)), t, c);
  }

  lemma SelfQuotient(q: real, t: real, c: real)
    requires t != 0.0 && q == t / t
    ensures q * c == c
  {
  }
}
