/**
 * The four statistics a summary row computes over the SCADAVALUE column of
 * one bucket: sum, minimum, maximum and mean. Values are reals; the
 * floating-point rounding of the source is not modelled.
 */
module Stats {

  /** The `sum` aggregation: values added in order; 0 for no values. */
  function Sum(vs: seq<real>): real
  {
    if vs == [] then 0.0 else Sum(vs[..|vs| - 1]) + vs[|vs| - 1]
  }

  /** The `min` aggregation: a value of the bucket that no value of the bucket is below. */
  function Min(vs: seq<real>): (m: real)
    requires vs != []
    ensures m in vs
    ensures forall i :: 0 <= i < |vs| ==> m <= vs[i]
  {
    if |vs| == 1 then vs[0]
    else
      var rest := Min(vs[..|vs| - 1]);
      assert rest in vs by {
        assert vs == vs[..|vs| - 1] + [vs[|vs| - 1]];
      }
      if vs[|vs| - 1] < rest then vs[|vs| - 1] else rest
  }

  /** The `max` aggregation: a value of the bucket that no value of the bucket is above. */
  function Max(vs: seq<real>): (m: real)
    requires vs != []
    ensures m in vs
    ensures forall i :: 0 <= i < |vs| ==> vs[i] <= m
  {
    if |vs| == 1 then vs[0]
    else
      var rest := Max(vs[..|vs| - 1]);
      assert rest in vs by {
        assert vs == vs[..|vs| - 1] + [vs[|vs| - 1]];
      }
      if rest < vs[|vs| - 1] then vs[|vs| - 1] else rest
  }

  /** A sum of values that all lie in [lo, hi] lies in [lo * n, hi * n]. */
  lemma {:induction false} SumBounds(vs: seq<real>, lo: real, hi: real)
    requires forall i :: 0 <= i < |vs| ==> lo <= vs[i] <= hi
    ensures lo * (|vs| as real) <= Sum(vs) <= hi * (|vs| as real)
  {
    if vs != [] {
      var n := |vs| - 1;
      SumBounds(vs[..n], lo, hi);
      assert lo * (n as real) + lo == lo * ((n + 1) as real);
      assert hi * (n as real) + hi == hi * ((n + 1) as real);
    }
  }

  /**
   * The `mean` aggregation: the sum divided by the number of values,
   * so it lies between the minimum and the maximum.
   */
  function Mean(vs: seq<real>): (a: real)
    requires vs != []
    ensures a * (|vs| as real) == Sum(vs)
    ensures Min(vs) <= a <= Max(vs)
  {
    SumBounds(vs, Min(vs), Max(vs));
    QuotientBounds(Sum(vs), |vs| as real, Min(vs), Max(vs));
    Sum(vs) / (|vs| as real)
  }

  lemma QuotientBounds(s: real, n: real, lo: real, hi: real)
    requires n > 0.0 && lo * n <= s <= hi * n
    ensures (s / n) * n == s
    ensures lo <= s / n <= hi
  {
    var q := s / n;
    assert q * n == s;
    assert (q - lo) * n >= 0.0;
    assert (hi - q) * n >= 0.0;
  }
}
