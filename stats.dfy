/** Exact-arithmetic meanings of the numeric helpers the detector and the
    smoother rely on: Python's two-argument `max`, and numpy's `sum`, `mean`
    and `trapz` (trapezoidal rule with unit spacing). */
module Stats {

  /** Python's built-in `max(a, b)`: keeps `a` unless `b` is strictly larger. */
  function Max(a: real, b: real): (r: real)
    ensures r >= a && r >= b
    ensures r == a || r == b
  {
    if b > a then b else a
  }

  /** Sum of a sequence, accumulated left to right. */
  function Sum(s: seq<real>): (r: real)
  {
    if |s| == 0 then 0.0 else Sum(s[..|s| - 1]) + s[|s| - 1]
  }

  /** `np.mean` of a non-empty sequence: the value that, counted once per
      sample, gives back the sum. */
  function Mean(s: seq<real>): (r: real)
    requires |s| >= 1
    ensures r * (|s| as real) == Sum(s)
  {
    Sum(s) / (|s| as real)
  }

  /** Largest element of a non-empty sequence, as a running `max` computes it. */
  function SeqMax(s: seq<real>): (r: real)
    requires |s| >= 1
    ensures r in s
    ensures forall j :: 0 <= j < |s| ==> s[j] <= r
  {
    if |s| == 1 then s[0] else Max(SeqMax(s[..|s| - 1]), s[|s| - 1])
  }

  /** `np.trapz` with unit spacing: the sum of `(s[j] + s[j+1]) / 2` over
      consecutive pairs; zero for fewer than two samples. The area under
      non-negative samples is non-negative. */
  function Trapz(s: seq<real>): (r: real)
    ensures |s| <= 1 ==> r == 0.0
    ensures (forall j :: 0 <= j < |s| ==> s[j] >= 0.0) ==> r >= 0.0
  {
    if |s| <= 1 then 0.0 else Trapz(s[..|s| - 1]) + (s[|s| - 2] + s[|s| - 1]) / 2.0
  }

  /** Multiplying by the reciprocal of `w` is dividing by `w`. */
  lemma ScaleByReciprocal(a: real, w: real)
    requires w > 0.0
    ensures (1.0 / w) * a == a / w
  {
  }

  /** Dividing a total of `w` copies of `c` by `w` gives back `c`. */
  lemma CancelCount(total: real, c: real, w: real)
    requires w > 0.0 && total == w * c
    ensures total / w == c
  {
  }

  /** Splitting a sequence anywhere splits its sum. */
  lemma {:induction false} SumSplit(s: seq<real>, k: nat)
    requires k <= |s|
    ensures Sum(s) == Sum(s[..k]) + Sum(s[k..])
  {
    if k == |s| {
      assert s[..k] == s;
      assert s[k..] == [];
    } else {
      var n := |s|;
      SumSplit(s[..n - 1], k);
      assert s[..n - 1][..k] == s[..k];
      assert s[..n - 1][k..] == s[k..n - 1];
      assert s[k..][..|s[k..]| - 1] == s[k..n - 1];
    }
  }

  /** A sum of values all at most `hi` is at most `|s| * hi`. */
  lemma {:induction false} SumAtMost(s: seq<real>, hi: real)
    requires forall j :: 0 <= j < |s| ==> s[j] <= hi
    ensures Sum(s) <= (|s| as real) * hi
  {
    if |s| > 0 {
      var n := |s|;
      SumAtMost(s[..n - 1], hi);
      assert Sum(s) == Sum(s[..n - 1]) + s[n - 1];
      assert ((n - 1) as real) * hi + hi == (n as real) * hi;
    }
  }

  /** A sum of values all at least `lo` is at least `|s| * lo`. */
  lemma {:induction false} SumAtLeast(s: seq<real>, lo: real)
    requires forall j :: 0 <= j < |s| ==> lo <= s[j]
    ensures (|s| as real) * lo <= Sum(s)
  {
    if |s| > 0 {
      var n := |s|;
      SumAtLeast(s[..n - 1], lo);
      assert Sum(s) == Sum(s[..n - 1]) + s[n - 1];
      assert ((n - 1) as real) * lo + lo == (n as real) * lo;
    }
  }

  /** The mean never exceeds an upper bound of the samples. */
  lemma MeanAtMost(s: seq<real>, hi: real)
    requires |s| >= 1
    requires forall j :: 0 <= j < |s| ==> s[j] <= hi
    ensures Mean(s) <= hi
  {
    SumAtMost(s, hi);
    assert (Mean(s) - hi) * (|s| as real) <= 0.0;
  }

  /** The mean is never below a lower bound of the samples. */
  lemma MeanAtLeast(s: seq<real>, lo: real)
    requires |s| >= 1
    requires forall j :: 0 <= j < |s| ==> lo <= s[j]
    ensures lo <= Mean(s)
  {
    SumAtLeast(s, lo);
    assert (Mean(s) - lo) * (|s| as real) >= 0.0;
  }

  /** The trapezoidal rule with unit spacing equals the plain sum minus half
      of each end sample. */
  lemma {:induction false} TrapzIsSumMinusHalfEnds(s: seq<real>)
    requires |s| >= 1
    ensures Trapz(s) == Sum(s) - (s[0] + s[|s| - 1]) / 2.0
  {
    var n := |s|;
    if n == 1 {
      assert s[..0] == [];
    } else {
      var p := s[..n - 1];
      TrapzIsSumMinusHalfEnds(p);
      assert p[0] == s[0] && p[|p| - 1] == s[n - 2];
    }
  }
}
