/** The moving-average smoother `smooth_moving_avg`: edge-replicating padding
    of `window / 2` samples on each side, then a "valid" convolution with a
    uniform kernel of `window` weights `1 / window`. */
module Smoothing {
  import opened Stats

  /** Clamps `j` into `[lo, hi]`. */
  function Clamp(j: int, lo: int, hi: int): int
    requires lo <= hi
  {
    if j < lo then lo else if j > hi then hi else j
  }

  /** `np.pad(x, (p, p), mode='edge')`: `p` copies of the first sample, then
      `x`, then `p` copies of the last sample. Position `j` of the result
      reads `x` at `j - p` clamped into the valid index range. */
  function EdgePad(x: seq<real>, p: nat): (r: seq<real>)
    requires |x| >= 1
    ensures |r| == |x| + 2 * p
    ensures forall j :: 0 <= j < |r| ==> r[j] == x[Clamp(j - p, 0, |x| - 1)]
  {
    seq(p, _ => x[0]) + x + seq(p, _ => x[|x| - 1])
  }

  /** The default window of `smooth_moving_avg`. */
  const DefaultWindow := 5

  /** `np.ones(w) / w`: `w` equal weights. */
  function UniformKernel(w: int): (r: seq<real>)
    requires w >= 1
    ensures |r| == w
    ensures forall m :: 0 <= m < w ==> r[m] == 1.0 / (w as real)
  {
    seq(w, _ => 1.0 / (w as real))
  }

  /** The weights of the uniform kernel add up to one, so smoothing a
      constant keeps it. */
  lemma UniformKernelSumsToOne(w: int)
    requires w >= 1
    ensures Sum(UniformKernel(w)) == 1.0
  {
    var c := 1.0 / (w as real);
    var k := UniformKernel(w);
    assert forall m :: 0 <= m < |k| ==> k[m] == c;
    SumAtMost(k, c);
    SumAtLeast(k, c);
    assert (w as real) * c == 1.0;
  }

  /** The first `k` terms of output `i` of `np.convolve(a, v)`: the kernel
      is applied reversed, so term `m` pairs `v[m]` with `a[i + |v| - 1 - m]`. */
  function FlippedDot(a: seq<real>, v: seq<real>, i: nat, k: nat): real
    requires k <= |v| && i + |v| <= |a|
  {
    if k == 0 then 0.0 else FlippedDot(a, v, i, k - 1) + a[i + |v| - k] * v[k - 1]
  }

  /** `np.convolve(a, v, mode='valid')` for a kernel no longer than the signal:
      one output per position where the kernel fits entirely. */
  function ConvolveValid(a: seq<real>, v: seq<real>): (r: seq<real>)
    requires 1 <= |v| <= |a|
    ensures |r| == |a| - |v| + 1
  {
    seq(|a| - |v| + 1, i requires 0 <= i < |a| - |v| + 1 => FlippedDot(a, v, i, |v|))
  }

  /** Output `i` of the valid convolution is the flipped dot product at `i`. */
  lemma ConvolveValidAt(a: seq<real>, v: seq<real>, i: nat)
    requires 1 <= |v| <= |a| && i < |a| - |v| + 1
    ensures ConvolveValid(a, v)[i] == FlippedDot(a, v, i, |v|)
  {
  }

  /** `smooth_moving_avg(x, window)` as written. Its length is `|x|` for an odd
      window and `|x| + 1` for an even one, because both ends are padded by
      `window / 2` samples and the valid convolution drops `window - 1`. */
  function SmoothMovingAvg(x: seq<real>, window: int): (r: seq<real>)
    requires |x| >= 1 && window >= 1
    ensures |r| == if window % 2 == 1 then |x| else |x| + 1
  {
    ConvolveValid(EdgePad(x, window / 2), UniformKernel(window))
  }

  /** Reference definition of the smoother's window: the sum of `x` at the
      clamped positions `i - p, ..., i - p + k - 1`. */
  function ClampedWindowSum(x: seq<real>, p: int, i: int, k: nat): real
    requires |x| >= 1
  {
    if k == 0 then 0.0 else ClampedWindowSum(x, p, i, k - 1) + x[Clamp(i + k - 1 - p, 0, |x| - 1)]
  }

  /** With every kernel weight equal to `c`, the flipped dot product is `c`
      times the plain sum of the samples it covers; the reversal does not
      matter. */
  lemma {:induction false} UniformFlippedDot(a: seq<real>, v: seq<real>, c: real, i: nat, k: nat)
    requires k <= |v| && i + |v| <= |a|
    requires forall m :: 0 <= m < |v| ==> v[m] == c
    ensures FlippedDot(a, v, i, k) == c * Sum(a[i + |v| - k .. i + |v|])
  {
    var w := |v|;
    if k == 0 {
      assert a[i + w .. i + w] == [];
    } else {
      UniformFlippedDot(a, v, c, i, k - 1);
      var s := a[i + w - k .. i + w];
      SumSplit(s, 1);
      assert s[..1] == [a[i + w - k]];
      assert s[1..] == a[i + w - k + 1 .. i + w];
      assert Sum(s[..1]) == a[i + w - k] by {
        assert s[..1][..0] == [];
      }
    }
  }

  /** The sum over a slice of the padded signal is the clamped window sum. */
  lemma {:induction false} EdgePadWindowSum(x: seq<real>, p: nat, i: nat, k: nat)
    requires |x| >= 1 && i + k <= |x| + 2 * p
    ensures Sum(EdgePad(x, p)[i .. i + k]) == ClampedWindowSum(x, p, i, k)
  {
    var pad := EdgePad(x, p);
    if k == 0 {
      assert pad[i .. i] == [];
    } else {
      EdgePadWindowSum(x, p, i, k - 1);
      var w := pad[i .. i + k];
      assert w[..k - 1] == pad[i .. i + k - 1];
      assert Sum(w) == Sum(w[..k - 1]) + w[k - 1];
      assert w[k - 1] == pad[i + k - 1];
      assert pad[i + k - 1] == x[Clamp(i + k - 1 - p, 0, |x| - 1)];
    }
  }

  /** Output `i` of the smoother is `1 / window` times the sum of the padded
      signal over `window` samples starting at `i`. */
  lemma SmoothAtPadded(x: seq<real>, window: int, i: nat)
    requires |x| >= 1 && window >= 1
    requires i < |SmoothMovingAvg(x, window)|
    ensures SmoothMovingAvg(x, window)[i] == (1.0 / (window as real)) * Sum(EdgePad(x, window / 2)[i .. i + window])
  {
    var pad := EdgePad(x, window / 2);
    var ker := UniformKernel(window);
    assert SmoothMovingAvg(x, window) == ConvolveValid(pad, ker);
    assert 2 * (window / 2) >= window - 1;
    ConvolveValidAt(pad, ker, i);
    UniformFlippedDot(pad, ker, 1.0 / (window as real), i, window);
  }

  /** Output `i` of the smoother is the mean of `window` input samples
      starting `window / 2` before `i`, with indices clamped to the ends. */
  lemma SmoothAt(x: seq<real>, window: int, i: nat)
    requires |x| >= 1 && window >= 1
    requires i < |SmoothMovingAvg(x, window)|
    ensures SmoothMovingAvg(x, window)[i] == ClampedWindowSum(x, window / 2, i, window) / (window as real)
  {
    SmoothAtPadded(x, window, i);
    EdgePadWindowSum(x, window / 2, i, window);
    ScaleByReciprocal(ClampedWindowSum(x, window / 2, i, window), window as real);
  }

  /** A window of one leaves the signal unchanged. */
  lemma SmoothWindowOne(x: seq<real>)
    requires |x| >= 1
    ensures SmoothMovingAvg(x, 1) == x
  {
    var r := SmoothMovingAvg(x, 1);
    forall i | 0 <= i < |x|
      ensures r[i] == x[i]
    {
      SmoothAt(x, 1, i);
      assert ClampedWindowSum(x, 0, i, 0) == 0.0;
    }
  }

  /** The clamped window sum of a constant signal is `k` times the constant. */
  lemma {:induction false} ClampedWindowSumConstant(x: seq<real>, c: real, p: int, i: int, k: nat)
    requires |x| >= 1
    requires forall j :: 0 <= j < |x| ==> x[j] == c
    ensures ClampedWindowSum(x, p, i, k) == (k as real) * c
  {
    if k > 0 {
      ClampedWindowSumConstant(x, c, p, i, k - 1);
    }
  }

  /** One output of the smoother on a constant signal. */
  lemma SmoothConstantAt(x: seq<real>, window: int, c: real, i: nat)
    requires |x| >= 1 && window >= 1
    requires forall j :: 0 <= j < |x| ==> x[j] == c
    requires i < |SmoothMovingAvg(x, window)|
    ensures SmoothMovingAvg(x, window)[i] == c
  {
    var total := ClampedWindowSum(x, window / 2, i, window);
    SmoothAt(x, window, i);
    ClampedWindowSumConstant(x, c, window / 2, i, window);
    CancelCount(total, c, window as real);
  }

  /** A constant signal is smoothed to the same constant, at every output
      position (including the extra one an even window produces). */
  lemma SmoothConstant(x: seq<real>, window: int, c: real)
    requires |x| >= 1 && window >= 1
    requires forall j :: 0 <= j < |x| ==> x[j] == c
    ensures forall i :: 0 <= i < |SmoothMovingAvg(x, window)| ==> SmoothMovingAvg(x, window)[i] == c
  {
    forall i | 0 <= i < |SmoothMovingAvg(x, window)| {
      SmoothConstantAt(x, window, c, i);
    }
  }

  /** Five ones smoothed with the default window stay five ones. */
  lemma SmoothFiveOnes()
    ensures SmoothMovingAvg([1.0, 1.0, 1.0, 1.0, 1.0], DefaultWindow) == [1.0, 1.0, 1.0, 1.0, 1.0]
  {
    SmoothConstant([1.0, 1.0, 1.0, 1.0, 1.0], DefaultWindow, 1.0);
  }

  /** Counterexample to "the output is as long as the input": with an even
      window the as-written smoother returns one sample too many, and every
      output is shifted half a sample to the left. */
  lemma SmoothEvenWindowOverlong()
    ensures SmoothMovingAvg([0.0, 1.0], 2) == [0.0, 0.5, 1.0]
  {
    var x := [0.0, 1.0];
    SmoothAt(x, 2, 0);
    SmoothAt(x, 2, 1);
    SmoothAt(x, 2, 2);
  }

  /** The smoother with the even-window discrepancy resolved: the trailing
      extra sample is dropped, so the output is exactly as long as the input;
      for an odd window nothing changes. */
  function SmoothSameLength(x: seq<real>, window: int): (r: seq<real>)
    requires |x| >= 1 && window >= 1
    ensures |r| == |x|
    ensures window % 2 == 1 ==> r == SmoothMovingAvg(x, window)
    ensures forall i :: 0 <= i < |x| ==> r[i] == ClampedWindowSum(x, window / 2, i, window) / (window as real)
  {
    var full := SmoothMovingAvg(x, window);
    assert forall i :: 0 <= i < |x| ==> full[i] == ClampedWindowSum(x, window / 2, i, window) / (window as real) by {
      forall i | 0 <= i < |x| {
        SmoothAt(x, window, i);
      }
    }
    full[..|x|]
  }
}
