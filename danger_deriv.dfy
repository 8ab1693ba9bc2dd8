/** `gen_danger_matrix_deriv`: the mean rate-of-change matrix. For each
    adjacent frame pair the difference divided by the frame interval `1/fps`
    is appended to a list; the list is then summed along its first axis and
    divided by its length. */
module DangerDeriv {
  import opened Grids

  /** The rate between two samples one frame apart: `(b - a) / (1/fps)`. */
  function Rate(a: real, b: real, fps: real): (d: real)
    requires fps != 0.0
    ensures d == (b - a) * fps
  {
    (b - a) / (1.0 / fps)
  }

  /** One entry of the list, cell by cell. */
  function ScaledDiff(a: Grid, b: Grid, h: nat, w: nat, fps: real): (d: Grid)
    requires IsShape(a, h, w) && IsShape(b, h, w) && fps != 0.0
    ensures IsShape(d, h, w)
    ensures forall r, c :: 0 <= r < h && 0 <= c < w ==> d[r][c] == Rate(a[r][c], b[r][c], fps)
  {
    seq(h, r requires 0 <= r < h =>
      seq(w, c requires 0 <= c < w => Rate(a[r][c], b[r][c], fps)))
  }

  /** Cell `(r, c)` of `np.sum(gs[..n], axis = 0)`. */
  function SumAt(gs: seq<Grid>, h: nat, w: nat, r: nat, c: nat, n: nat): real
    requires AllShape(gs, h, w) && r < h && c < w && n <= |gs|
  {
    if n == 0 then 0.0 else SumAt(gs, h, w, r, c, n - 1) + gs[n - 1][r][c]
  }

  /** Reference definition: the sum of the first `n` scaled forward
      differences `(xs[i+1] - xs[i]) * fps` of one pixel's series. */
  function DiffSum(xs: seq<real>, fps: real, n: nat): real
    requires (n < |xs| || n == 0) && fps != 0.0
  {
    if n == 0 then 0.0 else DiffSum(xs, fps, n - 1) + Rate(xs[n - 1], xs[n], fps)
  }

  /** Reference definition: the mean scaled forward difference of a series. */
  function MeanRate(xs: seq<real>, fps: real): real
    requires |xs| >= 2 && fps != 0.0
  {
    DiffSum(xs, fps, |xs| - 1) / (|xs| - 1) as real
  }

  /** The forward differences telescope. */
  lemma {:induction false} Telescope(xs: seq<real>, fps: real, n: nat)
    requires n < |xs| && fps != 0.0
    ensures DiffSum(xs, fps, n) == (xs[n] - xs[0]) * fps
  {
    if n > 0 {
      Telescope(xs, fps, n - 1);
    }
  }

  /** Mean rate in closed form: `fps * (last - first) / (N - 1)`. */
  lemma MeanRateClosedForm(xs: seq<real>, fps: real)
    requires |xs| >= 2 && fps != 0.0
    ensures MeanRate(xs, fps) == fps * (xs[|xs| - 1] - xs[0]) / (|xs| - 1) as real
  {
    Telescope(xs, fps, |xs| - 1);
  }

  /** Scaling every sample by `k` scales the mean rate by `k`. */
  lemma {:induction false} ScaleLinear(xs: seq<real>, k: real, fps: real, n: nat)
    requires n < |xs| && fps != 0.0
    ensures DiffSum(seq(|xs|, i requires 0 <= i < |xs| => k * xs[i]), fps, n) == k * DiffSum(xs, fps, n)
  {
    var ys := seq(|xs|, i requires 0 <= i < |xs| => k * xs[i]);
    if n > 0 {
      ScaleLinear(xs, k, fps, n - 1);
      assert Rate(ys[n - 1], ys[n], fps) == k * Rate(xs[n - 1], xs[n], fps);
    }
  }

  lemma MeanRateScales(xs: seq<real>, k: real, fps: real)
    requires |xs| >= 2 && fps != 0.0
    ensures MeanRate(seq(|xs|, i requires 0 <= i < |xs| => k * xs[i]), fps) == k * MeanRate(xs, fps)
  {
    ScaleLinear(xs, k, fps, |xs| - 1);
  }

  /** Reversing the frame order negates the mean rate. */
  lemma MeanRateReverses(xs: seq<real>, fps: real)
    requires |xs| >= 2 && fps != 0.0
    ensures MeanRate(seq(|xs|, i requires 0 <= i < |xs| => xs[|xs| - 1 - i]), fps) == -MeanRate(xs, fps)
  {
    var ys := seq(|xs|, i requires 0 <= i < |xs| => xs[|xs| - 1 - i]);
    MeanRateClosedForm(xs, fps);
    MeanRateClosedForm(ys, fps);
  }

  /** A pixel that never changes has rate 0. */
  lemma MeanRateOfConstant(xs: seq<real>, fps: real)
    requires |xs| >= 2 && fps != 0.0 && forall i :: 0 <= i < |xs| ==> xs[i] == xs[0]
    ensures MeanRate(xs, fps) == 0.0
  {
    MeanRateClosedForm(xs, fps);
  }

  /** np.sum over the list equals the reference sum of differences. */
  lemma {:induction false} SumOfDiffs(gs: seq<Grid>, xs: seq<real>, h: nat, w: nat, fps: real, r: nat, c: nat, n: nat)
    requires AllShape(gs, h, w) && r < h && c < w && fps != 0.0
    requires n <= |gs| && |gs| < |xs|
    requires forall k :: 0 <= k < |gs| ==> gs[k][r][c] == Rate(xs[k], xs[k + 1], fps)
    ensures SumAt(gs, h, w, r, c, n) == DiffSum(xs, fps, n)
  {
    if n > 0 {
      SumOfDiffs(gs, xs, h, w, fps, r, c, n - 1);
    }
  }

  /** One cell of the reduced list is the reference mean rate. */
  lemma CellOfMean(gs: seq<Grid>, xs: seq<real>, h: nat, w: nat, fps: real, r: nat, c: nat)
    requires AllShape(gs, h, w) && r < h && c < w && fps != 0.0
    requires |gs| > 0 && |gs| == |xs| - 1
    requires forall k :: 0 <= k < |gs| ==> gs[k][r][c] == Rate(xs[k], xs[k + 1], fps)
    ensures SumAt(gs, h, w, r, c, |gs|) / |gs| as real == MeanRate(xs, fps)
  {
    SumOfDiffs(gs, xs, h, w, fps, r, c, |gs|);
  }

  /** The reducer. With fewer than two frames the list is empty and the
      source's `0.0 / 0` produces a NaN scalar instead of a matrix: `None`. */
  method GenDangerMatrixDeriv(frames: seq<Grid>, h: nat, w: nat, fps: real) returns (res: Option<Grid>)
    requires AllShape(frames, h, w) && fps != 0.0
    ensures res.None? <==> |frames| < 2
    ensures res.Some? ==> IsShape(res.value, h, w)
    ensures res.Some? ==> forall r, c :: 0 <= r < h && 0 <= c < w ==>
      res.value[r][c] == MeanRate(Series(frames, h, w, r, c), fps)
  {
    var diffs: seq<Grid> := [];
    var i := 0;
    while i < |frames| - 1
      invariant 0 <= i && (i <= |frames| - 1 || i == 0)
      invariant |diffs| == i && AllShape(diffs, h, w)
      invariant forall k :: 0 <= k < i ==> diffs[k] == ScaledDiff(frames[k], frames[k + 1], h, w, fps)
    {
      diffs := diffs + [ScaledDiff(frames[i], frames[i + 1], h, w, fps)];
      i := i + 1;
    }
    if |diffs| == 0 {
      return None;
    }
    var n := |diffs|;
    var mean := seq(h, r requires 0 <= r < h =>
      seq(w, c requires 0 <= c < w => SumAt(diffs, h, w, r, c, n) / n as real));
    forall r, c | 0 <= r < h && 0 <= c < w
      ensures mean[r][c] == MeanRate(Series(frames, h, w, r, c), fps)
    {
      var xs := Series(frames, h, w, r, c);
      assert forall k :: 0 <= k < n ==> diffs[k][r][c] == Rate(xs[k], xs[k + 1], fps);
      CellOfMean(diffs, xs, h, w, fps, r, c);
    }
    return Some(mean);
  }
}
