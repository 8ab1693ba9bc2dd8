/** `gen_pixel_hist` and `avg_pixel_time`: summaries of a reference matrix.
    The histogram flattens the matrix, spaces `nbins` edges evenly from 0 to
    the matrix maximum (numpy's `linspace`) and counts the samples into the
    bins between consecutive edges, all half-open except the last, which is
    closed (numpy's `histogram` with explicit edges). */
module PixelHist {
  import opened Grids

  datatype HistError =
    | NotMultidimensional  // "Mask is empty or one dimensional, ..."
    | EmptyMask            // np.amax of an empty array
    | NegativeBinCount     // np.linspace with a negative number of samples
    | EdgesDecrease        // np.histogram: bins must increase monotonically

  /** `hist, bins, pixel_cts, bin_cts`. */
  datatype Histogram = Histogram(hist: seq<nat>, bins: seq<real>, pixelCts: seq<real>, binCts: seq<real>)

  /** `np.linspace(start, stop, num)` in exact arithmetic. */
  function Linspace(start: real, stop: real, num: nat): (e: seq<real>)
    ensures |e| == num
    ensures num >= 1 ==> e[0] == start
    ensures num >= 2 ==> e[num - 1] == stop
  {
    if num == 1 then [start]
    else
      var step := (stop - start) / (num - 1) as real;
      seq(num, k requires 0 <= k < num => start + k as real * step)
  }

  /** Edges that start at 0: edge `k` is `k * stop / (num - 1)`. */
  lemma LinspaceFromZero(stop: real, num: nat)
    requires num >= 2
    ensures forall k :: 0 <= k < num ==> Linspace(0.0, stop, num)[k] == k as real * stop / (num - 1) as real
  {
    var e := Linspace(0.0, stop, num);
    forall k | 0 <= k < num
      ensures e[k] == k as real * stop / (num - 1) as real
    {
      var step := (stop - 0.0) / (num - 1) as real;
      assert e[k] == 0.0 + k as real * step;
      assert step == stop / (num - 1) as real;
    }
  }

  /** The bin edges of `gen_pixel_hist`: `nbins` edges from 0 to `top`. */
  function Edges(top: real, nbins: nat): (e: seq<real>)
    ensures |e| == nbins
    ensures nbins == 1 ==> e == [0.0]
    ensures nbins >= 2 ==> forall k :: 0 <= k < nbins ==> e[k] == k as real * top / (nbins - 1) as real
  {
    if nbins >= 2 then
      LinspaceFromZero(top, nbins);
      Linspace(0.0, top, nbins)
    else
      Linspace(0.0, top, nbins)
  }

  /** Consecutive linspace edges differ by one step. */
  lemma LinspaceStep(start: real, stop: real, num: nat, k: nat)
    requires num >= 2 && k < num - 1
    ensures Linspace(start, stop, num)[k + 1] - Linspace(start, stop, num)[k] == (stop - start) / (num - 1) as real
  {
    var step := (stop - start) / (num - 1) as real;
    assert (k + 1) as real * step == k as real * step + step;
  }

  /** Edges from `start` to a larger `stop` increase strictly. */
  lemma LinspaceIncreasing(start: real, stop: real, num: nat)
    requires num >= 2 && start < stop
    ensures forall k :: 0 <= k < num - 1 ==> Linspace(start, stop, num)[k] < Linspace(start, stop, num)[k + 1]
  {
    forall k | 0 <= k < num - 1
      ensures Linspace(start, stop, num)[k] < Linspace(start, stop, num)[k + 1]
    {
      LinspaceStep(start, stop, num, k);
    }
  }

  /** Edges from `start` to a stop no smaller never decrease. */
  lemma LinspaceNondecreasing(start: real, stop: real, num: nat)
    requires num >= 2 && start <= stop
    ensures forall k :: 0 <= k < num - 1 ==> Linspace(start, stop, num)[k] <= Linspace(start, stop, num)[k + 1]
  {
    forall k | 0 <= k < num - 1
      ensures Linspace(start, stop, num)[k] <= Linspace(start, stop, num)[k + 1]
    {
      LinspaceStep(start, stop, num, k);
    }
  }

  /** Edges from `start` to a smaller `stop` decrease, which numpy rejects. */
  lemma LinspaceDecreasing(start: real, stop: real, num: nat)
    requires num >= 2 && stop < start
    ensures Linspace(start, stop, num)[1] < Linspace(start, stop, num)[0]
  {
    LinspaceStep(start, stop, num, 0);
  }

  /** Number of samples `x` with `lo <= x < hi` (`lo <= x <= hi` when `closed`). */
  function CountIn(xs: seq<real>, lo: real, hi: real, closed: bool): (n: nat)
    ensures n <= |xs|
  {
    if xs == [] then 0
    else (if lo <= xs[0] && (xs[0] < hi || (closed && xs[0] == hi)) then 1 else 0)
         + CountIn(xs[1..], lo, hi, closed)
  }

  /** The counts of numpy's `histogram` for explicit edges `e`. */
  function HistCounts(xs: seq<real>, e: seq<real>): (h: seq<nat>)
    ensures |h| == if |e| == 0 then 0 else |e| - 1
    ensures forall k :: 0 <= k < |h| ==> h[k] == CountIn(xs, e[k], e[k + 1], k == |h| - 1)
  {
    if |e| < 2 then []
    else seq(|e| - 1, k requires 0 <= k < |e| - 1 => BinCount(xs, e, k))
  }

  /** The count of bin `k`: half-open, except the last bin, which is closed. */
  function BinCount(xs: seq<real>, e: seq<real>, k: nat): nat
    requires k + 1 < |e|
  {
    CountIn(xs, e[k], e[k + 1], k == |e| - 2)
  }

  /** Sum of counts. */
  function Total(h: seq<nat>): nat {
    if h == [] then 0 else Total(h[..|h| - 1]) + h[|h| - 1]
  }

  /** Adjacent intervals add up. */
  lemma {:induction false} CountSplit(xs: seq<real>, a: real, b: real, c: real, closed: bool)
    requires a <= b <= c
    ensures CountIn(xs, a, b, false) + CountIn(xs, b, c, closed) == CountIn(xs, a, c, closed)
  {
    if xs != [] {
      CountSplit(xs[1..], a, b, c, closed);
    }
  }

  lemma {:induction false} CountEmptyInterval(xs: seq<real>, a: real)
    ensures CountIn(xs, a, a, false) == 0
  {
    if xs != [] {
      CountEmptyInterval(xs[1..], a);
    }
  }

  /** The first `k` half-open bins together cover `[e[0], e[k])`. */
  lemma {:induction false} PrefixCounts(xs: seq<real>, e: seq<real>, k: nat)
    requires 2 <= |e| && k <= |e| - 2
    requires forall i :: 0 <= i < |e| - 1 ==> e[i] <= e[i + 1]
    ensures Total(HistCounts(xs, e)[..k]) == CountIn(xs, e[0], e[k], false)
    ensures e[0] <= e[k]
  {
    var h := HistCounts(xs, e);
    if k == 0 {
      assert h[..0] == [];
      CountEmptyInterval(xs, e[0]);
    } else {
      PrefixCounts(xs, e, k - 1);
      assert h[..k][..k - 1] == h[..k - 1];
      assert Total(h[..k]) == Total(h[..k - 1]) + h[k - 1];
      assert h[k - 1] == CountIn(xs, e[k - 1], e[k], false);
      assert e[k - 1] <= e[k];
      CountSplit(xs, e[0], e[k - 1], e[k], false);
    }
  }

  /** Histogram conservation: over non-decreasing edges the counts add up to
      the number of samples in `[e[0], e[|e| - 1]]`. */
  lemma Conservation(xs: seq<real>, e: seq<real>)
    requires 2 <= |e|
    requires forall i :: 0 <= i < |e| - 1 ==> e[i] <= e[i + 1]
    ensures Total(HistCounts(xs, e)) == CountIn(xs, e[0], e[|e| - 1], true)
  {
    var h := HistCounts(xs, e);
    var n := |e|;
    PrefixCounts(xs, e, n - 2);
    assert |h| == n - 1;
    assert Total(h) == Total(h[..n - 2]) + h[n - 2];
    assert h[n - 2] == CountIn(xs, e[n - 2], e[n - 1], true);
    assert e[n - 2] <= e[n - 1];
    CountSplit(xs, e[0], e[n - 2], e[n - 1], true);
  }

  /** The histogram part of `gen_pixel_hist`, once the flattened samples are
      known to be non-empty and the edges not to decrease. */
  function Bin(pixelCts: seq<real>, nbins: nat): (h: Histogram)
    requires |pixelCts| > 0 && (nbins >= 2 ==> MaxOf(pixelCts) >= 0.0)
    ensures h.pixelCts == pixelCts
    ensures h.binCts == Edges(MaxOf(pixelCts), nbins)
    ensures |h.hist| == if nbins == 0 then 0 else nbins - 1
    ensures forall k :: 0 <= k < |h.hist| ==>
      h.hist[k] == CountIn(pixelCts, h.binCts[k], h.binCts[k + 1], k == |h.hist| - 1)
    ensures nbins >= 2 ==> Total(h.hist) == CountIn(pixelCts, 0.0, MaxOf(pixelCts), true)
    ensures h.bins == h.binCts
  {
    var binCts := Edges(MaxOf(pixelCts), nbins);
    var hist := HistCounts(pixelCts, binCts);
    if nbins >= 2 then
      LinspaceNondecreasing(0.0, MaxOf(pixelCts), nbins);
      Conservation(pixelCts, binCts);
      Histogram(hist, binCts, pixelCts, binCts)
    else
      Histogram(hist, binCts, pixelCts, binCts)
  }

  /** `gen_pixel_hist`: its failures, in the order the source meets them. */
  function GenPixelHist(mask: NdArray, nbins: int): (res: Result<Histogram, HistError>)
    requires WellFormed(mask)
    ensures Ndim(mask) <= 1 ==> res == Err(NotMultidimensional)
    ensures mask.Matrix? && |Flatten(mask.grid)| == 0 ==> res == Err(EmptyMask)
    ensures mask.Matrix? && |Flatten(mask.grid)| > 0 ==>
      && (res == Err(NegativeBinCount) <==> nbins < 0)
      && (res == Err(EdgesDecrease) <==> nbins >= 2 && MaxOf(Flatten(mask.grid)) < 0.0)
      && (res.Ok? <==> nbins >= 0 && (nbins >= 2 ==> MaxOf(Flatten(mask.grid)) >= 0.0))
    ensures res.Ok? ==> mask.Matrix? && res.value == Bin(Flatten(mask.grid), nbins)
    ensures res.Ok? ==> |res.value.pixelCts| == |mask.grid| * Width(mask.grid)
  {
    match mask
    case Vector(_) => Err(NotMultidimensional)
    case Matrix(g) =>
      var pixelCts := Flatten(g);
      FlattenLength(g, |g|, Width(g));
      if |pixelCts| == 0 then Err(EmptyMask)
      else if nbins < 0 then Err(NegativeBinCount)
      else if nbins >= 2 && MaxOf(pixelCts) < 0.0 then
        LinspaceDecreasing(0.0, MaxOf(pixelCts), nbins);
        Err(EdgesDecrease)
      else Ok(Bin(pixelCts, nbins))
  }

  /** Samples all lying in `[lo, hi]` are all counted by the closed interval. */
  lemma {:induction false} CountAll(xs: seq<real>, lo: real, hi: real)
    requires forall i :: 0 <= i < |xs| ==> lo <= xs[i] <= hi
    ensures CountIn(xs, lo, hi, true) == |xs|
  {
    if xs != [] {
      CountAll(xs[1..], lo, hi);
    }
  }

  /** A mask of non-negative samples, such as a danger matrix, has every
      sample in some bin. */
  lemma EverySampleCounted(pixelCts: seq<real>, nbins: nat)
    requires |pixelCts| > 0 && nbins >= 2
    requires forall i :: 0 <= i < |pixelCts| ==> pixelCts[i] >= 0.0
    ensures Total(Bin(pixelCts, nbins).hist) == |pixelCts|
  {
    CountAll(pixelCts, 0.0, MaxOf(pixelCts));
  }

  /** With a positive maximum the edges increase strictly. */
  lemma EdgesIncrease(pixelCts: seq<real>, nbins: nat)
    requires |pixelCts| > 0 && nbins >= 2 && MaxOf(pixelCts) > 0.0
    ensures var e := Bin(pixelCts, nbins).binCts;
      forall k :: 0 <= k < nbins - 1 ==> e[k] < e[k + 1]
  {
    LinspaceIncreasing(0.0, MaxOf(pixelCts), nbins);
  }

  /** An all-zero maximum does not fail: every edge is 0, every bin but the
      last is empty and the last holds the zero samples. */
  lemma ZeroMaxHistogram(pixelCts: seq<real>, nbins: nat)
    requires |pixelCts| > 0 && nbins >= 2 && MaxOf(pixelCts) == 0.0
    ensures var h := Bin(pixelCts, nbins);
      && (forall k :: 0 <= k < nbins ==> h.binCts[k] == 0.0)
      && (forall k :: 0 <= k < nbins - 2 ==> h.hist[k] == 0)
      && h.hist[nbins - 2] == CountIn(h.pixelCts, 0.0, 0.0, true)
  {
    var h := Bin(pixelCts, nbins);
    forall k | 0 <= k < nbins - 2
      ensures h.hist[k] == 0
    {
      CountEmptyInterval(h.pixelCts, 0.0);
    }
  }

  /** `avg_pixel_time`: the mean of every row, paired with `linspace(0, H, H)`. */
  function AvgPixelTime(mask: Grid, h: nat, w: nat): (res: (seq<real>, seq<real>))
    requires IsShape(mask, h, w) && (h > 0 ==> w > 0)
    ensures res.0 == Linspace(0.0, h as real, h)
    ensures |res.1| == h
    ensures forall r :: 0 <= r < h ==> res.1[r] == Mean(mask[r])
  {
    (Linspace(0.0, h as real, h), seq(h, r requires 0 <= r < h => Mean(mask[r])))
  }

  /** Each row's mean lies between the row's smallest and largest sample. */
  lemma AvgPixelTimeWithinRow(mask: Grid, h: nat, w: nat, r: nat)
    requires IsShape(mask, h, w) && (h > 0 ==> w > 0) && r < h
    ensures MinOf(mask[r]) <= AvgPixelTime(mask, h, w).1[r] <= MaxOf(mask[r])
  {
    MeanBounds(mask[r], MinOf(mask[r]), MaxOf(mask[r]));
  }
}
