/** Shared vocabulary of the reducers: frames and masks as rectangular grids
    of exact real samples, numpy's one- and two-dimensional arrays, and the
    row-major flattening that numpy's `flatten` and `unique` see. */
module Grids {

  datatype Option<T> = None | Some(value: T)

  datatype Result<T, E> = Ok(value: T) | Err(error: E)

  /** A two-dimensional array of samples, stored as a sequence of rows. */
  type Grid = seq<seq<real>>

  /** `g` has `h` rows of `w` samples each. */
  predicate IsShape(g: Grid, h: nat, w: nat) {
    |g| == h && forall r :: 0 <= r < h ==> |g[r]| == w
  }

  /** Every frame of `fs` has `h` rows of `w` samples each. */
  predicate AllShape(fs: seq<Grid>, h: nat, w: nat) {
    forall t :: 0 <= t < |fs| ==> IsShape(fs[t], h, w)
  }

  /** Number of columns (numpy's `shape[1]`); 0 for a grid without rows. */
  function Width(g: Grid): nat {
    if |g| == 0 then 0 else |g[0]|
  }

  predicate IsRect(g: Grid) {
    IsShape(g, |g|, Width(g))
  }

  /** A numpy array of one or of two dimensions. */
  datatype NdArray = Vector(items: seq<real>) | Matrix(grid: Grid)

  /** numpy's `shape`. */
  function Shape(a: NdArray): (s: seq<nat>)
    ensures |s| == if a.Matrix? then 2 else 1
  {
    match a
    case Vector(v) => [|v|]
    case Matrix(g) => [|g|, Width(g)]
  }

  /** numpy's `ndim`. */
  function Ndim(a: NdArray): nat {
    |Shape(a)|
  }

  predicate WellFormed(a: NdArray) {
    a.Matrix? ==> IsRect(a.grid)
  }

  /** The sample sequence of one pixel `(r, c)` across the frames. */
  function Series(fs: seq<Grid>, h: nat, w: nat, r: nat, c: nat): (s: seq<real>)
    requires AllShape(fs, h, w) && r < h && c < w
    ensures |s| == |fs| && forall t :: 0 <= t < |fs| ==> s[t] == fs[t][r][c]
  {
    seq(|fs|, t requires 0 <= t < |fs| => fs[t][r][c])
  }

  /** Row-major flattening, numpy's `flatten`. */
  function Flatten(g: Grid): seq<real> {
    if g == [] then [] else g[0] + Flatten(g[1..])
  }

  lemma {:induction false} FlattenLength(g: Grid, h: nat, w: nat)
    requires IsShape(g, h, w)
    ensures |Flatten(g)| == h * w
  {
    if g != [] {
      FlattenLength(g[1..], h - 1, w);
      assert h * w == w + (h - 1) * w;
    }
  }

  /** Cell `(r, c)` sits at position `r * w + c` of the flattening. */
  lemma {:induction false} FlattenAt(g: Grid, h: nat, w: nat, r: nat, c: nat)
    requires IsShape(g, h, w) && r < h && c < w
    ensures r * w + c < |Flatten(g)| && Flatten(g)[r * w + c] == g[r][c]
  {
    var tail := g[1..];
    assert IsShape(tail, h - 1, w);
    FlattenLength(tail, h - 1, w);
    var f := Flatten(g);
    assert f == g[0] + Flatten(tail);
    if r > 0 {
      var k := (r - 1) * w + c;
      FlattenAt(tail, h - 1, w, r - 1, c);
      RowShift(r, w, c);
      assert f[w + k] == Flatten(tail)[k];
    } else {
      assert f[c] == g[0][c];
    }
  }

  lemma RowShift(r: nat, w: nat, c: nat)
    requires r > 0
    ensures r * w + c == w + ((r - 1) * w + c)
  {
  }

  /** Every sample of the flattening comes from some cell. */
  lemma {:induction false} FlattenFrom(g: Grid, h: nat, w: nat, k: nat)
    requires IsShape(g, h, w) && k < |Flatten(g)|
    ensures w > 0 && k / w < h && Flatten(g)[k] == g[k / w][k % w]
  {
    FlattenLength(g, h, w);
    DivBelow(k, h, w);
    FlattenAt(g, h, w, k / w, k % w);
  }

  /** A position below `h * w` lies in one of the `h` rows of width `w`. */
  lemma DivBelow(k: nat, h: nat, w: nat)
    requires k < h * w
    ensures w > 0 && k / w < h && k == (k / w) * w + k % w && k % w < w
  {
    assert w > 0;
    var r := k / w;
    if r >= h {
      MulMonotone(h, r, w);
    }
  }

  /** `a * H + b` with `b < H` splits into `a` and `b`. */
  lemma DivModOfRow(j: nat, a: nat, b: nat, H: nat)
    requires b < H && j == a * H + b
    ensures j / H == a && j % H == b
  {
    var q, r := j / H, j % H;
    assert j == q * H + r && r < H;
    if q > a {
      MulMonotone(a + 1, q, H);
      MulSucc(a, H);
      assert false;
    } else if q < a {
      MulMonotone(q + 1, a, H);
      MulSucc(q, H);
      assert false;
    }
  }

  lemma MulSucc(x: nat, H: nat)
    ensures (x + 1) * H == x * H + H
  {
  }

  lemma MulMonotone(x: nat, y: nat, H: nat)
    requires x <= y
    ensures x * H <= y * H
  {
  }

  /** The largest element of a non-empty sequence (numpy's `max`). */
  function MaxOf(xs: seq<real>): (m: real)
    requires |xs| > 0
    ensures m in xs
    ensures forall i :: 0 <= i < |xs| ==> xs[i] <= m
  {
    if |xs| == 1 then xs[0]
    else
      var rest := MaxOf(xs[1..]);
      if xs[0] >= rest then xs[0] else rest
  }

  /** The smallest element of a non-empty sequence. */
  function MinOf(xs: seq<real>): (m: real)
    requires |xs| > 0
    ensures m in xs
    ensures forall i :: 0 <= i < |xs| ==> m <= xs[i]
  {
    if |xs| == 1 then xs[0]
    else
      var rest := MinOf(xs[1..]);
      if xs[0] <= rest then xs[0] else rest
  }

  /** Sum of a sequence of reals. */
  function Sum(xs: seq<real>): real {
    if xs == [] then 0.0 else xs[0] + Sum(xs[1..])
  }

  /** A sum of samples bounded by `lo` and `hi` lies between |xs|*lo and |xs|*hi. */
  lemma {:induction false} SumBounds(xs: seq<real>, lo: real, hi: real)
    requires forall i :: 0 <= i < |xs| ==> lo <= xs[i] <= hi
    ensures |xs| as real * lo <= Sum(xs) <= |xs| as real * hi
  {
    if xs != [] {
      SumBounds(xs[1..], lo, hi);
    }
  }

  /** Dividing a total bounded by `n * lo` and `n * hi` by `n > 0`. */
  lemma DivBounds(t: real, n: real, lo: real, hi: real)
    requires n > 0.0 && n * lo <= t <= n * hi
    ensures (t / n) * n == t
    ensures lo <= t / n <= hi
  {
    var m := t / n;
    assert m * n == t;
  }

  /** numpy's `mean` of a non-empty sequence: `m` times the number of
      samples is their sum. */
  function Mean(xs: seq<real>): (m: real)
    requires |xs| > 0
    ensures m * |xs| as real == Sum(xs)
  {
    Sum(xs) / |xs| as real
  }

  /** The mean of samples bounded by `lo` and `hi` is bounded by them too. */
  lemma MeanBounds(xs: seq<real>, lo: real, hi: real)
    requires |xs| > 0
    requires forall i :: 0 <= i < |xs| ==> lo <= xs[i] <= hi
    ensures lo <= Mean(xs) <= hi
  {
    SumBounds(xs, lo, hi);
    DivBounds(Sum(xs), |xs| as real, lo, hi);
  }
}
