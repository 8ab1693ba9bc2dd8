/** `deriv_parse.C`: the native rate-of-change reducer. `fillMask` walks a
    flat buffer of integer samples and adds central differences into a flat
    mask of reals, then divides every cell it addresses by the frame count.
    The model follows the code as written, index arithmetic included; the
    lemmas at the end of the module compare that arithmetic with a frame-major,
    row-major reading of the buffer. */
module DerivParse {
  import opened Grids

  /** `derivApprox`: the central difference `(f2 - f1) / (2 h)`. */
  function DerivApprox(f1: real, f2: real, h: real): (d: real)
    requires h != 0.0
    ensures d * (2.0 * h) == f2 - f1
  {
    (f2 - f1) / (2.0 * h)
  }

  /** `x` raised to the `n`-th power. */
  function Power(x: real, n: nat): (p: real)
    ensures x != 0.0 ==> p != 0.0
  {
    if n == 0 then 1.0 else Power(x, n - 1) * x
  }

  /** `x` added `n` times to 0. */
  function Times(n: nat, x: real): real {
    if n == 0 then 0.0 else Times(n - 1, x) + x
  }

  /** Adding `a` and `b` each `n` times adds `a + b` `n` times. */
  lemma {:induction false} TimesAdd(n: nat, a: real, b: real)
    ensures Times(n, a) + Times(n, b) == Times(n, a + b)
  {
    if n > 0 {
      TimesAdd(n - 1, a, b);
    }
  }

  /** Adding 0 any number of times gives 0. */
  lemma {:induction false} TimesZero(n: nat)
    ensures Times(n, 0.0) == 0.0
  {
    if n > 0 {
      TimesZero(n - 1);
    }
  }

  /** Adding `x` `n` times is multiplying it by `n`. */
  lemma {:induction false} TimesIsProduct(n: nat, x: real)
    ensures Times(n, x) == n as real * x
  {
    if n > 0 {
      TimesIsProduct(n - 1, x);
    }
  }

  // ---------------------------------------------------------------------
  // Which cells one sweep over rows and columns addresses

  /** Where the source starts row `i` of the mask: `i * nRows`. */
  function RowStart(i: nat, nRows: nat): nat {
    i * nRows
  }

  /** Cell `k` is one of the first `j` cells addressed for row `i`. */
  predicate InSpan(k: nat, i: nat, j: nat, nRows: nat) {
    RowStart(i, nRows) <= k < RowStart(i, nRows) + j
  }

  /** How many of the rows before `i` address cell `k`. */
  function RowHits(k: nat, i: nat, nRows: nat, nCols: nat): (n: nat)
    ensures n <= i && (n > 0 ==> nCols > 0)
  {
    if i == 0 then 0
    else RowHits(k, i - 1, nRows, nCols) + (if InSpan(k, i - 1, nCols, nRows) then 1 else 0)
  }

  /** How often a sweep has addressed cell `k` once it reaches column `j` of row `i`. */
  function Visits(k: nat, i: nat, j: nat, nRows: nat, nCols: nat): nat {
    RowHits(k, i, nRows, nCols) + (if InSpan(k, i, j, nRows) then 1 else 0)
  }

  /** How often one full sweep addresses cell `k`. */
  function Hits(k: nat, nRows: nat, nCols: nat): (n: nat)
    ensures n <= nRows && (n > 0 ==> nCols > 0)
  {
    RowHits(k, nRows, nRows, nCols)
  }

  // ---------------------------------------------------------------------
  // Central differences read from the sample buffer

  /** Frame pairs the source visits: `nFrames - 2` of them, or none. */
  function Passes(nFrames: nat): nat {
    if nFrames > 2 then nFrames - 2 else 0
  }

  /** The samples from offset `k` of the buffer on: the series the source
      reads for cell `k`, where frame pair `f` compares entries `f` and `f + 2`. */
  function FromOffset(mv: seq<int>, k: nat): seq<int> {
    if k <= |mv| then mv[k..] else []
  }

  /** The central difference between entries `f` and `f + 2` of a series;
      zero past its end. */
  function Step(xs: seq<int>, f: nat, h: real): real
    requires h != 0.0
  {
    if f + 2 < |xs| then DerivApprox(xs[f] as real, xs[f + 2] as real, h) else 0.0
  }

  /** Total of the central differences of a series over its first `n` frame pairs. */
  function RateSum(xs: seq<int>, n: nat, h: real): real
    requires h != 0.0
  {
    if n == 0 then 0.0 else RateSum(xs, n - 1, h) + Step(xs, n - 1, h)
  }

  /** What `fillMask` leaves in a mask that held `m0`: a cell addressed `n`
      times by each sweep received its own central differences `n` times per
      frame pair (the source offsets frame pair `f` by `f` samples) and was then
      divided by `nFrames` `n` times; a cell never addressed keeps its value. */
  function Filled(m0: seq<real>, mv: seq<int>, nFrames: nat, nRows: nat, nCols: nat, fps: real): (out: seq<real>)
    requires fps != 0.0 && (nRows > 0 && nCols > 0 ==> nFrames != 0)
    ensures |out| == |m0|
  {
    seq(|m0|, k requires 0 <= k < |m0| =>
      var n := Hits(k, nRows, nCols);
      if n == 0 then m0[k]
      else (m0[k] + Times(n, RateSum(FromOffset(mv, k), Passes(nFrames), 1.0 / fps))) / Power(nFrames as real, n))
  }

  /** `Filled` as a product: an addressed cell `k` gains its rate total once
      per address, `Hits` times in all, before the divisions. */
  lemma FilledAsProduct(m0: seq<real>, mv: seq<int>, nFrames: nat, nRows: nat, nCols: nat, fps: real, k: nat)
    requires fps != 0.0 && (nRows > 0 && nCols > 0 ==> nFrames != 0) && k < |m0|
    requires Hits(k, nRows, nCols) > 0
    ensures var n := Hits(k, nRows, nCols);
      Filled(m0, mv, nFrames, nRows, nCols, fps)[k]
        == (m0[k] + n as real * RateSum(FromOffset(mv, k), Passes(nFrames), 1.0 / fps)) / Power(nFrames as real, n)
  {
    TimesIsProduct(Hits(k, nRows, nCols), RateSum(FromOffset(mv, k), Passes(nFrames), 1.0 / fps));
  }

  // ---------------------------------------------------------------------
  // The loops of `fillMask`, stated as mask contents

  /** Cell `k` of the mask during the first loop nest, at column `j` of row
      `i` of frame pair `f`. */
  function Pass1At(m0: seq<real>, mv: seq<int>, nRows: nat, nCols: nat, h: real, f: nat, i: nat, j: nat, k: nat): real
    requires h != 0.0 && k < |m0|
  {
    m0[k] + Times(Hits(k, nRows, nCols), RateSum(FromOffset(mv, k), f, h))
      + Times(Visits(k, i, j, nRows, nCols), Step(FromOffset(mv, k), f, h))
  }

  /** The whole mask during the first loop nest. */
  function Pass1State(m0: seq<real>, mv: seq<int>, nRows: nat, nCols: nat, h: real, f: nat, i: nat, j: nat): (s: seq<real>)
    requires h != 0.0
    ensures |s| == |m0|
  {
    seq(|m0|, k requires 0 <= k < |m0| => Pass1At(m0, mv, nRows, nCols, h, f, i, j, k))
  }

  /** Stepping past column `j` adds one central difference to the cell addressed there. */
  lemma Pass1AtAddressed(m0: seq<real>, mv: seq<int>, nRows: nat, nCols: nat, h: real, f: nat, i: nat, j: nat)
    requires h != 0.0 && j < nCols
    requires RowStart(i, nRows) + j < |m0| && f + 2 + RowStart(i, nRows) + j < |mv|
    ensures var idx := RowStart(i, nRows) + j;
            Pass1At(m0, mv, nRows, nCols, h, f, i, j + 1, idx)
              == Pass1At(m0, mv, nRows, nCols, h, f, i, j, idx) + DerivApprox(mv[f + idx] as real, mv[f + 2 + idx] as real, h)
  {
    var idx := RowStart(i, nRows) + j;
    var v := Visits(idx, i, j, nRows, nCols);
    var st := Step(FromOffset(mv, idx), f, h);
    assert Visits(idx, i, j + 1, nRows, nCols) == v + 1;
    assert st == DerivApprox(mv[f + idx] as real, mv[f + 2 + idx] as real, h);
  }

  /** Stepping past column `j` leaves every other cell alone. */
  lemma Pass1AtOther(m0: seq<real>, mv: seq<int>, nRows: nat, nCols: nat, h: real, f: nat, i: nat, j: nat, k: nat)
    requires h != 0.0 && k < |m0| && k != RowStart(i, nRows) + j
    ensures Pass1At(m0, mv, nRows, nCols, h, f, i, j + 1, k) == Pass1At(m0, mv, nRows, nCols, h, f, i, j, k)
  {
    VisitsOther(k, i, j, nRows, nCols);
  }

  lemma VisitsOther(k: nat, i: nat, j: nat, nRows: nat, nCols: nat)
    requires k != RowStart(i, nRows) + j
    ensures Visits(k, i, j + 1, nRows, nCols) == Visits(k, i, j, nRows, nCols)
  {
    assert InSpan(k, i, j + 1, nRows) == InSpan(k, i, j, nRows);
  }

  /** The mask during the second loop nest, at column `j` of row `i`. */
  function Pass2State(p1: seq<real>, n: real, nRows: nat, nCols: nat, i: nat, j: nat): (s: seq<real>)
    requires n != 0.0
    ensures |s| == |p1|
  {
    seq(|p1|, k requires 0 <= k < |p1| => p1[k] / Power(n, Visits(k, i, j, nRows, nCols)))
  }

  lemma Pass1Start(m0: seq<real>, mv: seq<int>, nRows: nat, nCols: nat, h: real)
    requires h != 0.0
    ensures Pass1State(m0, mv, nRows, nCols, h, 0, 0, 0) == m0
  {
    var s := Pass1State(m0, mv, nRows, nCols, h, 0, 0, 0);
    forall k | 0 <= k < |m0| ensures s[k] == m0[k] {
      assert Visits(k, 0, 0, nRows, nCols) == 0;
      TimesZero(Hits(k, nRows, nCols));
    }
  }

  /** Addressing cell `RowStart(i) + j` adds its central difference there and nowhere else. */
  lemma Pass1Cell(m0: seq<real>, mv: seq<int>, nRows: nat, nCols: nat, h: real, f: nat, i: nat, j: nat)
    requires h != 0.0 && j < nCols
    requires RowStart(i, nRows) + j < |m0| && f + 2 + RowStart(i, nRows) + j < |mv|
    ensures var idx := RowStart(i, nRows) + j;
            var s := Pass1State(m0, mv, nRows, nCols, h, f, i, j);
            Pass1State(m0, mv, nRows, nCols, h, f, i, j + 1)
              == s[idx := s[idx] + DerivApprox(mv[f + idx] as real, mv[f + 2 + idx] as real, h)]
  {
    var idx := RowStart(i, nRows) + j;
    var s := Pass1State(m0, mv, nRows, nCols, h, f, i, j);
    var u := Pass1State(m0, mv, nRows, nCols, h, f, i, j + 1);
    var w := s[idx := s[idx] + DerivApprox(mv[f + idx] as real, mv[f + 2 + idx] as real, h)];
    forall k | 0 <= k < |m0| ensures u[k] == w[k] {
      assert u[k] == Pass1At(m0, mv, nRows, nCols, h, f, i, j + 1, k);
      assert s[k] == Pass1At(m0, mv, nRows, nCols, h, f, i, j, k);
      if k == idx {
        Pass1AtAddressed(m0, mv, nRows, nCols, h, f, i, j);
      } else {
        Pass1AtOther(m0, mv, nRows, nCols, h, f, i, j, k);
      }
    }
    assert u == w;
  }

  lemma Pass1Row(m0: seq<real>, mv: seq<int>, nRows: nat, nCols: nat, h: real, f: nat, i: nat)
    requires h != 0.0
    ensures Pass1State(m0, mv, nRows, nCols, h, f, i, nCols) == Pass1State(m0, mv, nRows, nCols, h, f, i + 1, 0)
  {
    var s := Pass1State(m0, mv, nRows, nCols, h, f, i, nCols);
    var t := Pass1State(m0, mv, nRows, nCols, h, f, i + 1, 0);
    forall k | 0 <= k < |m0| ensures s[k] == t[k] {
      assert Visits(k, i, nCols, nRows, nCols) == Visits(k, i + 1, 0, nRows, nCols);
    }
  }

  /** After a full sweep every cell has received its central difference `Hits` times. */
  lemma Pass1Frame(m0: seq<real>, mv: seq<int>, nRows: nat, nCols: nat, h: real, f: nat)
    requires h != 0.0
    ensures Pass1State(m0, mv, nRows, nCols, h, f, nRows, 0) == Pass1State(m0, mv, nRows, nCols, h, f + 1, 0, 0)
  {
    var s := Pass1State(m0, mv, nRows, nCols, h, f, nRows, 0);
    var t := Pass1State(m0, mv, nRows, nCols, h, f + 1, 0, 0);
    forall k | 0 <= k < |m0| ensures s[k] == t[k] {
      assert s[k] == Pass1At(m0, mv, nRows, nCols, h, f, nRows, 0, k);
      assert t[k] == Pass1At(m0, mv, nRows, nCols, h, f + 1, 0, 0, k);
      Pass1AtFrame(m0, mv, nRows, nCols, h, f, k);
    }
  }

  lemma Pass1AtFrame(m0: seq<real>, mv: seq<int>, nRows: nat, nCols: nat, h: real, f: nat, k: nat)
    requires h != 0.0 && k < |m0|
    ensures Pass1At(m0, mv, nRows, nCols, h, f, nRows, 0, k) == Pass1At(m0, mv, nRows, nCols, h, f + 1, 0, 0, k)
  {
    var xs := FromOffset(mv, k);
    VisitsAtEnds(k, nRows, nCols);
    assert RateSum(xs, f + 1, h) == RateSum(xs, f, h) + Step(xs, f, h);
    TimesAdd(Hits(k, nRows, nCols), RateSum(xs, f, h), Step(xs, f, h));
  }

  /** A sweep starts with no visits and ends with `Hits` visits to each cell. */
  lemma VisitsAtEnds(k: nat, nRows: nat, nCols: nat)
    ensures Visits(k, nRows, 0, nRows, nCols) == Hits(k, nRows, nCols)
    ensures Visits(k, 0, 0, nRows, nCols) == 0
  {
  }

  lemma Pass2Start(p1: seq<real>, n: real, nRows: nat, nCols: nat)
    requires n != 0.0
    ensures Pass2State(p1, n, nRows, nCols, 0, 0) == p1
  {
    var s := Pass2State(p1, n, nRows, nCols, 0, 0);
    forall k | 0 <= k < |p1| ensures s[k] == p1[k] {
      assert Visits(k, 0, 0, nRows, nCols) == 0;
    }
  }

  lemma DivTwice(x: real, p: real, n: real)
    requires p != 0.0 && n != 0.0
    ensures (x / p) / n == x / (p * n)
  {
  }

  /** Dividing cell `RowStart(i) + j` by `n` raises its divisor by one power and touches nothing else. */
  lemma Pass2Cell(p1: seq<real>, n: real, nRows: nat, nCols: nat, i: nat, j: nat)
    requires n != 0.0 && j < nCols && RowStart(i, nRows) + j < |p1|
    ensures var idx := RowStart(i, nRows) + j;
            var s := Pass2State(p1, n, nRows, nCols, i, j);
            Pass2State(p1, n, nRows, nCols, i, j + 1) == s[idx := s[idx] / n]
  {
    var idx := RowStart(i, nRows) + j;
    var s := Pass2State(p1, n, nRows, nCols, i, j);
    var t := Pass2State(p1, n, nRows, nCols, i, j + 1);
    forall k | 0 <= k < |p1| ensures t[k] == s[idx := s[idx] / n][k] {
      var v := Visits(k, i, j, nRows, nCols);
      if k == idx {
        assert Visits(k, i, j + 1, nRows, nCols) == v + 1;
        DivTwice(p1[k], Power(n, v), n);
      } else {
        assert Visits(k, i, j + 1, nRows, nCols) == v;
      }
    }
  }

  lemma Pass2Row(p1: seq<real>, n: real, nRows: nat, nCols: nat, i: nat)
    requires n != 0.0
    ensures Pass2State(p1, n, nRows, nCols, i, nCols) == Pass2State(p1, n, nRows, nCols, i + 1, 0)
  {
    var s := Pass2State(p1, n, nRows, nCols, i, nCols);
    var t := Pass2State(p1, n, nRows, nCols, i + 1, 0);
    forall k | 0 <= k < |p1| ensures s[k] == t[k] {
      assert Visits(k, i, nCols, nRows, nCols) == Visits(k, i + 1, 0, nRows, nCols);
    }
  }

  /** The state after both loop nests is the closed form. */
  lemma Pass2Done(m0: seq<real>, mv: seq<int>, nFrames: nat, nRows: nat, nCols: nat, fps: real, n: real)
    requires fps != 0.0 && (nRows > 0 && nCols > 0 ==> nFrames != 0)
    requires n == if nFrames == 0 then 1.0 else nFrames as real
    ensures Pass2State(Pass1State(m0, mv, nRows, nCols, 1.0 / fps, Passes(nFrames), 0, 0), n, nRows, nCols, nRows, 0)
         == Filled(m0, mv, nFrames, nRows, nCols, fps)
  {
    var p1 := Pass1State(m0, mv, nRows, nCols, 1.0 / fps, Passes(nFrames), 0, 0);
    var s := Pass2State(p1, n, nRows, nCols, nRows, 0);
    var out := Filled(m0, mv, nFrames, nRows, nCols, fps);
    forall k | 0 <= k < |m0| ensures s[k] == out[k] {
      assert s[k] == p1[k] / Power(n, Visits(k, nRows, 0, nRows, nCols));
      Pass2DoneAt(m0, mv, nFrames, nRows, nCols, fps, n, k);
    }
  }

  lemma Pass2DoneAt(m0: seq<real>, mv: seq<int>, nFrames: nat, nRows: nat, nCols: nat, fps: real, n: real, k: nat)
    requires fps != 0.0 && (nRows > 0 && nCols > 0 ==> nFrames != 0) && k < |m0|
    requires n == if nFrames == 0 then 1.0 else nFrames as real
    ensures Pass1At(m0, mv, nRows, nCols, 1.0 / fps, Passes(nFrames), 0, 0, k) / Power(n, Visits(k, nRows, 0, nRows, nCols))
         == Filled(m0, mv, nFrames, nRows, nCols, fps)[k]
  {
    var hits := Hits(k, nRows, nCols);
    var rs := RateSum(FromOffset(mv, k), Passes(nFrames), 1.0 / fps);
    assert Visits(k, nRows, 0, nRows, nCols) == hits;
    assert Visits(k, 0, 0, nRows, nCols) == 0;
    assert Pass1At(m0, mv, nRows, nCols, 1.0 / fps, Passes(nFrames), 0, 0, k) == m0[k] + Times(hits, rs);
    if hits == 0 {
      assert Power(n, 0) == 1.0;
    } else {
      assert n == nFrames as real;
    }
  }

  /** The cell and the two samples the innermost statement reads are in range. */
  lemma InBounds(maskLength: nat, mvLength: nat, nFrames: nat, nRows: nat, nCols: nat, f: nat, i: nat, j: nat)
    requires i < nRows && j < nCols
    requires (nRows - 1) * nRows + nCols <= maskLength
    requires f + 2 < nFrames ==> nFrames - 1 + (nRows - 1) * nRows + nCols <= mvLength
    ensures RowStart(i, nRows) + j < maskLength
    ensures f + 2 < nFrames ==> f + 2 + RowStart(i, nRows) + j < mvLength
  {
    MulMonotone(i, nRows - 1, nRows);
  }

  /** The innermost statement (lines 22-23): cell `i * nRows + j` gains the
      central difference of the samples `frameNr` and `frameNr + 2` apart. */
  method AddCellDifference(mask: array<real>, mv: array<int>, nRows: nat, nCols: nat, tStep: real,
                           frameNr: nat, i: nat, j: nat, ghost m0: seq<real>)
    requires tStep != 0.0 && j < nCols
    requires RowStart(i, nRows) + j < mask.Length && frameNr + 2 + RowStart(i, nRows) + j < mv.Length
    requires mask[..] == Pass1State(m0, mv[..], nRows, nCols, tStep, frameNr, i, j)
    modifies mask
    ensures mask[..] == Pass1State(m0, mv[..], nRows, nCols, tStep, frameNr, i, j + 1)
  {
    var idx := i * nRows + j;
    Pass1Cell(m0, mv[..], nRows, nCols, tStep, frameNr, i, j);
    ghost var before := mask[..];
    var d := DerivApprox(mv[frameNr + idx] as real, mv[frameNr + 2 + idx] as real, tStep);
    mask[idx] := mask[idx] + d;
    assert mask[..] == before[idx := before[idx] + d];
  }

  /** One row `i` of one frame pass of the first loop nest (lines 18-25): each
      cell `i * nRows + j` with `j < nCols` gains its central difference. */
  method AddRowDifferences(mask: array<real>, mv: array<int>, nFrames: nat, nRows: nat, nCols: nat, tStep: real,
                           frameNr: nat, i: nat, ghost m0: seq<real>)
    requires tStep != 0.0 && frameNr + 2 < nFrames && i < nRows
    requires nCols > 0 ==> (nRows - 1) * nRows + nCols <= mask.Length
    requires nCols > 0 ==> nFrames - 1 + (nRows - 1) * nRows + nCols <= mv.Length
    requires mask[..] == Pass1State(m0, mv[..], nRows, nCols, tStep, frameNr, i, 0)
    modifies mask
    ensures mask[..] == Pass1State(m0, mv[..], nRows, nCols, tStep, frameNr, i + 1, 0)
  {
    ghost var vs := mv[..];
    var j := 0;
    while j < nCols
      invariant 0 <= j <= nCols
      invariant mask[..] == Pass1State(m0, vs, nRows, nCols, tStep, frameNr, i, j)
    {
      InBounds(mask.Length, mv.Length, nFrames, nRows, nCols, frameNr, i, j);
      AddCellDifference(mask, mv, nRows, nCols, tStep, frameNr, i, j, m0);
      j := j + 1;
    }
    Pass1Row(m0, vs, nRows, nCols, tStep, frameNr, i);
  }

  /** The first loop nest of `fillMask` (lines 12-26), run on one thread: for
      each frame pair, every addressed cell gains its central difference. */
  method AddCentralDifferences(mask: array<real>, mv: array<int>, nFrames: nat, nRows: nat, nCols: nat, tStep: real)
    requires tStep != 0.0
    requires nRows > 0 && nCols > 0 ==> (nRows - 1) * nRows + nCols <= mask.Length
    requires nFrames > 2 && nRows > 0 && nCols > 0 ==> nFrames - 1 + (nRows - 1) * nRows + nCols <= mv.Length
    modifies mask
    ensures mask[..] == Pass1State(old(mask[..]), mv[..], nRows, nCols, tStep, Passes(nFrames), 0, 0)
  {
    ghost var m0, vs := mask[..], mv[..];
    Pass1Start(m0, vs, nRows, nCols, tStep);
    var frameNr := 0;
    while frameNr < nFrames - 2
      invariant 0 <= frameNr <= Passes(nFrames)
      invariant mask[..] == Pass1State(m0, vs, nRows, nCols, tStep, frameNr, 0, 0)
    {
      var i := 0;
      while i < nRows
        invariant 0 <= i <= nRows
        invariant mask[..] == Pass1State(m0, vs, nRows, nCols, tStep, frameNr, i, 0)
      {
        AddRowDifferences(mask, mv, nFrames, nRows, nCols, tStep, frameNr, i, m0);
        i := i + 1;
      }
      Pass1Frame(m0, vs, nRows, nCols, tStep, frameNr);
      frameNr := frameNr + 1;
    }
  }

  /** The second loop nest of `fillMask` (lines 27-34): every addressed cell
      is divided by `nFrames`, once per address. */
  method DivideByFrames(mask: array<real>, nFrames: nat, nRows: nat, nCols: nat)
    requires nRows > 0 && nCols > 0 ==> nFrames != 0 && (nRows - 1) * nRows + nCols <= mask.Length
    modifies mask
    ensures mask[..] == Pass2State(old(mask[..]), if nFrames == 0 then 1.0 else nFrames as real, nRows, nCols, nRows, 0)
  {
    ghost var p1 := mask[..];
    ghost var n := if nFrames == 0 then 1.0 else nFrames as real;
    Pass2Start(p1, n, nRows, nCols);
    var i := 0;
    while i < nRows
      invariant 0 <= i <= nRows
      invariant mask[..] == Pass2State(p1, n, nRows, nCols, i, 0)
    {
      var j := 0;
      while j < nCols
        invariant 0 <= j <= nCols
        invariant mask[..] == Pass2State(p1, n, nRows, nCols, i, j)
      {
        var idx := i * nRows + j;
        InBounds(mask.Length, 0, nFrames, nRows, nCols, nFrames, i, j);
        Pass2Cell(p1, n, nRows, nCols, i, j);
        ghost var before := mask[..];
        mask[idx] := mask[idx] / nFrames as real;
        assert mask[..] == before[idx := before[idx] / n];
        j := j + 1;
      }
      Pass2Row(p1, n, nRows, nCols, i);
      i := i + 1;
    }
  }

  /** `fillMask`, run on one thread: both loop nests in order. The mask
      must be long enough for every cell the source addresses and the sample
      buffer for every sample it reads. */
  method FillMask(mask: array<real>, mv: array<int>, nFrames: nat, nRows: nat, nCols: nat, fps: real)
    requires fps != 0.0
    requires nRows > 0 && nCols > 0 ==> nFrames != 0 && (nRows - 1) * nRows + nCols <= mask.Length
    requires nFrames > 2 && nRows > 0 && nCols > 0 ==> nFrames - 1 + (nRows - 1) * nRows + nCols <= mv.Length
    modifies mask
    ensures mask[..] == Filled(old(mask[..]), mv[..], nFrames, nRows, nCols, fps)
  {
    var tStep := 1.0 / fps;
    AddCentralDifferences(mask, mv, nFrames, nRows, nCols, tStep);
    DivideByFrames(mask, nFrames, nRows, nCols);
    Pass2Done(old(mask[..]), mv[..], nFrames, nRows, nCols, fps, if nFrames == 0 then 1.0 else nFrames as real);
  }

  // ---------------------------------------------------------------------
  // Properties of the closed form

  /** Row `i` addresses cell `k` exactly when one of its columns lands on `k`. */
  lemma {:induction false} RowHitsPositive(k: nat, i: nat, nRows: nat, nCols: nat)
    ensures RowHits(k, i, nRows, nCols) > 0 <==> exists r :: 0 <= r < i && InSpan(k, r, nCols, nRows)
  {
    if i > 0 {
      RowHitsPositive(k, i - 1, nRows, nCols);
    }
  }

  /** The cells a sweep addresses are exactly those in the span
      `[i * nRows, i * nRows + nCols)` of some row `i < nRows`. */
  lemma TouchedCells(k: nat, nRows: nat, nCols: nat)
    ensures Hits(k, nRows, nCols) > 0 <==> exists i :: 0 <= i < nRows && InSpan(k, i, nCols, nRows)
  {
    RowHitsPositive(k, nRows, nRows, nCols);
  }

  /** With no more columns than rows the row spans are disjoint: a sweep
      addresses each cell at most once. */
  lemma {:induction false} NarrowRowsDisjoint(k: nat, i: nat, nRows: nat, nCols: nat)
    requires nCols <= nRows
    ensures RowHits(k, i, nRows, nCols) <= 1
    ensures RowHits(k, i, nRows, nCols) == 1 ==> k < RowStart(i, nRows)
  {
    if i > 0 {
      NarrowRowsDisjoint(k, i - 1, nRows, nCols);
      assert RowStart(i, nRows) == RowStart(i - 1, nRows) + nRows;
    }
  }

  lemma NoCollisions(k: nat, nRows: nat, nCols: nat)
    requires nCols <= nRows
    ensures Hits(k, nRows, nCols) <= 1
  {
    NarrowRowsDisjoint(k, nRows, nRows, nCols);
  }

  /** Rows from the third on start beyond cell `nRows`. */
  lemma {:induction false} LaterRowsMiss(i: nat, nRows: nat, nCols: nat)
    requires 2 <= i && 0 < nRows
    ensures RowHits(nRows, i, nRows, nCols) == RowHits(nRows, 2, nRows, nCols)
  {
    if i > 2 {
      LaterRowsMiss(i - 1, nRows, nCols);
      MulMonotone(2, i - 1, nRows);
    }
  }

  /** With more columns than rows (and at least two rows) the spans of the
      first two rows overlap: cell `nRows` is addressed twice per sweep. */
  lemma WideMaskCollides(nRows: nat, nCols: nat)
    requires 2 <= nRows < nCols
    ensures Hits(nRows, nRows, nCols) == 2
  {
    LaterRowsMiss(nRows, nRows, nCols);
    assert InSpan(nRows, 0, nCols, nRows) && InSpan(nRows, 1, nCols, nRows);
  }

  /** The two-row, three-column instance: the sweep addresses cell 2 twice
      and never reaches cell 5, the last cell of a row-major 2 x 3 mask. */
  lemma StrideExample()
    ensures Hits(2, 2, 3) == 2
    ensures Hits(5, 2, 3) == 0
  {
    WideMaskCollides(2, 3);
    assert !InSpan(5, 0, 3, 2) && !InSpan(5, 1, 3, 2);
  }

  /** The last cell a sweep addresses: column `nCols - 1` of row `nRows - 1`. */
  function LastAddressed(nRows: nat, nCols: nat): nat
    requires nRows > 0 && nCols > 0
  {
    RowStart(nRows - 1, nRows) + nCols - 1
  }

  /** The caller allocates a mask of exactly `nRows * nCols` cells. With more
      rows than columns the last row writes past the end of it. */
  lemma CallerMaskOverrun(nRows: nat, nCols: nat)
    requires 0 < nCols < nRows
    ensures Hits(LastAddressed(nRows, nCols), nRows, nCols) > 0
    ensures LastAddressed(nRows, nCols) >= nRows * nCols
  {
    var k := LastAddressed(nRows, nCols);
    assert InSpan(k, nRows - 1, nCols, nRows);
    TouchedCells(k, nRows, nCols);
    SpanExcess(nRows, nCols);
  }

  /** A mask of `nRows * nCols` cells holds every address of the sweep exactly
      when the mask has one row or no more rows than columns. */
  lemma CallerMaskFits(nRows: nat, nCols: nat)
    requires nRows > 0 && nCols > 0
    ensures (nRows - 1) * nRows + nCols <= nRows * nCols <==> nRows == 1 || nRows <= nCols
  {
    SpanExcess(nRows, nCols);
  }

  /** How far the sweep's span exceeds a row-major mask: `(nRows - 1) * (nRows - nCols)`. */
  lemma SpanExcess(nRows: nat, nCols: nat)
    requires nRows > 0
    ensures (nRows - 1) * nRows + nCols - nRows * nCols == (nRows - 1) * (nRows - nCols)
    ensures nRows > 1 && nRows > nCols ==> (nRows - 1) * (nRows - nCols) >= 1
    ensures nRows > 1 && nRows <= nCols ==> (nRows - 1) * (nRows - nCols) <= 0
  {
    var a, b := nRows - 1, nRows - nCols;
    assert a * nRows - a * nCols == a * b;
    if a > 0 && b > 0 {
      assert a * b >= b;
    } else if a > 0 {
      assert a * b <= 0;
    }
  }

  /** The central differences telescope to the last two entries minus the first two. */
  lemma {:induction false} RateSumTelescopes(xs: seq<int>, n: nat, h: real)
    requires h != 0.0 && n + 1 < |xs|
    ensures RateSum(xs, n, h) * (2.0 * h) == (xs[n] + xs[n + 1] - xs[0] - xs[1]) as real
  {
    if n > 0 {
      RateSumTelescopes(xs, n - 1, h);
      var rs, st := RateSum(xs, n - 1, h), Step(xs, n - 1, h);
      assert st * (2.0 * h) == (xs[n + 1] - xs[n - 1]) as real;
      assert (rs + st) * (2.0 * h) == rs * (2.0 * h) + st * (2.0 * h);
    }
  }

  /** With the step `1/fps`, a doubled difference total `t` means a rate total `fps * t / 2`. */
  lemma HalveByStep(rs: real, t: real, fps: real, n: real)
    requires fps != 0.0 && n != 0.0 && rs * (2.0 * (1.0 / fps)) == t
    ensures rs / n == fps * t / (2.0 * n)
  {
    assert rs == fps * t / 2.0;
  }

  /** An addressed cell lies inside the mask, and the samples read for it
      in the last frame pair lie inside the buffer. */
  lemma TouchedInRange(k: nat, nFrames: nat, nRows: nat, nCols: nat, maskLength: nat, mvLength: nat)
    requires Hits(k, nRows, nCols) > 0
    requires (nRows - 1) * nRows + nCols <= maskLength
    requires nFrames > 2 ==> nFrames - 1 + (nRows - 1) * nRows + nCols <= mvLength
    ensures k < maskLength
    ensures nFrames > 2 ==> nFrames - 1 + k < mvLength
  {
    TouchedCells(k, nRows, nCols);
    var i :| 0 <= i < nRows && InSpan(k, i, nCols, nRows);
    InBounds(maskLength, mvLength, nFrames, nRows, nCols, if nFrames > 2 then nFrames - 3 else nFrames, i, k - RowStart(i, nRows));
  }

  /** A cell addressed once per sweep gets its rate total, divided once. */
  lemma FilledOnce(m0: seq<real>, mv: seq<int>, nFrames: nat, nRows: nat, nCols: nat, fps: real, k: nat)
    requires fps != 0.0 && nFrames != 0 && k < |m0| && Hits(k, nRows, nCols) == 1
    ensures Filled(m0, mv, nFrames, nRows, nCols, fps)[k]
         == (m0[k] + RateSum(FromOffset(mv, k), Passes(nFrames), 1.0 / fps)) / nFrames as real
  {
    assert Power(nFrames as real, 1) == nFrames as real;
    assert Times(1, RateSum(FromOffset(mv, k), Passes(nFrames), 1.0 / fps)) == RateSum(FromOffset(mv, k), Passes(nFrames), 1.0 / fps);
  }

  /** On a zeroed mask with no more columns than rows, every addressed cell
      ends as `fps / 2` times its telescoped central differences, over `nFrames`. */
  lemma ZeroMaskClosedForm(m0: seq<real>, mv: seq<int>, nFrames: nat, nRows: nat, nCols: nat, fps: real, k: nat)
    requires fps != 0.0 && nFrames > 2 && nCols <= nRows
    requires nRows > 0 && nCols > 0 ==> (nRows - 1) * nRows + nCols <= |m0|
    requires nRows > 0 && nCols > 0 ==> nFrames - 1 + (nRows - 1) * nRows + nCols <= |mv|
    requires forall q :: 0 <= q < |m0| ==> m0[q] == 0.0
    requires k < |m0| && Hits(k, nRows, nCols) > 0
    ensures nFrames - 1 + k < |mv|
    ensures Filled(m0, mv, nFrames, nRows, nCols, fps)[k]
         == fps * ((mv[nFrames - 2 + k] + mv[nFrames - 1 + k] - mv[k] - mv[k + 1]) as real) / (2.0 * nFrames as real)
  {
    NoCollisions(k, nRows, nCols);
    TouchedInRange(k, nFrames, nRows, nCols, |m0|, |mv|);
    FilledOnce(m0, mv, nFrames, nRows, nCols, fps, k);
    OffsetRateClosedForm(mv, k, nFrames, fps, m0[k], Filled(m0, mv, nFrames, nRows, nCols, fps)[k]);
  }

  /** A cell starting at 0 that collects the rate total read from offset `k`
      once and is divided by `nFrames`, in closed form. */
  lemma OffsetRateClosedForm(mv: seq<int>, k: nat, nFrames: nat, fps: real, m: real, v: real)
    requires fps != 0.0 && nFrames > 2 && nFrames - 1 + k < |mv| && m == 0.0
    requires v == (m + RateSum(FromOffset(mv, k), Passes(nFrames), 1.0 / fps)) / nFrames as real
    ensures v == fps * ((mv[nFrames - 2 + k] + mv[nFrames - 1 + k] - mv[k] - mv[k + 1]) as real) / (2.0 * nFrames as real)
  {
    var xs := FromOffset(mv, k);
    assert Passes(nFrames) == nFrames - 2;
    RateSumClosedForm(xs, nFrames - 2, fps, nFrames as real);
    assert xs[nFrames - 2] == mv[nFrames - 2 + k] && xs[nFrames - 1] == mv[nFrames - 1 + k];
    assert xs[0] == mv[k] && xs[1] == mv[k + 1];
  }

  // ---------------------------------------------------------------------
  // A frame-major, row-major reading of the buffer

  /** Offset of cell `(r, c)` in a row-major frame of width `nCols`. */
  function PixelOffset(r: nat, c: nat, nCols: nat): nat {
    r * nCols + c
  }

  /** Row-major offsets number the cells of an `nRows` x `nCols` frame
      one-to-one with `[0, nRows * nCols)`. */
  lemma PixelOffsetBijective(nRows: nat, nCols: nat)
    ensures forall r, c :: 0 <= r < nRows && 0 <= c < nCols ==>
      PixelOffset(r, c, nCols) < nRows * nCols
      && PixelOffset(r, c, nCols) / nCols == r && PixelOffset(r, c, nCols) % nCols == c
    ensures forall k :: 0 <= k < nRows * nCols ==>
      k / nCols < nRows && PixelOffset(k / nCols, k % nCols, nCols) == k
  {
    forall r, c | 0 <= r < nRows && 0 <= c < nCols
      ensures PixelOffset(r, c, nCols) < nRows * nCols
      ensures PixelOffset(r, c, nCols) / nCols == r && PixelOffset(r, c, nCols) % nCols == c
    {
      PixelInFrame(nRows, nCols, r, c);
      DivModOfRow(PixelOffset(r, c, nCols), r, c, nCols);
    }
    forall k | 0 <= k < nRows * nCols
      ensures k / nCols < nRows && PixelOffset(k / nCols, k % nCols, nCols) == k
    {
      if k / nCols >= nRows {
        MulMonotone(nRows, k / nCols, nCols);
      }
    }
  }

  lemma PixelInFrame(nRows: nat, nCols: nat, r: nat, c: nat)
    requires r < nRows && c < nCols
    ensures PixelOffset(r, c, nCols) < nRows * nCols
  {
    MulMonotone(r + 1, nRows, nCols);
  }

  /** Sample `k < s` of frame `t < nFrames` lies inside a buffer of `nFrames` frames of `s` samples. */
  lemma FrameSampleInRange(nFrames: nat, s: nat, t: nat, k: nat)
    requires t < nFrames && k < s
    ensures t * s + k < nFrames * s
  {
    MulMonotone(t + 1, nFrames, s);
  }

  /** The samples of cell `(r, c)`, frame by frame, when frame `t` occupies the
      `nRows * nCols` samples from `t * nRows * nCols` on. */
  function PixelSeries(mv: seq<int>, nFrames: nat, nRows: nat, nCols: nat, r: nat, c: nat): (xs: seq<int>)
    requires r < nRows && c < nCols && |mv| == nFrames * (nRows * nCols)
    ensures |xs| == nFrames
  {
    seq(nFrames, t requires 0 <= t < nFrames =>
      PixelInFrame(nRows, nCols, r, c);
      FrameSampleInRange(nFrames, nRows * nCols, t, PixelOffset(r, c, nCols));
      mv[t * (nRows * nCols) + PixelOffset(r, c, nCols)])
  }

  lemma PixelSeriesAt(mv: seq<int>, nFrames: nat, nRows: nat, nCols: nat, r: nat, c: nat, t: nat)
    requires r < nRows && c < nCols && |mv| == nFrames * (nRows * nCols) && t < nFrames
    ensures t * (nRows * nCols) + PixelOffset(r, c, nCols) < |mv|
    ensures PixelSeries(mv, nFrames, nRows, nCols, r, c)[t] == mv[t * (nRows * nCols) + PixelOffset(r, c, nCols)]
  {
    PixelInFrame(nRows, nCols, r, c);
    FrameSampleInRange(nFrames, nRows * nCols, t, PixelOffset(r, c, nCols));
  }

  /** The intended reducer: each cell collects the central differences of its
      own pixel series once, then is divided by `nFrames`. */
  function CentralRates(mv: seq<int>, nFrames: nat, nRows: nat, nCols: nat, fps: real): (g: Grid)
    requires fps != 0.0 && nFrames != 0 && |mv| == nFrames * (nRows * nCols)
    ensures IsShape(g, nRows, nCols)
    ensures forall r, c :: 0 <= r < nRows && 0 <= c < nCols ==> g[r][c] == CentralRate(mv, nFrames, nRows, nCols, fps, r, c)
  {
    seq(nRows, r requires 0 <= r < nRows =>
      seq(nCols, c requires 0 <= c < nCols => CentralRate(mv, nFrames, nRows, nCols, fps, r, c)))
  }

  /** One cell of the intended reducer: the rate total of its own pixel series over `nFrames`. */
  function CentralRate(mv: seq<int>, nFrames: nat, nRows: nat, nCols: nat, fps: real, r: nat, c: nat): real
    requires fps != 0.0 && nFrames != 0 && |mv| == nFrames * (nRows * nCols) && r < nRows && c < nCols
  {
    RateSum(PixelSeries(mv, nFrames, nRows, nCols, r, c), Passes(nFrames), 1.0 / fps) / nFrames as real
  }

  /** The rate total of a series over `n` frame pairs, divided by `d`, in closed form. */
  lemma RateSumClosedForm(xs: seq<int>, n: nat, fps: real, d: real)
    requires fps != 0.0 && d != 0.0 && n + 1 < |xs|
    ensures RateSum(xs, n, 1.0 / fps) / d == fps * (xs[n] + xs[n + 1] - xs[0] - xs[1]) as real / (2.0 * d)
  {
    RateSumTelescopes(xs, n, 1.0 / fps);
    HalveByStep(RateSum(xs, n, 1.0 / fps), (xs[n] + xs[n + 1] - xs[0] - xs[1]) as real, fps, d);
  }

  /** Each cell of the intended reducer depends only on its own pixel: it is
      `fps / 2` times that pixel's last two samples minus its first two, over `nFrames`. */
  lemma CentralRatesClosedForm(mv: seq<int>, nFrames: nat, nRows: nat, nCols: nat, fps: real, r: nat, c: nat)
    requires fps != 0.0 && nFrames > 2 && r < nRows && c < nCols
    requires |mv| == nFrames * (nRows * nCols)
    ensures var xs := PixelSeries(mv, nFrames, nRows, nCols, r, c);
      CentralRates(mv, nFrames, nRows, nCols, fps)[r][c]
        == fps * (xs[nFrames - 2] + xs[nFrames - 1] - xs[0] - xs[1]) as real / (2.0 * nFrames as real)
  {
    var xs := PixelSeries(mv, nFrames, nRows, nCols, r, c);
    var v := CentralRate(mv, nFrames, nRows, nCols, fps, r, c);
    assert CentralRates(mv, nFrames, nRows, nCols, fps)[r][c] == v;
    SeriesRateClosedForm(xs, nFrames, fps, v);
  }

  /** The rate total of a series of `nFrames` samples over its frame pairs,
      divided by `nFrames`, in closed form. */
  lemma SeriesRateClosedForm(xs: seq<int>, nFrames: nat, fps: real, v: real)
    requires fps != 0.0 && nFrames > 2 && |xs| == nFrames
    requires v == RateSum(xs, Passes(nFrames), 1.0 / fps) / nFrames as real
    ensures v == fps * (xs[nFrames - 2] + xs[nFrames - 1] - xs[0] - xs[1]) as real / (2.0 * nFrames as real)
  {
    assert Passes(nFrames) == nFrames - 2;
    RateSumClosedForm(xs, nFrames - 2, fps, nFrames as real);
  }

  /** One row of two cells over three frames whose only non-zero sample is
      cell 0 of the middle frame. The source reads frame pair 0 at offsets 0
      and 2, which are cell 0 of frames 0 and 1, and reports a rate of
      `fps / 6` for cell 0; the frame-major reading compares cell 0 of frames
      0 and 2, both zero, and reports 0. */
  lemma FrameOffsetExample(fps: real)
    requires fps != 0.0
    ensures Filled([0.0, 0.0], [0, 0, 1, 0, 0, 0], 3, 1, 2, fps)[0] == fps / 6.0
    ensures CentralRates([0, 0, 1, 0, 0, 0], 3, 1, 2, fps)[0][0] == 0.0
    ensures fps / 6.0 != 0.0
  {
    var mv: seq<int> := [0, 0, 1, 0, 0, 0];
    var h := 1.0 / fps;
    assert InSpan(0, 0, 2, 1);
    assert Hits(0, 1, 2) == 1;
    var xs := FromOffset(mv, 0);
    assert xs == mv;
    assert Step(xs, 0, h) == DerivApprox(0.0, 1.0, h);
    assert RateSum(xs, 1, h) == fps / 2.0;
    assert Times(1, fps / 2.0) == fps / 2.0;
    assert Power(3.0, 1) == 3.0;
    var ys := PixelSeries(mv, 3, 1, 2, 0, 0);
    PixelSeriesAt(mv, 3, 1, 2, 0, 0, 0);
    PixelSeriesAt(mv, 3, 1, 2, 0, 0, 2);
    assert Step(ys, 0, h) == DerivApprox(0.0, 0.0, h);
    assert RateSum(ys, 1, h) == 0.0;
  }
}
