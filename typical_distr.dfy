/** `gen_typical_distr`: two clipped mean traces over the frames, one for a
    "typical" selection and one for the cells at the mask maximum.

    The typical selection is computed as the source writes it: the positions
    `j` of the most frequent values among the sorted distinct mask values
    (`np.unique(..., return_counts = True)`) index the coordinate list
    `itertools.product(range(W), range(H))`, and the resulting `(m, 2)` integer
    array indexes the first axis of each frame, so ROWS are selected. */
module TypicalDistr {
  import opened Grids

  datatype TypicalError =
    | EmptyMask           // `.max()` of the counts of an empty two-dimensional mask
    | NotMultidimensional // `np.shape(mask)[1]` of a one-dimensional mask
    | TypicalIndex        // a row index of the typical selection past the frame
    | LargestIndex        // a cell of the maximum past the frame

  predicate StrictlyIncreasing(vs: seq<real>) {
    forall i, j :: 0 <= i < j < |vs| ==> vs[i] < vs[j]
  }

  /** Insertion of `x` into sorted distinct values. */
  function Insert(x: real, vs: seq<real>): (us: seq<real>)
    requires StrictlyIncreasing(vs)
    ensures StrictlyIncreasing(us)
    ensures forall v :: v in us <==> v == x || v in vs
    ensures |us| <= |vs| + 1
  {
    if vs == [] then [x]
    else if x < vs[0] then [x] + vs
    else if x == vs[0] then vs
    else
      var rest := Insert(x, vs[1..]);
      assert forall v :: v in vs <==> v == vs[0] || v in vs[1..];
      ConsIncreasing(vs[0], rest, x, vs[1..]);
      [vs[0]] + rest
  }

  /** A value below everything `rest` can hold may go in front of it. */
  lemma ConsIncreasing(y: real, rest: seq<real>, x: real, tail: seq<real>)
    requires StrictlyIncreasing(rest) && y < x
    requires forall v :: v in tail ==> y < v
    requires forall v :: v in rest ==> v == x || v in tail
    ensures StrictlyIncreasing([y] + rest)
  {
    var us := [y] + rest;
    forall i, j | 0 <= i < j < |us| ensures us[i] < us[j] {
      if i == 0 {
        assert us[j] == rest[j - 1] && rest[j - 1] in rest;
      } else {
        assert us[i] == rest[i - 1] && us[j] == rest[j - 1];
      }
    }
  }

  /** The sorted distinct values of `xs` (numpy's `unique`). */
  function Unique(xs: seq<real>): (vs: seq<real>)
    ensures StrictlyIncreasing(vs)
    ensures forall v :: v in vs <==> v in xs
    ensures |vs| <= |xs|
    ensures |xs| > 0 ==> |vs| > 0
  {
    if xs == [] then []
    else
      var rest := Unique(xs[1..]);
      assert forall v :: v in xs <==> v == xs[0] || v in xs[1..];
      Insert(xs[0], rest)
  }

  /** `return_counts`: how often each distinct value occurs. */
  function Counts(xs: seq<real>, vs: seq<real>): (cs: seq<nat>)
    requires forall j :: 0 <= j < |vs| ==> vs[j] in xs
    ensures |cs| == |vs|
    ensures forall j :: 0 <= j < |vs| ==> cs[j] == multiset(xs)[vs[j]] && cs[j] > 0
  {
    assert forall j :: 0 <= j < |vs| ==> vs[j] in multiset(xs);
    seq(|vs|, j requires 0 <= j < |vs| => multiset(xs)[vs[j]])
  }

  /** The largest of some counts (numpy's `max`). */
  function MaxCount(cs: seq<nat>): (m: nat)
    requires |cs| > 0
    ensures m in cs
    ensures forall j :: 0 <= j < |cs| ==> cs[j] <= m
  {
    if |cs| == 1 then cs[0]
    else
      var rest := MaxCount(cs[1..]);
      if cs[0] >= rest then cs[0] else rest
  }

  /** The positions of `v` in `xs`, ascending (numpy's `where` on `xs == v`). */
  function Where<T(==)>(xs: seq<T>, v: T): (ks: seq<nat>)
    ensures |ks| <= |xs|
    ensures forall i :: 0 <= i < |ks| ==> ks[i] < |xs|
  {
    if xs == [] then []
    else
      var n := |xs| - 1;
      var front := Where(xs[..n], v);
      assert forall i :: 0 <= i < |front| ==> front[i] < n;
      if xs[n] == v then front + [n] else front
  }

  /** Every position found holds `v`. */
  lemma {:induction false} WhereSound<T>(xs: seq<T>, v: T)
    ensures forall i :: 0 <= i < |Where(xs, v)| ==> xs[Where(xs, v)[i]] == v
  {
    if xs != [] {
      var n := |xs| - 1;
      WhereSound(xs[..n], v);
      var front := Where(xs[..n], v);
      assert forall i :: 0 <= i < |front| ==> front[i] < n && xs[..n][front[i]] == xs[front[i]];
      if xs[n] == v {
        var ks := front + [n];
        assert Where(xs, v) == ks;
        assert forall i :: 0 <= i < |front| ==> ks[i] == front[i];
      } else {
        assert Where(xs, v) == front;
      }
    }
  }

  /** Every position holding `v` is found. */
  lemma {:induction false} WhereComplete<T>(xs: seq<T>, v: T, k: nat)
    requires k < |xs| && xs[k] == v
    ensures k in Where(xs, v)
  {
    var n := |xs| - 1;
    if k < n {
      WhereComplete(xs[..n], v, k);
    }
  }

  /** The positions come out in ascending order. */
  lemma {:induction false} WhereAscending<T>(xs: seq<T>, v: T)
    ensures forall i, j :: 0 <= i < j < |Where(xs, v)| ==> Where(xs, v)[i] < Where(xs, v)[j]
  {
    if xs != [] {
      var n := |xs| - 1;
      WhereAscending(xs[..n], v);
      var front := Where(xs[..n], v);
      assert forall i :: 0 <= i < |front| ==> front[i] < n;
      if xs[n] == v {
        var ks := front + [n];
        assert Where(xs, v) == ks;
        assert forall i :: 0 <= i < |front| ==> ks[i] == front[i];
      } else {
        assert Where(xs, v) == front;
      }
    }
  }

  /** The positions found are exactly those holding `v`. */
  lemma WhereExact<T>(xs: seq<T>, v: T)
    ensures forall k :: 0 <= k < |xs| ==> (k in Where(xs, v) <==> xs[k] == v)
  {
    WhereSound(xs, v);
    forall k | 0 <= k < |xs|
      ensures k in Where(xs, v) <==> xs[k] == v
    {
      if xs[k] == v {
        WhereComplete(xs, v, k);
      }
    }
  }

  /** `list(itertools.product(range(W), range(H)))`. */
  function Product(W: nat, H: nat): seq<(nat, nat)> {
    if W == 0 then []
    else Product(W - 1, H) + seq(H, b requires 0 <= b < H => (W - 1, b))
  }

  /** Entry `j` of the product list is `(j div H, j mod H)`. */
  lemma {:induction false} ProductAt(W: nat, H: nat)
    ensures |Product(W, H)| == W * H
    ensures forall j :: 0 <= j < W * H ==> Product(W, H)[j] == (j / H, j % H)
  {
    if W > 0 {
      ProductAt(W - 1, H);
      var front := Product(W - 1, H);
      var p := Product(W, H);
      assert W * H == (W - 1) * H + H;
      forall j | 0 <= j < W * H
        ensures p[j] == (j / H, j % H)
      {
        if j >= (W - 1) * H {
          var b := j - (W - 1) * H;
          assert p[j] == (W - 1, b);
          DivModOfRow(j, W - 1, b, H);
        }
      }
    }
  }

  /** The positions `j` among the distinct values whose count is the largest
      count, ascending: `np.where(typ_idx == typ_idx.max())`. */
  function TopPositions(xs: seq<real>): (js: seq<nat>)
    requires |xs| > 0
    ensures |js| > 0
    ensures forall i :: 0 <= i < |js| ==> js[i] < |xs|
  {
    var cs := Counts(xs, Unique(xs));
    MaxCountIsFound(cs);
    Where(cs, MaxCount(cs))
  }

  /** The top positions are the positions among the distinct values whose
      count is the largest count. */
  lemma TopPositionsExact(xs: seq<real>)
    requires |xs| > 0
    ensures forall j :: 0 <= j < |Unique(xs)| ==>
      (j in TopPositions(xs) <==> Counts(xs, Unique(xs))[j] == MaxCount(Counts(xs, Unique(xs))))
  {
    var cs := Counts(xs, Unique(xs));
    WhereExact(cs, MaxCount(cs));
  }

  /** `v` occurs in `xs` at least as often as any value of `xs` does. */
  predicate IsMode(xs: seq<real>, v: real) {
    forall u :: u in xs ==> multiset(xs)[u] <= multiset(xs)[v]
  }

  /** The top positions are exactly the positions of the modes among the
      sorted distinct values. */
  lemma TopPositionsAreModes(xs: seq<real>, j: nat)
    requires |xs| > 0 && j < |Unique(xs)|
    ensures j in TopPositions(xs) <==> IsMode(xs, Unique(xs)[j])
  {
    var vs := Unique(xs);
    var cs := Counts(xs, vs);
    TopPositionsExact(xs);
    ModeOfCounts(xs, vs, cs, j);
  }

  /** With `cs` counting the distinct values `vs` of `xs`, entry `j` has the
      largest count exactly when `vs[j]` is a mode. */
  lemma ModeOfCounts(xs: seq<real>, vs: seq<real>, cs: seq<nat>, j: nat)
    requires j < |vs| == |cs|
    requires forall v :: v in vs <==> v in xs
    requires forall i :: 0 <= i < |vs| ==> cs[i] == multiset(xs)[vs[i]]
    ensures cs[j] == MaxCount(cs) <==> IsMode(xs, vs[j])
  {
    var top := MaxCount(cs);
    assert cs[j] == multiset(xs)[vs[j]];
    if cs[j] == top {
      forall v | v in xs
        ensures multiset(xs)[v] <= multiset(xs)[vs[j]]
      {
        var i :| 0 <= i < |vs| && vs[i] == v;
        assert cs[i] <= top;
      }
    } else {
      var i :| 0 <= i < |cs| && cs[i] == top;
      var u := vs[i];
      assert u in xs && multiset(xs)[vs[j]] < multiset(xs)[u];
    }
  }

  /** The rows the typical selection reads: entry `j` of the coordinate list
      `product(range(W), range(H))` for every top position `j`. */
  function TypicalPairs(g: Grid): (pairs: seq<(nat, nat)>)
    requires IsRect(g) && |Flatten(g)| > 0
    ensures |pairs| > 0
    ensures |pairs| == |TopPositions(Flatten(g))|
    ensures forall i :: 0 <= i < |pairs| ==>
      var j := TopPositions(Flatten(g))[i];
      pairs[i] == (j / |g|, j % |g|)
  {
    var H, W := |g|, Width(g);
    var js := TopPositions(Flatten(g));
    FlattenLength(g, H, W);
    ProductAt(W, H);
    assert H * W == W * H;
    seq(|js|, i requires 0 <= i < |js| => Product(W, H)[js[i]])
  }

  /** Both rows of every pair exist in a frame of `fh` rows. */
  predicate RowsInRange(pairs: seq<(nat, nat)>, fh: nat) {
    forall i :: 0 <= i < |pairs| ==> pairs[i].0 < fh && pairs[i].1 < fh
  }

  /** `frame[typ_idx]` flattened: the two rows of every pair, in order. */
  function RowValues(frame: Grid, fh: nat, fw: nat, pairs: seq<(nat, nat)>): (vs: seq<real>)
    requires IsShape(frame, fh, fw) && RowsInRange(pairs, fh)
    ensures |vs| == 2 * |pairs| * fw
  {
    if pairs == [] then []
    else
      var n := |pairs| - 1;
      var front := RowValues(frame, fh, fw, pairs[..n]);
      assert 2 * |pairs| * fw == 2 * n * fw + fw + fw;
      front + frame[pairs[n].0] + frame[pairs[n].1]
  }

  /** The cells at the mask maximum in row-major order:
      `np.where(mask == np.max(mask))`. */
  function LargestCells(g: Grid, h: nat, w: nat): (cells: seq<(nat, nat)>)
    requires IsShape(g, h, w) && |Flatten(g)| > 0
    ensures |cells| > 0
    ensures forall i :: 0 <= i < |cells| ==>
      cells[i].0 < h && cells[i].1 < w && g[cells[i].0][cells[i].1] == MaxOf(Flatten(g))
  {
    var flat := Flatten(g);
    var ks := Where(flat, MaxOf(flat));
    CellsOfPositions(g, h, w, ks);
    WhereSound(flat, MaxOf(flat));
    MaxIsFound(flat);
    CellsOf(ks, w)
  }

  lemma MaxIsFound(xs: seq<real>)
    requires |xs| > 0
    ensures |Where(xs, MaxOf(xs))| > 0
  {
    var k :| 0 <= k < |xs| && xs[k] == MaxOf(xs);
    WhereComplete(xs, MaxOf(xs), k);
  }

  lemma CellsOfPositions(g: Grid, h: nat, w: nat, ks: seq<nat>)
    requires IsShape(g, h, w) && forall i :: 0 <= i < |ks| ==> ks[i] < |Flatten(g)|
    ensures w > 0 || ks == []
    ensures forall i :: 0 <= i < |ks| ==>
      var p := CellOf(ks[i], w);
      p.0 < h && p.1 < w && g[p.0][p.1] == Flatten(g)[ks[i]]
  {
    if ks != [] {
      FlattenFrom(g, h, w, ks[0]);
    }
    forall i | 0 <= i < |ks|
      ensures w > 0 && CellOf(ks[i], w).0 < h && CellOf(ks[i], w).1 < w
      ensures g[CellOf(ks[i], w).0][CellOf(ks[i], w).1] == Flatten(g)[ks[i]]
    {
      FlattenFrom(g, h, w, ks[i]);
    }
  }

  /** The cells of some flattened positions. */
  function CellsOf(ks: seq<nat>, w: nat): (cells: seq<(nat, nat)>)
    requires w > 0 || ks == []
    ensures |cells| == |ks|
    ensures forall i :: 0 <= i < |ks| ==> cells[i] == CellOf(ks[i], w)
  {
    seq(|ks|, i requires 0 <= i < |ks| => CellOf(ks[i], w))
  }

  lemma CellsOfMember(ks: seq<nat>, k: nat, w: nat)
    requires w > 0 && k in ks
    ensures CellOf(k, w) in CellsOf(ks, w)
  {
    var i :| 0 <= i < |ks| && ks[i] == k;
    assert CellsOf(ks, w)[i] == CellOf(k, w);
  }

  lemma CellOfRow(r: nat, c: nat, w: nat)
    requires c < w
    ensures CellOf(r * w + c, w) == (r, c)
  {
    DivModOfRow(r * w + c, r, c, w);
  }

  /** Position `k` of a row-major flattening with rows of `w` samples. */
  function CellOf(k: nat, w: nat): (p: (nat, nat))
    requires w > 0
  {
    (k / w, k % w)
  }

  /** The cell of position `k` is the row and column it splits into. */
  lemma CellOfSplits(k: nat, w: nat)
    requires w > 0
    ensures var p := CellOf(k, w); p.1 < w && p.0 * w + p.1 == k
  {
  }

  /** Every cell at the maximum is selected. */
  lemma LargestCellsComplete(g: Grid, h: nat, w: nat, r: nat, c: nat)
    requires IsShape(g, h, w) && |Flatten(g)| > 0
    requires r < h && c < w && g[r][c] == MaxOf(Flatten(g))
    ensures (r, c) in LargestCells(g, h, w)
  {
    var k := PositionOf(g, h, w, r, c);
    LargestCellsHas(g, h, w, k, (r, c));
  }

  /** Cell `(r, c)` has a position in the flattening whose cell it is. */
  lemma PositionOf(g: Grid, h: nat, w: nat, r: nat, c: nat) returns (k: nat)
    requires IsShape(g, h, w) && r < h && c < w
    ensures k < |Flatten(g)| && Flatten(g)[k] == g[r][c] && CellOf(k, w) == (r, c)
  {
    k := r * w + c;
    FlattenAt(g, h, w, r, c);
    CellOfRow(r, c, w);
  }

  /** The cell of a flattened position holding the maximum is selected. */
  lemma LargestCellsHas(g: Grid, h: nat, w: nat, k: nat, p: (nat, nat))
    requires IsShape(g, h, w) && k < |Flatten(g)| && Flatten(g)[k] == MaxOf(Flatten(g))
    requires w > 0 && CellOf(k, w) == p
    ensures p in LargestCells(g, h, w)
  {
    var flat := Flatten(g);
    WhereComplete(flat, MaxOf(flat), k);
    CellsOfMember(Where(flat, MaxOf(flat)), k, w);
  }

  /** Every cell of the selection exists in a frame of `fh` rows of `fw`. */
  predicate CellsInRange(cells: seq<(nat, nat)>, fh: nat, fw: nat) {
    forall i :: 0 <= i < |cells| ==> cells[i].0 < fh && cells[i].1 < fw
  }

  /** `frame[larg_idx]`: the samples at the selected cells. */
  function CellValues(frame: Grid, fh: nat, fw: nat, cells: seq<(nat, nat)>): (vs: seq<real>)
    requires IsShape(frame, fh, fw) && CellsInRange(cells, fh, fw)
    ensures |vs| == |cells|
    ensures forall i :: 0 <= i < |cells| ==> vs[i] == frame[cells[i].0][cells[i].1]
  {
    seq(|cells|, i requires 0 <= i < |cells| => frame[cells[i].0][cells[i].1])
  }

  /** The comprehension's clip: the mean if it does not exceed `thresh`,
      otherwise `thresh`; that is, the smaller of the two. */
  function Clip(m: real, thresh: real): (r: real)
    ensures r <= thresh && r <= m
    ensures r == m || r == thresh
  {
    if m <= thresh then m else thresh
  }

  /** The two comprehensions: one clipped mean per frame over the rows of
      `pairs` and one over the cells of `cells`. */
  function Traces(frames: seq<Grid>, fh: nat, fw: nat, pairs: seq<(nat, nat)>, cells: seq<(nat, nat)>, thresh: real)
    : (tr: (seq<real>, seq<real>))
    requires AllShape(frames, fh, fw) && |pairs| > 0 && |cells| > 0
    requires |frames| > 0 ==> RowsInRange(pairs, fh) && CellsInRange(cells, fh, fw)
    ensures |tr.0| == |frames| && |tr.1| == |frames|
    ensures |frames| > 0 ==> fw > 0
    ensures forall t :: 0 <= t < |frames| ==>
      && tr.0[t] == Clip(Mean(RowValues(frames[t], fh, fw, pairs)), thresh)
      && tr.1[t] == Clip(Mean(CellValues(frames[t], fh, fw, cells)), thresh)
    ensures forall t :: 0 <= t < |frames| ==> tr.0[t] <= thresh && tr.1[t] <= thresh
  {
    var n := |frames|;
    assert n > 0 ==> cells[0].1 < fw;
    var typ := seq(n, t requires 0 <= t < n =>
      Clip(Mean(RowValues(frames[t], fh, fw, pairs)), thresh));
    var larg := seq(n, t requires 0 <= t < n =>
      Clip(Mean(CellValues(frames[t], fh, fw, cells)), thresh));
    (typ, larg)
  }

  /** `gen_typical_distr` over frames of `fh` rows of `fw` samples: its
      failures, in the order the source meets them, and its two traces. */
  function GenTypicalDistr(frames: seq<Grid>, fh: nat, fw: nat, mask: NdArray, thresh: real)
    : (res: Result<(seq<real>, seq<real>), TypicalError>)
    requires AllShape(frames, fh, fw) && WellFormed(mask)
    ensures mask.Vector? ==> res == Err(NotMultidimensional)
    ensures mask.Matrix? && |Flatten(mask.grid)| == 0 ==> res == Err(EmptyMask)
    ensures mask.Matrix? && |Flatten(mask.grid)| > 0 ==>
      var g := mask.grid;
      var pairs := TypicalPairs(g);
      var cells := LargestCells(g, |g|, Width(g));
      && (res == Err(TypicalIndex) <==> |frames| > 0 && !RowsInRange(pairs, fh))
      && (res == Err(LargestIndex) <==> |frames| > 0 && RowsInRange(pairs, fh) && !CellsInRange(cells, fh, fw))
      && (res.Ok? <==> |frames| == 0 || (RowsInRange(pairs, fh) && CellsInRange(cells, fh, fw)))
      && (res.Ok? ==> res.value == Traces(frames, fh, fw, pairs, cells, thresh))
  {
    match mask
    case Vector(_) => Err(NotMultidimensional)
    case Matrix(g) =>
      if |Flatten(g)| == 0 then Err(EmptyMask)
      else
        var pairs := TypicalPairs(g);
        var cells := LargestCells(g, |g|, Width(g));
        if |frames| > 0 && !RowsInRange(pairs, fh) then Err(TypicalIndex)
        else if |frames| > 0 && !CellsInRange(cells, fh, fw) then Err(LargestIndex)
        else Ok(Traces(frames, fh, fw, pairs, cells, thresh))
  }

  /** Every selected row index is below `W`, resp. `H`; so with no more
      columns than rows the typical selection stays inside frames shaped like
      the mask. */
  lemma {:induction false} TallMaskRowsInRange(g: Grid)
    requires IsRect(g) && |Flatten(g)| > 0 && Width(g) <= |g|
    ensures RowsInRange(TypicalPairs(g), |g|)
  {
    var H, W := |g|, Width(g);
    var flat := Flatten(g);
    var js := TopPositions(flat);
    var pairs := TypicalPairs(g);
    FlattenLength(g, H, W);
    assert H > 0;
    forall i | 0 <= i < |pairs|
      ensures pairs[i].0 < H && pairs[i].1 < H
    {
      assert js[i] < H * W;
      QuotientBelow(js[i], H, W);
    }
  }

  lemma QuotientBelow(j: nat, H: nat, W: nat)
    requires H > 0 && j < H * W
    ensures j / H < W
  {
    var q := j / H;
    if q >= W {
      MulMonotone(W, q, H);
    }
  }

  // The typical set as the program's description intends it: every cell
  // whose value is a mode of the mask.

  /** How often each flattened sample's value occurs in the flattening. */
  function ValueCounts(xs: seq<real>): (cs: seq<nat>)
    ensures |cs| == |xs|
    ensures forall k :: 0 <= k < |xs| ==> cs[k] == multiset(xs)[xs[k]]
  {
    seq(|xs|, k requires 0 <= k < |xs| => multiset(xs)[xs[k]])
  }

  /** The cells whose value is a mode of the mask, in row-major order. */
  function ModeCells(g: Grid, h: nat, w: nat): (cells: seq<(nat, nat)>)
    requires IsShape(g, h, w) && |Flatten(g)| > 0
    ensures |cells| > 0
    ensures forall i :: 0 <= i < |cells| ==> cells[i].0 < h && cells[i].1 < w
  {
    var cs := ValueCounts(Flatten(g));
    var ks := Where(cs, MaxCount(cs));
    CellsOfPositions(g, h, w, ks);
    MaxCountIsFound(cs);
    CellsOf(ks, w)
  }

  lemma MaxCountIsFound(cs: seq<nat>)
    requires |cs| > 0
    ensures |Where(cs, MaxCount(cs))| > 0
  {
    var k :| 0 <= k < |cs| && cs[k] == MaxCount(cs);
    WhereComplete(cs, MaxCount(cs), k);
  }

  /** No value of `xs` occurs more often than the largest value count. */
  lemma MaxCountBounds(xs: seq<real>)
    requires |xs| > 0
    ensures forall u :: u in xs ==> multiset(xs)[u] <= MaxCount(ValueCounts(xs))
    ensures exists k :: 0 <= k < |xs| && multiset(xs)[xs[k]] == MaxCount(ValueCounts(xs))
  {
    var cs := ValueCounts(xs);
    forall u | u in xs
      ensures multiset(xs)[u] <= MaxCount(cs)
    {
      var k :| 0 <= k < |xs| && xs[k] == u;
      assert cs[k] <= MaxCount(cs);
    }
    var k :| 0 <= k < |cs| && cs[k] == MaxCount(cs);
    assert multiset(xs)[xs[k]] == MaxCount(cs);
  }

  lemma ModeCellsSound(g: Grid, h: nat, w: nat, r: nat, c: nat)
    requires IsShape(g, h, w) && |Flatten(g)| > 0 && (r, c) in ModeCells(g, h, w)
    ensures r < h && c < w && IsMode(Flatten(g), g[r][c])
  {
    var flat := Flatten(g);
    var cs := ValueCounts(flat);
    var ks := Where(cs, MaxCount(cs));
    CellsOfPositions(g, h, w, ks);
    MaxCountBounds(flat);
    var i :| 0 <= i < |ks| && CellsOf(ks, w)[i] == (r, c);
    WhereSound(cs, MaxCount(cs));
    assert CellOf(ks[i], w) == (r, c);
    assert g[r][c] == flat[ks[i]];
    assert cs[ks[i]] == MaxCount(cs);
  }

  /** A position holding a mode has the largest value count. */
  lemma ModeCountIsMax(xs: seq<real>, k: nat)
    requires k < |xs| && IsMode(xs, xs[k])
    ensures ValueCounts(xs)[k] == MaxCount(ValueCounts(xs))
  {
    MaxCountBounds(xs);
    var k' :| 0 <= k' < |xs| && multiset(xs)[xs[k']] == MaxCount(ValueCounts(xs));
    assert xs[k'] in xs && xs[k] in xs;
    assert forall u :: u in xs ==> multiset(xs)[u] <= multiset(xs)[xs[k]];
    assert multiset(xs)[xs[k']] <= multiset(xs)[xs[k]];
    assert multiset(xs)[xs[k]] <= MaxCount(ValueCounts(xs));
    assert ValueCounts(xs)[k] == multiset(xs)[xs[k]];
  }

  lemma ModeCellsComplete(g: Grid, h: nat, w: nat, r: nat, c: nat)
    requires IsShape(g, h, w) && |Flatten(g)| > 0
    requires r < h && c < w && IsMode(Flatten(g), g[r][c])
    ensures (r, c) in ModeCells(g, h, w)
  {
    var k := PositionOf(g, h, w, r, c);
    var flat := Flatten(g);
    ModeCountIsMax(flat, k);
    var cs := ValueCounts(flat);
    var ks := Where(cs, MaxCount(cs));
    WhereComplete(cs, MaxCount(cs), k);
    CellsOfMember(ks, k, w);
  }

  /** A cell is a mode cell exactly when its value is a mode of the mask. */
  lemma ModeCellsExact(g: Grid, h: nat, w: nat, r: nat, c: nat)
    requires IsShape(g, h, w) && |Flatten(g)| > 0
    ensures (r, c) in ModeCells(g, h, w) <==> r < h && c < w && IsMode(Flatten(g), g[r][c])
  {
    if (r, c) in ModeCells(g, h, w) {
      ModeCellsSound(g, h, w, r, c);
    }
    if r < h && c < w && IsMode(Flatten(g), g[r][c]) {
      ModeCellsComplete(g, h, w, r, c);
    }
  }

  /** The typical trace over the mode cells, for frames shaped like the mask. */
  function ModeTrace(frames: seq<Grid>, g: Grid, h: nat, w: nat, thresh: real): (tr: seq<real>)
    requires IsShape(g, h, w) && |Flatten(g)| > 0 && AllShape(frames, h, w)
    ensures |tr| == |frames|
    ensures forall t :: 0 <= t < |frames| ==>
      tr[t] == Clip(Mean(CellValues(frames[t], h, w, ModeCells(g, h, w))), thresh)
    ensures forall t :: 0 <= t < |frames| ==> tr[t] <= thresh
  {
    var cells := ModeCells(g, h, w);
    seq(|frames|, t requires 0 <= t < |frames| => Clip(Mean(CellValues(frames[t], h, w, cells)), thresh))
  }

  lemma FlattenSquare(a: real, b: real, c: real, d: real)
    ensures Flatten([[a, b], [c, d]]) == [a, b, c, d]
  {
    var g: Grid := [[a, b], [c, d]];
    assert g[1..][1..] == [];
    assert Flatten(g[1..]) == [c, d];
  }

  lemma WhereOfFour<T>(xs: seq<T>, v: T)
    requires |xs| == 4 && xs[0] != v && xs[1] == v && xs[2] == v && xs[3] == v
    ensures Where(xs, v) == [1, 2, 3]
  {
    assert xs[..3][..2] == xs[..2];
    assert xs[..2][..1] == xs[..1];
    assert xs[..1][..0] == [];
    assert Where(xs[..1], v) == [];
    assert Where(xs[..2], v) == [1];
    assert Where(xs[..3], v) == [1, 2];
  }

  // A family of masks `[[a, b], [b, b]]` with `a < b`: the value `b` is both
  // the maximum and the mode and fills three cells.

  lemma UniqueOfExample(a: real, b: real)
    requires a < b
    ensures Unique([a, b, b, b]) == [a, b]
  {
    var xs := [a, b, b, b];
    assert xs[1..] == [b, b, b] && xs[1..][1..] == [b, b] && xs[1..][1..][1..] == [b];
    assert Unique([b]) == [b];
    assert Unique([b, b]) == [b];
    assert Unique([b, b, b]) == [b];
  }

  lemma MultiplicityOfExample(a: real, b: real)
    requires a < b
    ensures multiset([a, b, b, b])[a] == 1 && multiset([a, b, b, b])[b] == 3
  {
    assert multiset([a, b, b, b]) == multiset{a} + multiset{b, b, b};
  }

  lemma CountsOfExample(a: real, b: real)
    requires a < b
    ensures Counts([a, b, b, b], [a, b]) == [1, 3]
    ensures ValueCounts([a, b, b, b]) == [1, 3, 3, 3]
  {
    MultiplicityOfExample(a, b);
  }

  lemma WhereOfSecond<T>(xs: seq<T>, v: T)
    requires |xs| == 2 && xs[0] != v && xs[1] == v
    ensures Where(xs, v) == [1]
  {
    assert xs[..1][..0] == [];
    assert Where(xs[..1], v) == [];
  }

  lemma TopOfExample(a: real, b: real)
    requires a < b
    ensures TopPositions([a, b, b, b]) == [1]
  {
    UniqueOfExample(a, b);
    CountsOfExample(a, b);
    var cs: seq<nat> := [1, 3];
    assert MaxCount(cs) == 3;
    WhereOfSecond(cs, 3);
  }

  lemma CellsOfExample()
    ensures CellsOf([1, 2, 3], 2) == [(0, 1), (1, 0), (1, 1)]
  {
  }

  lemma LargestCellsOfExample(a: real, b: real)
    requires a < b
    ensures LargestCells([[a, b], [b, b]], 2, 2) == [(0, 1), (1, 0), (1, 1)]
  {
    FlattenSquare(a, b, b, b);
    LargestOfExample(a, b);
    CellsOfExample();
  }

  lemma ModeCellsOfExample(a: real, b: real)
    requires a < b
    ensures ModeCells([[a, b], [b, b]], 2, 2) == [(0, 1), (1, 0), (1, 1)]
  {
    FlattenSquare(a, b, b, b);
    ModeOfExample(a, b);
    CellsOfExample();
  }

  lemma PairsOfExample(a: real, b: real)
    requires a < b
    ensures TypicalPairs([[a, b], [b, b]]) == [(0, 1)]
  {
    FlattenSquare(a, b, b, b);
    TopOfExample(a, b);
    SinglePair([[a, b], [b, b]], 1);
  }

  /** A single top position `j` selects the single pair `(j / H, j % H)`. */
  lemma SinglePair(g: Grid, j: nat)
    requires IsRect(g) && |Flatten(g)| > 0 && TopPositions(Flatten(g)) == [j]
    ensures TypicalPairs(g) == [(j / |g|, j % |g|)]
  {
    var pairs := TypicalPairs(g);
    assert |pairs| == 1 && pairs[0] == (j / |g|, j % |g|);
  }

  lemma LargestOfExample(a: real, b: real)
    requires a < b
    ensures Where([a, b, b, b], MaxOf([a, b, b, b])) == [1, 2, 3]
  {
    var flat := [a, b, b, b];
    assert MaxOf(flat) == b;
    WhereOfFour(flat, b);
  }

  lemma ModeOfExample(a: real, b: real)
    requires a < b
    ensures Where(ValueCounts([a, b, b, b]), MaxCount(ValueCounts([a, b, b, b]))) == [1, 2, 3]
  {
    CountsOfExample(a, b);
    var vc: seq<nat> := [1, 3, 3, 3];
    assert MaxCount(vc) == 3;
    WhereOfFour(vc, 3);
  }

  lemma SumOfThree(y: real, z: real, u: real)
    ensures Sum([y, z, u]) == y + z + u
  {
    var ys := [y, z, u];
    assert ys[1..] == [z, u] && ys[1..][1..] == [u] && [u][1..] == [];
    assert Sum([u]) == u;
    assert Sum([z, u]) == z + u;
  }

  lemma RowMeanOfExample(x: real, y: real, z: real, u: real)
    ensures RowValues([[x, y], [z, u]], 2, 2, [(0, 1)]) == [x, y, z, u]
    ensures Mean([x, y, z, u]) == (x + y + z + u) / 4.0
  {
    var pairs := [(0, 1)];
    assert pairs[..0] == [];
    var xs := [x, y, z, u];
    SumOfThree(y, z, u);
    assert xs[1..] == [y, z, u];
  }

  lemma CellMeanOfExample(x: real, y: real, z: real, u: real)
    ensures CellValues([[x, y], [z, u]], 2, 2, [(0, 1), (1, 0), (1, 1)]) == [y, z, u]
    ensures Mean([y, z, u]) == (y + z + u) / 3.0
  {
    SumOfThree(y, z, u);
  }

  lemma TracesOfExample(x: real, y: real, z: real, u: real, thresh: real)
    ensures Traces([[[x, y], [z, u]]], 2, 2, [(0, 1)], [(0, 1), (1, 0), (1, 1)], thresh)
      == ([Clip((x + y + z + u) / 4.0, thresh)], [Clip((y + z + u) / 3.0, thresh)])
  {
    RowMeanOfExample(x, y, z, u);
    CellMeanOfExample(x, y, z, u);
    var frames: seq<Grid> := [[[x, y], [z, u]]];
    var tr := Traces(frames, 2, 2, [(0, 1)], [(0, 1), (1, 0), (1, 1)], thresh);
    assert frames[0] == [[x, y], [z, u]];
    assert tr.0[0] == Clip(Mean([x, y, z, u]), thresh);
    assert tr.1[0] == Clip(Mean([y, z, u]), thresh);
    assert tr.0 == [tr.0[0]] && tr.1 == [tr.1[0]];
  }

  lemma AsWrittenOfExample(a: real, b: real, x: real, y: real, z: real, u: real, thresh: real)
    requires a < b
    ensures GenTypicalDistr([[[x, y], [z, u]]], 2, 2, Matrix([[a, b], [b, b]]), thresh)
      == Ok(([Clip((x + y + z + u) / 4.0, thresh)], [Clip((y + z + u) / 3.0, thresh)]))
  {
    var g: Grid := [[a, b], [b, b]];
    var frames: seq<Grid> := [[[x, y], [z, u]]];
    var pairs, cells := [(0, 1)], [(0, 1), (1, 0), (1, 1)];
    PairsOfExample(a, b);
    LargestCellsOfExample(a, b);
    TracesOfExample(x, y, z, u, thresh);
    ExampleShapes(a, b, x, y, z, u);
    TypicalDistrOf(frames, 2, 2, g, thresh, pairs, cells,
      ([Clip((x + y + z + u) / 4.0, thresh)], [Clip((y + z + u) / 3.0, thresh)]));
  }

  lemma ExampleShapes(a: real, b: real, x: real, y: real, z: real, u: real)
    ensures AllShape([[[x, y], [z, u]]], 2, 2) && IsShape([[a, b], [b, b]], 2, 2)
    ensures |Flatten([[a, b], [b, b]])| > 0
    ensures RowsInRange([(0, 1)], 2) && CellsInRange([(0, 1), (1, 0), (1, 1)], 2, 2)
  {
    FlattenSquare(a, b, b, b);
  }

  /** When both selections fit the frames the source returns its two traces. */
  lemma TypicalDistrOf(frames: seq<Grid>, fh: nat, fw: nat, g: Grid, thresh: real,
                       pairs: seq<(nat, nat)>, cells: seq<(nat, nat)>, tr: (seq<real>, seq<real>))
    requires AllShape(frames, fh, fw) && IsShape(g, fh, fw) && |Flatten(g)| > 0
    requires TypicalPairs(g) == pairs && LargestCells(g, fh, fw) == cells
    requires RowsInRange(pairs, fh) && CellsInRange(cells, fh, fw)
    requires Traces(frames, fh, fw, pairs, cells, thresh) == tr
    ensures GenTypicalDistr(frames, fh, fw, Matrix(g), thresh) == Ok(tr)
  {
    assert IsRect(g);
  }

  lemma ModeTraceOfExample(a: real, b: real, x: real, y: real, z: real, u: real, thresh: real)
    requires a < b
    ensures Flatten([[a, b], [b, b]]) == [a, b, b, b]
    ensures ModeTrace([[[x, y], [z, u]]], [[a, b], [b, b]], 2, 2, thresh) == [Clip((y + z + u) / 3.0, thresh)]
  {
    ModeCellsOfExample(a, b);
    FlattenSquare(a, b, b, b);
    CellMeanOfExample(x, y, z, u);
    ExampleShapes(a, b, x, y, z, u);
    var frames: seq<Grid> := [[[x, y], [z, u]]];
    assert frames[0] == [[x, y], [z, u]];
    SingleFrameModeTrace(frames, [[a, b], [b, b]], 2, 2, thresh, Clip((y + z + u) / 3.0, thresh));
  }

  /** Over a single frame the mode trace is that frame's clipped mean. */
  lemma SingleFrameModeTrace(frames: seq<Grid>, g: Grid, h: nat, w: nat, thresh: real, v: real)
    requires IsShape(g, h, w) && |Flatten(g)| > 0 && AllShape(frames, h, w) && |frames| == 1
    requires Clip(Mean(CellValues(frames[0], h, w, ModeCells(g, h, w))), thresh) == v
    ensures ModeTrace(frames, g, h, w, thresh) == [v]
  {
    var mt := ModeTrace(frames, g, h, w, thresh);
    assert mt[0] == v;
  }

  /** For the mask `[[a, b], [b, b]]` with `a < b` the rows the source selects
      cover the whole frame, so its typical trace is the mean of all four
      samples, while the three cells holding the mode `b` give the mean of the
      other three. With the frame `[[4, 0], [0, 0]]` and a threshold of 10 the
      two are 1 and 0. */
  lemma TypicalSelectsRowsNotCells(a: real, b: real, x: real, y: real, z: real, u: real, thresh: real)
    requires a < b
    ensures GenTypicalDistr([[[x, y], [z, u]]], 2, 2, Matrix([[a, b], [b, b]]), thresh)
      == Ok(([Clip((x + y + z + u) / 4.0, thresh)], [Clip((y + z + u) / 3.0, thresh)]))
    ensures Flatten([[a, b], [b, b]]) == [a, b, b, b]
    ensures ModeTrace([[[x, y], [z, u]]], [[a, b], [b, b]], 2, 2, thresh) == [Clip((y + z + u) / 3.0, thresh)]
    ensures x == 4.0 && y == 0.0 && z == 0.0 && u == 0.0 && thresh == 10.0 ==>
      Clip((x + y + z + u) / 4.0, thresh) == 1.0 && Clip((y + z + u) / 3.0, thresh) == 0.0
  {
    AsWrittenOfExample(a, b, x, y, z, u, thresh);
    ModeTraceOfExample(a, b, x, y, z, u, thresh);
    ClipOfExample(x, y, z, u, thresh);
  }

  lemma ClipOfExample(x: real, y: real, z: real, u: real, thresh: real)
    ensures x == 4.0 && y == 0.0 && z == 0.0 && u == 0.0 && thresh == 10.0 ==>
      Clip((x + y + z + u) / 4.0, thresh) == 1.0 && Clip((y + z + u) / 3.0, thresh) == 0.0
  {
  }

  // A one-row mask `[[a, b]]` with `a != b`: both values are modes.

  lemma FlattenRow(a: real, b: real)
    ensures Flatten([[a, b]]) == [a, b]
  {
    var g: Grid := [[a, b]];
    assert g[1..] == [];
  }

  lemma UniqueOfRow(a: real, b: real)
    requires a < b
    ensures Unique([a, b]) == [a, b]
  {
    assert [a, b][1..] == [b];
    assert Unique([b]) == [b];
  }

  lemma CountsOfRow(a: real, b: real)
    requires a < b
    ensures Counts([a, b], [a, b]) == [1, 1]
    ensures ValueCounts([a, b]) == [1, 1]
  {
    assert multiset([a, b]) == multiset{a} + multiset{b};
  }

  lemma WhereOfTwo<T>(xs: seq<T>, v: T)
    requires |xs| == 2 && xs[0] == v && xs[1] == v
    ensures Where(xs, v) == [0, 1]
  {
    assert xs[..1][..0] == [];
    assert Where(xs[..1], v) == [0];
  }

  lemma TopOfRow(a: real, b: real)
    requires a < b
    ensures Flatten([[a, b]]) == [a, b]
    ensures TopPositions([a, b]) == [0, 1]
  {
    FlattenRow(a, b);
    UniqueOfRow(a, b);
    CountsOfRow(a, b);
    var cs: seq<nat> := [1, 1];
    assert MaxCount(cs) == 1;
    WhereOfTwo(cs, 1);
  }

  lemma ModeCellsOfRow(a: real, b: real)
    requires a < b
    ensures Flatten([[a, b]]) == [a, b]
    ensures ModeCells([[a, b]], 1, 2) == [(0, 0), (0, 1)]
  {
    FlattenRow(a, b);
    CountsOfRow(a, b);
    var vc: seq<nat> := [1, 1];
    assert MaxCount(vc) == 1;
    WhereOfTwo(vc, 1);
    assert CellsOf([0, 1], 2) == [(0, 0), (0, 1)];
  }

  lemma CellMeanOfRow(x: real, y: real)
    ensures CellValues([[x, y]], 1, 2, [(0, 0), (0, 1)]) == [x, y]
    ensures Mean([x, y]) == (x + y) / 2.0
  {
    assert [x, y][1..] == [y] && [y][1..] == [];
    assert Sum([y]) == y;
    assert Sum([x, y]) == x + y;
  }

  lemma ModeTraceOfRow(a: real, b: real, x: real, y: real, thresh: real)
    requires a < b
    ensures Flatten([[a, b]]) == [a, b]
    ensures ModeTrace([[[x, y]]], [[a, b]], 1, 2, thresh) == [Clip((x + y) / 2.0, thresh)]
  {
    ModeCellsOfRow(a, b);
    CellMeanOfRow(x, y);
    var frames: seq<Grid> := [[[x, y]]];
    var mt := ModeTrace(frames, [[a, b]], 1, 2, thresh);
    assert frames[0] == [[x, y]];
    assert mt[0] == Clip(Mean([x, y]), thresh);
  }

  /** For the one-row mask `[[a, b]]` both values are modes, so the source
      looks up entry 1 of `product(range(2), range(1))`, the pair `(1, 0)`, and
      indexes row 1 of a frame that has only row 0: an IndexError. Over the mode
      cells the trace is the mean of the row. */
  lemma WideMaskIndexError(a: real, b: real, x: real, y: real, thresh: real)
    requires a < b
    ensures GenTypicalDistr([[[x, y]]], 1, 2, Matrix([[a, b]]), thresh) == Err(TypicalIndex)
    ensures Flatten([[a, b]]) == [a, b]
    ensures ModeTrace([[[x, y]]], [[a, b]], 1, 2, thresh) == [Clip((x + y) / 2.0, thresh)]
  {
    TopOfRow(a, b);
    var pairs := TypicalPairs([[a, b]]);
    assert pairs[1] == (1, 0);
    ModeTraceOfRow(a, b, x, y, thresh);
  }
}
