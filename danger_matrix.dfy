/** `gen_danger_matrix`: the first-crossing-time ("danger") matrix. The mask
    starts at zero and, frame by frame, every cell that is still zero and whose
    sample reaches the threshold receives the frame's time `i / fps`. Zero is
    also the "not yet crossed" marker, so a crossing at frame 0 writes 0 and
    leaves the cell open for a later frame. */
module DangerMatrix {
  import opened Grids

  datatype DangerError =
    | EmptyFrames     // "frame array is empty"
    | OneDimensional  // "Input frames are one dimensional, must be multidimensional"
    | MaskNotFilled   // "Mask was not filled and is empty"

  /** All frames are well formed and have one common shape (the input movie). */
  predicate SameShape(frames: seq<NdArray>) {
    && (forall t :: 0 <= t < |frames| ==> WellFormed(frames[t]))
    && (forall s, t :: 0 <= s < |frames| && 0 <= t < |frames| ==> Shape(frames[s]) == Shape(frames[t]))
  }

  /** The grids of a sequence of two-dimensional frames. */
  function Planes(frames: seq<NdArray>): (ps: seq<Grid>)
    ensures |ps| == |frames|
  {
    seq(|frames|, t requires 0 <= t < |frames| => if frames[t].Matrix? then frames[t].grid else [])
  }

  /** Elapsed time of frame `k`. */
  function TimeOf(k: nat, fps: real): real
    requires fps > 0.0
  {
    k as real / fps
  }

  /** Least index `k >= from` at which the series reaches `thresh`. */
  function SearchFrom(xs: seq<real>, thresh: real, from: nat): (k: Option<nat>)
    decreases |xs| - from
    ensures k.Some? ==> from <= k.value < |xs| && xs[k.value] >= thresh
    ensures k.Some? ==> forall j :: from <= j < k.value ==> xs[j] < thresh
    ensures k.None? ==> forall j :: from <= j < |xs| ==> xs[j] < thresh
  {
    if from >= |xs| then None
    else if xs[from] >= thresh then Some(from)
    else SearchFrom(xs, thresh, from + 1)
  }

  /** Least frame index `k >= 1` at which the series reaches `thresh`. Frame 0
      is skipped: a crossing there writes the value 0, the unset marker. */
  function FirstCrossing(xs: seq<real>, thresh: real): (k: Option<nat>)
    ensures k.Some? ==> 1 <= k.value < |xs| && xs[k.value] >= thresh
    ensures k.Some? ==> forall j :: 1 <= j < k.value ==> xs[j] < thresh
    ensures k.None? ==> forall j :: 1 <= j < |xs| ==> xs[j] < thresh
  {
    SearchFrom(xs, thresh, 1)
  }

  /** The value the source leaves in a cell whose samples over time are `xs`. */
  function CrossingTime(xs: seq<real>, thresh: real, fps: real): (t: real)
    requires fps > 0.0
    ensures t == 0.0 <==> forall j :: 1 <= j < |xs| ==> xs[j] < thresh
    ensures t != 0.0 ==> exists k :: 1 <= k < |xs| && t == TimeOf(k, fps) && xs[k] >= thresh
    ensures 0.0 <= t && (|xs| > 0 ==> t <= TimeOf(|xs| - 1, fps))
  {
    match FirstCrossing(xs, thresh)
    case Some(k) => TimeOf(k, fps)
    case None => 0.0
  }

  /** The specification of the reducer: every cell holds its crossing time. */
  function CrossingTimes(fs: seq<Grid>, h: nat, w: nat, thresh: real, fps: real): (d: Grid)
    requires AllShape(fs, h, w) && fps > 0.0
    ensures IsShape(d, h, w)
    ensures forall r, c :: 0 <= r < h && 0 <= c < w ==> d[r][c] == CrossingTime(Series(fs, h, w, r, c), thresh, fps)
  {
    seq(h, r requires 0 <= r < h =>
      seq(w, c requires 0 <= c < w => CrossingTime(Series(fs, h, w, r, c), thresh, fps)))
  }

  /** numpy's `mask[(frame >= thresh) & (mask == 0)] = t`. */
  function Stamp(mask: Grid, frame: Grid, h: nat, w: nat, thresh: real, t: real): (m: Grid)
    requires IsShape(mask, h, w) && IsShape(frame, h, w)
    ensures IsShape(m, h, w)
    ensures forall r, c :: 0 <= r < h && 0 <= c < w ==>
      m[r][c] == if frame[r][c] >= thresh && mask[r][c] == 0.0 then t else mask[r][c]
  {
    seq(h, r requires 0 <= r < h =>
      seq(w, c requires 0 <= c < w =>
        if frame[r][c] >= thresh && mask[r][c] == 0.0 then t else mask[r][c]))
  }

  /** `np.zeros(shape)`. */
  function Zeros(h: nat, w: nat): (z: Grid)
    ensures IsShape(z, h, w) && forall r, c :: 0 <= r < h && 0 <= c < w ==> z[r][c] == 0.0
  {
    seq(h, r => seq(w, c => 0.0))
  }

  /** `not np.any(mask)`. */
  predicate AllZero(g: Grid) {
    forall r, c :: 0 <= r < |g| && 0 <= c < |g[r]| ==> g[r][c] == 0.0
  }

  /** One more frame extends the crossing time of a cell exactly as `Stamp` does. */
  lemma CrossingTimeSnoc(xs: seq<real>, x: real, thresh: real, fps: real)
    requires fps > 0.0
    ensures CrossingTime(xs + [x], thresh, fps) ==
      if x >= thresh && CrossingTime(xs, thresh, fps) == 0.0 then TimeOf(|xs|, fps)
      else CrossingTime(xs, thresh, fps)
  {
    var ys := xs + [x];
    assert forall j :: 0 <= j < |xs| ==> ys[j] == xs[j];
    match FirstCrossing(xs, thresh)
    case Some(k) =>
      assert ys[k] >= thresh;
      assert FirstCrossing(ys, thresh) == Some(k);
    case None =>
      if |xs| > 0 && x >= thresh {
        assert ys[|xs|] >= thresh;
        assert FirstCrossing(ys, thresh) == Some(|xs|);
      } else {
        assert FirstCrossing(ys, thresh) == None;
      }
  }

  /** Stamping frame `|fs|` onto the crossing times of `fs` gives the crossing
      times of `fs + [frame]`: the loop invariant of `GenDangerMatrix`. */
  lemma StampStep(fs: seq<Grid>, frame: Grid, h: nat, w: nat, thresh: real, fps: real)
    requires AllShape(fs, h, w) && IsShape(frame, h, w) && fps > 0.0
    ensures AllShape(fs + [frame], h, w)
    ensures Stamp(CrossingTimes(fs, h, w, thresh, fps), frame, h, w, thresh, TimeOf(|fs|, fps))
         == CrossingTimes(fs + [frame], h, w, thresh, fps)
  {
    var gs := fs + [frame];
    assert AllShape(gs, h, w);
    var before := CrossingTimes(fs, h, w, thresh, fps);
    var lhs := Stamp(before, frame, h, w, thresh, TimeOf(|fs|, fps));
    var rhs := CrossingTimes(gs, h, w, thresh, fps);
    forall r, c | 0 <= r < h && 0 <= c < w
      ensures lhs[r][c] == rhs[r][c]
    {
      var xs := Series(fs, h, w, r, c);
      assert Series(gs, h, w, r, c) == xs + [frame[r][c]];
      CrossingTimeSnoc(xs, frame[r][c], thresh, fps);
    }
    assert forall r :: 0 <= r < h ==> lhs[r] == rhs[r];
  }

  /** First crossing wins: once a cell holds a non-zero time after `i`
      frames, no later frame changes it. */
  lemma {:induction false} SetCellsStay(xs: seq<real>, i: nat, j: nat, thresh: real, fps: real)
    requires i <= j <= |xs| && fps > 0.0
    requires CrossingTime(xs[..i], thresh, fps) != 0.0
    ensures CrossingTime(xs[..j], thresh, fps) == CrossingTime(xs[..i], thresh, fps)
  {
    if j > i {
      SetCellsStay(xs, i, j - 1, thresh, fps);
      assert xs[..j] == xs[..j - 1] + [xs[j - 1]];
      CrossingTimeSnoc(xs[..j - 1], xs[j - 1], thresh, fps);
    }
  }

  /** A cell whose samples first reach the threshold at frame `t >= 1` (frame 0
      aside) holds `t / fps`, whatever frame 0 did. */
  lemma FirstCrossingLaw(xs: seq<real>, t: nat, thresh: real, fps: real)
    requires fps > 0.0 && 1 <= t < |xs| && xs[t] >= thresh
    requires forall j :: 1 <= j < t ==> xs[j] < thresh
    ensures CrossingTime(xs, thresh, fps) == TimeOf(t, fps)
  {
    assert FirstCrossing(xs, thresh) == Some(t);
  }

  /** The sentinel ambiguity: a cell crossing only at frame 0 reads exactly like
      a cell that never crosses. */
  lemma ZeroCrossingReadsAsUnset(xs: seq<real>, thresh: real, fps: real)
    requires fps > 0.0 && |xs| > 0 && xs[0] >= thresh
    requires forall j :: 1 <= j < |xs| ==> xs[j] < thresh
    ensures CrossingTime(xs, thresh, fps) == 0.0
    ensures CrossingTime(xs, thresh, fps) == CrossingTime([thresh - 1.0] + xs[1..], thresh, fps)
  {
    var ys := [thresh - 1.0] + xs[1..];
    assert forall j :: 1 <= j < |ys| ==> ys[j] == xs[j];
  }

  /** Three 2-by-2 frames, threshold 5, one frame per unit time. */
  lemma ScenarioFirstCrossing()
    ensures AllShape([[[0.0, 0.0], [0.0, 0.0]], [[5.0, 0.0], [0.0, 5.0]], [[5.0, 5.0], [5.0, 5.0]]], 2, 2)
    ensures CrossingTimes([[[0.0, 0.0], [0.0, 0.0]], [[5.0, 0.0], [0.0, 5.0]], [[5.0, 5.0], [5.0, 5.0]]], 2, 2, 5.0, 1.0)
         == [[1.0, 2.0], [2.0, 1.0]]
  {
    var fs := [[[0.0, 0.0], [0.0, 0.0]], [[5.0, 0.0], [0.0, 5.0]], [[5.0, 5.0], [5.0, 5.0]]];
    assert AllShape(fs, 2, 2);
    var d := CrossingTimes(fs, 2, 2, 5.0, 1.0);
    FirstCrossingLaw(Series(fs, 2, 2, 0, 0), 1, 5.0, 1.0);
    FirstCrossingLaw(Series(fs, 2, 2, 0, 1), 2, 5.0, 1.0);
    FirstCrossingLaw(Series(fs, 2, 2, 1, 0), 2, 5.0, 1.0);
    FirstCrossingLaw(Series(fs, 2, 2, 1, 1), 1, 5.0, 1.0);
    assert d[0] == [1.0, 2.0];
    assert d[1] == [2.0, 1.0];
  }

  /** The reducer. Frames are visited in increasing time order and the mask is
      updated by one whole-grid assignment per frame. */
  method GenDangerMatrix(frames: seq<NdArray>, thresh: real, fps: real) returns (res: Result<Grid, DangerError>)
    requires fps > 0.0
    requires SameShape(frames)
    ensures frames == [] ==> res == Err(EmptyFrames)
    ensures frames != [] && Ndim(frames[|frames| - 1]) <= 1 ==> res == Err(OneDimensional)
    ensures frames != [] && Ndim(frames[|frames| - 1]) > 1 ==>
      var last := frames[|frames| - 1].grid;
      AllShape(Planes(frames), |last|, Width(last)) &&
      var d := CrossingTimes(Planes(frames), |last|, Width(last), thresh, fps);
      res == if AllZero(d) then Err(MaskNotFilled) else Ok(d)
  {
    if |frames| == 0 {
      return Err(EmptyFrames);
    }
    var lastFrame := frames[|frames| - 1];
    if Ndim(lastFrame) <= 1 {
      return Err(OneDimensional);
    }
    var h, w := |lastFrame.grid|, Width(lastFrame.grid);
    ghost var planes := Planes(frames);
    assert AllShape(planes, h, w) by {
      forall t | 0 <= t < |frames|
        ensures IsShape(planes[t], h, w)
      {
        assert Shape(frames[t]) == Shape(lastFrame);
      }
    }
    var mask := Zeros(h, w);
    assert planes[..0] == [];
    assert mask == CrossingTimes(planes[..0], h, w, thresh, fps) by {
      var d := CrossingTimes(planes[..0], h, w, thresh, fps);
      forall r | 0 <= r < h
        ensures mask[r] == d[r]
      {
        assert forall c :: 0 <= c < w ==> mask[r][c] == d[r][c];
      }
    }
    var i := 0;
    while i < |frames|
      invariant 0 <= i <= |frames|
      invariant AllShape(planes[..i], h, w)
      invariant mask == CrossingTimes(planes[..i], h, w, thresh, fps)
    {
      assert Shape(frames[i]) == Shape(lastFrame);
      var frame := frames[i].grid;
      assert frame == planes[i];
      StampStep(planes[..i], frame, h, w, thresh, fps);
      assert planes[..i] + [frame] == planes[..i + 1];
      mask := Stamp(mask, frame, h, w, thresh, i as real / fps);
      i := i + 1;
    }
    assert planes[..|frames|] == planes;
    if AllZero(mask) {
      return Err(MaskNotFilled);
    }
    return Ok(mask);
  }
}
