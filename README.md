# Danger-matrix reducers, modelled in Dafny

This project models the numeric core of a fluorescence-video analysis tool.
The tool turns a sequence of grayscale frames into per-pixel maps and
summaries:

- **`gen_danger_matrix`**: the first-crossing-time ("danger") matrix. A cell
  holds `t / fps` for the first frame `t` at which its pixel reaches the
  threshold. Zero is the "not yet set" marker.
- **`gen_danger_matrix_deriv`**: the mean rate-of-change matrix, built from
  forward differences.
- **`gen_typical_distr`**: two clipped mean traces over the frames. One is
  taken over a "typical" selection, the other over the cells at the mask
  maximum.
- **`gen_pixel_hist`**: the histogram of a flattened matrix, over `nbins`
  edges evenly spaced from 0 to the maximum.
- **`avg_pixel_time`**: the row means of a matrix.
- **`fillMask` / `derivApprox`**: the native (C) rate reducer. It adds central
  differences read from a flat sample buffer into a flat mask, then divides
  every cell it addresses by the frame count.

Samples are exact reals. Frames are rectangular grids (`Grids.Grid`, a
sequence of rows). A numpy array that may be one- or two-dimensional is
`Grids.NdArray`. The following failures of the Python functions become
values of an error datatype:

- each `raise` of the source;
- the `IndexError` of `np.shape(mask)[1]` on a one-dimensional mask in
  `gen_typical_distr`;
- the `max` of an empty array, an out-of-range fancy index, decreasing
  histogram edges and a negative `linspace` count.

The other failures are excluded by a `requires` and listed under "Left out":
a zero `fps`, frames of different shapes, and a one-dimensional mask passed
to `avg_pixel_time`.

The native reducer is modelled as imperative code over `array<real>` and
`array<int>`. Its loop nests are proved against a closed form, `Filled`, that
states per cell what the mask ends up holding. That closed form is then
compared with a frame-major, row-major reading of the buffer, `CentralRates`.

Modules follow the source:

| file | module | models |
|---|---|---|
| `grids.dfy` | `Grids` | shared vocabulary: shapes, `flatten`, `max`, `mean` |
| `danger_matrix.dfy` | `DangerMatrix` | `gen_danger_matrix` |
| `danger_deriv.dfy` | `DangerDeriv` | `gen_danger_matrix_deriv` |
| `typical_distr.dfy` | `TypicalDistr` | `gen_typical_distr` and the mode-cell selection it evidently intends |
| `pixel_hist.dfy` | `PixelHist` | `gen_pixel_hist`, `avg_pixel_time` |
| `deriv_parse.dfy` | `DerivParse` | `derivApprox`, `fillMask` |

Where the system's written description and its code disagree, the model
follows the code:

- **Too few frames for `gen_danger_matrix_deriv`.** With fewer than two frames
  the code computes `0.0 / 0` and returns a NaN scalar; it raises nothing. The
  model returns `None`.
- **A histogram whose maximum is 0.** This does not fail in the code: every
  edge is 0 and the last, closed bin holds the zero samples (see
  `ZeroMaxHistogram`).
- **`gen_danger_matrix` with no pixel crossing.** The code raises "Mask was not
  filled"; it does not return an all-sentinel matrix. A crossing at frame 0
  writes 0, the sentinel itself, so the model's first crossing skips frame 0.
- **The typical selection.** The code does not select the cells holding the
  modal value. It selects ROWS, through coordinate pairs taken from
  `itertools.product` (see "Findings"). The model computes what the code
  computes and defines the mode-cell selection separately.
- **The native reducer and the Python reducer compute different things.** The
  native reducer sums central differences (frames `f` and `f + 2`) and divides
  by `nFrames`. The Python reducer averages the `N - 1` forward differences.
  The model keeps each as written.

## Model

| member | source | states |
|---|---|---|
| `Grids.Shape` | ADAMfuncs.py:58 | a matrix has two dimensions and a vector one, which is what the `ndim > 1` checks test |
| `Grids.Series` | ADAMfuncs.py:61-62 | the sample series of one pixel: entry `t` is that pixel in frame `t` |
| `Grids.FlattenLength` | ADAMfuncs.py:113 | flattening an `h` by `w` matrix gives `h * w` samples |
| `Grids.FlattenAt` | ADAMfuncs.py:113 | cell `(r, c)` sits at position `r * w + c` of the row-major flattening |
| `Grids.FlattenFrom` | ADAMfuncs.py:113 | every flattened position `k` comes from cell `(k / w, k % w)` |
| `Grids.MaxOf` | ADAMfuncs.py:114 | `np.amax` is an element of the samples and bounds every sample from above |
| `Grids.Mean` | ADAMfuncs.py:124 | the mean times the number of samples is their sum |
| `Grids.MeanBounds` | ADAMfuncs.py:93-94 | the mean of samples between `lo` and `hi` lies between `lo` and `hi` |
| `DangerMatrix.FirstCrossing` | ADAMfuncs.py:61-62 | the least frame `k >= 1` whose sample reaches the threshold, every earlier frame after 0 staying below; `None` exactly when no such frame exists |
| `DangerMatrix.CrossingTime` | ADAMfuncs.py:60-62 | a cell ends at 0 exactly when no frame after frame 0 reaches the threshold; otherwise it holds `k / fps` for a frame `k` that reaches it; all values lie in `[0, (N-1)/fps]` |
| `DangerMatrix.CrossingTimes` | ADAMfuncs.py:60-62 | the specification of the mask: every cell holds the crossing time of its own pixel series |
| `DangerMatrix.Stamp` | ADAMfuncs.py:62 | the masked assignment: a cell becomes `t` exactly when its sample reaches the threshold and the cell is still 0; every other cell keeps its value |
| `DangerMatrix.Zeros` | ADAMfuncs.py:60 | `np.zeros` has the requested shape and is 0 everywhere |
| `DangerMatrix.Planes` | ADAMfuncs.py:61-62 | one sample plane per frame, in frame order |
| `DangerMatrix.SearchFrom` | ADAMfuncs.py:61-62 | the least frame from `from` on whose sample reaches the threshold, every earlier one staying below; `None` exactly when none reaches it |
| `DangerMatrix.CrossingTimeSnoc` | ADAMfuncs.py:61-62 | one more frame changes a cell's crossing time exactly as the masked assignment does |
| `DangerMatrix.StampStep` | ADAMfuncs.py:61-62 | stamping frame `i` onto the crossing times of frames `0..i-1` gives the crossing times of frames `0..i`, which is the loop invariant |
| `DangerMatrix.SetCellsStay` | ADAMfuncs.py:62 | first crossing wins: a non-zero cell is never overwritten by later frames |
| `DangerMatrix.FirstCrossingLaw` | ADAMfuncs.py:61-62 | a pixel first reaching the threshold at frame `t >= 1` ends at exactly `t / fps` |
| `DangerMatrix.ZeroCrossingReadsAsUnset` | ADAMfuncs.py:60-62 | a pixel crossing only at frame 0 ends at 0, indistinguishable from one that never crosses |
| `DangerMatrix.ScenarioFirstCrossing` | ADAMfuncs.py:57-72 | three 2x2 frames with threshold 5 at 1 fps give `[[1, 2], [2, 1]]` |
| `DangerMatrix.GenDangerMatrix` | ADAMfuncs.py:57-72 | empty input and a one-dimensional last frame fail; otherwise the result is the crossing-time matrix, or "mask not filled" exactly when it is all zero |
| `DangerDeriv.Rate` | ADAMfuncs.py:78 | dividing by the frame interval `1/fps` is multiplying the difference by `fps` |
| `DangerDeriv.ScaledDiff` | ADAMfuncs.py:78 | one list entry holds the rate of every cell between two adjacent frames |
| `DangerDeriv.Telescope` | ADAMfuncs.py:77-78 | the sum of the first `n` forward rates is `fps * (x[n] - x[0])` |
| `DangerDeriv.MeanRateClosedForm` | ADAMfuncs.py:80 | the mean rate of a series is `fps * (last - first) / (N - 1)` |
| `DangerDeriv.ScaleLinear` | ADAMfuncs.py:77-78 | scaling every sample by `k` scales the summed rates by `k` |
| `DangerDeriv.MeanRateScales` | ADAMfuncs.py:80 | scaling every sample by `k` scales the mean rate by `k` |
| `DangerDeriv.MeanRateReverses` | ADAMfuncs.py:80 | playing the frames backwards negates the mean rate |
| `DangerDeriv.MeanRateOfConstant` | ADAMfuncs.py:80 | a pixel that never changes has mean rate 0 |
| `DangerDeriv.SumOfDiffs` | ADAMfuncs.py:80 | `np.sum(..., axis=0)` over the list is, cell by cell, the sum of that pixel's forward rates |
| `DangerDeriv.CellOfMean` | ADAMfuncs.py:80 | dividing that sum by the list length gives the pixel's mean rate |
| `DangerDeriv.GenDangerMatrixDeriv` | ADAMfuncs.py:75-82 | with at least two frames every cell is its pixel's mean rate; with fewer there is no matrix |
| `TypicalDistr.Insert` | ADAMfuncs.py:85 | inserting into sorted distinct values keeps them sorted and distinct and adds exactly the new value |
| `TypicalDistr.Unique` | ADAMfuncs.py:85 | `np.unique` gives strictly increasing values, exactly the values of the input |
| `TypicalDistr.Counts` | ADAMfuncs.py:85 | `return_counts` gives each distinct value's multiplicity, at least 1 |
| `TypicalDistr.MaxCount` | ADAMfuncs.py:86 | `typ_idx.max()` is one of the counts and bounds them all |
| `TypicalDistr.WhereSound` | ADAMfuncs.py:88 | every position `np.where` reports holds the value |
| `TypicalDistr.WhereComplete` | ADAMfuncs.py:88 | every position holding the value is reported |
| `TypicalDistr.WhereAscending` | ADAMfuncs.py:88 | positions are reported in ascending order |
| `TypicalDistr.WhereExact` | ADAMfuncs.py:88 | a position is reported exactly when it holds the value |
| `TypicalDistr.ProductAt` | ADAMfuncs.py:86 | `list(product(range(W), range(H)))` has `W * H` entries and entry `j` is `(j // H, j % H)` |
| `TypicalDistr.TopPositions` | ADAMfuncs.py:86 | at least one position attains the largest count, and every selected position lies inside the flattened mask |
| `TypicalDistr.TopPositionsExact` | ADAMfuncs.py:86 | a position is selected exactly when its count is the largest count |
| `TypicalDistr.ModeOfCounts` | ADAMfuncs.py:85-86 | a distinct value has the largest count exactly when it is a mode |
| `TypicalDistr.TopPositionsAreModes` | ADAMfuncs.py:85-86 | the selected positions are exactly the positions of the modes among the sorted distinct values |
| `TypicalDistr.TypicalPairs` | ADAMfuncs.py:86 | the coordinate list indexed by the top positions: pair `i` is `(j / H, j % H)` for the `i`-th top position `j` |
| `TypicalDistr.SinglePair` | ADAMfuncs.py:86 | a single top position `j` selects the single pair `(j / H, j % H)` |
| `TypicalDistr.RowValues` | ADAMfuncs.py:93 | `frame[typ_idx]` holds two whole rows per pair, `2 * pairs * W` samples |
| `TypicalDistr.LargestCells` | ADAMfuncs.py:88 | `np.where(mask == np.max(mask))` is non-empty and every selected cell lies in the mask and holds the maximum |
| `TypicalDistr.LargestCellsComplete` | ADAMfuncs.py:88 | every cell holding the maximum is selected |
| `TypicalDistr.PositionOf` | ADAMfuncs.py:88 | every cell has a flattened position that holds its value and maps back to it |
| `TypicalDistr.LargestCellsHas` | ADAMfuncs.py:88 | the cell of any flattened position holding the maximum is selected |
| `TypicalDistr.CellsOfPositions` | ADAMfuncs.py:88 | the cells of flattened positions lie in the mask and hold the flattened values |
| `TypicalDistr.CellsOf` | ADAMfuncs.py:88 | one cell per flattened position, in order |
| `TypicalDistr.CellOfRow` | ADAMfuncs.py:88 | position `r * w + c` with `c < w` is cell `(r, c)` |
| `TypicalDistr.CellOfSplits` | ADAMfuncs.py:88 | the cell of position `k` recombines to `k` |
| `TypicalDistr.CellValues` | ADAMfuncs.py:94 | `frame[larg_idx]` holds the sample of each selected cell, in order |
| `TypicalDistr.Clip` | ADAMfuncs.py:93-94 | the comprehension's clip is the smaller of the mean and the threshold |
| `TypicalDistr.Traces` | ADAMfuncs.py:90-96 | one clipped mean per frame for each selection, never above the threshold |
| `TypicalDistr.GenTypicalDistr` | ADAMfuncs.py:84-96 | a one-dimensional mask, empty or not, fails at `np.shape(mask)[1]`, and an empty two-dimensional mask at `.max()`; otherwise the typical index fails exactly when some selected row is outside the frames, the largest-cell index exactly when the rows fit but some cell does not, and the result is the two traces exactly when both fit |
| `TypicalDistr.TypicalDistrOf` | ADAMfuncs.py:84-96 | when both selections fit the frames the result is the pair of traces |
| `TypicalDistr.TallMaskRowsInRange` | ADAMfuncs.py:86 | with no more columns than rows every selected row exists |
| `TypicalDistr.ValueCounts` | ADAMfuncs.py:85 | each flattened sample is paired with the multiplicity of its value |
| `TypicalDistr.ModeCells` | ADAMfuncs.py:85-88 | the selection of the cells holding a mode is non-empty and lies inside the mask |
| `TypicalDistr.MaxCountIsFound` | ADAMfuncs.py:86 | some position attains the largest count |
| `TypicalDistr.MaxCountBounds` | ADAMfuncs.py:85-86 | no value occurs more often than the largest value count, and some value attains it |
| `TypicalDistr.ModeCellsSound` | ADAMfuncs.py:85-88 | every mode cell lies in the mask and holds a mode |
| `TypicalDistr.ModeCountIsMax` | ADAMfuncs.py:85-86 | a position holding a mode has the largest value count |
| `TypicalDistr.ModeCellsComplete` | ADAMfuncs.py:85-88 | every cell holding a mode is a mode cell |
| `TypicalDistr.ModeCellsExact` | ADAMfuncs.py:85-88 | a cell is a mode cell exactly when it lies in the mask and holds a mode |
| `TypicalDistr.ModeTrace` | ADAMfuncs.py:93 | the typical trace over the mode cells: one clipped mean per frame, never above the threshold |
| `TypicalDistr.SingleFrameModeTrace` | ADAMfuncs.py:93 | over one frame the mode trace is that frame's clipped mean |
| `TypicalDistr.AsWrittenOfExample` | ADAMfuncs.py:84-96 | for the mask `[[a, b], [b, b]]` with `a < b` the source's typical trace is the mean of all four samples and its largest-cell trace the mean of the three `b` cells |
| `TypicalDistr.ModeTraceOfExample` | ADAMfuncs.py:93 | for the same mask the mode-cell trace is the mean of the three `b` cells |
| `TypicalDistr.TypicalSelectsRowsNotCells` | ADAMfuncs.py:86-93 | the two differ: with the frame `[[4, 0], [0, 0]]` and threshold 10 the source reports 1 where the mode cells give 0 |
| `TypicalDistr.ModeTraceOfRow` | ADAMfuncs.py:93 | for a one-row mask `[[a, b]]` with `a < b` the mode-cell trace over a one-row frame is that row's clipped mean |
| `TypicalDistr.WideMaskIndexError` | ADAMfuncs.py:86-93 | for the one-row mask `[[a, b]]` with `a < b` the source indexes row 1 of a one-row frame and fails |
| `PixelHist.Linspace` | ADAMfuncs.py:114 | `np.linspace` gives `num` edges, the first `start` and the last `stop` |
| `PixelHist.LinspaceFromZero` | ADAMfuncs.py:114 | from 0, edge `k` is `k * stop / (num - 1)` |
| `PixelHist.Edges` | ADAMfuncs.py:114 | the bin edges of the histogram: `nbins` edges from 0 to the maximum |
| `PixelHist.LinspaceStep` | ADAMfuncs.py:114 | consecutive edges differ by one step |
| `PixelHist.LinspaceIncreasing` | ADAMfuncs.py:114 | edges towards a larger stop increase strictly |
| `PixelHist.LinspaceNondecreasing` | ADAMfuncs.py:114 | edges towards a stop no smaller never decrease |
| `PixelHist.LinspaceDecreasing` | ADAMfuncs.py:114-117 | edges towards a smaller stop decrease, which `np.histogram` rejects |
| `PixelHist.CountIn` | ADAMfuncs.py:117 | an interval holds at most all the samples |
| `PixelHist.HistCounts` | ADAMfuncs.py:117 | `np.histogram` with explicit edges has one count per pair of consecutive edges, all bins half-open except the last |
| `PixelHist.CountSplit` | ADAMfuncs.py:117 | adjacent intervals add up |
| `PixelHist.CountEmptyInterval` | ADAMfuncs.py:117 | an empty half-open interval holds nothing |
| `PixelHist.PrefixCounts` | ADAMfuncs.py:117 | the first `k` bins together count the samples in `[e[0], e[k])` |
| `PixelHist.Conservation` | ADAMfuncs.py:117 | over non-decreasing edges the counts add up to the samples in `[e[0], e[last]]` |
| `PixelHist.CountAll` | ADAMfuncs.py:117 | samples all lying in `[lo, hi]` are all counted by that closed interval |
| `PixelHist.Bin` | ADAMfuncs.py:113-121 | the four returned arrays: the flattened samples, the edges, and counts that add up to the samples in `[0, max]` |
| `PixelHist.EverySampleCounted` | ADAMfuncs.py:113-117 | with two or more edges, a mask of non-negative samples (a danger matrix) has every sample in some bin |
| `PixelHist.GenPixelHist` | ADAMfuncs.py:112-121 | a one-dimensional mask, an empty mask, a negative bin count and a negative maximum with two or more bins each fail with their own error; otherwise the histogram of the flattening, `H * W` samples |
| `PixelHist.EdgesIncrease` | ADAMfuncs.py:114 | with a positive maximum the edges increase strictly |
| `PixelHist.ZeroMaxHistogram` | ADAMfuncs.py:114-117 | with maximum 0 every edge is 0, every bin but the last is empty and the last holds the zero samples |
| `PixelHist.AvgPixelTime` | ADAMfuncs.py:123-126 | `pixel_nums` is `linspace(0, H, H)` and `pixel_time` holds the mean of each row |
| `PixelHist.AvgPixelTimeWithinRow` | ADAMfuncs.py:124 | each row mean lies between the row's smallest and largest sample |
| `DerivParse.DerivApprox` | deriv_parse.C:4-8 | the central difference times `2h` is `f2 - f1` |
| `DerivParse.TimesIsProduct` | deriv_parse.C:22-23 | adding a difference once per address is multiplying it by the number of addresses |
| `DerivParse.FilledAsProduct` | deriv_parse.C:10-35 | an addressed cell ends as its start value plus `Hits` times its rate total, divided by `nFrames` to the power `Hits` |
| `DerivParse.TimesAdd` | deriv_parse.C:22-23 | adding two differences once per address each adds their sum once per address |
| `DerivParse.Hits` | deriv_parse.C:18-23 | a cell is addressed at most `nRows` times per sweep, and only when there are columns |
| `DerivParse.RowHitsPositive` | deriv_parse.C:18-23 | the rows before `i` address cell `k` exactly when one of their column spans covers `k` |
| `DerivParse.NarrowRowsDisjoint` | deriv_parse.C:18-23 | with no more columns than rows the rows address a cell at most once, and only a cell before the next row start |
| `DerivParse.LaterRowsMiss` | deriv_parse.C:18-23 | rows from the third on never address cell `nRows` |
| `DerivParse.Pass1Start` | deriv_parse.C:10-14 | before the first loop nest the mask is untouched |
| `DerivParse.Pass1AtAddressed` | deriv_parse.C:22-23 | stepping past column `j` adds the cell's central difference to the addressed cell |
| `DerivParse.Pass1AtOther` | deriv_parse.C:22-23 | stepping past column `j` leaves every other cell alone |
| `DerivParse.Pass1Cell` | deriv_parse.C:22-23 | one execution of the innermost statement updates exactly the addressed cell |
| `DerivParse.Pass1Row` | deriv_parse.C:20-24 | finishing a row is starting the next |
| `DerivParse.Pass1AtFrame` | deriv_parse.C:14-26 | the same, cell by cell: a cell's value after the last row of frame pair `f` is its value at the start of pair `f + 1` |
| `DerivParse.Pass2Start` | deriv_parse.C:27-28 | before the second loop nest the mask is what the first left |
| `DerivParse.Pass1Frame` | deriv_parse.C:18-25 | finishing the last row of frame pair `f` is starting frame pair `f + 1` |
| `DerivParse.Pass2Cell` | deriv_parse.C:32 | one execution of the division divides the addressed cell by `nFrames` and touches nothing else |
| `DerivParse.Pass2Row` | deriv_parse.C:28-33 | finishing a row of the second nest is starting the next |
| `DerivParse.Pass2DoneAt` | deriv_parse.C:27-34 | a cell divided once per address after the first nest ends as the closed form `Filled` |
| `DerivParse.Pass2Done` | deriv_parse.C:27-34 | after both loop nests the mask is the closed form `Filled` |
| `DerivParse.InBounds` | deriv_parse.C:22-23 | under the size requirements the cell written and the two samples read are in range |
| `DerivParse.AddCellDifference` | deriv_parse.C:22-23 | the innermost statement adds the central difference of samples `frameNr + idx` and `frameNr + 2 + idx` to cell `idx = i * nRows + j` |
| `DerivParse.AddRowDifferences` | deriv_parse.C:18-25 | one row of one frame pass adds central differences to cells `i * nRows + j`, `j < nCols` |
| `DerivParse.AddCentralDifferences` | deriv_parse.C:12-26 | the first loop nest leaves the first-pass state of all `nFrames - 2` frame pairs |
| `DerivParse.DivideByFrames` | deriv_parse.C:27-34 | the second loop nest divides every addressed cell by `nFrames`, once per address |
| `DerivParse.FillMask` | deriv_parse.C:10-35 | the mask ends as `Filled`: each addressed cell has gained its central differences once per address and been divided by `nFrames` once per address; other cells are unchanged |
| `DerivParse.TouchedCells` | deriv_parse.C:18-23 | a cell is addressed exactly when it lies in `[i * nRows, i * nRows + nCols)` for some row `i` |
| `DerivParse.NoCollisions` | deriv_parse.C:22-23 | with no more columns than rows each cell is addressed at most once per sweep |
| `DerivParse.WideMaskCollides` | deriv_parse.C:22-23 | with more columns than rows (and two rows at least) cell `nRows` is addressed twice per sweep |
| `DerivParse.StrideExample` | deriv_parse.C:22-23 | for 2 rows of 3 columns cell 2 is addressed twice and cell 5 never |
| `DerivParse.CallerMaskOverrun` | deriv_parse.C:22-23 | with more rows than columns the sweep writes cell `(nRows-1)*nRows + nCols - 1`, at or past the end of a mask of `nRows * nCols` cells |
| `DerivParse.CallerMaskFits` | deriv_parse.C:18-23 | a mask of `nRows * nCols` cells holds every address of the sweep exactly when it has one row or no more rows than columns |
| `DerivParse.RateSumTelescopes` | deriv_parse.C:14-23 | the central differences of a series telescope to its last two samples minus its first two |
| `DerivParse.RateSumClosedForm` | deriv_parse.C:14-23 | the central-difference total of a series over `n` pairs, divided by `d`, is `fps * (x[n] + x[n+1] - x[0] - x[1]) / (2d)` |
| `DerivParse.SeriesRateClosedForm` | deriv_parse.C:27-34 | over all `nFrames - 2` pairs and divided by `nFrames`, that total is `fps * (x[N-2] + x[N-1] - x[0] - x[1]) / (2N)` |
| `DerivParse.TouchedInRange` | deriv_parse.C:22-23 | an addressed cell lies in the mask and its last samples in the buffer |
| `DerivParse.FilledOnce` | deriv_parse.C:32 | a cell addressed once is divided by `nFrames` once |
| `DerivParse.OffsetRateClosedForm` | deriv_parse.C:16-23 | a zero cell that collects the pairs read from offset `k` once, divided by `nFrames`, is `fps * (mv[N-2+k] + mv[N-1+k] - mv[k] - mv[k+1]) / (2N)` |
| `DerivParse.ZeroMaskClosedForm` | deriv_parse.C:10-35 | on a zeroed mask with no more columns than rows each addressed cell ends at `fps * (mv[N-2+k] + mv[N-1+k] - mv[k] - mv[k+1]) / (2N)` |
| `DerivParse.PixelOffsetBijective` | deriv_parse.C:22 | row-major offsets `r * nCols + c` number the cells one-to-one with `[0, nRows * nCols)` |
| `DerivParse.PixelSeriesAt` | deriv_parse.C:16-17 | in a frame-major buffer, sample `t` of pixel `(r, c)` is entry `t * nRows * nCols + r * nCols + c` |
| `DerivParse.CentralRates` | deriv_parse.C:10-35 | the intended reducer: one cell per pixel, holding that pixel's own rate total over `nFrames` |
| `DerivParse.CentralRatesClosedForm` | deriv_parse.C:10-35 | each intended cell is `fps / 2` times its own pixel's last two samples minus its first two, over `nFrames` |
| `DerivParse.FrameOffsetExample` | deriv_parse.C:16-17 | one row of two cells over three frames: the source reports `fps / 6` for cell 0 where the frame-major reading gives 0 |

## Left out

- `readmovie` (video decoding through OpenCV), `print` calls and the plotting helpers: I/O, outside the core.
- The OpenMP `parallel for` of `fillMask`: the model runs the loops on one thread. Under the source's indexing, frame passes write the same cells concurrently (a data race on `+=`); the model does not capture that race.
- Floating-point rounding: samples and results are exact reals, so `i/fps`, means and `linspace` are computed without rounding.
- Division by zero is excluded by a `requires`. In the Python functions, `fps = 0` raises ZeroDivisionError: at `i/fps` for the first frame (ADAMfuncs.py:62) and at `1/fps` as soon as there are two frames (ADAMfuncs.py:78). In `fillMask`, `1/fps` gives an infinite step instead (deriv_parse.C:12), and `nFrames = 0` divides the addressed cells by zero. None of these outcomes is modelled.
- DangerMatrix.GenDangerMatrix: requires `fps > 0` and frames of one common shape. The source also runs with a negative `fps` and broadcasts mismatched shapes or fails on them.
- DangerDeriv.GenDangerMatrixDeriv: requires frames of one shape; numpy would broadcast or fail on mismatched frames. With fewer than two frames it returns `None` where numpy returns a NaN scalar.
- TypicalDistr.GenTypicalDistr: requires every frame to have `fh` rows of `fw` samples. The source accepts frames of differing shapes and fails on them only where an index falls outside a frame.
- PixelHist.AvgPixelTime: requires rows to be non-empty when there are rows, since numpy's mean of an empty row is NaN.
- `binfactor` of `gen_danger_matrix`: the source accepts it and never uses it.
- Integer widths: the frame samples of `fillMask` are unbounded integers. The wrapper declares them `int32` while the C code reads `long`, which has the same width only on platforms where `long` is 32 bits. The `long` index arithmetic `i*nRows + j` is assumed not to overflow. The `uint8` pixel type of decoded frames, and its wrap-around in `framearr[i+1] - framearr[i]`, is not modelled: samples are exact.
- Negative sizes passed to `fillMask` are not modelled: sizes are `nat`, as the wrapper passes array dimensions.
- DerivParse.FillMask: requires a mask of at least `(nRows - 1) * nRows + nCols` cells. The caller allocates exactly `nRows * nCols` (gen_mask.py:14-18). That meets the requirement only when there is one row or no more rows than columns (`CallerMaskFits`). A taller mask makes the C code write past its buffer (`CallerMaskOverrun`); the model does not describe what such a write does. `ZeroMaskClosedForm` needs `nCols <= nRows`, so for caller-sized masks it applies only to square ones.
- Arrays of three or more dimensions: `Grids.NdArray` has only one- and two-dimensional cases. `gen_danger_matrix` and `gen_pixel_hist` accept any `ndim > 1` (ADAMfuncs.py:58 and 112), so colour frames are not modelled.
- PixelHist.AvgPixelTime: takes a two-dimensional grid. The `AxisError` that `np.mean(mask, axis = 1)` raises for a one-dimensional mask (ADAMfuncs.py:124) is not modelled.

## Findings

| source | as written | input that shows it | evidently intended | confidence | as-written member | corrected member |
|---|---|---|---|---|---|---|
| deriv_parse.C:22-23 | the cell and sample offset is `i*nRows + j` | 2 rows of 3 columns: cell 2 is addressed twice per sweep, cell 5 never | the row-major offset `i*nCols + j`, one cell per pixel | not executed; high | `DerivParse.WideMaskCollides` | `DerivParse.PixelOffsetBijective` |
| deriv_parse.C:22 | the write `mask[i*nRows + j]` with the stride `nRows` | the caller's mask of 3 rows of 2 columns has 6 cells; row 2 writes cell 7 | every write lands in the caller's `nRows * nCols` cells | not executed; high | `DerivParse.CallerMaskOverrun` | `DerivParse.PixelOffsetBijective` |
| deriv_parse.C:16-17 | frame pair `f` starts at `&mv[frameNr]`, `f` samples in | one row of two cells, 3 frames, buffer `[0, 0, 1, 0, 0, 0]`: cell 0 gets `fps / 6` | frames start at `frameNr * nRows * nCols`, so each cell reads its own pixel | not executed; high | `DerivParse.FrameOffsetExample` | `DerivParse.CentralRatesClosedForm` |
| ADAMfuncs.py:86-93 | positions among the distinct values index `product(range(W), range(H))`, and the pairs index frame ROWS | mask `[[a, b], [b, b]]`, `a < b`, frame `[[4, 0], [0, 0]]`, threshold 10: typical trace 1 | the mean over the cells holding the modal value, 0 here | not executed; high | `TypicalDistr.TypicalSelectsRowsNotCells` | `TypicalDistr.ModeCellsExact` |
| ADAMfuncs.py:86 | a selected pair `(j // H, j % H)` is used as row indices even when `j // H >= H` | mask `[[a, b]]`, `a < b`: pair `(1, 0)` indexes row 1 of a one-row frame, an IndexError | no index error; the trace over the mode cells, here the row mean | not executed; high | `TypicalDistr.WideMaskIndexError` | `TypicalDistr.ModeTraceOfRow` |
