# Nebulabrot in Dafny

A model of the Buddhabrot/Nebulabrot renderer and of its channel-swap
utility. Complex numbers are pairs of exact reals.

The renderer has four parts:

- **c_set** draws candidate parameters. It rejects those inside the main
  cardioid or the period-2 bulb. It then iterates `z <- z^2 + c` from
  `z = c` for a fixed budget, appending every parameter whose iterate
  escapes (`|z| >= 2`) to a preallocated buffer at a running cursor.
- **buddhabrot** replays the orbits of those parameters. It adds one to
  every pixel that at least one live orbit occupies in a round, then sheds
  the escaped orbits, until none remain.
- **The main block** adds each pass's three histograms (red, green, blue)
  into running totals. It then scales each total by its own maximum to 16
  bits and interleaves the three scaled planes into one `size x 3*size`
  buffer, in slot order blue, green, red.
- **The channel-swap utility** rewrites a three-channel image the same
  way, with slots taking the source channels 0, 2, 1.

The code is imperative and the model keeps that form:

- The escape loop writes an `array` buffer at a cursor.
- The histograms and the output buffer are `array2` values updated in place.
- The channel swap reads an `array3` image.

Each method is proved against specification functions:

- `EscapeSpec` / `NonMsetPoints`: what c_set returns.
- `OrbitCount`: the histogram cell after n rounds.
- `TotalHist`: the cell after p passes.
- `ScaleCell` / `GridMax`: the scaling.
- `Swapped`: the channel remap.

Lemmas then prove the properties promised about those functions.

Modules, one per file, following the program:

| file | module | models |
|---|---|---|
| quadratic_map.dfy | QuadraticMap | the map, the escape test, iterates, the live-set masks |
| sampler.dfy | Sampler | the two analytic pre-filters |
| escape_filter.dfy | EscapeFilter | `c_set` |
| orbit_accumulator.dfy | OrbitAccumulator | `buddhabrot` |
| compositor.dfy | Compositor | the main block: accumulation, scaling, interleave, the pass loop |
| color_swap.dfy | ColorSwap | the channel-swap script |

Inputs the code takes from I/O or randomness become parameters:

- The candidate draws: one `PassDraws` per pass, three sequences each.
- The cardioid test `outsideCardioid`, because it uses `exp` and `angle`.
- The configuration constants `size`, `iterations`, `samples` and `loops`.
- The decoded source image of the channel swap.

## Model

| member | source | states |
|---|---|---|
| QuadraticMap.Step | Nebulabrot.py:49 | the definition of one iteration z ** 2 + c on exact complex values; its orbit properties are OriginFixed, StepAll and ShedOrbits |
| QuadraticMap.Escaped | Nebulabrot.py:52-53 | the definition of the escape test abs(z) >= 2, compared on squares; BoundedIsInSampleSquare shows its negation keeps z in the sample square |
| QuadraticMap.BoundedThroughAntitone | Nebulabrot.py:47-61 | a parameter still live after n iterations was live after every earlier iteration |
| QuadraticMap.EscapesWithinIff | Nebulabrot.py:47-61 | escaping within n iterations holds iff there is a first escape at some k in 1..n |
| QuadraticMap.FirstEscapeUnique | Nebulabrot.py:47-61 | the first escape iteration of a parameter is unique, so it is collected in one iteration only |
| QuadraticMap.BoundedIsInSampleSquare | Nebulabrot.py:95-97 | an iterate kept by the mask abs(z) < 2 lies in [-2, 2) x [-2, 2) |
| QuadraticMap.OriginFixed | Nebulabrot.py:45-49 | the orbit of c = 0 started at z = c stays at 0 |
| QuadraticMap.OriginStaysBounded | Nebulabrot.py:47-61 | c = 0 never escapes, for any budget |
| QuadraticMap.Orbits | Nebulabrot.py:45-49 | the definition of the iterate array paired with the parameters; the loop invariants `z == Orbits(c, i)` of EscapeFilter.CSet and OrbitAccumulator.Buddhabrot, with StepAllOrbits and ShedOrbits, keep c and z paired |
| QuadraticMap.StepAll | Nebulabrot.py:49 | the definition of element-wise z ** 2 + c; StepAllOrbits shows it advances Orbits by one iteration |
| QuadraticMap.Select | Nebulabrot.py:52-61 | boolean-mask indexing never grows the array |
| QuadraticMap.SelectSizes | Nebulabrot.py:52-61 | the masks abs(z) >= 2 and abs(z) < 2 split the live array: the two parts' lengths add up to the whole |
| QuadraticMap.Survivors | Nebulabrot.py:60-61 | the live set never exceeds the pre-filtered set |
| QuadraticMap.EscapedAt | Nebulabrot.py:54 | one iteration never collects more points than were pre-filtered |
| QuadraticMap.SurvivorsMember | Nebulabrot.py:60-61 | a point is live after n iterations iff it was pre-filtered and none of its first n iterates escaped |
| QuadraticMap.EscapedAtMember | Nebulabrot.py:52-54 | a point is collected at iteration k iff it was pre-filtered and first escapes there |
| QuadraticMap.SurvivorsZero | Nebulabrot.py:45 | before the first iteration every pre-filtered point is live |
| QuadraticMap.ShedLive | Nebulabrot.py:52-60 | after a step, c[abs(z) < 2] is exactly the set of survivors of one more iteration, in order |
| QuadraticMap.ShedEscaped | Nebulabrot.py:52-54 | after a step, c[abs(z) >= 2] is exactly the set of points that first escape at that iteration, in order |
| QuadraticMap.SelectOrbits | Nebulabrot.py:60-61 | masking z by its own test keeps it paired with the masked parameters |
| QuadraticMap.ShedOrbits | Nebulabrot.py:60-61 | z[mask] is exactly the iterate array of the new live set, so c and z stay paired |
| QuadraticMap.SurvivorsSplit | Nebulabrot.py:52-61 | each point occurs among the last iteration's survivors as often as among this iteration's survivors and escapes together |
| QuadraticMap.SurvivorsSplitSize | Nebulabrot.py:52-61 | the same split counted by length: the live set shrinks by exactly the number collected |
| QuadraticMap.SurvivorsEmptyStays | Nebulabrot.py:80 | once no orbit is live, none is live at any later round |
| Sampler.OutsideBulb | Nebulabrot.py:39 | the definition of the bulb test (re + 1)^2 + im^2 > 1/16, the squared form of abs(c + 1) > 1/4; PreFilterMember proves a point reaches the escape loop iff it passes it |
| Sampler.Filter | Nebulabrot.py:33-39 | a mask never lengthens the array |
| Sampler.FilterOccurrences | Nebulabrot.py:33-39 | a mask keeps every occurrence of a point that passes the test and drops every occurrence of one that fails it |
| Sampler.FilterMember | Nebulabrot.py:33-39 | a point is kept iff it was present and passes the test |
| Sampler.PreFilter | Nebulabrot.py:33-39 | the pre-filters never lengthen the draw |
| Sampler.PreFilterMember | Nebulabrot.py:33-39 | a point reaches the escape loop iff it was drawn, lies outside the cardioid and satisfies (re + 1)^2 + im^2 > 1/16 |
| Sampler.PreFilterOccurrences | Nebulabrot.py:33-39 | each surviving candidate keeps its multiplicity and every rejected one is gone |
| EscapeFilter.EscapeSpecCount | Nebulabrot.py:55-57 | the buffer prefix after k iterations counts each point as the prefix after k - 1 plus the points collected at iteration k |
| EscapeFilter.EscapePartition | Nebulabrot.py:47-61 | after k iterations each pre-filtered point occurs in the buffer prefix and the live set together exactly as often as it was pre-filtered |
| EscapeFilter.EscapeCount | Nebulabrot.py:55-57 | the cursor plus the live count equals the pre-filtered count after every iteration |
| EscapeFilter.EscapeSpecMember | Nebulabrot.py:45-68 | a point is returned iff it was pre-filtered and escapes within the budget |
| EscapeFilter.EscapedExactlyOnce | Nebulabrot.py:45-68 | an escaping point is returned exactly as often as it was pre-filtered; a point still bounded after the last iteration is not returned at all |
| EscapeFilter.NonMsetPointsMember | Nebulabrot.py:33-68 | c_set returns a point iff it was drawn, lies outside the cardioid and the bulb, and escapes within the budget |
| EscapeFilter.NonMsetPointsEscape | Nebulabrot.py:17-68 | every returned point lies in the sample square and escapes within the budget, which buddhabrot needs in order to terminate |
| EscapeFilter.OriginNotReturned | Nebulabrot.py:45-68 | the origin, which is in the Mandelbrot set, is never returned |
| EscapeFilter.EscapeRound | Nebulabrot.py:49-61 | one iteration collects exactly the points first escaping at it and leaves exactly the next survivors with their paired iterates; the live set shrinks by exactly the number collected |
| EscapeFilter.AssignSlice | Nebulabrot.py:55-56 | the slice assignment extends the buffer prefix by the new points and keeps the earlier prefix |
| EscapeFilter.Iteration | Nebulabrot.py:47-61 | one loop pass keeps the invariant: buffer prefix = EscapeSpec, cursor + live count = pre-filtered count <= buffer size, c and z paired |
| EscapeFilter.CSet | Nebulabrot.py:9-68 | c_set returns exactly NonMsetPoints of the draw (pre-filtered points grouped by escape iteration, each group in draw order), and at most num_samples points |
| OrbitAccumulator.RoundsWhere | Nebulabrot.py:80-99 | a cell cannot be incremented in more rounds than were run |
| OrbitAccumulator.Trunc | Nebulabrot.py:85-86 | int() of a float truncates toward zero: a non-negative value lies in [r, r + 1), a negative one in (r - 1, r] |
| OrbitAccumulator.PixelX | Nebulabrot.py:85 | the row index int((z.real + 2) / 4 * size) lies in [0, size) whenever z.real is in [-2, 2) |
| OrbitAccumulator.PixelY | Nebulabrot.py:86 | the column index int((z.imag + 2) / 4 * size) lies in [0, size) whenever z.imag is in [-2, 2) |
| OrbitAccumulator.CoordinateInRange | Nebulabrot.py:85-86 | int((u + 2) / 4 * size) lies in [0, size) for u in [-2, 2) |
| OrbitAccumulator.PixelInRange | Nebulabrot.py:85-86 | every point of the sample square maps to a pixel inside the image |
| OrbitAccumulator.LiveInSampleSquare | Nebulabrot.py:78-97 | every live iterate lies in the sample square: at round 0 it is c itself, later it passed abs(z) < 2 |
| OrbitAccumulator.LiveOccupied | Nebulabrot.py:85-89 | a pixel is occupied in round r iff some parameter still live at r has its r-th iterate there |
| OrbitAccumulator.OrbitCountStep | Nebulabrot.py:88-89 | a round adds exactly 1 to an occupied pixel however many orbits share it, and 0 to every other pixel |
| OrbitAccumulator.OrbitCountMonotone | Nebulabrot.py:88-89 | cells never decrease and rise by at most one per round |
| OrbitAccumulator.OrbitCountStable | Nebulabrot.py:80 | once no orbit is live, later rounds change no cell |
| OrbitAccumulator.OrbitCountPositive | Nebulabrot.py:85-89 | a cell is non-zero iff it is occupied in some round |
| OrbitAccumulator.ParameterRecorded | Nebulabrot.py:78-89 | the first recorded iterate is z = c, so the pixel of every parameter is counted at least once |
| OrbitAccumulator.RecordRound | Nebulabrot.py:88-89 | img_array[x, y] += 1 adds one to each occupied pixel and leaves every other cell unchanged |
| OrbitAccumulator.ShedRound | Nebulabrot.py:92-97 | stepping and shedding leave exactly the next round's survivors paired with their iterates |
| OrbitAccumulator.LiveBeforeBound | Nebulabrot.py:80 | while an orbit is live, the round number is below the bound by which every parameter escapes |
| OrbitAccumulator.Round | Nebulabrot.py:80-99 | one round keeps the invariant: the histogram holds OrbitCount for the rounds so far and c, z are the live survivors and their iterates |
| OrbitAccumulator.Buddhabrot | Nebulabrot.py:71-102 | the loop ends and returns a fresh size x size histogram whose every cell is the number of rounds in which that pixel was occupied |
| Compositor.TotalHistStep | Nebulabrot.py:130-132 | after pass p + 1 each cell is its value after p passes plus that pass's buddhabrot cell |
| Compositor.TotalHistBound | Nebulabrot.py:130-132 | after p passes a cell is at most p times the channel's bailout |
| Compositor.TotalHistMonotone | Nebulabrot.py:130-132 | cells only grow from pass to pass |
| Compositor.ScaleCell | Nebulabrot.py:134-139 | the definition of one scaled cell, the floor of v * 65535 / m; ScaleCellFloor, ScaleCellRange, ScaleCellOfMax and ScaleCellMonotone state its properties |
| Compositor.ScaleCellFloor | Nebulabrot.py:134-139 | the scaled cell r is the floor of v * 65535 / m: r * m <= v * 65535 < (r + 1) * m |
| Compositor.ScaleCellRange | Nebulabrot.py:134-139 | a cell between 0 and the maximum scales into [0, 65535] |
| Compositor.ScaleCellOfMax | Nebulabrot.py:134-139 | a cell equal to the maximum scales to exactly 65535 |
| Compositor.ScaleCellMonotone | Nebulabrot.py:134-139 | scaling keeps the order of cells |
| Compositor.GridMax | Nebulabrot.py:135 | the definition of H.max() as a maximum over rows; GridMaxIsMax proves it bounds every cell and is attained |
| Compositor.RowMaxIsMax | Nebulabrot.py:135 | the row maximum bounds every cell of the row prefix and is attained in it |
| Compositor.RowsMaxIsMax | Nebulabrot.py:135 | the maximum over the first n rows bounds every cell of them and is attained |
| Compositor.GridMaxIsMax | Nebulabrot.py:135 | H.max() bounds every cell and some cell attains it |
| Compositor.GridMaxNonNegative | Nebulabrot.py:135 | the maximum of a non-negative histogram is non-negative |
| Compositor.ScaledHistogramRange | Nebulabrot.py:134-139 | with a positive maximum every scaled cell lies in [0, 65535] and some cell scales to exactly 65535 |
| Compositor.ZeroMaxMeansEmpty | Nebulabrot.py:134-139 | a zero maximum of a non-negative histogram means that every cell is zero |
| Compositor.Accumulate | Nebulabrot.py:130-132 | `+=` adds the pass histogram cell by cell |
| Compositor.AddHistogram | Nebulabrot.py:130-132 | each cell gains exactly that pass's OrbitCount |
| Compositor.ScaleChannel | Nebulabrot.py:134-139 | a fresh array of the same shape whose every cell is ScaleCell of the input cell |
| Compositor.Interleave | Nebulabrot.py:143-147 | blue goes to column 3j, green to 3j + 1 and red to 3j + 2 of row i |
| Compositor.ShownCell | Nebulabrot.py:143-147 | every column of the buffer is written: column col holds the plane named by slot col % 3 at pixel col / 3 |
| Compositor.ShownRange | Nebulabrot.py:134-147 | with non-negative histograms every sample of the rendered buffer lies in [0, 65535] |
| Compositor.Normalise | Nebulabrot.py:134-147 | reports Rendered iff all three maxima are positive, else the first channel (red, green, blue) whose maximum is zero; when Rendered the buffer shows every plane scaled by its own maximum, every earlier value overwritten; otherwise the buffer is unchanged |
| Compositor.ScaleAndInterleave | Nebulabrot.py:134-147 | every pixel's three slots hold the scaled blue, green and red cells |
| Compositor.HoldsPassesNonNegative | Nebulabrot.py:130-132 | accumulated histograms are non-negative |
| Compositor.ChannelPass | Nebulabrot.py:125-132 | a channel's histogram goes from the sum of p passes to the sum of p + 1 |
| Compositor.AccumulatePass | Nebulabrot.py:125-132 | all three histograms go from the sum of p passes to the sum of p + 1 |
| Compositor.RenderedRange | Nebulabrot.py:134-147 | after any pass that rendered, every output sample is a 16-bit value |
| Compositor.Pass | Nebulabrot.py:120-151 | one loop body takes the state after p passes to the state after p + 1 |
| Compositor.RunPasses | Nebulabrot.py:118-151 | after all passes each histogram is the sum of every pass, and the status and buffer reflect the last pass's normalisation |
| Compositor.Render | Nebulabrot.py:113-151 | from zeroed arrays, after loops passes: histograms = TotalHist, status Rendered iff no pass ran or the final maxima are positive, a Rendered buffer shows the scaled planes; with no pass the buffer is all zero |
| ColorSwap.SourceChannel | Color_Swap.py:13-21 | the source channel of every output slot is one of the three channels |
| ColorSwap.TargetSlot | Color_Swap.py:13-21 | every source channel has an output slot |
| ColorSwap.SlotsArePermutation | Color_Swap.py:17-21 | slot-to-channel is a bijection of {0, 1, 2} with TargetSlot as its inverse: no channel is dropped or duplicated |
| ColorSwap.SlotsDisagreeWithComments | Color_Swap.py:19-21 | slot 1 takes the red channel, not green, and slot 2 the green channel, not blue, contrary to the inline comments |
| ColorSwap.SampleLands | Color_Swap.py:17-21 | each source sample of the first size columns is copied unchanged to slot TargetSlot(ch) of its pixel, and no other slot of that pixel takes that channel |
| ColorSwap.SwappedCell | Color_Swap.py:10-21 | every cell of the zero-initialised buffer holds a source sample, so it is zero only where that sample is zero |
| ColorSwap.SwapRow | Color_Swap.py:18-21 | row i gets out[i][3j] = src[i][j][0], out[i][3j + 1] = src[i][j][2], out[i][3j + 2] = src[i][j][1]; other rows unchanged |
| ColorSwap.SwapChannels | Color_Swap.py:7-21 | a fresh size x 3*size buffer with size = the row count; succeeds iff the image has at least three channels and at least size columns, and then holds the remap |

## Left out

- PNG encoding and file writes are I/O through foreign libraries and are not modelled (Nebulabrot.py:153-163, Color_Swap.py:23-29). The same goes for the `cv2.imread` decode (Color_Swap.py:6).
- All `print` and `datetime` logging is left out, since it has no effect on the result. So is buddhabrot's reporting counter `i` (Nebulabrot.py:76, 81-82, 99), which only feeds a print.
- The random draw (Nebulabrot.py:17-18) is an input. `PassDraws` holds the three candidate sequences of each pass, in the order they are drawn. `DrawOk` requires each to have `samples` points in [-2, 2) x [-2, 2), which `random() * 4 - 2` guarantees.
- Floating point is replaced by exact reals. This covers the map, the escape test (on squares, with no square root) and the pixel mapping, which truncates toward zero.
- The cardioid test compares `abs(c)` against a boundary built with `exp` and `angle`. It is transcendental and is the parameter `outsideCardioid`.
- Compositor.ScaleCell: computes the exact floor of `v * 65535 / m`. The source computes `v / float(m) * 65535` in doubles and then truncates, so a cell whose exact value lies at or very near an integer may come out one apart there. A cell equal to the maximum gives exactly 65535 in both.
- Compositor.Normalise: when a maximum is zero it reports `DegenerateHistogram` and writes nothing, so the buffer keeps what the previous pass left there. The source instead computes 0 / 0.0 = NaN for every cell of that channel only and casts it to int, which numpy leaves platform-dependent. It still scales the other two channels and writes them, and the NaN casts, into their slots. The model does not state those writes.
- Compositor.Render: requires `size > 0` whenever a pass runs. With `size = 0` the source fails on the first pass (IndexError in `img_array[x, y] += 1`, or ValueError from `max()` of an empty array).
- Compositor.Render: records only whether the last pass rendered. Which channel was degenerate is stated by Compositor.Normalise but not carried into Render's postcondition.
- OrbitAccumulator.Buddhabrot: requires a ghost bound by which every parameter escapes, every parameter to lie in the sample square, and `size > 0` when there are parameters. The loop (Nebulabrot.py:80) runs forever only if some parameter never escapes, and the bound rules that case out. c_set's output meets the first two (EscapeFilter.NonMsetPointsEscape gives EscapesWithin and InSampleSquare). `size > 0` is a configuration value, which Compositor.Render requires whenever a pass runs.
- OrbitAccumulator.RecordRound: requires every live pixel to be inside the image. Numpy's wrap-around of negative indices, and IndexError for large ones, are proved unreachable from the sample square, so they are not modelled.
- ColorSwap.SwapChannels: when the image has fewer columns than rows, the source raises IndexError in row 0 after writing part of it. The model reports failure with the buffer untouched. A greyscale image, a 2-dimensional array, is not representable as the `array3` input.
- Integer width: numpy's int64 histograms are unbounded integers here. Compositor.TotalHistBound shows a cell never exceeds passes times bailout, far below 2^63 for the configured constants.
- The order-independence of merging partial histograms is not a property of this code. A round adds one per occupied pixel rather than one per orbit, so splitting a point set changes the result. It is not modelled, and neither is any parallelism.
- The configuration constants (Nebulabrot.py:107-111) are parameters of Compositor.Render.

## Code and comments

- The renderer interleaves blue, green, red in every pixel (Nebulabrot.py:143-147). The channel swap fills its slots from source channels 0, 2, 1, that is blue, red, green (Color_Swap.py:19-21). So the two scripts order the slots differently. The model keeps each script's own order (Compositor.Interleave, ColorSwap.SwapRow).
- c_set returns the escaped points grouped by escape iteration, each group in draw order (EscapeFilter.CSet).
- The channel-swap comments (Color_Swap.py:19-21) name the slots Red, Green, Blue. The code fills them from source channels 0, 2, 1 (blue, red, green in OpenCV order). The model follows the code (ColorSwap.SlotsDisagreeWithComments).
