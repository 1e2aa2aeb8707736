# Circle detection and fresco reconstruction, modelled in Dafny

This project models two small image-processing programs and proves properties
of the models.

**Hough circle detector** (`TP2/circle-detector.cpp`). A three-dimensional
voting space (row, column, radius) is stored flat in one vector.

- Every edge pixel whose gradient reaches half the maximum gradient votes. It
  votes for every centre whose distance to it lies in the radius band, into
  the bin given by that distance truncated to an integer.
- The strict local maxima of the voting space become candidate circles. Their
  coordinates are scaled back by the band's downscaling factor and their score
  is the cell value truncated.
- The candidates are sorted by decreasing score. They are drawn from the best
  down, stopping at the first one whose score is below a fixed fraction of the
  best: 0.7 in the optimized pipeline, 0.6 in the naive one.
- The optimized pipeline splits the radii into four bands. Band `i` runs at
  scale `2^i`.

**Fragment programs** (`TP1/check.cpp`, `TP1/reconstruction.cpp`).

- A scorer compares a user's placement of fresco fragments with the reference
  placement. Each correctly placed fragment earns its number of visible pixels
  (alpha above 128). Each fragment that is not part of the fresco costs that
  number.
- A reconstruction pastes every fragment onto a canvas. It clips the fragment
  to the canvas and copies only the visible pixels through a 0/1 mask. Later
  fragments cover earlier ones.

Files and modules:

| file | module | what it holds |
|---|---|---|
| `accumulator.dfy` | `Accumulators` | the voting space: flat address with its inverse, the `Accumulator` class and its fixed-size array, the local-maximum test, and the source's addressing and allocation as written |
| `voting.dfy` | `Voting` | integer square root, edge map, vote totals as functions, the four-loop voting pass |
| `extraction.dfy` | `Extraction` | the scan that records local maxima, and what the candidate list holds |
| `selection.dfy` | `Ranking` | the descending sort, the cutoff loop, and the best-score read as written |
| `detection.dfy` | `Detection` | one band, the radius bands, the optimized and naive pipelines |
| `pixels.dfy` | `Pixels` | bytes, four-channel pixels, the visibility test |
| `scoring.dfy` | `Scoring` | tolerance test, visible-pixel fold, loading of records, the score loop |
| `reconstruction.dfy` | `Reconstruction` | clipping, mask, masked copy, the fragment loop |

Modelling choices:

- **Distance.** The square root is replaced by squared distances. The band test
  `radiusMin <= sqrt(d2) < radiusMax` becomes `radiusMin² <= d2 < radiusMax²`.
  The bin `(int)sqrt(d2)` is `Isqrt(d2)`, the largest `s` with `s² <= d2`. The
  code truncates here; it does not round.
- **Vote weight.** The weight `gradient / radius` is an abstract function
  `Weight` of the gradient and the squared distance. Non-negativity is a precondition
  only where a lemma needs it.
- **Threshold.** `g < 0.5 * gmax` skips a pixel; it is written `2 * g < gmax`.
- **Cutoff.** `score < max * 0.7` is written `10 * score < 7 * max`.
- **Minimum radius.** `radius_max * 0.1` truncated is `radius_max / 10`.
- **Gradient map.** The gradient map and its maximum (`EdgeMap`) are inputs.
  For the optimized pipeline, one map per band is an input: the gradient of the
  image downscaled by `2^i`.
- **Fragment data.** The fragment images' alpha channels and the parsed solution
  records are inputs.

## Model

| member | source | states |
|---|---|---|
| `Accumulators.Address` | TP2/circle-detector.cpp:31-39 | with the column stride, the slot of every in-range (row, column, radius) lies in `[0, rows*columns*radii)` |
| `Accumulators.Locate` | TP2/circle-detector.cpp:31-39 | every slot of the storage is the address of some in-range cell |
| `Accumulators.LocateAddress` | TP2/circle-detector.cpp:31-39 | decoding the address of a cell gives back that cell (round trip) |
| `Accumulators.AddressInjective` | TP2/circle-detector.cpp:31-39 | two in-range cells share a slot if and only if they are the same cell |
| `Accumulators.Accumulator.constructor` | TP2/circle-detector.cpp:25-29 | a new accumulator has one slot per cell, and every cell is zero |
| `Accumulators.Accumulator.At` | TP2/circle-detector.cpp:36-39 | reading a cell gives the value stored at its address |
| `Accumulators.Accumulator.Add` | TP2/circle-detector.cpp:31-34 | `at(r, c, k) += v` raises that cell by `v` and leaves every other cell unchanged |
| `Accumulators.Accumulator.IsLocalMax` | TP2/circle-detector.cpp:41-63 | the early-exit triple loop returns true exactly when the cell is positive and strictly above every in-range neighbour within the distance on all three axes; out-of-range offsets are skipped |
| `Accumulators.NotLocalMaximum` | TP2/circle-detector.cpp:43-57 | a cell that is not positive is never a maximum, and neither is one with an in-range neighbour that is not below it |
| `Accumulators.PeakIsLocalMaximum` | TP2/circle-detector.cpp:41-63 | a lone positive cell is a local maximum at every neighbour distance |
| `Accumulators.DominatesAll` | TP2/circle-detector.cpp:45-62 | a positive cell found above every offset once the scan finishes is a local maximum, so the loop can return true |
| `Accumulators.SourceAddressSquare` | TP2/circle-detector.cpp:33 | on a square grid the source's row-stride formula equals the column-stride address |
| `Accumulators.SourceAddress` | TP2/circle-detector.cpp:33 | the source's slot of an in-range cell is the column-stride address shifted by `r * (rows - columns) * radii`, so the two agree on row 0 and on square grids only |
| `Accumulators.SourceAddressSoundIffSquare` | TP2/circle-detector.cpp:31-39 | with at least two rows, one column and one radius, the source's formula is in bounds and injective exactly when rows equal columns; otherwise two cells alias or a cell's slot falls beyond `rows*columns*radii` |
| `Accumulators.SourceStorageSufficientIff` | TP2/circle-detector.cpp:25-27 | the source's allocation holds every cell exactly when `rows*columns*radius_min >= radius_max` |
| `Accumulators.SourceStorageMissesLastCell` | TP2/circle-detector.cpp:26-33 | with `radius_min = 0`, the column-stride slot of the last cell is outside the source's allocation, and on a square or portrait grid so is the slot the source's own formula gives it |
| `Accumulators.LandscapeSlotsInsideStorage` | TP2/circle-detector.cpp:26-33 | on a landscape grid with at least two rows, every slot the source's formula gives stays inside the source's allocation: there the slots only alias |
| `Accumulators.LandscapeBound` | TP2/circle-detector.cpp:26-33 | the arithmetic bound behind it: with `2 <= rows < columns`, every row-stride slot is below `rows*columns*radius_max - radius_max` |
| `Accumulators.SourceStorage` | TP2/circle-detector.cpp:26 | the source allocates `rows*columns*radius_min - radius_max` slots more than there are cells, which is fewer when that amount is negative |
| `Voting.Isqrt` | TP2/circle-detector.cpp:273-275 | the bin is the square root truncated: `s² <= d2 < (s+1)²` |
| `Voting.EdgeMap.ThresholdTest` | TP2/circle-detector.cpp:252 | a pixel passes the threshold exactly when `g < gmax * 0.5` does not hold |
| `Voting.PixelVoteConditions` | TP2/circle-detector.cpp:252-275 | a pixel votes for a cell only if it passes the threshold, the centre's distance passes the band test and the radius bin is that distance truncated; when all three hold it votes its weight |
| `Voting.IsqrtInBand` | TP2/circle-detector.cpp:273-275 | a distance that passes the band test falls into a radius bin of the voting space |
| `Voting.DiscInBox` | TP2/circle-detector.cpp:255-269 | every centre closer than `radius_max` to the pixel lies inside the scanned box, so the box loses no vote |
| `Voting.CastPixelVotes` | TP2/circle-detector.cpp:255-277 | scanning the clamped box adds exactly the pixel's vote to every cell, and nothing to cells it does not vote for |
| `Voting.CastCentreRow` | TP2/circle-detector.cpp:269-276 | the column loop adds exactly the pixel's vote to the centres `(r, c)` with `c` in the clamped range, and nothing to any other cell |
| `Voting.CastVotes` | TP2/circle-detector.cpp:248-278 | after the pass, every cell has grown by its total vote over all pixels |
| `Voting.VoteTotalsCell` | TP2/circle-detector.cpp:244-278 | the voting space after a pass holds, cell by cell, the total vote of that cell |
| `Voting.SilentPixelNoVote` | TP2/circle-detector.cpp:252-253 | a pixel below the threshold, or one with zero weight, adds nothing to any cell |
| `Voting.SilentMapNoVotes` | TP2/circle-detector.cpp:248-278 | a map whose every pixel is silent leaves every cell at zero |
| `Voting.SilentRowNoVotes` | TP2/circle-detector.cpp:250-278 | one row of silent pixels adds nothing to any cell |
| `Voting.LonePixelGridVote` | TP2/circle-detector.cpp:248-278 | when every pixel but one is silent, each cell's total is that one pixel's vote once its row is processed, and zero before |
| `Voting.LonePixelRowVote` | TP2/circle-detector.cpp:250-277 | when every pixel but one is silent, a row adds that pixel's vote if it holds the pixel and nothing otherwise |
| `Voting.RowVoteNonNegative` | TP2/circle-detector.cpp:275 | with non-negative weights the votes of a row are non-negative |
| `Voting.GridVoteMonotone` | TP2/circle-detector.cpp:248-278 | with non-negative weights every cell's running total only grows as rows are processed |
| `Extraction.Extract` | TP2/circle-detector.cpp:285-295 | the triple scan returns the candidates of the local maxima in row, column, radius order, each scaled and with the truncated cell value as score |
| `Extraction.Recorded` | TP2/circle-detector.cpp:292 | the recorded candidate divided by the scale gives back the cell, and its score is the non-negative cell value truncated |
| `Extraction.ExtractRadii` | TP2/circle-detector.cpp:289-292 | the radius loop appends exactly the candidates of the local maxima of cell column `(r, c)`, in radius order |
| `Extraction.RadiusSound` | TP2/circle-detector.cpp:289-292 | a candidate recorded over radii below `k` comes from a local maximum at one of them |
| `Extraction.RadiusComplete` | TP2/circle-detector.cpp:289-292 | every local maximum at a radius below `k` is recorded |
| `Extraction.ColumnSound` | TP2/circle-detector.cpp:287-294 | a candidate recorded over columns below `n` comes from a local maximum in one of them |
| `Extraction.ColumnComplete` | TP2/circle-detector.cpp:287-294 | every local maximum in a column below `n` is recorded |
| `Extraction.RowSound` | TP2/circle-detector.cpp:285-295 | a candidate recorded over rows below `n` is in the column list of one of those rows |
| `Extraction.RowComplete` | TP2/circle-detector.cpp:285-295 | every local maximum in a row below `n` is recorded |
| `Extraction.MaximaMembers` | TP2/circle-detector.cpp:285-295 | a candidate is in the list if and only if it was recorded for some local maximum |
| `Extraction.MaximumRecorded` | TP2/circle-detector.cpp:285-295 | the candidate of every local maximum of the voting space is in the list |
| `Extraction.MaximaInScaledSpace` | TP2/circle-detector.cpp:292 | every candidate is `(r*s, c*s, k*s)` for an in-range cell, and its score is not negative |
| `Extraction.RadiusWithoutMaxima` | TP2/circle-detector.cpp:289-292 | when no cell of the voting space is positive, the radii of a cell column record nothing |
| `Extraction.ColumnWithoutMaxima` | TP2/circle-detector.cpp:287-294 | when no cell of the voting space is positive, the columns of a row record nothing |
| `Extraction.RowWithoutMaxima` | TP2/circle-detector.cpp:285-295 | when no cell of the voting space is positive, the rows record nothing |
| `Extraction.NoPositiveCellNoMaxima` | TP2/circle-detector.cpp:285-295 | a voting space with no positive cell yields no candidate |
| `Ranking.Insert` | TP2/circle-detector.cpp:207-209 | inserting into a descending list keeps it descending and adds exactly that element |
| `Ranking.ConsDescending` | TP2/circle-detector.cpp:207-209 | putting an element first that is not below the old head keeps the list descending |
| `Ranking.SortByScore` | TP2/circle-detector.cpp:207-209 | the sorted list is descending by score and a permutation of the candidates |
| `Ranking.MaxScore` | TP2/circle-detector.cpp:211 | the best score is the score of some candidate and no candidate's score is above it |
| `Ranking.HeadIsMax` | TP2/circle-detector.cpp:207-211 | after the sort, the first score is the best score |
| `Ranking.RejectedBelow` | TP2/circle-detector.cpp:213-216 | once a sorted candidate is below the cutoff, so is every later one, so stopping there loses nothing |
| `Ranking.AcceptedAbove` | TP2/circle-detector.cpp:213-216 | every sorted candidate before an accepted one is accepted too |
| `Ranking.CutoffSelection` | TP2/circle-detector.cpp:211-219 | stopping a descending arrangement at its first candidate below the cutoff, or at its end, draws exactly the accepted candidates |
| `Ranking.PrefixSelection` | TP2/circle-detector.cpp:213-219 | the accepted prefix of the sorted list holds every accepted candidate as often as the input and nothing else |
| `Ranking.Select` | TP2/circle-detector.cpp:207-219 | the cutoff loop draws the longest prefix of the sorted list that reaches the cutoff; this is exactly the accepted candidates, descending; an empty list draws nothing |
| `Ranking.SourceTopScore` | TP2/circle-detector.cpp:211 | the first sorted score the source reads bounds every score and equals `MaxScore` of the list, but it exists only when a candidate was found |
| `Ranking.BestIsDrawn` | TP2/circle-detector.cpp:211-219 | with a fraction at most one and non-negative scores, the first drawn circle has the best score |
| `Ranking.DrawnIffAccepted` | TP2/circle-detector.cpp:213-219 | a candidate is drawn if and only if it is in the list and reaches the cutoff |
| `Ranking.SelectionsAgree` | TP2/circle-detector.cpp:207-219 | whichever order the sort leaves equal scores in, the drawn circles are the same multiset and the same count |
| `Detection.MaxRadius` | TP2/circle-detector.cpp:193 | the largest radius is half the smaller side, truncated |
| `Detection.Downscaled` | TP2/circle-detector.cpp:202 | a side halved `i` times, truncated, and scaled back fits in the original side |
| `Detection.Pow2` | TP2/circle-detector.cpp:202-203 | the scale `2^i` is at least 1, so every division by it is defined |
| `Detection.DownscaledHalves` | TP2/circle-detector.cpp:199-203 | sizing band `i+1` directly from the original side gives half of band `i`'s size, truncated, as repeated halving would |
| `Detection.MinRadius` | TP2/circle-detector.cpp:137 | the smallest radius is `radius_max * 0.1` truncated, that is `10*r <= radius_max < 10*r + 10` |
| `Detection.BandLow` | TP2/circle-detector.cpp:197-203 | band 0 starts at the smallest radius and band `i > 0` at `i * radius_max / 4` truncated; no band starts after its end |
| `Detection.BandHigh` | TP2/circle-detector.cpp:197-203 | band `i` ends at `(i+1) * radius_max / 4` truncated |
| `Detection.TierShape` | TP2/circle-detector.cpp:225-226 | a band's voting space has the map's grid and the bounds divided by the scale, and stays well formed |
| `Detection.DetectTier` | TP2/circle-detector.cpp:223-295 | one band appends exactly the candidates of the local maxima of its vote totals |
| `Detection.TierCandidateBounds` | TP2/circle-detector.cpp:291-292 | a band's candidates lie on its grid scaled back, below its upper radius, with non-negative score |
| `Detection.DivMonotone` | TP2/circle-detector.cpp:225-226 | dividing ordered bounds by the same scale keeps them ordered |
| `Detection.BandsOrdered` | TP2/circle-detector.cpp:197-203 | every band is ordered; band `i` ends where band `i+1` starts; the last band ends at the largest radius |
| `Detection.BandsBefore` | TP2/circle-detector.cpp:197-203 | an earlier band ends no later than any later band starts |
| `Detection.BandsPartition` | TP2/circle-detector.cpp:194-203 | every radius from the minimum up to the largest lies in exactly one band |
| `Detection.OptimizedDetection` | TP2/circle-detector.cpp:191-219 | four bands, each on its own downscaled map (line 203 corrected; see Findings), then the 0.7 cutoff over all their candidates |
| `Detection.TierStart` | TP2/circle-detector.cpp:197 | the first call, from the smallest radius to `radius_max / 4` on the full-resolution map at scale 1, is band 0 and its bounds are ordered |
| `Detection.RunTier` | TP2/circle-detector.cpp:200-204 | one pass of the band loop appends exactly band `i`'s candidates, voted on the downscaled map (line 203 corrected; see Findings) |
| `Detection.TierStep` | TP2/circle-detector.cpp:202-203 | the bounds `i * radius_max / 4` and `(i+1) * radius_max / 4` the source passes are band `i`'s, they are ordered, and the map has the downscaled size (line 203 corrected; see Findings) |
| `Detection.TiersInsideImage` | TP2/circle-detector.cpp:197-203 | every candidate of the bands is centred inside the image and has a radius below the largest |
| `Detection.TierInsideImage` | TP2/circle-detector.cpp:202-203 | the candidates of one downscaled band scale back to inside the image |
| `Detection.SourceTier` | TP2/circle-detector.cpp:203 | a band run on the full-resolution map but scaled by `2^i` reports centres anywhere on the image grid scaled by `2^i`, not only inside the image |
| `Detection.OptimizedDrawsInsideImage` | TP2/circle-detector.cpp:207-219 | every circle the optimized pipeline draws is centred inside the image |
| `Detection.FullResolutionBandCanLeaveImage` | TP2/circle-detector.cpp:193-203 | on a square image of side 64 to 79 with a single edge pixel in the bottom-left corner, and any weight that is positive and falls with distance, band 1 as the source runs it reports a circle of radius 8 centred on row `2*(side-1)`, outside the image; the vote behind it is cast at distance 4 |
| `Detection.BandOneSourceSound` | TP2/circle-detector.cpp:25-39 | on that band the source's slot formula is injective and in bounds and its allocation holds every cell, so the witness does not rest on either storage defect |
| `Detection.BandOneShape` | TP2/circle-detector.cpp:193-226 | band 1 of such an image searches the radius bins from 4 up to 8 or 9 on the full grid |
| `Detection.LonePixelCandidate` | TP2/circle-detector.cpp:285-295 | the lone pixel's band from bin 4, scaled back by 2, reports the cell four columns to the pixel's right at radius 4 |
| `Detection.LonePixelMaximum` | TP2/circle-detector.cpp:291-292 | that cell holds the vote `w(1, 16)` and is a strict local maximum |
| `Detection.WitnessCell` | TP2/circle-detector.cpp:255-275 | the cell's total is the lone pixel's vote at squared distance 16 |
| `Detection.NeighborCellBelow` | TP2/circle-detector.cpp:291 | every neighbour of that cell holds less than `w(1, 16)` |
| `Detection.NeighborVoteBelow` | TP2/circle-detector.cpp:255-275 | a pixel of strength 1 at `(rows-1, 0)` votes less than `w(1, 16)` for every neighbour of the witness cell: nothing, or a vote cast from further away |
| `Detection.NeighborFurther` | TP2/circle-detector.cpp:271-275 | a neighbour whose distance from that pixel falls in its own radius bin lies further than 4 from it |
| `Detection.WitnessVote` | TP2/circle-detector.cpp:252-275 | a pixel of strength 1 in the bottom-left corner that passes the threshold votes `w(1, 16)` for the cell four columns to its right at radius 4 |
| `Detection.FurtherThanSixteen` | TP2/circle-detector.cpp:271-275 | a neighbour whose squared distance lands in a bin from 4 up lies further than 4 from the pixel, unless it is the cell itself |
| `Detection.LonePixelCell` | TP2/circle-detector.cpp:248-278 | on a map with one edge pixel, each cell's total is that pixel's vote |
| `Detection.IsqrtExact` | TP2/circle-detector.cpp:273-275 | the integer radius is the one root that brackets the squared distance |
| `Detection.InverseSquareFalls` | TP2/circle-detector.cpp:275 | strength over squared distance is one weight that is positive and falls with distance |
| `Detection.LonePixel` | TP2/circle-detector.cpp:248-278 | the single-pixel map fits the image |
| `Detection.NaiveDetection` | TP2/circle-detector.cpp:136-155 | one band from a tenth of the largest radius up to it, at full resolution, then the 0.6 cutoff |
| `Detection.NaiveDrawsInsideImage` | TP2/circle-detector.cpp:136-155 | every circle the naive pipeline draws is centred inside the image |
| `Detection.SilentTierFindsNothing` | TP2/circle-detector.cpp:223-295 | a band whose map has only silent pixels finds no candidate |
| `Detection.SilentTiersFindNothing` | TP2/circle-detector.cpp:197-211 | when every band's map has only silent pixels, the bands together find no candidate |
| `Detection.BlankImageFindsNothing` | TP2/circle-detector.cpp:136-147 | on a uniform image, with a weight that is zero at zero gradient, neither the naive nor the optimized pipeline finds a candidate, so the list the best score is read from is empty |
| `Scoring.CorrectPositionSymmetric` | TP1/check.cpp:46-51 | the tolerance test is symmetric in the two positions |
| `Scoring.CorrectPositionReflexive` | TP1/check.cpp:46-51 | a position is correct against itself exactly when all tolerances are non-negative |
| `Scoring.HasCorrectPosition` | TP1/check.cpp:46-51 | a position is correct exactly when the differences in x, y and angle each lie within their tolerance on both sides |
| `Scoring.DefaultToleranceScoresReferenceFull` | TP1/check.cpp:14-16 | with the default tolerances, handing in the reference earns exactly the reference total |
| `Scoring.VisiblePixels` | TP1/check.cpp:36-40 | the fold counts at most one per alpha value |
| `Scoring.VisiblePixelsCountsIndices` | TP1/check.cpp:36-40 | the fold equals the number of positions whose alpha is above 128 |
| `Scoring.Load` | TP1/check.cpp:79-91 | after reading the records, each fragment's slot holds the position of the last record naming it, or nothing |
| `Scoring.LastWriteWins` | TP1/check.cpp:82-83 | the last record naming a fragment decides its slot |
| `Scoring.LastWriteFrom` | TP1/check.cpp:82-83 | a slot stays empty exactly when no record names the fragment; a filled slot comes from a record naming it |
| `Scoring.LastWrite` | TP1/check.cpp:82-83 | a filled slot holds the position of a record naming that fragment |
| `Scoring.Score` | TP1/check.cpp:93-108 | the loop computes the reference total of placed fragments' visible pixels and the user total of gains and penalties |
| `Scoring.Solution` | TP1/check.cpp:79-90 | a loaded solution has one slot per fragment |
| `Scoring.Check` | TP1/check.cpp:79-108 | loading both solutions and scoring them gives the totals of the last-write-wins solutions |
| `Scoring.UserScoreAtMostReference` | TP1/check.cpp:100-107 | the reference total is not negative and the user total never exceeds it |
| `Scoring.ReferenceScoresFull` | TP1/check.cpp:93-108 | handing in the reference with non-negative tolerances earns exactly the reference total |
| `Scoring.SpuriousFragmentCosts` | TP1/check.cpp:106-107 | placing a fragment the reference lacks lowers the user total by exactly its visible pixels |
| `Scoring.UnaffectedBelow` | TP1/check.cpp:95-108 | changing the user's slot `k` leaves the total over fragments below `k` unchanged |
| `Scoring.AbsentFragmentIsNeutral` | TP1/check.cpp:95-108 | for a fragment neither solution places, replacing its alpha channel by any other leaves both the reference total and the user total unchanged |
| `Reconstruction.ClipFragment` | TP1/reconstruction.cpp:52-68 | the clipping steps give the footprint cut to the canvas, and the same rectangle in the fragment's coordinates |
| `Reconstruction.Footprint` | TP1/reconstruction.cpp:53-54 | the fragment's rectangle has the fragment's size and puts its pixel `(rows/2, columns/2)` on `(y, x)` |
| `Reconstruction.Intersection` | TP1/reconstruction.cpp:55-68 | a pixel is in the intersection exactly when it is in both rectangles |
| `Reconstruction.Clip` | TP1/reconstruction.cpp:52-68 | the destination holds exactly the footprint pixels on the canvas, and the source is the destination shifted into the fragment's coordinates |
| `Reconstruction.ClipBounds` | TP1/reconstruction.cpp:52-70 | the destination lies inside the canvas, the source inside the fragment, and both have the same size |
| `Reconstruction.NoClipInside` | TP1/reconstruction.cpp:53-56 | a fragment fully on the canvas is placed at `(x - cols/2, y - rows/2)`, unclipped, with zero source offsets |
| `Reconstruction.ClipSizes` | TP1/reconstruction.cpp:55-69 | the sizes are non-negative exactly when the fragment touches the canvas, and positive exactly when it overlaps it |
| `Reconstruction.ClipRegions` | TP1/reconstruction.cpp:69-70 | for a fragment touching the canvas, both rectangles are valid regions of their images |
| `Reconstruction.MaskBit` | TP1/reconstruction.cpp:73-75 | the mask byte is 1 exactly when alpha is above 128, and 0 otherwise |
| `Reconstruction.AlphaMask` | TP1/reconstruction.cpp:72 | the mask starts as the alpha channel of the source region |
| `Reconstruction.ThresholdMask` | TP1/reconstruction.cpp:73-75 | every mask byte is replaced by its mask bit, in place |
| `Reconstruction.CopyMasked` | TP1/reconstruction.cpp:76 | exactly the canvas pixels inside the destination whose mask byte is not zero take the matching fragment pixel; all other pixels are unchanged |
| `Reconstruction.PasteFragment` | TP1/reconstruction.cpp:52-76 | after one fragment, a canvas pixel shows the fragment's pixel where the footprint covers it with a visible pixel, and is unchanged elsewhere |
| `Reconstruction.Reconstruct` | TP1/reconstruction.cpp:50-77 | after the loop every canvas pixel is the composite of the fragments pasted in list order |
| `Reconstruction.LaterFragmentWins` | TP1/reconstruction.cpp:50-77 | where the last fragment shows a visible pixel, the canvas shows it, whatever came before |
| `Reconstruction.UncoveredPixelUnchanged` | TP1/reconstruction.cpp:50-77 | a pixel no fragment shows a visible pixel at keeps its original value |

## Left out

- Image decoding, display and drawing (`imread`, `imshow`, `waitKey`, `cv::circle`) are I/O. A drawn circle is an element of the list `Select` returns, and `nb_circle` is the length of that list.
- Greyscale conversion, Gaussian blur, Sobel gradients, `convertScaleAbs`, `addWeighted` and `minMaxLoc` are library calls. The gradient map and its maximum are inputs.
- `cv::resize` is library resampling. The downscaled maps are inputs of `OptimizedDetection`.
- Floating point is not modelled. The vote weight `gradient / radius` is the abstract `Weight`, so the division by zero at distance 0 when `radius_min` is 0 is not modelled. The constants 0.1, 0.5, 0.6 and 0.7 are exact rationals, with no double rounding next to exact ties.
- `Voting.GridVoteMonotone`: proved for non-negative weights only, because the weight is abstract.
- Fixed-width integers are not modelled. Addresses, scores and totals are unbounded integers, so `int` overflow on huge images and the undefined `std::abs(INT_MIN)` are outside the model.
- The order `std::sort` leaves equal scores in is unspecified. `Ranking.SortByScore` fixes one order. `Ranking.SelectionsAgree` shows the drawn circles do not depend on it.
- The fragment rotation (`getRotationMatrix2D`, `warpAffine`) is floating-point geometry. Fragment images are given already rotated.
- The veil blend of the canvas (`addWeighted`) is a library call. The canvas is given.
- File and command-line parsing (`ifstream >>`, path building, `atoi`, `atof`) is not modelled. Records, tolerances and alpha channels are inputs.
- The final percentage `accuracy` is a floating-point division and is not modelled.
- Timing and console output are not modelled.
- `Scoring.Load`: requires every record index to be in `[0, 328)`. The source writes out of bounds otherwise.
- `Reconstruction.PasteFragment`: requires the fragment to touch the canvas, so that the clipped sizes are not negative. OpenCV rejects a rectangle with a negative size, and the source does not check.
- `Reconstruction.Reconstruct`: requires every fragment to touch the canvas, for the same reason, since it pastes each one with `PasteFragment`.

## Findings

| source | as written | input that shows it | evidently intended | confidence | as-written member | corrected member |
|---|---|---|---|---|---|---|
| TP2/circle-detector.cpp:33 | the row stride is `m_rows * m_radiuses` (function `SourceAddress`) | rows 2, columns 3: cells (1, 0, rmin) and (0, 2, rmin) share slot `2 * radii`; with more rows than columns the last cell's slot is past `rows*columns*radii` (rows 3, columns 2, one radius from 1: slot 7 of 6 cells, inside the 10-slot vector); on a landscape grid with two rows or more the slots alias but stay inside the vector (`Accumulators.LandscapeSlotsInsideStorage`) | row stride `m_columns * m_radiuses` | not executed | `Accumulators.SourceAddressSoundIffSquare` | `Accumulators.AddressInjective` |
| TP2/circle-detector.cpp:26 | the vector has `rows*columns*radius_max - radius_max` slots (function `SourceStorage`), one radius-row too few for the cells when `radius_min` is 0 | a 10×10 image run naively: radii [0, 5), a 495-slot vector, and the last cell's slot is 499 | `rows*columns*(radius_max - radius_min)` slots | not executed | `Accumulators.SourceStorageMissesLastCell` | `Accumulators.Accumulator.constructor` |
| TP2/circle-detector.cpp:203 | every downscaled band votes on `grayscale_image`, yet scales its maxima by `2^i` (function `SourceTier`) | a square image of side 64 to 79 whose single edge pixel is in the bottom-left corner: band 1 votes at distance 4 and reports a circle of radius 8 on row `2 * (side - 1) >= side` | vote on `downscaled_image` | not executed | `Detection.FullResolutionBandCanLeaveImage` | `Detection.TiersInsideImage` |
| TP2/circle-detector.cpp:147 | `local_maximums[0]` is read without checking that a candidate was found (function `SourceTopScore`); the optimized pipeline does the same at line 211 | a uniform image: every vote is zero in both pipelines, so no candidate is found | draw nothing when the list is empty | not executed | `Detection.BlankImageFindsNothing` | `Ranking.Select` |
