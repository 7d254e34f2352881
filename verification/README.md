# Answer-sheet bubble and marker detection — a Dafny model

This project models the detection core of an optical answer-sheet reader
(`read0130.py`). The reader has two detectors, and each one runs on one
operator-selected region of a scanned sheet:

- **`detect_bubbles`** finds the answer bubbles in a region. It keeps a
  contour only if it passes four tests:
  - its area is at least 60 and its perimeter is non-zero;
  - its circularity `4·pi·area / perimeter²` lies strictly between 0.4 and 1.6;
  - its bounding box's width-to-height ratio lies strictly between 0.7 and 1.3;
  - its enclosing circle's radius lies strictly between 8 and 40.

  Each kept contour becomes an integer triple `[cx, cy, r]`, with every
  value truncated. The triples are then put in reading order: first the
  column left of the region's horizontal midpoint, then the right column.
  Each column is stably sorted by `cy`.
- **`detect_corner_markers`** keeps the contours whose area exceeds 100 and
  whose polygon approximates to exactly 4 vertices. It returns those polygons
  in the order the contours were found.

The pixel work (grey conversion, blur, thresholds, morphology, contour
extraction) and the contour-geometry primitives are OpenCV calls. The model
does not include them. Each contour enters the model as a record of the
measurements those primitives produce:

- `Sheet.BubbleContour` holds the area, the perimeter, the bounding-box
  width and height, and the enclosing circle's centre and radius.
- `Sheet.MarkerContour` holds the area and the approximated polygon.

A region enters the model only as its shape (`Sheet.Region`). Its numpy
`size` is rows × cols × 3.

Modules:

- `Sheet` (sheet.dfy) holds the data model. It also defines truncation
  toward zero (`Trunc`) and the double value of pi as an exact rational.
- `Candidates` (candidates.dfy) holds the per-contour tests, the candidate
  loop (as a function and as a loop method), and the division-by-zero error
  path.
- `ColumnOrder` (column_order.dfy) splits the bubbles into two columns,
  stably sorts each by y (an insertion sort), and concatenates them. It also
  states the reading order without naming any sort (`CanonicalOrder`) and
  proves that exactly one sequence meets it.
- `BubbleDetector` (bubble_detector.dfy) composes these steps into
  `detect_bubbles`.
- `MarkerDetector` (marker_detector.dfy) models `detect_corner_markers`.

Modelling decisions:

- Python's `int()` truncates toward zero, and so does `Sheet.Trunc`.
- For an integer `cx` and an integer width, the midpoint test
  `cx < width * 0.5` is exactly `2 * cx < width`.
- `float(w) / h` raises `ZeroDivisionError` when `h == 0`. The model turns
  this into `Err(ZeroDivision(i))`, where `i` is the first contour that
  reaches the aspect-ratio test with a zero box height. OpenCV's bounding
  rectangles always have a positive height, and
  `Candidates.NoFailureWithPositiveBoxes` shows that with such inputs no
  error occurs.

Constants and conversions, as the code has them:

- The radius band is 8 < r < 40. The comment at read0130.py:52 says 8–30,
  but the test at line 53 uses 40.
- The area floor is 60 (read0130.py:40).
- The centre and radius are truncated by `int()`, not rounded
  (read0130.py:54).
- The marker detector's global threshold at 127 (read0130.py:74) belongs
  to the pixel pipeline, which the model does not include.

## Model

| member | source | states |
|---|---|---|
| `Sheet.Trunc` | read0130.py:54 | `int()` of a non-negative value is the greatest integer not above it; of a negative value, the least integer not below it (truncation toward zero) |
| `Candidates.Classify` | read0130.py:37-54 | an accepted contour's integer radius lies in 8..39, because it truncates a radius strictly between 8 and 40 |
| `Candidates.AspectBand` | read0130.py:46-50 | with a positive box height, `0.7 < w/h < 1.3` holds exactly when `0.7·h < w < 1.3·h` |
| `Candidates.ClassifyAcceptsExactly` | read0130.py:38-54 | a contour becomes a bubble exactly when all four tests hold (area ≥ 60, perimeter ≠ 0, circularity in (0.4, 1.6), aspect in (0.7, 1.3), radius in (8, 40)); the bubble is its truncated enclosing circle; the division by zero happens exactly when a contour passes the noise test with zero box height |
| `Candidates.Collect` | read0130.py:35-54 | a successful pass yields no more candidates than contours, and every candidate's radius lies in 8..39 |
| `Candidates.AcceptedIndicesIncrease` | read0130.py:37-54 | the positions of the accepted contours are in range and strictly increasing |
| `Candidates.AcceptedIndicesCover` | read0130.py:37-54 | every accepted contour's position is among them |
| `Candidates.AcceptedIndicesMatch` | read0130.py:37-54 | the j-th candidate is the bubble of the contour at the j-th accepted position |
| `Candidates.CollectSelectsInOrder` | read0130.py:37-54 | the candidates are exactly the bubbles of the accepted contours, in discovery order, each exactly once |
| `Candidates.CandidatesComeFromContours` | read0130.py:51-54 | every candidate is the bubble of some accepted contour |
| `Candidates.CollectFailsAtFirstZeroDivision` | read0130.py:40-47 | the pass fails exactly when some contour reaches `w / h` with h = 0, and it reports the first such contour |
| `Candidates.CollectErrPersists` | read0130.py:37-47 | once the pass has failed on a prefix of the contours, the whole pass fails with the same error |
| `Candidates.CollectCandidates` | read0130.py:35-54 | the loop (append on acceptance, stop at the division by zero) computes the declarative candidate list |
| `Candidates.NoFailureWithPositiveBoxes` | read0130.py:46-47 | when every bounding box has positive height, the pass succeeds |
| `ColumnOrder.Column` | read0130.py:61-62 | every bubble of the left column satisfies `cx < width/2`, and every bubble of the right column does not |
| `ColumnOrder.ColumnOfConcat` | read0130.py:61-62 | the column of a concatenation is the concatenation of the columns, so a column never reorders its input |
| `ColumnOrder.ColumnKeepsOrder` | read0130.py:61-62 | each column is the in-order subsequence of exactly the bubbles on its side: the j-th column entry is the bubble at the j-th of strictly increasing positions, and every bubble on that side has its position listed |
| `ColumnOrder.ColumnsSplitInput` | read0130.py:61-62 | the two columns together hold every bubble exactly as often as the input does |
| `ColumnOrder.ColumnSizes` | read0130.py:61-62 | the column sizes add up to the number of bubbles |
| `ColumnOrder.Insert` | read0130.py:65-66 | inserting a bubble adds exactly that bubble |
| `ColumnOrder.SortByY` | read0130.py:65-66 | the y-sort is a permutation of its input |
| `ColumnOrder.InsertKeepsSorted` | read0130.py:65-66 | inserting into a y-ascending list keeps it y-ascending |
| `ColumnOrder.InsertAtHeight` | read0130.py:65-66 | an inserted bubble goes in front of the bubbles at its own height and leaves other heights unchanged |
| `ColumnOrder.SortByYSorted` | read0130.py:65-66 | the sorted column ascends in `cy` |
| `ColumnOrder.SortByYKeepsTies` | read0130.py:65-66 | bubbles with equal `cy` keep their input order (stability) |
| `ColumnOrder.SortByYKeepsSide` | read0130.py:61-66 | sorting a column keeps every bubble on that column's side |
| `ColumnOrder.StableSortUnique` | read0130.py:65-66 | two y-ascending lists with the same bubbles, in the same order, at every height are equal: a stable sort has one result |
| `ColumnOrder.SortByYSortsStably` | read0130.py:65-66 | the insertion sort is ascending in y and keeps the order at every height |
| `ColumnOrder.OnlyStableSort` | read0130.py:65-66 | any y-ascending list that keeps the order at every height is the insertion sort's result |
| `ColumnOrder.SortByYIsTheStableSort` | read0130.py:65-66 | a list is the insertion sort's result exactly when it is a stable sort of the input on y |
| `ColumnOrder.OrderColumnsMeetsCanonical` | read0130.py:61-68 | the computed order is the left column stably sorted on y, then the right column stably sorted on y |
| `ColumnOrder.CanonicalIsOrderColumns` | read0130.py:61-68 | any sequence in that reading order is the computed one |
| `ColumnOrder.OrderColumnsIsCanonical` | read0130.py:61-68 | a sequence is the detector's ordering exactly when it is in that reading order |
| `ColumnOrder.OrderColumns` | read0130.py:61-68 | ordering neither drops, duplicates nor invents a bubble: the result is a permutation of the candidates, of the same length |
| `ColumnOrder.OrderColumnsMembers` | read0130.py:61-68 | every ordered bubble is one of the candidates |
| `ColumnOrder.OrderColumnsGroupsColumns` | read0130.py:61-68 | every bubble before position n (the left column's size) has `cx < width/2`, and every bubble from n on has `cx >= width/2` |
| `BubbleDetector.DetectBubbles` | read0130.py:15-68 | a zero-size region yields no bubbles and no error; a pass that accepts nothing yields no bubbles; there are never more bubbles than contours; on a non-empty region a successful answer holds exactly one bubble per accepted contour |
| `BubbleDetector.DetectBubblesInReadingOrder` | read0130.py:57-68 | on a non-empty region whose contours raise nothing, the detector answers, and its answer is the candidates in reading order: the left column stably sorted on y, then the right column stably sorted on y |
| `BubbleDetector.OnlyReadingOrder` | read0130.py:57-68 | any sequence in that reading order is the detector's answer, so the answer is the only one |
| `BubbleDetector.DetectBubblesFailsOnZeroHeight` | read0130.py:40-47 | on a non-empty region the detector fails exactly when some contour reaches the aspect test with zero box height, and it names the first |
| `BubbleDetector.DetectBubblesReportsAcceptedContours` | read0130.py:37-68 | every returned bubble is the truncated enclosing circle of some accepted contour, and its radius lies in 8..39 |
| `MarkerDetector.SelectMarkers` | read0130.py:76-83 | every marker has exactly 4 points, and there are no more markers than contours |
| `MarkerDetector.MarkerIndicesIncrease` | read0130.py:77-83 | the positions of the kept contours are in range and strictly increasing |
| `MarkerDetector.MarkerIndicesCover` | read0130.py:77-83 | every contour with area > 100 and 4 vertices is kept |
| `MarkerDetector.MarkerIndicesMatch` | read0130.py:77-83 | the j-th marker is the polygon of the j-th kept contour, which has area > 100 and 4 vertices |
| `MarkerDetector.SelectMarkersKeepsOrder` | read0130.py:76-83 | the markers are the polygons of exactly the contours with area > 100 and 4 vertices, in discovery order, with no sorting or deduplication |
| `MarkerDetector.DetectCornerMarkers` | read0130.py:70-83 | a zero-size region yields no markers; every marker has 4 points; there are never more markers than contours |
| `MarkerDetector.FindSquares` | read0130.py:76-83 | the loop (area test, then vertex count, then append) computes the declarative marker list |

## Left out

- The OpenCV image pipeline (read0130.py:18-34, 73-75) is left out. It covers grey conversion, Gaussian blur, adaptive and global thresholds, morphological close and dilate, and `findContours`. These are foreign calls on pixel buffers, so their result enters the model as the given contour sequence.
- The contour primitives `contourArea`, `arcLength`, `boundingRect`, `minEnclosingCircle` and `approxPolyDP` are left out. They are foreign calls, so their results are fields of the contour records.
- Floating point is not modelled. Area, perimeter, centre and radius are exact reals. The constants 0.4, 1.6, 0.7 and 1.3 are exact decimals, not their nearest doubles. pi is the exact rational value of the double `np.pi`. Rounding in `4·pi·area / perimeter²` and `w / h` is not modelled.
- Candidates.LooksLikeBubble states the circularity band over the quotient `4·pi·area / perimeter²`, not multiplied out by the squared perimeter. The solver could not prove the multiplied-out form.
- `draw_results` (read0130.py:85-100) is left out because it only draws.
- The Streamlit interface, its session state, and the rescaling and cropping of the preview (read0130.py:104-160) are left out. They are UI plumbing. The crop offset is never seen by the detectors.
- Idempotence needs no lemma. Both detectors are pure functions of their inputs, so running one twice on the same input gives the same output.
