# cmpgpx in Dafny

A verified model of the core of cmpgpx, a tool that compares two GPS tracks.
It models three pieces of the tool:

- **Track alignment** (`cmpgpx.py`, module `Cmpgpx`). `align_tracks` is
  Needleman-Wunsch global alignment over waypoints. The model has the
  following parts:
  - `ScoreMatrix` fills the f-matrix (an `array2<real>`) in place, with the
    same loops as the source: first column, first row, then the inner cells
    row by row.
  - `Backtrack` walks back from the last cell. Each step prepends a matched
    pair, a point against a gap (`None`) or a gap against a point, trying
    the tests in that order.
  - `AlignTracks` does both.
  - `Score` is the recurrence the matrix holds.
  - `Backtrace` is the reference definition of the walk, over any table
    that obeys the recurrence.
  - The lemmas say what the walk produces. It is an alignment of the two
    tracks without their first points. Its score is the matrix corner. No
    alignment scores higher. Among the optimal alignments, it is the one
    the diagonal > delete > insert tie-break prefers. Because the first
    points are never emitted, its length lies between max(n-1, m-1) and
    n+m-2 for tracks of n and m points.
  - `MatchRatio` is the counting loop that prints the "Track Similarity"
    figure, and `MapBounds`/`Union` is the map extent that main computes.
- **Even-spacing resampler** (`geo.py`, module `Geo`). `interpolate_distance`
  walks a track, accumulating geodesic distance. Each time the running
  distance reaches the spacing, it emits a copy of the current raw point,
  moved back along the bearing of the segment just measured. The model is
  the source's `while … else` loop (`InterpolateDistance`), specified by:
  - `Travelled`, the value the accumulator `d` holds at each raw point, and
    `SegmentStart`, the point each measured segment starts from;
  - `Follows`, which says how each synthetic point arises from the output
    point before it.
- **Bounding-box padding** (`gfx.py`, module `Gfx`). `add_padding` widens
  a `(min_lon, min_lat, max_lon, max_lat)` box by a percentage of its span.

The library geodesy does not appear as code. gpxpy's `distance`,
`Point.move` (applied to the `copy.deepcopy` of a point), `geo.bearing` and
the similarity that `align_tracks` derives from the distance are function
parameters (`Distance`, `Move`, `Bearing`, `Similarity`) of the operations
that use them. `LocationDelta` is a record passed to `move`. The model
assumes only these facts about them:

- distances are non-negative;
- moving a point back by `x` metres leaves it `x` metres from where it
  started;
- a move keeps elevation and time;
- for the self-alignment lemma only: the similarity is never positive, and
  it is zero from a point to itself.

`Geo.GeodesyIsConsistent` exhibits a planar geodesy that satisfies the
resampler's three assumptions. Scores and distances are exact `real`s, so
the equality tests in the backtrack are exact.

Some behaviours of the code differ from textbook Needleman-Wunsch and from
what one might expect:

- The f-matrix is `len(track1) × len(track2)`, not one larger. Row 0 and
  column 0 belong to the tracks' first points. The first points are
  therefore never emitted, and the alignment spells `track1[1:]` and
  `track2[1:]`. It does not spell the whole tracks (`AlignTracks`,
  `BacktraceAligns`).
- Two one-point tracks give an empty alignment, and the match ratio then
  divides by zero (`MatchRatio` returns `None`).
- A one-point track resamples to `[p, p]`, not `[p]`. The `else` clause
  always appends the last point.
- When `d == 0`, the measured segment and its bearing start at the last
  emitted point, not at the previous raw point.

## Model

| member | source | states |
|---|---|---|
| `Gfx.AddPadding` | gfx.py:34-48 | The box centre is unchanged. Each span is scaled by 1 + 2·pct/100, and each side moves out by span/100·pct. A padding of 0 is the identity. With pct ≥ 0 and a well-formed box, the result contains the box and is well-formed. |
| `Cmpgpx.Union` | cmpgpx.py:157-158 | The joined box contains both boxes and is the least box that does. It is well-formed when the first box is. |
| `Cmpgpx.MapBounds` | cmpgpx.py:150-158 | The map extent contains both padded boxes, and it contains each track's own bounds when those are well-formed. |
| `Cmpgpx.Max` | cmpgpx.py:47 | `max` returns one of its arguments and is at least both. |
| `Cmpgpx.Min` | cmpgpx.py:157-158 | `min` returns one of its arguments and is at most both. |
| `Cmpgpx.Score` | cmpgpx.py:35-47 | Definition of entry (i, j) of the f-matrix: `gap·j` along row 0, `gap·i` down column 0, and inside the max of the match, delete and insert candidates built from the entries above-left, above and left. |
| `Cmpgpx.ScoreMatrix` | cmpgpx.py:34-47 | The filled matrix has the tracks' dimensions and obeys the recurrence in every cell: `gap·i` down column 0, `gap·j` along row 0, and the max of match, delete and insert inside. |
| `Cmpgpx.FillRow` | cmpgpx.py:40-47 | The inner loop sets every cell of row i to its score. No other row changes. |
| `Cmpgpx.FillStep` | cmpgpx.py:44-47 | One inner cell computed from its three stored predecessors equals `Score` at that cell. |
| `Cmpgpx.FilledMatrix` | cmpgpx.py:35-47 | Borders of `gap·index` plus inner cells holding `Score` make the whole matrix obey the recurrence. |
| `Cmpgpx.ScoreTableIsScoreMatrix` | cmpgpx.py:34-47 | The table of `Score` values obeys the recurrence, and it is the only table that does. |
| `Cmpgpx.ScoreUnique` | cmpgpx.py:34-47 | Any table obeying the recurrence holds `Score(i, j)` at (i, j). |
| `Cmpgpx.ScoresObeyRecurrence` | cmpgpx.py:34-47 | A table of `Score` entries satisfies the cell-by-cell recurrence. |
| `Cmpgpx.ScoreDominates` | cmpgpx.py:40-47 | Every cell is at least each of its match, delete and insert candidates, borders included. |
| `Cmpgpx.ScoreOrigin` | cmpgpx.py:35-39 | Cell (0, 0) is 0. |
| `Cmpgpx.StepExists` | cmpgpx.py:54-68 | At every cell other than (0, 0), at least one of the backtrack's three equality tests holds, so the loop never spins without moving. |
| `Cmpgpx.BacktraceLast` | cmpgpx.py:55-68 | The first test that succeeds decides the last column: diagonal when its test holds, delete only if diagonal fails, insert only if both fail (and then insert's test holds). |
| `Cmpgpx.Backtrace` | cmpgpx.py:54-68 | Reference definition of the walk from (i, j): empty at (0, 0); otherwise the walk from the diagonal, upper or left cell (the first whose equality test holds) followed by the matched pair, the point against a gap, or the gap against a point. Its two rows have equal length. |
| `Cmpgpx.BacktraceStep` | cmpgpx.py:54-68 | Away from the corner one step of the walk moves to an adjacent cell, emits a column with at least one point taken from the cell it leaves, the column's score is exactly the drop between the two entries, and its kind is the first of diagonal, delete, insert whose test holds. |
| `Cmpgpx.StepPreferred` | cmpgpx.py:55-68 | If some column steps optimally into (i, j), the walk's own column there is of the same kind or of one it tries earlier; when of the same kind it is that very column, from the same cell. |
| `Cmpgpx.Backtrack` | cmpgpx.py:49-69 | The loop that walks back while `i > 0 or j > 0` (with `i + j` decreasing) produces exactly `Backtrace` from the last cell. |
| `Cmpgpx.AlignTracks` | cmpgpx.py:24-69 | Two empty tracks give an empty alignment. Otherwise the result is `Backtrace` of the score table. It has two equal-length rows with no all-gap column, spelling `track1[1:]` and `track2[1:]` in order. Its score equals the matrix corner, and no other alignment scores more. Every other optimal alignment loses the tie-break. Its length is between max(n-1, m-1) and n+m-2, and it is empty exactly when both tracks have one point. |
| `Cmpgpx.AlignTracksMeaning` | cmpgpx.py:52-69 | The same properties, for the backtrace of any table obeying the recurrence. |
| `Cmpgpx.BacktraceAligns` | cmpgpx.py:52-68 | The walk from (i, j) aligns `track1[1..i]` with `track2[1..j]`: equal lengths, no all-gap column, each row's points in original order, and index 0 never emitted. |
| `Cmpgpx.BacktraceScore` | cmpgpx.py:44-68 | The sum of the similarities of matched columns plus the gap penalty per gap column equals the matrix entry the walk starts from. |
| `Cmpgpx.Optimal` | cmpgpx.py:34-68 | No alignment of `track1[1..i]` with `track2[1..j]` scores above entry (i, j). |
| `Cmpgpx.BacktracePreferred` | cmpgpx.py:55-68 | Any optimal alignment other than the walk's loses the diagonal > delete > insert tie-break, compared from the last column back. |
| `Cmpgpx.BacktraceBest` | cmpgpx.py:34-69 | For whole tracks (first points excluded): no alignment scores above the walk's, and any that ties it loses the tie-break. |
| `Cmpgpx.AlignmentLength` | cmpgpx.py:52-68 | An alignment is at least as long as each row it spells and at most as long as both together. |
| `Cmpgpx.SelfScore` | cmpgpx.py:35-47 | For a track against itself (gap ≤ 0, similarity minus a distance), no entry is positive and the diagonal entries are 0. |
| `Cmpgpx.SelfBacktrace` | cmpgpx.py:55-60 | For a track against itself, the walk takes the diagonal every time, matching each point with itself. |
| `Cmpgpx.SelfAlignment` | cmpgpx.py:24-69 | A track aligned with itself gives two identical rows holding `track[1:]`, with no gap and every column matched. |
| `Cmpgpx.Matches` | cmpgpx.py:179-182 | The match counter never exceeds the number of columns. |
| `Cmpgpx.AllMatched` | cmpgpx.py:179-182 | The count equals the number of columns exactly when every column pairs two points. |
| `Cmpgpx.RatioBounds` | cmpgpx.py:183 | A count over a positive total is in [0, 1], and it is 1 exactly when the count equals the total. |
| `Cmpgpx.MatchRatio` | cmpgpx.py:179-183 | No columns means the division fails. Otherwise the result is matched/total, lies in [0, 1], and is 1 exactly when every column is a match. |
| `Geo.Travelled` | geo.py:47-54 | Definition of the accumulator `d` after measuring the segment ending at raw point `b`, for a walk that resumed at raw index `s` after emitting `e`: the sum of the segment distances, each segment starting at `e` while the sum is still 0 and at the previous raw point otherwise. |
| `Geo.SegmentStart` | geo.py:47-51 | Definition of `p1` for the segment ending at raw point `b`: the last emitted point when `d` is 0 before it (always so for the first segment after an emission), otherwise `points[b-1]`. |
| `Geo.InterpolateDistance` | geo.py:26-69 | The output has at least two points. It starts with `points[0]` and ends with `points[-1]`, and a one-point input gives `[p, p]`. The source indices never decrease. Each point between the first and last is the raw point where the accumulated distance first reaches the spacing, moved back by a non-positive `-(d - distance)` along the bearing of the measured segment. After the last synthetic point the walk stays below the spacing to the end. Elevation and time come from the source point. |
| `Geo.TravelledNonNegative` | geo.py:53-54 | The accumulator `d` is never negative. |
| `Geo.SpacingMustBePositive` | geo.py:53-63 | With `distance <= 0` the test `d >= distance` holds at every raw point, so the loop would emit forever and never advance. |
| `Geo.MeasureStep` | geo.py:47-54 | When `d == 0` the measured segment starts at the last emitted point, and otherwise at `points[i-1]`. `d` grows by that segment's distance. |
| `Geo.EmitStep` | geo.py:56-63 | Emitting the moved copy and resetting `d` to 0 without advancing `i` keeps the loop state. |
| `Geo.EmitProgress` | geo.py:56-63 | After an emission, what remains to walk to raw point i is exactly the old remainder minus one spacing and stays non-negative. Measured in spacings it drops by exactly 1, which is the measure the loop's `decreases` clause uses. |
| `Geo.AdvanceStep` | geo.py:64-65 | When `d < distance`, advancing `i` keeps the loop state. |
| `Geo.SyntheticSpacing` | geo.py:56-61 | The distance walked from the previous output point, minus the distance from the synthetic point forward to its raw point, is exactly the spacing. |
| `Geo.ChainOrigins` | geo.py:56-65 | Along the emitted points the raw indices never decrease, and every point after the seed comes from a raw index ≥ 1. |
| `Geo.ChainAppend` | geo.py:61 | Appending a point that follows the last one extends the chain of emissions. |
| `Geo.FinishWalk` | geo.py:66-67 | The `else` clause, which appends `points[-1]` once the walk reaches the end, establishes every guarantee of `InterpolateDistance`. |

## Left out

- `geo.bearing` (geo.py:10-23) is a function parameter. Its trigonometry and the reference value of tests/test_geo.py are floating-point computations.
- gpxpy's `distance` and `Point.move` (applied after `copy.deepcopy`) are the `dist` and `move` function parameters, and `LocationDelta` is a record passed to `move`; they are constrained only by the facts listed above. Elevation enters the distance only through the library, so the model does not fix how.
- Floating-point arithmetic is not modelled: scores and distances are exact reals. The backtrack recomputes the very float expressions the fill stored (`f[i-1][j-1] + similarity(...)`, `f[i-1][j] + gap_penalty`, `f[i][j-1] + gap_penalty`), `max` returns one of them unchanged, and `gap_penalty * i` is exact, so with finite scores the test of the branch `max` picked still succeeds. Only a NaN similarity, or border products beyond 2^53, could stop the loop from moving. What the exact model does lose is rounding: with float64 sums, which alignment is optimal and which candidates tie can differ from the real-number result that `Optimal` and `BacktracePreferred` describe.
- Identity versus copies: points are values. The "first output is the very object `points[0]`" and "input never mutated" properties become value equality and the immutability of sequences. The deep copy before `move` is value construction.
- `Cmpgpx.AlignTracks` requires both tracks empty or both non-empty. With exactly one empty track, the source raises `IndexError` while filling the first row or column. Two empty tracks give `([], [])`, as in the source.
- `Geo.InterpolateDistance` requires a non-empty track, because the `else` clause raises `IndexError` on `points[-1]`. It also requires `distance > 0` unless the track has one point. Otherwise the source loops forever, which `Geo.SpacingMustBePositive` shows.
- `draw_alignment` and `gfx.draw_track` are left out: they are cairo/geotiler rendering.
- The command-line `__main__` blocks and dist.py are left out. This covers argument parsing, GPX parsing, logging and PNG output. Main's use of the ratio, the alignment and the padded bounds is modelled by `MatchRatio`, `AlignTracks` and `MapBounds`.
