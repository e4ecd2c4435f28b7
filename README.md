# TSP heuristic comparison: verified core

This project models the core of a small Python harness that compares
travelling-salesman heuristics against known optimal tours:

- **Reading TSPLIB 95 files** (`import_data.py`): `parse_tsplib` collects the
  coordinate lines of a problem file between `NODE_COORD_SECTION` and `EOF`.
  It also checks that the `DIMENSION` value is an integer. `parse_tour_file`
  collects the city numbers of a `.opt.tour` file between `TOUR_SECTION` and
  the `-1` / `EOF` terminator.
- **Measuring a tour** (`evaluate.py`): `calculate_tour_distance` sums the
  distance-matrix entries between consecutive cities and adds the closing
  edge back to the first city.
- **Turning the solver's arcs into a tour** (`solver.py`): after the integer
  program is solved, the arcs `(i, j)` with value 1 are followed from city 0.
  At each step the loop takes the lowest-numbered successor still listed and
  removes that arc, until no arcs remain.
- **The 1-based to 0-based shift** in `run.py`, which also appends city 0.

Modules:

- `Results` holds `Option` and `Result`.
- `Text` models Python's `str.strip`, `str.split`, `str.startswith` and `int()`.
  The whitespace set is that of `str.isspace`. `int()` accepts a sign, ASCII
  digits, and single underscores between digits.
- `ImportData` holds both readers.
- `Evaluate` holds the tour length.
- `Solver` holds the tour reconstruction.
- `Run` holds the index shift.

Each loop of the source is a `method` with that loop, proved equal to a
recursive specification function. The lemmas state the properties of those
functions: round trips for the file formats, and the algebra of the cyclic
tour length. For the reconstruction they state that every arc is used once,
that a Hamiltonian cycle comes back in visiting order, and that sub-tours make
the Python loop spin forever.

The docstring at `evaluate.py:8` says the tour uses 1-based indices. The code
indexes the matrix directly, so tours are 0-based. `run.py:24` shifts the
1-based tour file before measuring it. The model follows the code.

## Model

| member | source | states |
|---|---|---|
| Text.Strip | import_data.py:12 | The stripped line is no longer than the input and neither starts nor ends with a whitespace character. |
| Text.StripRemovesSpaces | import_data.py:12 | Strip returns a contiguous middle slice of the line. Everything cut off on either side is whitespace. |
| Text.StartsWithChars | import_data.py:14 | `startswith(prefix)` holds exactly when the line is at least as long as the prefix and agrees with it character by character. |
| Text.Split | import_data.py:15 | Every field of `split()` is a non-empty token without whitespace. A line whose first character is not whitespace has at least one field. Which fields come back is stated by `SplitSpaced` and `SplitFields`. |
| Text.SplitSpaced | import_data.py:23 | A line of tokens separated by non-empty runs of whitespace (spaces, tabs, repeated), with any whitespace before and after, splits into exactly those tokens, in order. |
| Text.SplitFields | import_data.py:23 | Every string is blank text followed by the fields of `split()`, each followed by whitespace, non-empty between fields. With `SplitSpaced` this determines `split()` on every string. |
| Text.SplitUnwords | import_data.py:23 | Splitting tokens joined by single spaces gives back exactly those tokens. |
| Text.ParseInt | import_data.py:58 | `int()` of a stripped line succeeds only on text with no whitespace at either end. Its value on every integer's decimal rendering is fixed by `ParseIntToString`. |
| Text.ParseIntToString | import_data.py:58 | `int()` of the decimal rendering of any integer gives back that integer. |
| ImportData.ParseTsplib | import_data.py:3-28 | The loop returns what the line-by-line scanner returns. The scanner gives the points of the coordinate lines after `NODE_COORD_SECTION` up to `EOF`. A non-integer `DIMENSION` value gives `InvalidInteger`. A coordinate line without exactly three fields gives `WrongTokenCount`. |
| ImportData.DimensionValueOfFields | import_data.py:15 | The `DIMENSION` value is `int()` of the last whitespace-separated field, whatever the spacing between fields. |
| ImportData.TsplibDimensionLine | import_data.py:14-15 | A `DIMENSION` line fails when its last field is not an integer. Otherwise it is skipped, inside or outside the section. |
| ImportData.TsplibSectionLine | import_data.py:17-18 | A `NODE_COORD_SECTION` line that is not a `DIMENSION` line switches the section on. |
| ImportData.TsplibPlainLineOutside | import_data.py:20-25 | Any other line before the section is ignored. |
| ImportData.TsplibEofInSection | import_data.py:21-22 | `EOF` inside the section ends the scan with no further points. |
| ImportData.TsplibCoordinateLine | import_data.py:23-24 | Inside the section, a line with three fields adds the point made of its second and third field. Any other field count, including a blank line, fails. |
| ImportData.TsplibSkipsPlainLines | import_data.py:11-25 | A header of lines that are neither `DIMENSION` nor `NODE_COORD_SECTION` lines does not change the result. |
| ImportData.TsplibNoSectionNoPoints | import_data.py:7-28 | A file without a `NODE_COORD_SECTION` line yields no points. |
| ImportData.DimensionLineFacts | import_data.py:14-15 | The line `DIMENSION : d` is a stripped `DIMENSION` line whose value is `d`. |
| ImportData.CoordLineFacts | import_data.py:23 | A coordinate line `id x y` is stripped, is not `EOF`, and splits into its three tokens. |
| ImportData.TsplibSection | import_data.py:20-24 | Inside the section, coordinate lines followed by `EOF` yield exactly their points, in order. |
| ImportData.TsplibRoundTrip | import_data.py:3-28 | For a file of a header, a `DIMENSION` line, `NODE_COORD_SECTION`, the coordinate lines and `EOF`, the reader returns exactly the written points. |
| ImportData.ParseTourFile | import_data.py:30-61 | The loop returns what the line-by-line scanner returns. The scanner gives the integers after `TOUR_SECTION`, up to the first `-1` or `EOF`. A non-integer city line gives `InvalidInteger`. |
| ImportData.TourSectionLine | import_data.py:48-50 | A `TOUR_SECTION` line switches the section on, whatever came before. |
| ImportData.TourTerminatorLine | import_data.py:53-54 | A `-1` or `EOF` line ends the scan, inside or outside the section. |
| ImportData.TourHeaderLine | import_data.py:44-59 | Before the section, any line that is neither a marker nor a terminator is ignored. |
| ImportData.TourCityLine | import_data.py:57-59 | Inside the section, a line is read with `int()` and appended. A line that is not an integer, including a blank one, fails. |
| ImportData.TourSkipsHeader | import_data.py:44-59 | A header of plain lines does not change the result. |
| ImportData.TourStopsAtTerminator | import_data.py:53-54 | Nothing after a terminator line affects the result. |
| ImportData.TourRepeatedSection | import_data.py:48-50 | A second `TOUR_SECTION` inside the section is skipped and does not reset the tour read so far. |
| ImportData.CityLineFacts | import_data.py:58 | The decimal rendering of a city other than `-1` is a stripped plain line that `int()` reads back. |
| ImportData.TourSection | import_data.py:44-59 | Inside the section, the city lines followed by `-1` and `EOF` yield exactly those cities. |
| ImportData.TourRoundTrip | import_data.py:30-61 | For a tour file of a header, `TOUR_SECTION`, the city lines, `-1` and `EOF`, the reader returns exactly the written tour. |
| Evaluate.Axis | evaluate.py:19 | A NumPy index `-len <= c < len` reads a position below `len` congruent to `c` modulo `len`. |
| Evaluate.DistAt | evaluate.py:19 | `dist_matrix[a, b]` reads row `a mod rows` and column `b mod columns`, so negative indices count from the end. |
| Evaluate.CalculateTourDistance | evaluate.py:3-24 | The loop returns `IndexError` for the empty tour or for any city that does not index the matrix. Otherwise it returns the closed-tour length. |
| Evaluate.PathCostIsPrefixSum | evaluate.py:18-19 | After `m` iterations the accumulator holds the sum of the first `m` cycle edges. |
| Evaluate.CyclicCostIsCycleSum | evaluate.py:17-22 | The tour length is the sum of `dist[tour[j], tour[(j + 1) mod n]]` over all `n` positions. |
| Evaluate.EmptyTourFails | evaluate.py:14-22 | The empty tour raises `IndexError` at `tour[-1]`. |
| Evaluate.SingleCityCost | evaluate.py:18-22 | A one-city tour costs its diagonal entry. |
| Evaluate.CostNonNegative | evaluate.py:15-22 | With non-negative entries, every computed length is non-negative. |
| Evaluate.PathCostAppend | evaluate.py:18-19 | The open path through `a + b` is the path through `a`, plus the joining edge, plus the path through `b`. |
| Evaluate.RotationInvariant | evaluate.py:18-22 | Starting the tour at any other position gives the same length. |
| Evaluate.ReversedPathCost | evaluate.py:18-19 | With a symmetric matrix, the open path reversed has the same length. |
| Evaluate.ReversalInvariant | evaluate.py:18-22 | With a symmetric matrix, the tour traversed backwards has the same length. |
| Evaluate.RepeatedStartCost | evaluate.py:18-22 | Repeating the first city at the end adds `dist[t0, t0]`. With a zero diagonal, the length is unchanged. |
| Solver.RemoveFirst | solver.py:54 | `list.remove` drops exactly one occurrence of the arc: the multiset loses that arc and the length drops by one. |
| Solver.RemoveFirstIsFirst | solver.py:54 | `list.remove` drops the first occurrence of the arc and keeps the other arcs in order. |
| Solver.LowestSuccessor | solver.py:52-53 | A successor found by the inner loop is below `n`, at or after the start index, and a listed arc from the current city. |
| Solver.LowestSuccessorIsLowest | solver.py:52-57 | No listed successor lies below the one found. When none is found, no successor in `range(n)` is listed. |
| Solver.Follow | solver.py:51-57 | When the walk ends, it appends one city per arc. |
| Solver.FollowStep | solver.py:51-57 | One outer iteration takes the lowest successor, removes that arc and carries on from that city. |
| Solver.ReconstructTour | solver.py:48-59 | The loop returns `[0]` followed by the walk, so the tour starts at 0 and has one entry per arc plus one. No arcs, as when no optimal solution is found, gives `[0]`. |
| Solver.FollowInRange | solver.py:52 | Every city appended is in `range(n)`. |
| Solver.FollowUsesEachEdgeOnce | solver.py:51-56 | The arcs between consecutive tour cities are exactly the reported arcs, each used once. |
| Solver.Stuck | solver.py:51-57 | With arcs left and none from the current city to a city in `range(n)`, the loop never ends. That covers a city with no listed arc out of it, and one whose arcs all lead to cities outside `range(n)`. |
| Solver.FollowCycleFrom | solver.py:48-59 | Along the cycle through the current city, the walk follows the cycle back to its first city. It ends there if no other arcs remain, and is stuck otherwise. |
| Solver.HamiltonianCycleReconstructed | solver.py:48-59 | When the arcs are the cycle `c` over all `n` cities with `c[0] = 0`, the tour is `c + [0]`. That is `n + 1` entries, ending in 0, the first `n` a permutation of the cities. |
| Solver.SubtoursNeverFinish | solver.py:51-57 | When the arcs are the sub-tour through 0 plus other sub-tours, the loop never ends. |
| Run.ToZeroBased | run.py:24 | The converted tour has one more entry, ends in city 0, and each other entry plus one is the file's city. |
| Run.ShiftDownIsCycle | run.py:24 | Shifting down by one turns distinct cities drawn from `1..n` into a simple cycle over cities drawn from `0..n-1`, and only such tours. |
| Run.ToZeroBasedCost | run.py:24-25 | For a tour file starting at city 1 and a zero diagonal, the appended 0 adds nothing: the measured length is that of the shifted tour. |

## Left out

- File access (`import_data.py:4-5`, `import_data.py:43-44`): the readers take the file's lines as a sequence of strings. Stripping makes a trailing newline irrelevant.
- `float(x)`, `float(y)` (`import_data.py:24`) and `np.array` (`import_data.py:28`): points keep their two coordinate tokens. A token that is not a float does not raise `ValueError` in the model.
- Text.ParseInt: accepts only ASCII digits, while Python's `int()` also accepts other Unicode decimal digits.
- Text.ParseInt: has no length limit. Recent CPython versions raise `ValueError` for decimal strings over 4300 digits, so `ParseIntToString` claims more than Python does for such values. Real tour files never come close.
- The integer program of `example_solver` (`solver.py:4-46`): PuLP, the CBC call, the time limit and the prints. The reconstruction takes the list of arcs as input.
- `exact_solver`, `jk_solver` and `full_two_opt`, which `run.py` imports, are not part of this model.
- Solver.ReconstructTour: requires that the walk ends (`Follow` is `Some`), because the Python loop never terminates otherwise. `Stuck` and `SubtoursNeverFinish` state when that happens.
- `plot_tour` (`evaluate.py:26-63`): plotting and file output.
- `run.py` apart from line 24: the SciPy Euclidean distance matrix (square roots of floats), the solver call and the printed report.
- Evaluate.CalculateTourDistance: distances are exact reals. Python float addition rounds, so the rotation and reversal lemmas hold exactly only for the exact sum.
- Evaluate.IsMatrix: the matrix is any rectangular array of rows. Non-integer indices and other NumPy indexing modes are not modelled.
