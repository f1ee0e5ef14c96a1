# LatticeMap: a verified model of KMCLib's lattice index map

KMCLib's `LatticeMap` is the index and geometry engine of a 3D lattice. A
lattice has `n_basis` sites per cell and `repetitions[0..2]` cells along the
a, b and c axes, and each axis is either periodic or not. Site indices
number the sites row-major over `[r0, r1, r2, n_basis]`, with the basis
offset varying fastest. The map answers four queries over this immutable
configuration:

- `indexToCell`: the cell `(i, j, k)` of a site, found by three counting scans;
- `indicesFromCell`: the `n_basis` consecutive sites of a cell;
- `neighbourIndices`: the sites of every cell in the `(2*shells+1)^3` cube
  around the cell of a site. A periodic axis corrects a raw coordinate by
  one period. An out-of-range coordinate is dropped. Cells are visited a
  outermost, c innermost;
- `supersetNeighbourIndices`: the shell-1 neighbour lists of several sites,
  concatenated, sorted and cut to their distinct entries.

The project has these modules:

- `LatticeShape` (lattice_shape.dfy): the configuration `Shape`, the
  `CellIndex` triple, the mixed-radix decomposition `Decompose` and the
  forward map `CellSites`, with their round trips.
- `NeighbourSpec` (neighbour_spec.dfy): what a neighbour query returns, as
  pure functions: `Wrap`, the kept coordinates `Kept`/`Window`, the visiting
  order `Line`/`Plane`/`Block`, and `NeighbourSites`.
- `NeighbourLoops` (neighbour_loops.dfy): what each of the three nested
  loops has written after n raw coordinates, proved equal to the
  `NeighbourSpec` description.
- `WindowFacts` (window_facts.dfy): what a window keeps on periodic and
  non-periodic axes.
- `NeighbourProperties` (neighbour_properties.dfy): order, coverage,
  validity, the shell-0 and fully periodic cases, and the union over
  several sites.
- `NeighbourExamples` (neighbour_examples.dfy): queries worked out on a
  3x3x3 open lattice and a 2x2x2 periodic lattice.
- `Sorting` (sorting.dfy): an in-place sort and a model of `std::unique`.
- `SupersetSpec` (superset_spec.dfy): the superset as a pure function.
- `LatticeMaps` (lattice_map.dfy): the class `LatticeMap` with the
  configuration as `const` fields. Each query is a method with the source's
  loops, proved against the functions above.

On a periodic axis the code corrects a raw coordinate only once, by adding
or subtracting one period (lines 78-88), and then applies the range test
(lines 90, 108 and 127). With `shells > repetitions[axis]` a corrected
coordinate can still be out of range, and the range test drops it. The
model does the same: `Wrap` makes a single correction and `Kept` drops what
is still out of range. `PeriodicWindow` and `FullyPeriodicCount` claim that
all `2*shells+1` offsets are kept only when `shells <= repetitions[axis]`.

## Model

| member | source | states |
|---|---|---|
| LatticeMaps.LatticeMap.constructor | c++/src/latticemap.cpp:40-49 | The map holds exactly the given basis count, repetitions and periodicity flags. |
| LatticeMaps.LatticeMap.IndexToCell | c++/src/latticemap.cpp:211-252 | For a valid index, the three scans give `0 <= i < r0`, `0 <= j < r1`, `0 <= k < r2` with `(i*r1 + j)*r2 + k == index / n_basis`. The result is the mixed-radix decomposition `Decompose`. |
| LatticeMaps.LatticeMap.IndicesFromCell | c++/src/latticemap.cpp:191-206 | The loop fills the `n_basis` consecutive indices from `((i*r1 + j)*r2 + k)*n_basis`, i.e. `CellSites` of the cell. |
| LatticeMaps.LatticeMap.NeighbourIndices | c++/src/latticemap.cpp:54-150 | The buffer of `(2*shells+1)^3 * n_basis` entries is filled and cut to `counter`. The result is `NeighbourSites` and never exceeds the buffer. |
| LatticeMaps.LatticeMap.AppendBlock | c++/src/latticemap.cpp:74-91 | The i loop writes, from the start of the buffer, the sites of every kept plane in visiting order (`BlockSites`), and stays inside the buffer. |
| LatticeMaps.LatticeMap.AppendPlane | c++/src/latticemap.cpp:92-109 | The j loop appends the sites of every kept row of plane i after what was written (`PlaneSites`), leaving the earlier entries unchanged. |
| LatticeMaps.LatticeMap.AppendLine | c++/src/latticemap.cpp:110-128 | The k loop appends the sites of every kept cell of row (i, j) (`LineSites`), leaving the earlier entries unchanged. |
| LatticeMaps.LatticeMap.AppendCell | c++/src/latticemap.cpp:129-139 | Copies the sites of one cell to the write position and advances the counter by exactly `n_basis`. |
| LatticeMaps.LatticeMap.PeriodicCoordinate | c++/src/latticemap.cpp:76-88 | The single periodic correction: one period added below 0 or subtracted at or above `r`, on periodic axes only (`Wrap`). |
| LatticeMaps.LatticeMap.SupersetNeighbourIndices | c++/src/latticemap.cpp:155-186 | The result is strictly ascending. Its members are exactly the members of the shell-1 neighbour lists of the given sites. It equals `SupersetSites`. |
| LatticeMaps.LatticeMap.GatherNeighbours | c++/src/latticemap.cpp:164-177 | Pushing back each site's shell-1 list, in input order, gives their concatenation `NeighbourConcat`. |
| LatticeMaps.PushBackAll | c++/src/latticemap.cpp:173-176 | Appending the items one at a time gives `list + items`. |
| LatticeMaps.CopyBlock | c++/src/latticemap.cpp:132-133 | The block copy writes `src` at offset `at` and keeps everything before it. |
| Sorting.InsertionSort | c++/src/latticemap.cpp:180 | Sorts the buffer in place, leaving a permutation of its old contents. |
| Sorting.Unique | c++/src/latticemap.cpp:183 | Moves the first entry of each run of equal adjacent entries to the front. The returned length marks their end: the prefix is `CollapseRuns` of the old contents. |
| Sorting.SortUnique | c++/src/latticemap.cpp:179-183 | Sort then unique gives a strictly ascending sequence with exactly the members of the input. |
| Sorting.CollapseRunsMembers | c++/src/latticemap.cpp:183 | Collapsing runs keeps the member set. |
| Sorting.CollapseRunsAscending | c++/src/latticemap.cpp:183 | Collapsing the runs of a sorted sequence gives a strictly ascending one. |
| Sorting.AscendingDetermined | c++/src/latticemap.cpp:179-185 | Two strictly ascending sequences with the same members are equal, so the query's result is determined by its member set. |
| LatticeShape.Decompose | c++/src/latticemap.cpp:217-249 | The cell of a valid site is a valid cell whose row-major number is `index / n_basis`. |
| LatticeShape.ScansDecompose | c++/src/latticemap.cpp:219-249 | Digits that bracket `index / n_basis` between consecutive multiples of the plane size and then of the row size are those of `Decompose`. |
| LatticeShape.CellSitesAscending | c++/src/latticemap.cpp:196-203 | A cell has exactly `n_basis` sites, strictly ascending. |
| LatticeShape.CellSitesValid | c++/src/latticemap.cpp:196-203 | Every site of a valid cell is a valid site index. |
| LatticeShape.DecomposeCellSite | c++/src/latticemap.cpp:196-249 | Forward then inverse: the l-th site of a valid cell decomposes back to that cell. |
| LatticeShape.RoundTrip | c++/src/latticemap.cpp:196-249 | Inverse then forward: the sites of the cell of `x` hold `x` at position `x % n_basis`. |
| LatticeShape.CellSitesExact | c++/src/latticemap.cpp:196-249 | The sites of a valid cell are exactly the valid indices that decompose to it, in both directions. |
| LatticeShape.OrdinalInjective | c++/src/latticemap.cpp:196-197 | Two valid cells with the same row-major number are the same cell. |
| NeighbourSpec.NeighbourSitesBound | c++/src/latticemap.cpp:65-148 | The list holds `n_basis` entries per visited cell, so its length is a multiple of `n_basis`, and it never exceeds `(2*shells+1)^3 * n_basis`. |
| NeighbourLoops.LineSitesMeaning | c++/src/latticemap.cpp:110-141 | What the k loop writes equals the sites of the row of kept cells. |
| NeighbourLoops.PlaneSitesMeaning | c++/src/latticemap.cpp:92-143 | What the j loop writes equals the sites of the plane of kept cells. |
| NeighbourLoops.BlockSitesMeaning | c++/src/latticemap.cpp:74-145 | What the i loop writes equals the sites of the block of kept cells. |
| NeighbourLoops.BlockSitesStep | c++/src/latticemap.cpp:74-145 | One more i step keeps the equality of BlockSitesMeaning. |
| NeighbourLoops.NeighbourLoopsMeaning | c++/src/latticemap.cpp:74-145 | The three full loops around a cell write the sites of the block of its three windows. |
| NeighbourLoops.NeighbourLoopsQuery | c++/src/latticemap.cpp:59-145 | Around the cell of a valid site, the loops write `NeighbourSites`, which fits in the buffer. |
| NeighbourLoops.LineSitesGrow | c++/src/latticemap.cpp:110-141 | The k loop only extends what it has written. |
| NeighbourLoops.PlaneSitesGrow | c++/src/latticemap.cpp:92-143 | The j loop only extends what it has written. |
| NeighbourLoops.BlockSitesGrow | c++/src/latticemap.cpp:74-145 | The i loop only extends what it has written. |
| WindowFacts.KeptInAxis | c++/src/latticemap.cpp:89-90 | Every kept coordinate is in range along its axis. |
| WindowFacts.KeptMembers | c++/src/latticemap.cpp:74-90 | A coordinate is kept exactly when it is in range and is the corrected value of one of the raw coordinates. |
| WindowFacts.WrapPeriodic | c++/src/latticemap.cpp:78-88 | On a periodic axis, for raw values within one period of the lattice, the correction is the remainder modulo the period, so it is in range. |
| WindowFacts.CentreKept | c++/src/latticemap.cpp:74-90 | Offset 0 is always kept. |
| WindowFacts.WindowZero | c++/src/latticemap.cpp:74-90 | With no shells, the window is the centre alone. |
| WindowFacts.KeptAll | c++/src/latticemap.cpp:74-90 | When every raw coordinate survives, nothing is dropped and the d-th kept coordinate is the correction of the d-th raw one. |
| WindowFacts.PeriodicWindow | c++/src/latticemap.cpp:76-90 | On a periodic axis with `shells <= r`, all `2*shells+1` offsets are kept, in ascending raw order, the d-th being `(centre - shells + d) mod r`. |
| WindowFacts.PeriodicWindowCovers | c++/src/latticemap.cpp:76-90 | On a periodic axis with `shells <= r <= 2*shells+1`, the window reaches every coordinate of the axis. |
| WindowFacts.ModShift | c++/src/latticemap.cpp:78-88 | For `0 <= v < r`, the offset `(v - lo) mod r` is in `0 .. r-1` and steps from `lo` to `v` modulo `r`. |
| WindowFacts.NonPeriodicKept | c++/src/latticemap.cpp:76-90 | On a non-periodic axis the kept coordinates are the in-range raw ones: the ascending run between the clamped ends. |
| NeighbourProperties.LineAt | c++/src/latticemap.cpp:110-127 | Within a row, kept c coordinates are visited in their kept order. |
| NeighbourProperties.BlockAt | c++/src/latticemap.cpp:74-145 | Cell `(iC[a], jC[b], kC[c])` is visited at `a*(|jC|*|kC|) + b*|kC| + c`: row-major order over the kept coordinates, i outer, j middle, k inner. |
| NeighbourProperties.BlockEntry | c++/src/latticemap.cpp:74-145 | The same position, counted as the cells of the planes before `iC[a]` plus the rows before `jC[b]` plus `c`. |
| NeighbourProperties.SitesOfAt | c++/src/latticemap.cpp:130-139 | Site l of the p-th visited cell sits at `p*n_basis + l` and is that cell's l-th site. |
| NeighbourProperties.LineMembers | c++/src/latticemap.cpp:110-127 | A row holds exactly the cells `(i, j, k)` with `k` kept. |
| NeighbourProperties.PlaneMembers | c++/src/latticemap.cpp:92-127 | A plane holds exactly the cells `(i, j, k)` with `j` and `k` kept. |
| NeighbourProperties.BlockMembers | c++/src/latticemap.cpp:74-127 | A block holds exactly the cells whose three coordinates are kept. |
| NeighbourProperties.SitesOfMembers | c++/src/latticemap.cpp:130-139 | The sites of a list of valid cells are exactly the valid indices whose cell is in the list. |
| NeighbourProperties.NeighbourCellsValid | c++/src/latticemap.cpp:89-130 | Only in-range cells reach the forward map. |
| NeighbourProperties.NeighbourSitesExact | c++/src/latticemap.cpp:74-145 | `y` is in the list exactly when it is a valid index whose cell has all three coordinates in the windows around the cell of `x`. |
| NeighbourProperties.NeighbourSitesValid | c++/src/latticemap.cpp:89-139 | Every entry of a neighbour list is a valid site index. |
| NeighbourProperties.ContainsOwnSite | c++/src/latticemap.cpp:74-145 | For any shells the list contains `x` itself. |
| NeighbourProperties.ShellZero | c++/src/latticemap.cpp:74-145 | With `shells = 0` the list is exactly the sites of the cell of `x`, whatever the periodicity. |
| NeighbourProperties.SingleCell | c++/src/latticemap.cpp:74-127 | A block of one kept coordinate per axis is that one cell. |
| NeighbourProperties.FullyPeriodicCount | c++/src/latticemap.cpp:65-148 | On a fully periodic lattice with `shells <= r` on every axis, the list fills the whole buffer, `(2*shells+1)^3 * n_basis` entries, repeats allowed. |
| NeighbourProperties.PeriodicCoverage | c++/src/latticemap.cpp:74-145 | On a fully periodic lattice with `shells <= r <= 2*shells+1` on every axis, every valid site is in the neighbour list of every site. |
| NeighbourProperties.ConcatMembers | c++/src/latticemap.cpp:164-177 | A site is in the concatenated lists exactly when it is in the shell-1 list of one of the given sites. |
| NeighbourExamples.CornerWindows | c++/src/latticemap.cpp:74-90 | Around corner coordinate 0 of the open 3x3x3 lattice, each window is `[0, 1]`. |
| NeighbourExamples.CornerCells | c++/src/latticemap.cpp:74-127 | The corner cell of the open lattice visits its 8 cells in a-outer order. |
| NeighbourExamples.CornerClipped | c++/src/latticemap.cpp:54-150 | Site 0 of the open 3x3x3 lattice with one basis site has the 8 neighbours `[0, 1, 3, 4, 9, 10, 12, 13]`. |
| NeighbourExamples.InteriorFull | c++/src/latticemap.cpp:54-150 | The centre site 13 of the open lattice keeps all 27 cells. |
| NeighbourExamples.PairWindows | c++/src/latticemap.cpp:76-90 | Around coordinate 0 of the periodic 2x2x2 lattice, each window is `[1, 0, 1]`. |
| NeighbourExamples.PairCoversAll | c++/src/latticemap.cpp:54-150 | All 8 sites of the periodic 2x2x2 lattice are neighbours of site 0 with one shell. |
| NeighbourExamples.PeriodicRepeats | c++/src/latticemap.cpp:54-150 | Site 0 of the periodic 2x2x2 lattice has 27 entries, with site 7 both first and last: no deduplication is done. |
| SupersetSpec.MembersInExact | c++/src/latticemap.cpp:179-183 | Scanning a range lists each member of `v` in the range once, in increasing order, and nothing else. |
| SupersetSpec.ConcatValid | c++/src/latticemap.cpp:164-177 | Every entry of the concatenated lists is a valid site index. |
| SupersetSpec.SupersetExact | c++/src/latticemap.cpp:164-185 | The superset is strictly ascending and its members are exactly those of the shell-1 lists of the given sites. |
| SupersetSpec.SupersetOrderFree | c++/src/latticemap.cpp:164-185 | The superset depends only on which sites are given, not on their order or on repeats. |
| SupersetSpec.ConcatSameMembers | c++/src/latticemap.cpp:164-177 | Inputs with the same members give concatenations with the same members. |
| SupersetSpec.MembersInSame | c++/src/latticemap.cpp:179-183 | The scan depends only on the members of what is scanned. |
| SupersetSpec.SupersetOfNone | c++/src/latticemap.cpp:162-185 | No sites give an empty superset. |
| SupersetSpec.SupersetOfOne | c++/src/latticemap.cpp:164-185 | The superset of one site is its shell-1 list, sorted, with repeats removed. |

## Left out

- 32-bit `int` overflow: all arithmetic uses unbounded integers, as if `n_basis*r0*r1*r2` and the neighbour buffer size fit in an `int`.
- The process-wide scratch vector `tmp_cell_indices__` (lines 35, 48, 205) and the constructor's resizing of it. `IndicesFromCell` returns a fresh sequence, so the aliasing of successive results is not modelled.
- `std::pow` at line 65 is a floating-point call. The buffer size is the integer `(2*shells+1)^3 * n_basis`.
- `memcpy` and the raw writes through `neighbours_ptr` (lines 69, 132-136) are modelled as a block copy into the buffer array at offset `counter`.
- `std::sort` and `std::unique` are library code. They are modelled by a verified insertion sort and a verified in-place `Unique` with the same results; their own algorithms and complexity are not modelled.
- The three nested loops of `neighbourIndices` are split into one method per loop (`AppendBlock`, `AppendPlane`, `AppendLine`), and the periodic correction into `PeriodicCoordinate`. These run the same steps in the same order.
- Negative `shells`: the source converts the negative buffer size to a huge `size_t`, and the `std::vector` size constructor then throws `std::length_error`. The model excludes the case by giving `shells` the type `nat`, so the exception is not modelled.
- The buffer entries past `counter` that the final resize discards are not stated.
- Non-positive basis or repetition counts: the constructor (lines 40-49) checks nothing, but every query divides by these counts, and a careful reimplementation would reject them. The model's constructor takes positive counts as a precondition, so this configuration error is not modelled.
- Out-of-range site indices and cell coordinates: the source checks nothing, so a valid index is a precondition of `IndexToCell`, `NeighbourIndices` and `SupersetNeighbourIndices`.
- `supersetNeighbourIndices` calls `neighbourIndices` with its default of one shell. The model passes 1 explicitly.
- FullyPeriodicCount: claims the full count only when `shells <= repetitions[axis]` on every axis. With more shells a once-corrected coordinate can still be out of range and is dropped, as `Kept` models.
