# gNAT histogram registry and fit handler, in Dafny

This project models two stateful parts of gNAT, a nuclear-physics analysis
tool written in Rust.

- **The histogram registry** (`src/histoer/histogrammer.rs`). A tile tree
  holds histogram panes, grid containers and tabs containers. A tab-name
  map names each grid's tab. `grid_histogram_map` records the panes placed
  in each grid. `handles` lists the fill threads that have not been joined
  yet. The registry creates grids and the lazily made "Other" grid. It adds
  or resets 1D and 2D histograms by name and dispatches fills from a data
  frame onto threads. It also joins the threads that have finished.
- **The fit handler** (`src/fitter/fit_handler.rs`). A `Fitter` holds data,
  an optional background fitter, a model (Gaussian or linear), a result and
  the per-peak lines drawn after a fit. A `Fits` collection keeps a
  temporary fit and the stored fits. It can merge a loaded collection, drop
  its temporary fits and remove a stored fit by index.

Files:

- `common.dfy`: the `Option` type.
- `histograms.dfy`: histograms as values (geometry plus a log of the `fill`
  and `reset` calls made on them), the range filter a fill applies, and the
  sequential body of a fill thread.
- `threads.dfy`: thread handles, `Vec::swap_remove`, and the lemmas behind
  joining finished threads.
- `histogrammer.dfy`: the registry, as a class whose methods update its
  fields.
- `fit_handler.dfy`: the `Fitter` and `Fits` classes and the pure helpers
  they use.

Modelling choices:

- The tile map is a `map<TileId, Tile>`. New ids come from a counter,
  as the tiling library allocates them.
- The tile library's map is a hash map, so its iteration order is not
  specified. A lookup by name therefore finds *some* pane with that name.
  The registry's invariant `Valid()` keeps names unique per
  dimensionality, which makes every lookup determined.
- A thread handle carries the `finished` flag and the job the thread was
  spawned with. `RunThread` runs that job to completion, one step at a
  time, as a sequential stand-in for the thread.
- A data frame is a map from column names to columns of optional reals. A
  fill's `select`/`filter`/`collect` is `Collect` (1D) or `Collect2D` (2D).
  It fails when a column is missing, and a 2D collect also fails when the
  x and y columns have the same name, because the selection would hold two
  output columns of one name. Then the thread fills nothing, as the
  source's error branch does (src/histoer/histogrammer.rs:407-409).
- The numeric fitters are opaque. They are the function fields of the
  `Numerics` parameter.

`fit` appends the new `Peak i` lines to `deconvoluted_lines`
(src/fitter/fit_handler.rs:101-107) and never clears them, so fitting
again accumulates lines. `FitHandler.Fitter.Fit` states this appending.

## Model

| member | source | states |
|---|---|---|
| Histograms.Select | src/histoer/histogrammer.rs:211-213 | A value is kept exactly when it is present in the column and lies strictly between the range's min and max. Nulls are dropped, and nothing is added. |
| Histograms.SelectCount | src/histoer/histogrammer.rs:211-213 | Every present in-range value is kept as many times as the column holds it, and no other value is kept. |
| Histograms.SelectAppend | src/histoer/histogrammer.rs:229-233 | Filtering keeps the column's order: the filter of two concatenated pieces is the concatenation of their filters. |
| Histograms.Select2D | src/histoer/histogrammer.rs:351-355 | A row is kept exactly when it is a row of the input, both values are present, and each lies strictly inside its own range. |
| Histograms.Select2DCount | src/histoer/histogrammer.rs:351-355 | Every accepted row is kept as many times as the input holds it, and no other row is kept. |
| Histograms.Select2DAppend | src/histoer/histogrammer.rs:376-380 | The 2D filter keeps the rows' order in the same way. |
| Histograms.Zip | src/histoer/histogrammer.rs:395 | Pairing the x and y columns yields as many rows as the shorter column, and row `k` is the pair of the two columns' `k`-th values. |
| Histograms.ZipSplit | src/histoer/histogrammer.rs:395 | Splitting collected rows into x and y columns and zipping them back gives the same rows. |
| Histograms.FillCallsExact | src/histoer/histogrammer.rs:247-252 | The worker loop makes exactly one `fill(v, i, n)` per present value: `v` is the value at row `i`, and `i < n`. Calls come in row order. |
| Histograms.FillCalls2Exact | src/histoer/histogrammer.rs:395-401 | The 2D loop makes one `fill(x, y, i, n)` per row with both values present, in row order, with `i < n`. |
| Histograms.FillCallsAllPresent | src/histoer/histogrammer.rs:247-252 | When every collected value is present, there is one fill call per row. |
| Histograms.FillCalls2AllPresent | src/histoer/histogrammer.rs:395-401 | The same for 2D rows whose two values are present. |
| Histograms.FillWorker | src/histoer/histogrammer.rs:237-257 | The 1D thread body, a loop. The histogram receives the fill calls in row order with `n` the number of collected rows. Its progress is then cleared, and its name and geometry are kept. |
| Histograms.FillWorker2D | src/histoer/histogrammer.rs:384-406 | The 2D thread body: zipped rows, a fill only when both values are present, `n` the length of the x column, progress cleared afterwards. |
| Histograms.ThreadFillsInside | src/histoer/histogrammer.rs:211-257 | End to end, every fill a 1D thread makes carries a value strictly inside the histogram's range, and there is one per kept row. |
| Histograms.ThreadFills2DInside | src/histoer/histogrammer.rs:351-406 | End to end, every 2D fill carries an x and a y, each strictly inside its own range, and there is one per kept row. |
| Threads.SwapRemove | src/histoer/histogrammer.rs:65 | `swap_remove(i)` shortens the list by one and keeps the part before `i`. The elements from `i` on are the old ones after `i`, reordered. Only the element at `i` is lost. |
| Threads.RunningFinishedPartition | src/histoer/histogrammer.rs:54-70 | The unfinished and the finished handles together are all the handles, as a multiset. |
| Threads.ReverseMultiset | src/histoer/histogrammer.rs:63-70 | Joining in reverse order loses and duplicates no handle. |
| Threads.JoinLosesNothing | src/histoer/histogrammer.rs:54-70 | If the kept handles are the running ones and the joined are the finished ones reversed, then kept plus joined is exactly the handles before, as a multiset. |
| Threads.FinishedIndices | src/histoer/histogrammer.rs:54-61 | The index loop collects, in strictly ascending order, exactly the positions of the finished handles. |
| Threads.GapBelow | src/histoer/histogrammer.rs:54-61 | No finished handle lies between two consecutive collected indices, or before the first, or after the last. |
| Threads.JoinStep | src/histoer/histogrammer.rs:63-67 | One `swap_remove` of a finished index below the current bound keeps the prefix. It removes exactly that handle and keeps the multiset of running handles above it. |
| Threads.JoinDone | src/histoer/histogrammer.rs:63-70 | When the reverse loop ends, the remaining handles are, as a multiset, exactly the running ones. |
| Threads.JoinedAll | src/histoer/histogrammer.rs:63-70 | When the reverse loop ends, the joined handles are all the finished ones, highest index first. |
| Histogrammer.GridAdded | src/histoer/histogrammer.rs:87-126 | After a grid is created, the root exists and is a tabs container. The grid is empty and sits alone in a new tab. With no root, the tab becomes the root. A tabs root gets the tab appended to its children. Any other root is wrapped with the tab in a new tabs root, in the order `[old root, tab]`. No other tile changes. |
| Histogrammer.GridAddedUnique | src/histoer/histogrammer.rs:87-126 | Creating a grid adds only containers, so histogram names stay unique. |
| Histogrammer.PaneIdUnique | src/histoer/histogrammer.rs:161-170 | With unique names, the pane found by name is the only pane of that dimensionality with that name. |
| Histogrammer.Histogrammer.constructor | src/histoer/histogrammer.rs:29-38 | The default registry has no tiles, no root, no tab names, an empty grid map and no handles. |
| Histogrammer.Histogrammer.CheckAndJoinFinishedThreads | src/histoer/histogrammer.rs:48-71 | With no handles, nothing changes. Otherwise the handles left are exactly the unfinished ones, as a multiset. Every finished handle is joined exactly once, highest index first. Kept plus joined is the handle list before the call. |
| Histogrammer.Histogrammer.CreateGrid | src/histoer/histogrammer.rs:87-126 | Returns a fresh id. The tiles and root become those of `GridAdded`, the new grid's tab gets the given name, and the registry invariant holds. |
| Histogrammer.Histogrammer.GetOrCreateOtherGrid | src/histoer/histogrammer.rs:142-156 | Returns a grid whose tab is "Other". If one existed, nothing changes. Otherwise a grid is created by `CreateGrid` and is afterwards the only "Other" grid, so a second call returns it and inserts nothing. |
| Histogrammer.Histogrammer.FindPane | src/histoer/histogrammer.rs:161-164 | Finds a pane exactly when a histogram of that dimensionality has the name, and returns that pane's id. |
| Histogrammer.Histogrammer.PlacePane | src/histoer/histogrammer.rs:179-195 | The pane goes to the given grid, or to the "Other" grid, which is made when missing. If the chosen tile is a grid, the pane is appended to its children (`Attach`, line 188) and to its `grid_histogram_map` entry (`Record`, lines 189-192). Otherwise nothing is attached or recorded. No pane changes. |
| Histogrammer.Histogrammer.AddHist1D | src/histoer/histogrammer.rs:158-197 | If a 1D histogram of that name exists, it is reset, its bins and range are kept, and nothing else changes. Otherwise exactly one new pane with that name, bins and range is inserted under a fresh id and placed as `PlacePane` states. A 2D histogram of the same name does not count. |
| Histogrammer.Histogrammer.AddHist2D | src/histoer/histogrammer.rs:286-331 | The same for 2D histograms. A 1D histogram of the same name does not count. |
| Histogrammer.Histogrammer.FillHist1D | src/histoer/histogrammer.rs:199-271 | Returns true exactly when a 1D histogram has the name. Then one unfinished handle is pushed, carrying that pane, its range at dispatch time, the frame and the column. Otherwise the handles are unchanged. The tiles are unchanged either way. |
| Histogrammer.Histogrammer.FillHist2D | src/histoer/histogrammer.rs:333-420 | Returns true exactly when a 2D histogram has the name. Then the pane's cut column names are set to the two columns before one handle is pushed. Otherwise the tiles and handles are unchanged. |
| Histogrammer.Histogrammer.AddFillHist1D | src/histoer/histogrammer.rs:273-284 | Add, then fill. An existing 1D histogram of that name is reset, and the root, tab names, grid map and other tiles are unchanged. Otherwise the new histogram gets the next tile id and is placed as `PlacePane` states, in grid `gridId`. Either way the histogram exists and exactly one handle for it is pushed. |
| Histogrammer.Histogrammer.AddFillHist2D | src/histoer/histogrammer.rs:423-435 | The same for 2D. The histogram also records the two column names. An existing one is reset with the rest of the layout unchanged. A new one is placed as `PlacePane` states, and the layout afterwards is that placement with the column names set in the new pane. |
| Histogrammer.Histogrammer.RunThread | src/histoer/histogrammer.rs:226-261 | Running an unfinished thread marks it finished and leaves the tiles as `AfterJob` says. The pane's histogram receives the fill calls of the data collected by `Collect` (lines 229-233) or `Collect2D` (lines 376-380) and has its progress cleared. A failed collect leaves the tiles unchanged. A finished thread changes nothing. |
| FitHandler.Subtracted | src/fitter/fit_handler.rs:55-59 | The zip-and-subtract has the length of the shorter input, and element `i` is `y[i] - bg[i]`. |
| FitHandler.SubtractRestore | src/fitter/fit_handler.rs:55-59 | In exact arithmetic, adding the background back to the subtracted data restores the data over the common length. |
| FitHandler.NatToStringRoundTrip | src/fitter/fit_handler.rs:103 | The decimal rendering of a peak index reads back as that index. |
| FitHandler.PeakNamesDistinct | src/fitter/fit_handler.rs:101-107 | Two peak line names are equal exactly when their indices are equal. |
| FitHandler.PeakLines | src/fitter/fit_handler.rs:101-107 | The lines built from a fit: one per fitted curve, line `i` named `Peak i` and holding curve `i`'s points. |
| FitHandler.RemoveAt | src/fitter/fit_handler.rs:309 | `Vec::remove(index)` deletes exactly the element at `index`. The others keep their order, and the multiset loses only that element. |
| FitHandler.Fitter.constructor | src/fitter/fit_handler.rs:37-48 | A new fitter has empty data, no errors, no result and no lines, and it stores the given model and background. |
| FitHandler.Fitter.SubtractBackground | src/fitter/fit_handler.rs:50-64 | With no background, or a background that cannot be evaluated, the data is returned unchanged. Otherwise the result has the length of the shorter of the data and the background, and element `i` is `y[i] - bg[i]`. |
| FitHandler.Fitter.GetPeakMarkers | src/fitter/fit_handler.rs:66-74 | The markers of a Gaussian result win. Otherwise the initial peaks of a Gaussian model are returned, and otherwise none. |
| FitHandler.Fitter.Fit | src/fitter/fit_handler.rs:76-121 | The background is fitted only when it has no result yet, and an existing background result is kept. The result is set, and its kind is the model's. The fitter receives the background-subtracted data. A Gaussian fit appends one `Peak i` line per fitted curve to the lines already there, and its peak markers become the displayed ones. A linear fit leaves the lines unchanged. |
| FitHandler.Fits.constructor | src/fitter/fit_handler.rs:186-192 | A new collection has no temporary fits and no stored fits. |
| FitHandler.Fits.MergeLoaded | src/fitter/fit_handler.rs:220-222 | The loaded stored fits are appended after the current ones. The loaded temporary fits replace the current ones, even when they are None. |
| FitHandler.Fits.RemoveTempFits | src/fitter/fit_handler.rs:245-248 | Both temporary slots become None, and the stored fits are unchanged. |
| FitHandler.Fits.RemoveStoredFit | src/fitter/fit_handler.rs:308-310 | The stored fits become `RemoveAt(old, index)`, and the temporary slots are unchanged. |

## Left out

- Threads, `Arc`/`Mutex` and `JoinHandle::join`: a handle is a value with a `finished` flag, and `RunThread` runs one thread's job to completion sequentially. Interleavings of fills from several threads on one histogram are not modelled.
- The polars engine: a data frame is a map of columns of optional reals. A column that is not of f64 type, where the source's `unwrap` panics, is not modelled.
- The `Histogram`/`Histogram2D` bin arithmetic: these types are not part of this model. `fill` and `reset` are recorded as calls in a log, and `fill` sets the progress to `i / n`.
- The Gaussian, linear and background fitters' numerics: they are not part of this model and are opaque functions of the `Numerics` parameter. The convoluted line they would draw is kept but never updated.
- `reorganize` (src/histoer/histogrammer.rs:128-140): it depends on the tile library's `move_tile_to_container`, whose behaviour is not part of this model.
- Linear containers and tile visibility of the tile library: the registry creates only grids and tabs.
- All egui rendering and UI: `ui`, `side_panel_ui`, `tree_ui`, the fit tables, menus, drawing and line colours.
- File dialogs, `serde_json` and file I/O in `save_to_file`/`load_from_file`: only the merge step after a successful load is modelled (`FitHandler.Fits.MergeLoaded`). Its precondition that the loaded collection is a different object reflects that it is freshly deserialized.
- Log messages.
- f64 values are modelled as `real`: rounding, NaN and infinities are not captured. `FitHandler.SubtractRestore` holds only in exact arithmetic, and the range filter's comparisons are exact.
- `y_err` is stored and never used by the modelled operations.
- `src/processer.rs`, `src/histoer/histo2d/plot_settings.rs`, `src/lib.rs` and `src/ui/mod.rs` are not part of this model. They hold orchestration, UI settings and module declarations.
