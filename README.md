# ttcr: work partition and VTU mesh reader, modelled in Dafny

This project models two sequential pieces of the ttcr travel-time
raytracer.

The first is the driver of `ttcr2ds`. It chooses how many threads
raytrace the `nTx` sources. It computes the block size and hands each
worker a contiguous range of source indices; the calling thread takes
the rest. It picks the grid builder from the model file's extension.
It derives each source's output file names from the source file's path.

The second is the VTU mesh reader. With the VTK library abstracted
away, it decides whether a parsed unstructured grid carries a usable
"Slowness" or "Velocity" cell array. It copies out nodes in 2D or 3D,
triangle or tetrahedron connectivity (aborting on a cell of the wrong
type), and the per-cell slowness (converting velocity to its
reciprocal).

Files:

- `outcomes.dfy` — `Option` and `Result`, used for `npos`, missing
  arrays, thrown exceptions and aborts, and `Min` (`std::min`).
- `work_partition.dfy` — module `WorkPartition`: thread count, block
  size, block assignment loop, and the coverage facts about the
  resulting ranges.
- `file_names.dfy` — module `FileNames`: `rfind`, the extension
  dispatch, source-name stripping with its `size_t` arithmetic, and
  output file names.
- `vtu_reader.dfy` — module `VtuReader`: the parsed-grid datatype, the
  format check, and the class `VTUReader` with its array-filling read
  methods.

Three behaviours of the code that the model keeps:

- A file that has both a "Slowness" and a "Velocity" array is accepted,
  and "Slowness" wins.
- With no sources the driver computes zero threads, and the block-size
  computation at ttcr/ttcr2ds.cpp:62 then divides by zero.
- The ranges handed to the threads can run past the last source (see
  Findings).

`VtuReader.SelectedProperty` (which array is used: "Slowness" when
present, else "Velocity") and `VtuReader.SlownessField` (one slowness per
cell from that array, provided it has one value per cell) are the
reference definitions of the reader. The format check, the read and the
precedence lemma are stated and proved against them. The driver has reference
definitions of the same kind:
- `WorkPartition.Plan` gives the closed-form ranges. `PlanLayout`,
  `PlanCoversOnce` and `PlanInBoundsIff` characterise it.
- `FileNames.BaseName` is the part of a path after its last '/'.
  `BaseNameShape` characterises it.
- `FileNames.StripExtension` is a name cut at its last '.'.
- `FileNames.SourceStem` is the two combined. `SourceStemShape`
  characterises it.

`AssignBlocks`, `Schedule`, `StripSourceName` and `OutputFileName` are stated
against these definitions.

## Model

| member | source | states |
|---|---|---|
| `WorkPartition.NumThreads` | ttcr/ttcr2ds.cpp:51-60 | never more threads than sources, and zero only without sources; explicit mode gives the request capped by the source count; automatic mode gives at most the available threads (2 when the hardware reports 0), never uses more than `ceil(nTx / 5)` threads, and uses as many threads as both limits allow; in automatic mode, 1 to 5 sources give exactly one thread |
| `WorkPartition.BlockSize` | ttcr/ttcr2ds.cpp:62 | the block size is `nTx / k` rounded up: the smallest size such that `k` blocks hold all sources, and never more than `nTx` |
| `WorkPartition.AssignBlocks` | ttcr/ttcr2ds.cpp:127-146 | the assignment loop yields exactly the closed-form `Plan`: worker `i` gets `[i*blk, (i+1)*blk)` with id `i+1`, and the caller gets `[(k-1)*blk, nTx)` with id 0 |
| `WorkPartition.PlanLayout` | ttcr/ttcr2ds.cpp:128-146 | there are `k` ranges; the first starts at 0; consecutive ranges abut; each worker range is one block long; worker ids are 1..k-1 and the caller's is 0 |
| `WorkPartition.PlanCoversOnce` | ttcr/ttcr2ds.cpp:127-146 | for every `k` and block size, each source index below `nTx` lies in some range, and no index lies in two ranges |
| `WorkPartition.PlanInBoundsIff` | ttcr/ttcr2ds.cpp:128-143 | no range reaches an index at or beyond `nTx` if and only if `(k-1)*blk <= nTx` |
| `WorkPartition.Schedule` | ttcr/ttcr2ds.cpp:62-182 | fails with a division by zero exactly when there are no sources; otherwise returns one range per thread, equal to `Plan`, covering every source once; with one thread the caller takes `[0, nTx)` and no worker exists |
| `WorkPartition.TwentyThreeSourcesEightThreads` | ttcr/ttcr2ds.cpp:53-62 | 23 sources on 8 hardware threads: 5 threads with block size 5; four workers have 5 sources each, the caller has 20..22, and every range is in bounds |
| `WorkPartition.ExplicitModeOverrun` | ttcr/ttcr2ds.cpp:59-143 | 7 requested threads for 10 sources: block size 2, and the sixth worker is given `[10, 12)`, past the last source |
| `WorkPartition.AutoModeOverrun` | ttcr/ttcr2ds.cpp:53-143 | 81 sources on 16 hardware threads: 16 threads with block size 6, and worker 15 is given `[84, 90)`, past the last source |
| `WorkPartition.ClampedPlanExact` | ttcr/ttcr2ds.cpp:128-146 | with every range end clamped to `nTx`, the ranges cover `[0, nTx)` exactly once and stay in bounds, for every `k` and block size |
| `WorkPartition.ClampedPlanAgrees` | ttcr/ttcr2ds.cpp:128-146 | wherever the driver's ranges are in bounds, clamping leaves them unchanged |
| `FileNames.KnownExtensions` | ttcr/ttcr2ds.cpp:66-70 | the extension is ".msh" exactly when the name ends in ".msh", and ".vtu" exactly when it ends in ".vtu" |
| `FileNames.ModelFormat` | ttcr/ttcr2ds.cpp:74-86 | the `.msh` builder is chosen exactly for names ending in ".msh"; the VTU builder exactly for names ending in ".vtu" when VTK is built in; every other name, including one without a dot, is refused |
| `FileNames.LastIndexOf` | ttcr/ttcr2ds.cpp:66 | `rfind` of one character is absent exactly when the character does not occur; otherwise it is a position holding the character with none after it |
| `FileNames.RFind` | ttcr/ttcr2ds.cpp:221-223 | the backward search loop returns the last position of the character, or `npos` |
| `FileNames.Extension` | ttcr/ttcr2ds.cpp:66-70 | the extension is empty exactly when the name has no '.'; otherwise it is a suffix of the name that starts with '.' and holds no other '.' |
| `FileNames.ExtensionOfSuffix` | ttcr/ttcr2ds.cpp:66-70 | any suffix that starts with the name's only '.' in it is the extension |
| `FileNames.BaseNameShape` | ttcr/ttcr2ds.cpp:221-222 | what remains after the first erase has no '/', is a suffix of the path, and is preceded by '/' unless it is the whole path |
| `FileNames.SourceStemShape` | ttcr/ttcr2ds.cpp:220-225 | a stem exists exactly when the base name has a '.'; it is the base name up to its last '.', and holds no '/' |
| `FileNames.Erase` | ttcr/ttcr2ds.cpp:222-225 | `erase(index, count)` throws exactly when `index` is past the end; otherwise it keeps the text before `index` and drops `min(count, size - index)` characters there |
| `FileNames.EraseThroughSlash` | ttcr/ttcr2ds.cpp:221-222 | `erase(0, pos+1)` with `pos` from `rfind('/')` leaves the base name, including when `npos + 1` wraps to 0 |
| `FileNames.EraseFromDot` | ttcr/ttcr2ds.cpp:223-225 | `erase(pos, size - pos)` with `pos` from `rfind('.')` cuts at the last '.', and throws `out_of_range` when there is no '.' |
| `FileNames.StripSourceName` | ttcr/ttcr2ds.cpp:220-225 | the in-place stripping, with its `size_t` arithmetic, yields exactly the source's stem, or the `out_of_range` error when the base name has no dot |
| `FileNames.OutputFileName` | ttcr/ttcr2ds.cpp:204-234 | a single source writes `basename + "_tt.dat"` (or `"_rp.vtp"`); with several sources the name exists exactly when the stem does; every name starts with the base name and ends with the suffix |
| `FileNames.OutputFileNameMiddle` | ttcr/ttcr2ds.cpp:205-234 | between the base name and the suffix, an output name holds nothing when there is one source, and `"_"` followed by the source's stem otherwise |
| `FileNames.OutputFileNameInjective` | ttcr/ttcr2ds.cpp:227 | with several sources, two output names of one kind are equal exactly when the two sources' stems are |
| `VtuReader.Reciprocal` | ttcr/VTUReader.h:168 | a nonzero velocity gives a finite slowness whose product with it is 1; zero gives +infinity |
| `VtuReader.CheckFormat` | ttcr/VTUReader.h:181-210 | the format check passes exactly when the parse is non-null and its grid has a slowness field: an array selected by the precedence rule with one value per cell |
| `VtuReader.SlownessTakesPrecedence` | ttcr/VTUReader.h:139-155 | when "Slowness" is present, replacing or removing the "Velocity" array leaves the field unchanged |
| `VtuReader.VTUReader.constructor` | ttcr/VTUReader.h:27-30 | the reader records the file and its parse; `valid` is the format check; both counters are 0 |
| `VtuReader.VTUReader.IsValid` | ttcr/VTUReader.h:32 | reports the format check, so a valid reader has a non-null parse with a slowness field |
| `VtuReader.VTUReader.ReadNodes2D` | ttcr/VTUReader.h:50-64 | one node per point, in order, with `x` and `z` taken from the point and `y` dropped |
| `VtuReader.VTUReader.ReadNodes3D` | ttcr/VTUReader.h:66-81 | one node per point, in order, with all three coordinates |
| `VtuReader.VTUReader.ReadTriangleElements` | ttcr/VTUReader.h:83-102 | succeeds exactly when every cell is a triangle, with one element per cell holding its three point ids in order; otherwise fails at the first non-triangle cell |
| `VtuReader.VTUReader.ReadTetrahedronElements` | ttcr/VTUReader.h:104-124 | succeeds exactly when every cell is a tetrahedron, with one element per cell holding its four point ids in order; otherwise fails at the first non-tetrahedron cell |
| `VtuReader.VTUReader.ReadSlowness` | ttcr/VTUReader.h:126-173 | returns 1 exactly when the format check passes, with one value per cell: "Slowness" copied, or velocity reciprocals; returns 0 and leaves the vector unchanged otherwise; the output is the grid's slowness field |

## Left out

- VTK parsing: `vtkXMLUnstructuredGridReader`, `Update` and `GetOutput` are a foreign library. The parse result is the `output` value the reader is built with. Every accessor re-parses the file; the model assumes each parse gives the same value.
- `SafeDownCast` returning null for a cell array that is not of type double is not modelled. `GetSize()` is taken to be the array's length (one component per cell).
- The VTK guarantee that a triangle has three point ids and a tetrahedron four is built into the cell type (`VtkCell`).
- The `static_cast` narrowing of point ids to the element index type is not modelled; ids are unbounded naturals.
- The node, element and slowness reads and the two counts require a non-null parse (`output.Some?`). The C++ methods use `reader->GetOutput()` without a null check, so on a file that does not parse they would dereference null; only `check_format` tests for null. The model leaves that case out.
- `VtuReader.VTUReader.GetNumberOfElements` and `GetNumberOfNodes` are plain accessors with no contract of their own.
- `VtuReader.Reciprocal`: does not model IEEE rounding, `-0.0` (which would give -infinity) or NaN. The reciprocal is exact real division, and a zero velocity gives +infinity.
- `VtuReader.VTUReader.ReadTriangleElements` and `ReadTetrahedronElements`: `std::abort` becomes a failure result naming the offending cell. Process termination, and the output vector already resized before the abort, are not modelled.
- Threads: creating the threads, the lambdas, `join`, and the thread safety of the solver's `raytrace` are concurrency and are not modelled. Only the ranges and worker ids handed out are.
- The ray-path branch (ttcr/ttcr2ds.cpp:118-149) and the travel-time-only branch (150-182) split the sources the same way. `Schedule` models that split once; which solver call each range makes is not modelled.
- The single-thread branch calls `raytrace` without a worker id. The model gives the caller's range id 0; the solver's default argument is not part of this model.
- `nTx + 4` overflowing `size_t` in automatic mode is not modelled, because `nTx` is the size of a vector.
- `hardware_concurrency()` and whether the program was built with VTK are inputs (`hw`, `vtkSupport`).
- The loop over sources at ttcr/ttcr2ds.cpp:218-240 only writes files. The model covers each iteration's name computation (`StripSourceName`, `OutputFileName`) but not the loop or its writes.
- The solver (`Grid2D::raytrace`, `saveTT`), the grid builders (`unstruct2Ds`, `unstruct2Ds_vtu`) and the `g == nullptr` check after them are not part of this model. Neither are reading `Src` and `Rcv` files, `save_tt`, `saveRayPaths`, verbose and diagnostic output, timing, `parse_input`, `get_params`, the method switch in `main`, and the `float`/`double` choice. These are external code or I/O.

## Findings

| source | as written | input that shows it | evidently intended | confidence | as-written member | corrected member |
|---|---|---|---|---|---|---|
| ttcr/ttcr2ds.cpp:128-143 | worker `i` runs `[i*blk, (i+1)*blk)` with no bound at `nTx`, so `src[n]` is read past the end whenever `(k-1)*blk > nTx` | explicit mode, `nt = 7`, `nTx = 10`: block size 2, and the sixth worker runs indices 10 and 11 | every worker's range stays inside `[0, nTx)` (end clamped to `nTx`) | not executed | `WorkPartition.ExplicitModeOverrun` | `WorkPartition.ClampedPlanExact` |
| ttcr/ttcr2ds.cpp:53-143 | automatic mode can also choose a thread count and block size with `(k-1)*blk > nTx` | automatic mode, 16 hardware threads, `nTx = 81`: 16 threads, block size 6, and worker 15 runs indices 84..89 | as above | not executed | `WorkPartition.AutoModeOverrun` | `WorkPartition.ClampedPlanExact` |

`WorkPartition.PlanInBoundsIff` gives the exact condition for the
overrun. `WorkPartition.ClampedPlanAgrees` shows that clamping changes
nothing whenever the driver's ranges are already in bounds.
`WorkPartition.Schedule` keeps the driver's ranges as written, because
it models the driver.
