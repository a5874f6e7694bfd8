# heat_transfer in Dafny

A model of the core of `heat_transfer`, a one-dimensional transient heat-conduction solver for walls. The solver has four interchangeable backends: a CPU solver and three GPU layouts, M1, M2 and M3. Around the solver sit:

- the reader that turns FDS input records (`&RAMP`, `&MATL`, `&SURF`, `&MISC`) and device files into wall elements;
- the drivers that compare the solver with FDS and benchmark it;
- the selection rules and file conventions of the command line program.

Floats are modelled as mathematical reals. Float parsing, float formatting and `sqrt` are function parameters. Files, clocks and GPU calls are inputs or are left out.

Modules, one file each:

- `Wrappers`, `Reals`, `Lists`, `Text`: the `Result`/`Option` types, real and list helpers, and the string operations of Rust's standard library the program uses (`trim`, `split`, `contains`, `replace`, `usize` parsing and printing).
- `Properties`, `Ramps`, `Materials`, `Surfaces`, `Meta`, `Devices`: the FDS input model. Property lists become ramps, materials, surfaces and the wall description; device columns are matched and projected.
- `Wall`: wall cells, the chunk size (a parameter instead of a global) and the GPU buffer sizes.
- `Cpu`, `Thomas`: the CPU backend. It covers sub-stepping, the boundary closure, matrix assembly, the Thomas solve and the per-element update.
- `Dispatch`, `GpuM1`, `GpuM2`, `GpuM3`, `Shader`: the GPU backends' data layout, chunking and dispatch counts, and the kernel text generation.
- `Simulations`, `SimBenchmark`, `Temperature`, `Benchmarks`: selection flags, loading a 1D simulation, the benchmark and temperature drivers, and the benchmark catalogue.
- `FdsRuns`, `Sampler`, `FdsBenchmark`, `Modification`: running FDS, generating its inputs from templates, the FDS speed test, and modification times.
- `Cli`, `Plot`: the program's stages and `benchmarks.txt`, and which plots are started and how their results are reported.

## Model

| member | source | states |
|---|---|---|
| Ramps.Above | src/fds/ramp.rs:15-21 | the search returns the first breakpoint index at or after `i` whose temperature exceeds `t`, and none exactly when every later temperature is at most `t` |
| Ramps.CalcWithinValues | src/fds/ramp.rs:11-23 | a table whose values are all at least (above) a bound yields a value at least (above) that bound at every temperature |
| Ramps.CalcFromAbove | src/fds/ramp.rs:15-22 | the interpolation loop stops at the first breakpoint above `t` and interpolates from its predecessor, or falls through to the last value |
| Ramps.CalcCases | src/fds/ramp.rs:11-23 | `calc` yields the first value at or below the first temperature, the last value past every later temperature, and otherwise the linear interpolation between the first breakpoint above `t` and the one before it |
| Ramps.CalcBetween | src/fds/ramp.rs:15-20 | an interpolated value lies between the two neighbouring breakpoint values, in whichever order they are, without requiring the table to be sorted |
| Ramps.CalcAscendingTail | src/fds/ramp.rs:15-22 | on a table with strictly ascending temperatures, any temperature at or past the last breakpoint yields the last value |
| Ramps.CalcExample | src/fds/ramp.rs:11-23 | the two-point table (0,10),(10,20) yields 10 below its range, 15 half-way and 20 above it |
| Ramps.Multiply | src/fds/ramp.rs:26-31 | `multiply` keeps the number of breakpoints and every temperature and scales every value by the factor |
| Ramps.CalcMultiply | src/fds/ramp.rs:11-31 | evaluating a scaled table equals scaling the evaluation of the original table, at every temperature |
| Ramps.AboveSameTemperatures | src/fds/ramp.rs:15-17 | the breakpoint search depends only on the temperatures of the table, not on its values |
| Ramps.FromValue | src/fds/ramp.rs:33-37 | a ramp made from one value has a single breakpoint and evaluates to that value at every temperature |
| Ramps.LineStepSummary | src/fds/ramp.rs:101-120 | one step of the property loop fails exactly on an unparsable `T` or `F` and otherwise keeps the last `ID`, `T` and `F` seen so far |
| Properties.Scan | src/fds/ramp.rs:101-120 | the property loop shared by the three readers succeeds iff every remaining property is accepted, and then holds the whole list's summary, whenever each step follows the summary |
| Ramps.LineScanFollows | src/fds/ramp.rs:101-120 | after every prefix the ramp-line step accepts exactly the properties whose `T` or `F` parses and keeps the last `ID`, `T` and `F` |
| Ramps.TryRampLine | src/fds/ramp.rs:96-133 | a ramp line is read iff every `T` and `F` parses and `ID`, `T` and `F` all occur; it then carries the last occurrence of each |
| Ramps.AddLine | src/fds/ramp.rs:62-71 | a line with the last entry's ID extends that entry without adding one; any other ID appends a new entry; earlier entries are unchanged |
| Ramps.AddLineKeeps | src/fds/ramp.rs:62-71 | adding a line appends its breakpoint to the flattened list and keeps entries non-empty with different IDs next to each other |
| Ramps.TryAdd | src/fds/ramp.rs:59-72 | `try_add_from_properties` succeeds iff the line can be read and then performs the append step with that line |
| Ramps.BuildGroups | src/fds/ramp.rs:59-72 | adding a sequence of lines one by one keeps every breakpoint in input order and groups runs of equal IDs |
| Ramps.Find | src/fds/ramp.rs:75-79 | `find` returns the ramp of the first entry with that ID, and nothing iff no entry has it |
| Materials.StepSummary | src/fds/material.rs:81-133 | one step of the property loop fails exactly on an unknown ramp name or an unparsable number, and otherwise holds each field from its last setter so far |
| Materials.ScanFollows | src/fds/material.rs:81-133 | after every prefix the material step accepts exactly the readable properties and keeps each field from its last setter in the prefix |
| Materials.SummaryComplete | src/fds/material.rs:135-139 | when every property reads, a field is missing only when no property sets it |
| Materials.TryMaterial | src/fds/material.rs:71-153 | a material is read iff every property reads and ID, a specific heat, a conductivity, density and emissivity are all given; each field then comes from its last setter |
| Materials.SpecificHeatScaled | src/fds/material.rs:84-100 | a specific heat, from a named ramp or a constant, is stored as 1000 times the given value at every temperature |
| Materials.ConductivityUnscaled | src/fds/material.rs:101-116 | a conductivity is stored as given: the named ramp itself, or the constant at every temperature |
| Materials.TryAdd | src/fds/material.rs:28-38 | adding a material appends exactly the read entry and keeps the list before it; an unreadable material is an error |
| Materials.TryAddFinds | src/fds/material.rs:28-48 | after adding, a name already listed is found at its old index, a new name at the new entry, and the material list gains exactly the new material |
| Materials.FindIndex | src/fds/material.rs:41-43 | `find_index` yields the first entry with that name, and nothing iff no entry has it |
| Materials.IntoMaterials | src/fds/material.rs:46-48 | dropping the names keeps every material in order |
| Surfaces.TotalWeight | src/fds/surface.rs:196-199 | the total weight `s_n` a layer of `n` cells is divided by is at least 1 |
| Surfaces.CountFrom | src/fds/surface.rs:195-204 | the search from `n` on returns the first cell count whose start size falls below the reference size, or 999 if none does, with start size `thickness / s_n` |
| Surfaces.CellCountAndStartSize | src/fds/surface.rs:192-205 | the cell count is the least `n` in 1..999 whose start size `thickness / s_n` is below the reference size, 999 when none is, and every smaller count was too coarse |
| Surfaces.LayerSizesSymmetric | src/fds/surface.rs:182-183 | the cell sizes of a layer mirror about its middle: small cells at both borders, larger ones inside |
| Surfaces.LayerSizesSum | src/fds/surface.rs:183-199 | the sizes of a layer add up to its start size times the same `s_n` the count search uses |
| Surfaces.LayerFillsThickness | src/fds/surface.rs:181-201 | a layer started at `thickness / s_n` fills exactly its thickness |
| Surfaces.LayerCellsThickness | src/fds/surface.rs:166-188 | a layer has at least one cell, every cell carries its material, and their sizes sum to the layer's thickness |
| Surfaces.AllLayers | src/fds/surface.rs:155-159 | pairing materials with thicknesses yields at least one cell whenever at least one pair exists |
| Surfaces.AllLayersThickness | src/fds/surface.rs:155-159 | the inner cells of a surface fill the total thickness of the layers that `zip` pairs up |
| Surfaces.SurfaceCells | src/fds/surface.rs:150-163 | a surface is its layers' cells with the first cell repeated at the front and the last at the back |
| Surfaces.ResolveAll | src/fds/surface.rs:94-105 | a MATL_ID list resolves iff every name is a known material, one index per name |
| Surfaces.ParseAll | src/fds/surface.rs:107-117 | a THICKNESS list parses iff every piece parses, one value per piece |
| Surfaces.StepSummary | src/fds/surface.rs:91-126 | one step of the property loop fails exactly on an unknown material or an unparsable thickness and otherwise holds each field from its last setter so far |
| Surfaces.ScanFollows | src/fds/surface.rs:91-126 | after every prefix the surface step accepts exactly the readable properties and keeps each field from its last setter in the prefix |
| Surfaces.MaterialIdsComplete | src/fds/surface.rs:94-128 | when every property reads, the material list is missing only when no MATL_ID is given |
| Surfaces.ThicknessesComplete | src/fds/surface.rs:107-128 | when every property reads, the thicknesses are missing only when neither THICKNESS nor a true HT3D is given |
| Surfaces.Finish | src/fds/surface.rs:128-146 | the check after the loop succeeds iff ID, MATL_ID and thicknesses were all set, and then builds the surface from them |
| Surfaces.TrySurface | src/fds/surface.rs:83-147 | a surface is read iff every property reads and ID, MATL_ID and a thickness setter all occur; its cells are built from the last material list and the last thicknesses |
| Surfaces.MaterialIdsValid | src/fds/surface.rs:100-104 | resolved material indexes are in range and never empty |
| Surfaces.ThicknessesPresent | src/fds/surface.rs:107-123 | a thickness setter always yields at least one thickness, so the cell list is never empty |
| Surfaces.TryAdd | src/fds/surface.rs:38-48 | adding a surface appends exactly the read entry and keeps the list before it; an unreadable surface is an error |
| Surfaces.AppendFinds | src/fds/surface.rs:43-60 | after appending, a name already listed still finds its old surface and a new name finds the new one |
| Surfaces.FindSurfaceIndex | src/fds/surface.rs:51-53 | `find_index` yields the first surface with that name, and nothing iff no entry has it |
| Surfaces.FindSurface | src/fds/surface.rs:56-60 | `find` returns the surface at the index `find_index` reports, and nothing exactly when it reports nothing |
| Meta.ResolveSurfaces | src/fds/meta.rs:61-69 | the surface names resolve iff every name is a known surface, to the index of each in order |
| Meta.TryNew | src/fds/meta.rs:29-74 | without dimensions the header is 1D iff every surface is known, with those indexes in order; with dimensions it is 3D iff exactly one surface is named, the three sizes parse as `usize` and the surface is known |
| Devices.HeaderColumns | src/fds/device.rs:35 | header cells are the comma-separated pieces with every double quote removed |
| Devices.LastColumn | src/fds/device.rs:35-41 | the column recorded for a device is the last header column equal to its name, and none iff no column equals it |
| Devices.TryNew | src/fds/device.rs:24-54 | opening succeeds iff every requested device names some column of the second line; each device then maps to its last matching column, in request order |
| Devices.MarkColumn | src/fds/device.rs:36-40 | one header column is recorded for exactly the devices it names; every other device keeps its column |
| Devices.LastColumnSnoc | src/fds/device.rs:35-41 | scanning one more header column changes a device's column only when that column names it |
| Devices.Collect | src/fds/device.rs:44-53 | collecting succeeds iff every device was found, keeping the columns in request order |
| Devices.Next | src/fds/device.rs:60-82 | the iterator ends exactly at the end of the file; otherwise a row yields the selected trimmed cells parsed in request order, or an error iff one of them does not parse |
| Devices.Project | src/fds/device.rs:67-81 | a row projects to one parsed value per selected column, in request order, or fails iff a selected cell is not a number |
| Wall.MaxElementsPerChunk | src/heat_transfer/one_dimensional/mod.rs:20-44 | the chunk size read back is the last value set, or 16384 when nothing was set |
| Wall.PairBufferBytes | src/heat_transfer/one_dimensional/mod.rs:130-144 | the coefficient and `q` buffers hold exactly one `[f32; 2]` per wall element |
| Cpu.MaxRate | src/heat_transfer/one_dimensional/cpu.rs:96-113 | the running maximum is non-negative, bounds the rate of every interior cell seen so far and equals one of them once any was seen |
| Cpu.MaxDeltaTemperature | src/heat_transfer/one_dimensional/cpu.rs:71-116 | the estimate is the largest temperature-change rate over the interior cells, 0 for an element without interior cells, and never negative |
| Cpu.NextFlux | src/heat_transfer/one_dimensional/cpu.rs:97-106 | one turn of the loop computes the conductive flux between cell `i` and cell `i + 1` with the mean conductivity the source uses |
| Cpu.CeilLog2 | src/heat_transfer/one_dimensional/cpu.rs:126 | the exponent is the least `k` with `2^k >= eta`, the exact value of `ceil(log2(eta))` |
| Cpu.CeilLog2Unique | src/heat_transfer/one_dimensional/cpu.rs:126 | any `k` with `2^(k-1) < eta <= 2^k` is the computed exponent |
| Cpu.Repeats | src/heat_transfer/one_dimensional/cpu.rs:120-128 | the time step is cut into 1 sub-step up to a change of 10 degrees, 2 up to 20, and 4 beyond |
| Cpu.RepeatsBounds | src/heat_transfer/one_dimensional/cpu.rs:124-127 | the exponent is 0 at `eta = 1`, 1 up to `eta = 2`, and gives at least 4 past it, which the clamp cuts to 4 |
| Cpu.RepeatsMonotone | src/heat_transfer/one_dimensional/cpu.rs:120-128 | a larger temperature change never gives fewer sub-steps |
| Cpu.RepeatsAsWritten | src/heat_transfer/one_dimensional/cpu.rs:120-128 | with the exponent cast to `u32` and `usize::pow` wrapping, the sub-step count still lies in 1..4 |
| Cpu.RepeatsAsWrittenAgrees | src/heat_transfer/one_dimensional/cpu.rs:124-127 | up to a change of `10 * 2^63` degrees the written integer code gives the intended sub-step count |
| Cpu.RepeatsWrapExample | src/heat_transfer/one_dimensional/cpu.rs:124-127 | at a change of `10 * 2^64` degrees `2^64` wraps to 0, the clamp makes it 1 sub-step, where 4 are intended |
| Cpu.SideClosure | src/heat_transfer/one_dimensional/cpu.rs:139-159 | the adiabatic sentinel yields (1, 0) and the fixed-temperature sentinel yields (-1, 2q) |
| Cpu.SideClosureMeaning | src/heat_transfer/one_dimensional/cpu.rs:138-185 | the ghost temperature `rfac2 * t1 + qdxk` equals the neighbour on an adiabatic side, averages to the fixed temperature on a constant-temperature side, and otherwise balances conduction against convection plus linearised emission |
| Cpu.RobinBalance | src/heat_transfer/one_dimensional/cpu.rs:154-157 | the two Robin coefficients make the ghost value satisfy the flux balance at the face |
| Cpu.ClosureOf | src/heat_transfer/one_dimensional/cpu.rs:132-188 | each side's sentinel coefficient selects that side's fixed closure values, independently of the other side |
| Cpu.ClosureLocal | src/heat_transfer/one_dimensional/cpu.rs:138-185 | the front closure depends only on the first two cells and the front inputs, the back closure only on the last two cells and the back inputs |
| Cpu.Rows | src/heat_transfer/one_dimensional/cpu.rs:192-248 | the scheme has one row per interior cell |
| Cpu.RowsAt | src/heat_transfer/one_dimensional/cpu.rs:216-245 | row `j` of the carried-state loop is the closed-form row of interior cell `j + 1` |
| Cpu.PopulateSolveMatrix | src/heat_transfer/one_dimensional/cpu.rs:192-248 | the loop that carries the previous cell's values yields exactly the closed-form rows, one per interior cell, each with diagonal `1 - a - b` |
| Cpu.Fold | src/heat_transfer/one_dimensional/cpu.rs:265-269 | folding the closure keeps the number of rows |
| Cpu.Extend | src/heat_transfer/one_dimensional/cpu.rs:282-286 | the written-back temperatures are the interior solution with each ghost cell set from its neighbour by its side's closure |
| Cpu.FoldMeaning | src/heat_transfer/one_dimensional/cpu.rs:262-286 | a vector solves the folded system iff, extended by its two ghost cells, it solves every original row |
| Cpu.FoldMeaningAt | src/heat_transfer/one_dimensional/cpu.rs:265-269 | each folded row holds iff the original row holds over the extended vector |
| Cpu.FoldFront | src/heat_transfer/one_dimensional/cpu.rs:265-268 | substituting the ghost cell into a boundary row is the same as folding `b * rfac2` into the diagonal and `b * qdxk` into the right-hand side |
| Cpu.FoldBoth | src/heat_transfer/one_dimensional/cpu.rs:265-269 | with one interior cell both ghost cells fold into the same row |
| Cpu.WithTemperaturesMeaning | src/heat_transfer/one_dimensional/cpu.rs:282-286 | writing back temperatures keeps every cell's size and material and sets exactly the given temperatures |
| Cpu.SolveSpec | src/heat_transfer/one_dimensional/cpu.rs:252-287 | one implicit step changes only temperatures |
| Cpu.FoldClosure | src/heat_transfer/one_dimensional/cpu.rs:265-269 | the four in-place updates equal folding the closure into the first and last rows |
| Cpu.WriteBack | src/heat_transfer/one_dimensional/cpu.rs:282-286 | the interior cells take the solution and each boundary cell is its neighbour times `rfac2` plus `qdxk` |
| Cpu.SolveHeatTransfer | src/heat_transfer/one_dimensional/cpu.rs:252-287 | the solve keeps the layout, sets both ghost cells by the closure and, whenever no pivot vanishes, the new temperatures satisfy every row of the implicit scheme |
| Cpu.Steps | src/heat_transfer/one_dimensional/cpu.rs:302-310 | repeated sub-steps keep every cell's size and material |
| Cpu.Advance | src/heat_transfer/one_dimensional/cpu.rs:291-311 | one call keeps every cell's size and material; a uniform wall is left unchanged both when adiabatic on both sides (`Cpu.SteadyStatePhysical`) and when held at its own temperature on both sides (`Cpu.ConstAdvance`) |
| Cpu.HeatTransfer | src/heat_transfer/one_dimensional/cpu.rs:291-311 | the loop runs `repeats` sub-steps of `delta_time / repeats`, each with the closure recomputed from the current element, and matches the closed form |
| Cpu.SubStep | src/heat_transfer/one_dimensional/cpu.rs:303-309 | one pass computes the closure from the current element and applies one implicit step with it |
| Cpu.Faces | src/heat_transfer/one_dimensional/cpu.rs:58-62 | one pair of face temperatures per element |
| Cpu.Update | src/heat_transfer/one_dimensional/cpu.rs:32-66 | every element is advanced independently with its own coefficients and inputs, keeps its length, and the reported faces are the means of its two outermost cells on each side |
| Cpu.AppendAdvanced | src/heat_transfer/one_dimensional/cpu.rs:49-64 | advancing one more element keeps every earlier element advanced by its own inputs |
| Cpu.PhysicalBounds | src/heat_transfer/one_dimensional/cpu.rs:192-248 | for physical material data the conductivity is non-negative and `2 * rho * c` is positive at every temperature |
| Cpu.CouplingNonPositive | src/heat_transfer/one_dimensional/cpu.rs:192-248 | with a non-negative time step, a non-negative conductivity and positive widths and heat capacity, an off-diagonal coefficient is at most zero |
| Cpu.RowSigns | src/heat_transfer/one_dimensional/cpu.rs:192-248 | for physical data and a non-negative time step every assembled row has non-positive off-diagonals and diagonal `1 - a - b` |
| Cpu.FoldDominant | src/heat_transfer/one_dimensional/cpu.rs:262-269 | folding ghost factors of at most one into such rows yields a diagonally dominant system |
| Cpu.SchemeDominant | src/heat_transfer/one_dimensional/cpu.rs:252-280 | for physical data, a non-negative time step and ghost factors of at most one, the system handed to the Thomas solve is dominant and no pivot vanishes, so the solve's result satisfies every row of the scheme |
| Cpu.SideClosureAtMostOne | src/heat_transfer/one_dimensional/cpu.rs:132-187 | every side's ghost factor is at most one: 1 when adiabatic, -1 at a fixed temperature, and at most one for a convective side with non-negative coefficient, emissivity, conductance and face temperature |
| Cpu.UniformRates | src/heat_transfer/one_dimensional/cpu.rs:71-118 | in a wall at one uniform temperature every flux and every rate is zero, so the largest temperature change is zero |
| Cpu.UniformRows | src/heat_transfer/one_dimensional/cpu.rs:192-248 | in a uniform wall at temperature `T` every row has right-hand side `T` and diagonal `1 - a - b` |
| Cpu.FoldStochastic | src/heat_transfer/one_dimensional/cpu.rs:262-269 | such rows closed adiabatically have coefficients summing to one and right-hand side `T` on every row |
| Cpu.UniformSolution | src/heat_transfer/one_dimensional/cpu.rs:262-280 | with non-zero pivots, the Thomas solve of a uniform, adiabatically closed wall returns the uniform temperature in every interior cell |
| Cpu.UniformWriteBack | src/heat_transfer/one_dimensional/cpu.rs:282-286 | writing the uniform temperature back, the ghost cells copying their neighbours, leaves the wall as it was |
| Cpu.UniformSolve | src/heat_transfer/one_dimensional/cpu.rs:252-287 | one implicit step leaves a uniform, adiabatically closed wall unchanged when its pivots are non-zero |
| Cpu.AdvanceOnce | src/heat_transfer/one_dimensional/cpu.rs:291-311 | when no subdivision is needed, `heat_transfer` is a single implicit step over the whole time step, closed from the current element |
| Cpu.SteadyState | src/heat_transfer/one_dimensional/cpu.rs:291-311 | a uniform wall adiabatic on both sides is a fixed point of `heat_transfer` whenever its pivots are non-zero: it takes a single sub-step and every cell keeps its temperature |
| Cpu.SteadyStatePhysical | src/heat_transfer/one_dimensional/cpu.rs:291-311 | the same fixed point with no pivot hypothesis, for physical data and a non-negative time step |
| Cpu.SteadyFaces | src/heat_transfer/one_dimensional/cpu.rs:32-66 | the face temperatures `update` reports for such an element are both the uniform temperature |
| Cpu.ConstClosure | src/heat_transfer/one_dimensional/cpu.rs:138-167 | the closure of two `CONST_TEMP_H` sides at `T` has ghost factors of at most one |
| Cpu.FoldConstSolves | src/heat_transfer/one_dimensional/cpu.rs:262-269 | rows with diagonal `1 - a - b` and right-hand side `T`, closed at the fixed temperature `T` on both sides, are solved by the all-`T` vector |
| Cpu.ConstSolution | src/heat_transfer/one_dimensional/cpu.rs:262-280 | with non-zero pivots, the Thomas solve of a uniform wall held at its own temperature `T` on both sides returns `T` in every interior cell |
| Cpu.ConstWriteBack | src/heat_transfer/one_dimensional/cpu.rs:282-286 | writing `T` back with each ghost cell mirrored about `T` (`-T + 2T`) leaves the wall as it was |
| Cpu.ConstSolve | src/heat_transfer/one_dimensional/cpu.rs:252-287 | one implicit step leaves a uniform wall held at its own temperature on both sides unchanged when its pivots are non-zero |
| Cpu.ConstClosureOf | src/heat_transfer/one_dimensional/cpu.rs:138-187 | two `CONST_TEMP_H` sides with `q = (T, T)` give the closure `(-1, 2T)` on each side |
| Cpu.ConstAdvance | src/heat_transfer/one_dimensional/cpu.rs:291-311 | a wall at uniform temperature `T` with both sides `CONST_TEMP_H` and `q = (T, T)` is a fixed point of `heat_transfer` for physical data and a non-negative step: a single sub-step, and every cell stays at `T` |
| Cpu.ConstFaces | src/heat_transfer/one_dimensional/cpu.rs:32-66 | the face temperatures `update` reports for such an element are both `T` |
| Thomas.Solve | src/heat_transfer/one_dimensional/cpu.rs:271-280 | the in-place solve computes the Thomas solution and, whenever no pivot vanishes, that solution satisfies every row of the system |
| Thomas.ForwardElimination | src/heat_transfer/one_dimensional/cpu.rs:271-275 | the first loop leaves in each row the pivot and reduced right-hand side of Gaussian elimination on a tridiagonal system |
| Thomas.BackSubstitution | src/heat_transfer/one_dimensional/cpu.rs:277-280 | the second loop yields the back-substituted unknowns from the last row upward |
| Thomas.SolutionSolves | src/heat_transfer/one_dimensional/cpu.rs:271-280 | with non-zero pivots the computed vector satisfies every original row |
| Thomas.SolutionUnique | src/heat_transfer/one_dimensional/cpu.rs:271-280 | with non-zero pivots every solution of the system is the computed one |
| Thomas.SolvesUpper | src/heat_transfer/one_dimensional/cpu.rs:271-275 | any solution of the original system satisfies the eliminated system |
| Thomas.BackSubUnique | src/heat_transfer/one_dimensional/cpu.rs:277-280 | any solution equals the back-substituted value at every index |
| Thomas.UpperAt | src/heat_transfer/one_dimensional/cpu.rs:277-280 | back substitution satisfies each row of the eliminated system |
| Thomas.Eliminate | src/heat_transfer/one_dimensional/cpu.rs:272-274 | one elimination step turns an original row into its eliminated form |
| Thomas.Recover | src/heat_transfer/one_dimensional/cpu.rs:272-274 | one elimination step can be undone: the eliminated row gives back the original row |
| Thomas.DominantPivots | src/heat_transfer/one_dimensional/cpu.rs:271-275 | on a dominant system, whose off-diagonals are non-positive and whose diagonal is at least one minus them, every pivot is at least one; the folded scheme is such a system for physical data (`Cpu.SchemeDominant`) |
| Thomas.DominantNonzero | src/heat_transfer/one_dimensional/cpu.rs:271-280 | such a system never divides by a zero pivot |
| Thomas.ConstantSolves | src/heat_transfer/one_dimensional/cpu.rs:271-280 | a constant vector solves a system whose coefficients sum to one on every row and whose right-hand sides equal that constant; a uniform, adiabatically closed wall gives such a system (`Cpu.FoldStochastic`) |
| Dispatch.Groups | src/heat_transfer/one_dimensional/gpu_m1.rs:155 | the work-group count is the least number of 256-wide groups that covers every element of the chunk, and 0 only for an empty chunk |
| Dispatch.ChunkedUpdate | src/heat_transfer/one_dimensional/gpu_m1.rs:63-233 | the output has one pair per element and chunk `k` of the output is exactly what the kernel computed from chunk `k` of the coefficients and of `q`; with a per-element kernel the output does not depend on the chunk size (`Dispatch.ChunkSizeInvariant`) |
| Dispatch.PiecesShaped | src/heat_transfer/one_dimensional/gpu_m1.rs:70-95 | when each chunk's result keeps its chunk's length, the concatenated results chunk back into the same pieces |
| Dispatch.PiecesPlaced | src/heat_transfer/one_dimensional/gpu_m1.rs:70-95 | the concatenated chunk results have one pair per element and place every chunk's result at its chunk's position |
| Dispatch.ChunkOf | src/heat_transfer/one_dimensional/gpu_m1.rs:73-77 | every element lies in exactly the chunk `i / m`, so each element is handled once |
| Dispatch.PerElement | src/heat_transfer/one_dimensional/gpu_m1.rs:70-95 | a kernel applying one function to each element's coefficient pair and `q` pair leaves one pair per element |
| Dispatch.ChunkSizeInvariant | src/heat_transfer/one_dimensional/gpu_m1.rs:70-95 | with a per-element kernel the chunked update equals the element-wise map, so every maximum chunk size gives the same output |
| GpuM1.BuildChunk | src/heat_transfer/one_dimensional/gpu_m1.rs:127-140 | each element's running end index minus its start is its length, and its cells sit between the two in the chunk's cell buffer |
| GpuM1.PrefixStep | src/heat_transfer/one_dimensional/gpu_m1.rs:131-133 | one more element adds its length to the running index and appends its cells |
| GpuM1.Build | src/heat_transfer/one_dimensional/gpu_m1.rs:113-169 | one chunk per slice of at most the chunk size of the elements, each built from exactly that slice |
| GpuM1.BuildCovers | src/heat_transfer/one_dimensional/gpu_m1.rs:113-169 | no chunk is empty, all but the last are full, there are none only for no elements, and the chunks' cells concatenate to every element's cells in order |
| GpuM2.Differs | src/heat_transfer/one_dimensional/gpu_m2.rs:145-149 | the test in `build` holds iff the element's cell sizes and materials are not exactly those of the open run |
| GpuM2.AllTemperaturesSnoc | src/heat_transfer/one_dimensional/gpu_m2.rs:172-174 | one more element of a run appends its cell temperatures to the run's buffer |
| GpuM2.Build | src/heat_transfer/one_dimensional/gpu_m2.rs:135-187 | the runs tile all elements from 0 on; each run is non-empty, all its elements share the sizes and materials compiled into its kernel, and it holds their temperatures in order |
| GpuM2.Scan | src/heat_transfer/one_dimensional/gpu_m2.rs:144-175 | one element either joins the open run or, when its signature changes, closes the run and opens a new one, keeping the loop invariant |
| GpuM2.CloseRun | src/heat_transfer/one_dimensional/gpu_m2.rs:151-160 | closing the open run appends a run for exactly the elements since its start, with the open signature |
| GpuM2.RunsCover | src/heat_transfer/one_dimensional/gpu_m2.rs:135-187 | every element lies in exactly one run |
| GpuM2.TilesOrdered | src/heat_transfer/one_dimensional/gpu_m2.rs:169-171 | later runs start at or after the end of earlier ones |
| GpuM2.TilesBounded | src/heat_transfer/one_dimensional/gpu_m2.rs:169-171 | no run ends past the last element |
| GpuM2.RunsChange | src/heat_transfer/one_dimensional/gpu_m2.rs:145-170 | a new run starts only where the cell sizes or materials change |
| GpuM2.OneSignatureOneRun | src/heat_transfer/one_dimensional/gpu_m2.rs:135-187 | elements that all share one layout form one run, whatever their number; method 2 has no chunk-size bound |
| GpuM2.Update | src/heat_transfer/one_dimensional/gpu_m2.rs:52-201 | each run is given its slice of the coefficients and of `q`, and its kernel's result lands in that same slice of the output |
| GpuM2.PlacedSnoc | src/heat_transfer/one_dimensional/gpu_m2.rs:71-74 | splitting off the next run's slice of the output keeps earlier runs' results in place |
| GpuM3.MaxCellCount | src/heat_transfer/one_dimensional/gpu_m3.rs:40-44 | the record width is the length of the longest element, 0 for no elements |
| GpuM3.AsU32 | src/heat_transfer/one_dimensional/gpu_m3.rs:139 | the stored cell count is the length truncated to 32 bits, and the length itself below `2^32` |
| GpuM3.CellsWords | src/heat_transfer/one_dimensional/gpu_m3.rs:145 | cells are laid out as three 4-byte words each |
| GpuM3.Padded | src/heat_transfer/one_dimensional/gpu_m3.rs:140-142 | padding appends default cells up to the record width and keeps the element's own cells first |
| GpuM3.Record | src/heat_transfer/one_dimensional/gpu_m3.rs:139-148 | every element's record has the same width: one count word plus the padded cells |
| GpuM3.CellsRoundTrip | src/heat_transfer/one_dimensional/gpu_m3.rs:143-147 | reading the cell words back yields the cells that were written |
| GpuM3.RecordRoundTrip | src/heat_transfer/one_dimensional/gpu_m3.rs:139-148 | reading a record back (count, then that many cells) yields exactly the element, padding dropped |
| GpuM3.RecordsSnoc | src/heat_transfer/one_dimensional/gpu_m3.rs:148 | appending one more record puts it at its fixed offset and keeps earlier records in place |
| GpuM3.RecordKept | src/heat_transfer/one_dimensional/gpu_m3.rs:148 | appending words never moves a record that is already complete |
| GpuM3.BuildChunk | src/heat_transfer/one_dimensional/gpu_m3.rs:135-159 | a chunk's buffer is its elements' records back to back, with one work group per 256 elements |
| GpuM3.ChunkReadsBack | src/heat_transfer/one_dimensional/gpu_m3.rs:135-159 | the kernel finds every element of a chunk intact in the record at its index |
| GpuM3.Setup | src/heat_transfer/one_dimensional/gpu_m3.rs:36-171 | records are padded to the longest element, and there is one built chunk per slice of at most the chunk size |
| GpuM3.GroupsBounded | src/heat_transfer/one_dimensional/gpu_m3.rs:129-142 | no element of any chunk is longer than the record width, so the padding count never underflows |
| GpuM3.BuildAll | src/heat_transfer/one_dimensional/gpu_m3.rs:129-169 | the outer loop builds exactly one chunk per group, each from that group |
| Shader.Leading | src/heat_transfer/shader.rs:12-23 | the first branch tests the first temperature and returns the first value; every later branch interpolates from the previous point |
| Shader.Branches | src/heat_transfer/shader.rs:10-24 | a ramp of `n` points gets `n + 1` branches, the last returning the last value |
| Shader.RampToBody | src/heat_transfer/shader.rs:5-27 | the loop that carries `last_t` and `last_f` yields exactly the branch text of the ramp: a single `return` for one point, else the `if` chain closed by `else` |
| Shader.LeadingSnoc | src/heat_transfer/shader.rs:16-22 | one more point appends its `else if` branch to the text |
| Shader.BranchesText | src/heat_transfer/shader.rs:10-24 | the branch text is the leading branches followed by the closing `else` |
| Shader.GeneratedIsCalc | src/heat_transfer/shader.rs:12-24 | on strictly ascending breakpoints the generated kernel function returns what `Ramp::calc` does at every temperature, although it tests `<=` where `calc` tests `<` |
| Shader.GeneratedFromIsCalcFrom | src/heat_transfer/shader.rs:16-24 | from breakpoint `i` on, the kernel's `else if` chain and the interpolation loop of `calc` agree |
| Shader.AtBreakpoint | src/heat_transfer/shader.rs:17-19 | exactly at a later breakpoint both the kernel and `calc` yield that breakpoint's value |
| Shader.Arms | src/heat_transfer/shader.rs:36-67 | the arms of a `switch` are one per material in index order, material 0 as `default` and the others as `case` |
| Shader.ArmLabel | src/heat_transfer/shader.rs:55-65 | the `case` label of material `id` reads back as `id` |
| Shader.InsertMaterialData | src/heat_transfer/shader.rs:30-77 | the four `switch` bodies hold one arm per material in index order, and the kernel text is the original with the four markers replaced in turn |
| Shader.AllArmsSnoc | src/heat_transfer/shader.rs:36-67 | one more material appends its arm to each of the four bodies |
| Shader.ArmsSnoc | src/heat_transfer/shader.rs:36-67 | one more material appends its arm |
| Shader.CountLineReadsBack | src/heat_transfer/shader.rs:83-115 | the inserted count line holds `n` and `n - 2`, and both read back |
| Shader.MaterialItemsRoundTrip | src/heat_transfer/shader.rs:95-101 | the material array of method 2 reads back to every id in order |
| Shader.DecodeItem | src/heat_transfer/shader.rs:97-100 | one id followed by `u, ` is read back in front of the rest |
| Shader.InsertGpuM2Places | src/heat_transfer/shader.rs:80-107 | a kernel holding each of the three markers once, in order, gets each generated line at its marker's place and is otherwise unchanged |
| Shader.ReplaceThree | src/heat_transfer/shader.rs:103-106 | three replacements of patterns that each occur once put each replacement at its pattern's place |
| Shader.InsertGpuM3Once | src/heat_transfer/shader.rs:110-117 | a kernel with the marker once gets the count line in its place |
| Shader.InsertGpuM3Absent | src/heat_transfer/shader.rs:110-117 | a kernel without the marker is left unchanged |
| Simulations.AnyOverlaps | src/heat_transfer/simulations/mod.rs:38-40 | the `any` over the requested methods holds iff some requested method shares a bit with this one |
| Simulations.IsSimulationType | src/heat_transfer/simulations/mod.rs:36-43 | with no request every method is selected; otherwise a method is selected iff it shares a bit with a requested one |
| Simulations.SingleMethodsDisjoint | src/heat_transfer/simulations/mod.rs:21-34 | each single method owns its own bit, so two single methods overlap only when they are the same |
| Simulations.CollectionIsUnion | src/heat_transfer/simulations/mod.rs:21-34 | the `1d` collection is the union of the four 1D methods' bits and overlaps every method except the FDS speed test |
| Simulations.MethodPathStr | src/heat_transfer/simulations/mod.rs:50-61 | every method but the `1d` collection has a path |
| Simulations.PathStrFromType1D | src/heat_transfer/simulations/mod.rs:50-96 | a 1D type's method has that type's path, and both the conversion and the path tell the four types apart |
| Simulations.CollectionSelectsAll | src/heat_transfer/simulations/mod.rs:97-107 | requesting `1d` selects every 1D type, requesting one 1D method selects that type alone, and requesting `fds` selects none |
| Simulations.AnyKindOverlaps | src/heat_transfer/simulations/mod.rs:190-192 | the `any` over the requested kinds holds iff some requested kind shares a bit with this one |
| Simulations.IsSimulationKind | src/heat_transfer/simulations/mod.rs:188-195 | with no request every kind is selected; otherwise a kind is selected iff it is requested |
| Simulations.KindsDisjoint | src/heat_transfer/simulations/mod.rs:181-185 | the three kinds own one bit each, so sharing a bit means being the same kind |
| Simulations.Duplication | src/heat_transfer/simulations/mod.rs:126-134 | the count is accepted iff the wall elements divide it exactly, and then the repeat factor times the wall elements is the count |
| Simulations.ToWallElement | src/heat_transfer/simulations/mod.rs:155-166 | loading a surface keeps every cell's material and size, which read back unchanged, and every loaded cell starts at 20 degrees |
| Simulations.LoadOneDimensional | src/heat_transfer/simulations/mod.rs:143-177 | loading succeeds iff the header is 1D; the materials lose their names, and there is one wall element per listed surface id, holding that surface's cells |
| Simulations.ResolvedIdsInRange | src/heat_transfer/simulations/mod.rs:152-155 | surface ids resolved from the header always index the surface list, so `surface_list[surface_id]` cannot go out of range |
| SimBenchmark.PerElementNames | src/heat_transfer/simulations/benchmark.rs:53-69 | each kind reads six, four or no columns per wall element |
| SimBenchmark.DeviceNames | src/heat_transfer/simulations/benchmark.rs:71-110 | no elements is an error; otherwise `Time` comes first followed by the element columns, unsuffixed when there is exactly one element |
| SimBenchmark.DeviceNameAt | src/heat_transfer/simulations/benchmark.rs:76-86 | with several elements, column `1 + i*p + j` is column `j` of element `i` |
| SimBenchmark.SuffixReadsBack | src/heat_transfer/simulations/benchmark.rs:83 | the number after the last `_` of a suffixed column parses back to the element's one-based index |
| SimBenchmark.NewDevice | src/heat_transfer/simulations/benchmark.rs:88-109 | a new device has stored time zero and one zero pair per element in both buffers |
| SimBenchmark.ColumnInRow | src/heat_transfer/simulations/benchmark.rs:144-165 | every column the element loop reads lies inside a row that holds all requested devices |
| SimBenchmark.Fill | src/heat_transfer/simulations/benchmark.rs:144-165 | the buffers keep one pair per element and the stored time; one-side diabatic rows never change the coefficients |
| SimBenchmark.FillElement | src/heat_transfer/simulations/benchmark.rs:144-165 | after a row, element `i` holds its own coefficients and heat fluxes (diabatic front heat uses element 0's coefficient), one-side diabatic keeps its old coefficients and stores the two products, adiabatic holds the constants |
| SimBenchmark.Next | src/heat_transfer/simulations/benchmark.rs:129-168 | a step reads exactly the solid-factor rows, yields the time difference to the stored time, stores the new time and refills the buffers; an unreadable row yields an error and leaves the device as it was |
| SimBenchmark.Duplicate | src/heat_transfer/simulations/benchmark.rs:375-378 | repeating every entry `d` times makes a list `d` times as long |
| SimBenchmark.DuplicateAt | src/heat_transfer/simulations/benchmark.rs:375-378 | copy `j` of entry `i` sits at `i*d + j` |
| SimBenchmark.DuplicatedSize | src/heat_transfer/simulations/benchmark.rs:347-378 | duplicating the wall elements by the accepted factor yields exactly the requested size |
| SimBenchmark.UpdatesOffByOne | src/heat_transfer/simulations/benchmark.rs:385-391 | with 200 readable items the loop as written performs 101 updates, one more than the configured step count |
| SimBenchmark.UpdatesAsWrittenCount | src/heat_transfer/simulations/benchmark.rs:385-391 | with every item readable the loop as written performs `SIMULATION_STEPS + 1` updates, or fewer when the items run out |
| SimBenchmark.Updates | src/heat_transfer/simulations/benchmark.rs:385-391 | the corrected loop performs at most `SIMULATION_STEPS` updates |
| SimBenchmark.UpdatesCount | src/heat_transfer/simulations/benchmark.rs:385-391 | the corrected loop fails iff one of the items it reads is an error, and otherwise performs `SIMULATION_STEPS` updates, or fewer when the items run out |
| SimBenchmark.PathStr | src/heat_transfer/simulations/benchmark.rs:309-319 | the path fails exactly when the method has no path |
| SimBenchmark.MethodPathPlain | src/heat_transfer/simulations/mod.rs:50-61 | every method path is a single path component |
| SimBenchmark.PathStrSplits | src/heat_transfer/simulations/benchmark.rs:309-319 | splitting the path at `/` gives back prefix, label and method path |
| Temperature.DeviceNames | src/heat_transfer/simulations/temperature.rs:32-61 | every kind requests `Time` first and at least one device column |
| Temperature.StepOf | src/heat_transfer/simulations/temperature.rs:86-123 | per kind, which columns become the two coefficients, the two heat inputs (radiation converted from kW to W) and FDS's two surface temperatures; the adiabatic case uses the constant front values |
| Temperature.Skip | src/heat_transfer/simulations/temperature.rs:73-77 | skipping succeeds iff the rows hold enough readable rows; on failure it stops right after the first unreadable row |
| Temperature.Next | src/heat_transfer/simulations/temperature.rs:72-124 | a step consumes exactly the solid-factor rows, all readable, and yields the step of the last one with the time since the stored time, which it then stores; an error leaves the stored time |
| Temperature.ItemsTelescope | src/heat_transfer/simulations/temperature.rs:72-124 | with every row readable the device yields one step per solid-factor rows, and the step lengths add up to the last read row's time |
| Temperature.DiffRecovers | src/heat_transfer/simulations/temperature.rs:144-158 | adding the difference to the simulated series gives FDS's series back, at the front and at the back |
| Temperature.OneDimensional | src/heat_transfer/simulations/temperature.rs:170-225 | more than one wall element or a failed setup is an error; otherwise the first device item is skipped and the run succeeds iff the backend simulates every remaining step, collecting what it reports |
| Temperature.Run | src/heat_transfer/simulations/temperature.rs:190-224 | the loop succeeds iff every item and every update succeeds; then it holds, per step, the accumulated time, FDS's temperatures and the backend's temperatures |
| Temperature.CollectedSnoc | src/heat_transfer/simulations/temperature.rs:198-216 | one more successful step appends its elapsed time, its FDS values and the backend's output to what is collected |
| Temperature.SimulateStep | src/heat_transfer/simulations/temperature.rs:203-215 | one successful update moves its output from the pending part of the simulation into the collected part |
| Temperature.SumDeltasSnoc | src/heat_transfer/simulations/temperature.rs:211 | the elapsed time grows by each step's length |
| Benchmarks.Members | src/benchmark/mod.rs:19-74 | a collection stands for its single benchmarks and a single benchmark for itself alone |
| Benchmarks.CollectionsAreUnions | src/benchmark/mod.rs:19-74 | each collection's discriminant is the union of its members' bits |
| Benchmarks.SingleMatches | src/benchmark/mod.rs:19-74 | a single benchmark shares a bit with exactly itself and the collections that contain it |
| Benchmarks.IsBenchmark | src/benchmark/mod.rs:96-103 | with no request every benchmark is selected; otherwise one is selected iff it shares a bit with a requested name |
| Benchmarks.AnyOverlaps | src/benchmark/mod.rs:98-100 | the `any` holds iff some requested name shares a bit with this one |
| Benchmarks.PathStr | src/benchmark/mod.rs:109-134 | every benchmark that is not a collection or the FDS speed test has a non-empty result directory |
| Benchmarks.FromPath | src/benchmark/mod.rs:109-134 | a directory decodes only to a benchmark that has that directory |
| Benchmarks.PathStrRoundTrip | src/benchmark/mod.rs:109-134 | every benchmark with a directory is found again from it, so no two benchmarks share a directory |
| Benchmarks.PathDecodes | src/benchmark/mod.rs:109-134 | decoding a benchmark's directory gives that benchmark |
| Benchmarks.MaterialPathDecodes | src/benchmark/mod.rs:78-86 | every material benchmark has a directory that decodes back to it |
| Benchmarks.OtherPathDecodes | src/benchmark/mod.rs:120-126 | every other benchmark with a directory decodes back to itself |
| Benchmarks.ListedHavePaths | src/benchmark/mod.rs:78-94 | the lists `run_benchmark` walks hold only benchmarks with a directory, so `path_str` never panics there |
| Benchmarks.RunsFor | src/benchmark/mod.rs:154-172 | every run started for a benchmark uses its directory, one of the listed backends and the given sizes and kind, and is selected by the options |
| Benchmarks.Cross | src/benchmark/mod.rs:152-174 | every run started by a loop is for a listed benchmark with its directory, a listed backend and the loop's sizes and kind, and is selected |
| Benchmarks.CrossComplete | src/benchmark/mod.rs:152-174 | every selected pair of a listed benchmark and a listed backend is run |
| Benchmarks.RunsForComplete | src/benchmark/mod.rs:154-172 | every selected listed backend is run for the benchmark |
| Benchmarks.StageRuns | src/benchmark/mod.rs:152-252 | every run of the loops uses its benchmark's directory and is selected by the options |
| Benchmarks.RunBenchmark | src/benchmark/mod.rs:145-261 | every run started is selected and uses its benchmark's directory; the FDS speed test runs iff it is selected |
| Benchmarks.CrossAll | src/benchmark/mod.rs:152-174 | with no options a loop runs every listed benchmark on every listed backend |
| Benchmarks.RunsForAll | src/benchmark/mod.rs:154-172 | with no options every listed backend runs |
| Benchmarks.StageRunsAll | src/benchmark/mod.rs:152-252 | with no options every loop runs all its pairs |
| Benchmarks.RunBenchmarkAll | src/benchmark/mod.rs:145-261 | with no options the benchmark starts 54 one-dimensional runs and the speed test |
| Benchmarks.StagesSize | src/benchmark/mod.rs:152-252 | the five loops hold 28, 7, 10, 5 and 4 pairs, 54 in all |
| Benchmarks.StageRunsHas | src/benchmark/mod.rs:152-252 | a run of one loop is a run of the whole benchmark |
| Benchmarks.RunBenchmarkSelects | src/benchmark/mod.rs:152-174 | a selected material benchmark runs on every selected backend at the regular sizes with the diabatic kind |
| Benchmarks.StagesHavePaths | src/benchmark/mod.rs:152-252 | every loop walks only benchmarks with a directory |
| Benchmarks.SelectsPair | src/benchmark/mod.rs:96-103 | requesting one benchmark, one backend and the diabatic kind selects that combination |
| FdsRuns.TailsAgreeIff | src/fds/simulations.rs:46-49 | comparing two paths from the end over the shorter one succeeds iff one path ends with the other |
| FdsRuns.Matches | src/fds/simulations.rs:41-55 | a `**/` pattern matches a path iff the rest of the pattern and the path agree from the end; any other pattern matches only the identical path |
| FdsRuns.Ignore | src/fds/simulations.rs:40-58 | a path is skipped iff some pattern of the list matches it |
| FdsRuns.When | src/fds/simulations.rs:200-221 | an optional pattern is listed iff its condition holds |
| FdsRuns.IgnoreList | src/fds/simulations.rs:200-226 | the fixed patterns always close the list |
| FdsRuns.IgnoreListEntries | src/fds/simulations.rs:200-226 | the 1D tree is skipped iff the 1D methods are not selected, and a kind's directories are skipped iff that kind is not selected |
| FdsRuns.FixedPatternsDiffer | src/fds/simulations.rs:19-27 | none of the optional patterns is among the fixed ones |
| FdsRuns.ResultsAndTemplatesIgnored | src/fds/simulations.rs:19-21 | every `result` directory and every template file is skipped, whatever is selected |
| FdsRuns.KindDirectoryIgnored | src/fds/simulations.rs:200-226 | a directory named after an unselected kind is skipped anywhere, and the 1D tree is skipped when the 1D methods are not selected |
| FdsRuns.NothingIgnoredByEmptyList | src/fds/simulations.rs:40-58 | an empty list skips nothing |
| FdsRuns.RunChecked | src/fds/simulations.rs:130-147 | a run is skipped as passed iff the run file is strictly newer than the input; a missing input is an error; otherwise the run's error output decides |
| FdsRuns.Classify | src/fds/simulations.rs:174-188 | a run is never classified as passed, and with at most 150 bytes of error output it succeeded |
| FdsRuns.ClassifyTail | src/fds/simulations.rs:175-176 | only the last 150 bytes of the error output matter |
| FdsRuns.ClassifyFailed | src/fds/simulations.rs:175-185 | a run failed iff there are more than 150 bytes of error output and their tail decodes and contains `ERROR` or `error` |
| FdsRuns.StrLessOrder | src/fds/simulations.rs:32-37 | the order of strings is a strict total order |
| FdsRuns.PathLessOrder | src/fds/simulations.rs:32-37 | the order of paths is a strict total order |
| FdsRuns.StatusOrder | src/fds/simulations.rs:32-37 | the derived order of statuses is a strict total order that puts passed before succeeded before failed |
| FdsRuns.AnyFailed | src/fds/simulations.rs:270-291 | the extra error is added iff some run failed |
| FdsRuns.Oks | src/fds/simulations.rs:265-268 | exactly the statuses of the successful runs are collected |
| FdsRuns.Errs | src/fds/simulations.rs:265-268 | the errors are empty iff every run returned a status |
| FdsRuns.ReportOk | src/fds/simulations.rs:256-297 | the whole run succeeds iff every simulation ran and none failed; a failed one ends the errors with the summary message |
| FdsRuns.ReportOrderFree | src/fds/simulations.rs:256-297 | the order in which the threads hand back results does not change whether the run succeeds |
| Sampler.TemplateDir | src/fds/sampler.rs:63-84 | every setting with a template lives in one of the three-component directories under `fds/1D` |
| Sampler.SimulationDir | src/fds/sampler.rs:87-111 | the input directory is the template directory followed by one leaf |
| Sampler.LeafRoundTrip | src/fds/sampler.rs:87-99 | the leaf of a one-dimensional setting reads back as its material and its two ramp flags |
| Sampler.SimulationDirsDistinct | src/fds/sampler.rs:63-111 | two one-dimensional settings share an input directory iff they are the same setting |
| Sampler.KeyShape | src/fds/sampler.rs:119-124 | every placeholder is enclosed in `#` with none inside, and no two placeholders have the same length |
| Sampler.NamesDiffer | src/fds/sampler.rs:119-124 | the placeholder names have pairwise different lengths |
| Sampler.KeyOccurrence | src/fds/sampler.rs:119-124 | one placeholder occurs in another only as the whole of it, so replacing one never touches the others |
| Sampler.NoHashNoKey | src/fds/sampler.rs:314-316 | a text without `#` contains no placeholder |
| Sampler.QuotFloor | src/fds/sampler.rs:256-260 | the mesh bound is the floor of the quotient |
| Sampler.QuotMonotone | src/fds/sampler.rs:256-260 | the mesh bounds never decrease with the mesh index |
| Sampler.QuotExact | src/fds/sampler.rs:256-260 | an exact multiple divides without remainder |
| Sampler.MeshParts | src/fds/sampler.rs:255-269 | one mesh line per core |
| Sampler.MeshPartition | src/fds/sampler.rs:249-269 | the meshes tile the rows: the first starts at 0, each starts where the previous ends, the last ends at the row count, each has its own MPI process and the cells add up to the rows |
| Sampler.MeshSum | src/fds/sampler.rs:255-262 | the cells of the first `n` meshes add up to the start of mesh `n` |
| Sampler.SurfaceValues | src/fds/sampler.rs:128-138 | the density is the material's and the emissivity is zero exactly for the adiabatic kind |
| Sampler.PartKeys | src/fds/sampler.rs:118-277 | the surface part sets density and emissivity, the conductivity part its ramp only when asked for, likewise the specific heat, and the speed-test part mesh and height only for a speed test |
| Sampler.RampValues | src/fds/sampler.rs:139-185 | the conductivity refers to its ramp iff one is asked for, and each ramp is listed iff it is asked for |
| Sampler.SpeedTestValues | src/fds/sampler.rs:243-273 | mesh and height are filled in iff the setting is a speed test |
| Sampler.ApplyAllNoKeys | src/fds/sampler.rs:310-316 | a template line without placeholders is copied unchanged |
| Sampler.ApplyAllPlaceholder | src/fds/sampler.rs:310-316 | a line that is exactly one placeholder becomes that placeholder's value |
| Sampler.CreateLines | src/fds/sampler.rs:302-321 | the input file has one line per template line, and lines without placeholders are copied |
| Sampler.Create | src/fds/sampler.rs:286-326 | a missing template is an error; an input file strictly newer than its template is kept; otherwise it is rewritten from the template |
| Sampler.KindSettingsIff | src/fds/sampler.rs:346-354 | the settings generated for one kind are exactly the one-dimensional settings of that kind whose two ramp flags agree, for either material |
| Sampler.OneDimensionalSettingsIff | src/fds/sampler.rs:333-363 | a setting is created iff the 1D methods and its kind are selected, it is one-dimensional and its two ramp flags agree |
| Sampler.SpeedTestSettings | src/fds/sampler.rs:374-400 | one speed-test setting per benchmark size, with that size and the machine's thread count |
| Sampler.SpeedTestSettingsValid | src/fds/sampler.rs:374-400 | every speed-test setting has a template and a size the mesh split accepts, so neither panic is reached |
| FdsBenchmark.CoreLabel | src/fds/benchmark.rs:36-40 | the results are filed as single-core exactly when FDS ran on one core |
| FdsBenchmark.TimeFields | src/fds/benchmark.rs:51-56 | the header line never contributes a time, and there is at most one time per line |
| FdsBenchmark.TimeFieldsCount | src/fds/benchmark.rs:53-56 | exactly the data lines with a seventh field contribute, each with that field trimmed |
| FdsBenchmark.WideLines | src/fds/benchmark.rs:54-55 | the contributing lines are data lines with a seventh field |
| FdsBenchmark.ParseAll | src/fds/benchmark.rs:56-57 | the times parse iff every field parses, and then each time is its field's value |
| FdsBenchmark.Insert | src/fds/benchmark.rs:60 | inserting into sorted times keeps them sorted and adds exactly the new value |
| FdsBenchmark.Sort | src/fds/benchmark.rs:60 | sorting yields a sorted permutation of the times |
| FdsBenchmark.SortedUnique | src/fds/benchmark.rs:60 | two sorted lists with the same values are equal, so the sort's result is determined by the values |
| FdsBenchmark.MedianSplits | src/fds/benchmark.rs:61-65 | the median of sorted times lies between the least and greatest, with every smaller value in the lower half and every larger one in the upper half |
| FdsBenchmark.MedianOrderFree | src/fds/benchmark.rs:56-65 | the recorded time depends only on the values, not on the order of the report's lines |
| FdsBenchmark.Rerun | src/fds/benchmark.rs:48-73 | a rerun records a time iff FDS succeeded and every time field parses; a failed run is an error |
| FdsBenchmark.RerunRecordsMedian | src/fds/benchmark.rs:50-66 | a successful rerun records the median of the sorted times, a value between the least and the greatest time |
| FdsBenchmark.SpeedTestPath | src/fds/benchmark.rs:33-43 | the speed test's results are filed under the core label, the run's label and `fds` |
| Modification.MinFromIs | src/modification.rs:25-50 | the earliest time is 0 if a file is missing; otherwise it is no later than any file and is the start value or some file's time |
| Modification.MaxFromIs | src/modification.rs:56-84 | the latest time is an error iff a file is missing; otherwise it is no earlier than any file and is the start value or some file's time |
| Modification.WasModifiedIff | src/modification.rs:11-19 | the check fails iff a source is missing; a missing result always counts as modified; otherwise it is modified iff some result is no newer than some source |
| Modification.EmptySides | src/modification.rs:11-84 | without sources only a missing or epoch-dated result counts as modified; without results only a source dated at the `u128` maximum does |
| Cli.ChunkValue | src/main.rs:80-83 | the assigned text yields a size iff it parses as a `usize`, and then the parsed value |
| Cli.ChunkSize | src/main.rs:68-91 | an unreadable file is an error |
| Cli.ChunkLookupFirst | src/main.rs:69-88 | the first non-comment line whose left side is the label decides the size, whatever follows it |
| Cli.ChunkLookupNone | src/main.rs:69-90 | without a line for the label the lookup is an error |
| Cli.ChunkLookupSkips | src/main.rs:73-79 | comment lines, lines without `=` and lines for other labels never change the result |
| Cli.FirstAssignment | src/main.rs:69-88 | any line for the label has a first such line at or before it |
| Cli.EntryRead | src/main.rs:68-91 | writing the line the error message asks for, `label = size`, at the top of the file makes the lookup yield that size |
| Cli.BenchOutcome | src/main.rs:129-135 | the benchmark's single error becomes a list of one, and success stays success |
| Cli.ForcedStagesOrdered | src/main.rs:93-167 | the stages run in their fixed order, each at most once |
| Cli.MainStrict | src/main.rs:53-167 | without `--force` the program finishes iff every selected stage succeeds (and the benchmark is allowed to run), having run every selected stage |
| Cli.MainForced | src/main.rs:53-167 | with `--force` every selected stage runs regardless of failures, and the program finishes unless a benchmark is asked for in a debug build |
| Cli.MainPrefix | src/main.rs:93-167 | the stages that ran are always a prefix of those a run without stops goes through |
| Cli.MainChunk | src/main.rs:122-128 | a chunk size is set only to the value the file assigns to the benchmark label, and the benchmark runs only after one was set |
| Plot.PlotTypeSelects | src/plot/mod.rs:22-32 | asking for all plots selects every kind of plot, and asking for one kind selects exactly that kind |
| Plot.Errors | src/plot/mod.rs:63-73 | the errors are empty iff every plot job returned a status |
| Plot.PrintPlotStateSpec | src/plot/mod.rs:57-111 | popping from the back appends the jobs' errors in reverse order after the earlier ones, and the state reports a failure iff some job failed |
| Plot.LabelsIff | src/plot/mod.rs:117-127 | a label is listed iff some non-comment line of `benchmarks.txt` names it as the trimmed text before its first `=` |
| Plot.BenchmarkFiles | src/plot/mod.rs:117-127 | an unreadable `benchmarks.txt` is the read error, otherwise at most one label per line |
| Plot.ChunkLabelPlotted | src/plot/mod.rs:117-127 | every label the benchmark finds a chunk size for is among the plotted labels |
| Plot.MaterialJobs | src/plot/mod.rs:168-180 | a material comparison plot starts exactly for each listed selected benchmark under the label |
| Plot.MultipleJobs | src/plot/mod.rs:182-196 | a plot over the number of materials starts exactly for each selected 1D type under the label |
| Plot.AllLabelJobs | src/plot/mod.rs:164-222 | the per-label plots are those of some label |
| Plot.LabelJobsIff | src/plot/mod.rs:164-222 | the plots of one label are exactly the per-label plots the selection asks for, under that label |
| Plot.MachineJobsIff | src/plot/mod.rs:223-255 | the chunk plots of a machine pair are exactly the chunk comparisons the selected benchmarks ask for |
| Plot.BenchmarkJobsIff | src/plot/mod.rs:164-263 | the benchmark plots that start are exactly those the selection asks for, each per-label plot under a label of the file |
| Plot.Diffs | src/plot/mod.rs:273-320 | one temperature plot per case, each for the given kind and type |
| Plot.KindJob | src/plot/mod.rs:272-320 | a kind's temperature plots start iff the kind is selected, one per case of that kind |
| Plot.TypeJobsIff | src/plot/mod.rs:271-325 | the temperature plots of one type are exactly those of its selected kinds |
| Plot.TemperatureJobsIff | src/plot/mod.rs:265-338 | a temperature plot starts iff its type and its kind are selected and its case belongs to the kind |
| Plot.TypeJobsCount | src/plot/mod.rs:271-325 | a selected type gets a fixed number of plots per selected kind |
| Plot.TemperatureJobsCount | src/plot/mod.rs:265-338 | the number of temperature plots is the number of selected types times the plots per type |
| Plot.PhaseClean | src/plot/mod.rs:147-162 | a part leaves no error and no failure iff there were none before and every job of a selected part ran cleanly; errors are never dropped |
| Plot.RunPartsDone | src/plot/mod.rs:138-349 | the three parts end without errors iff every job of each part the plot type selects ran without error and none failed, whatever the jobs are |
| Plot.PlotDone | src/plot/mod.rs:138-349 | with readable labels plotting succeeds iff every job of every selected part ran without error and without failure |
| Plot.PlotLabelsUnreadable | src/plot/mod.rs:164-170 | when the benchmark plots are asked for and the labels cannot be read, that error alone is reported |

## Left out

- GPU device and adapter acquisition, buffers, bind groups, pipelines, queue submission and the polling future are foreign API calls. The model keeps only the data each backend uploads and the slices it reads back. `HeatTransfer1D::setup` and `update` of the GPU backends are modelled as layout and pairing only.
- The WGSL kernels are not part of this model. Only the text inserted into them is modelled.
- IEEE `f32`/`f64` rounding, `ln`, `powf`, `ceil` and `round` are not modelled: arithmetic is over reals. `sqrt` and float formatting are parameters, and float parsing is a parameter.
- Reals.Div: a division by zero is modelled as 0.0, where `f32` would give an infinity or NaN. The theorems about the solve assume non-zero pivots, which `Cpu.SchemeDominant` establishes for physical material data.
- Surfaces.CellCountAndStartSize: the loop's quotient is over reals rather than `f32`, so it may stop one step earlier or later than the program does near a rounding boundary.
- Sampler.MeshParts: `(row / cores * i).floor()` over `f64` is modelled as the exact floor of the rational `row * i / cores`. The two can differ when `f64` rounding crosses an integer.
- File and directory I/O is not modelled. This covers reading the FDS files and `benchmarks.txt`, `find_fds_files`' directory walk, creating result directories, run files and benchmark files, and reading the CPU report. The contents of these files are inputs.
- `mpiexec` process spawning, the worker threads and `Mutex` of `run_simulations`, rayon's parallel iteration, and thread panics are not modelled. The threads' results are an input list, and `FdsRuns.ReportOrderFree` shows that their order does not matter.
- Printing is not modelled: progress output, the listing in `print_plot_state` and `run_simulations`, and the `PROFILE` variable echo in `main`.
- Timing with `Instant` is not modelled. The benchmark records wall-clock times, which are inputs here.
- The chumsky parser of the FDS input file is not part of this model. The model starts from the parsed property lists.
- Plot drawing in `src/plot/kind/*` is not modelled. Only which plot jobs start, and how their results are combined, is modelled.
- Command line argument parsing by `clap` is not modelled. The parsed options are an input.
- Cli.ChunkSize: states only that an unreadable file is an error. What a readable file yields is stated by `Cli.ChunkLookupFirst`, `Cli.ChunkLookupNone` and `Cli.EntryRead`.
- Cli.Stops (`evaluate_errors`) has no contract of its own. Its meaning is stated through `Cli.MainStrict` and `Cli.MainForced`.
- FdsBenchmark.Median: the median of an empty list makes the program index out of range (a panic). The model requires a non-empty list, and `FdsBenchmark.Rerun` requires the report to yield a time.
- Simulations.Duplication: a zero wall-element count panics in the program (`elements % wall_elements` at src/heat_transfer/simulations/mod.rs:126). The model requires a positive wall-element count.
- Devices.Next: a selected column index past the end of the row panics in the program (src/fds/device.rs:72). The model requires every selected index to lie inside the row.
- Meta.TryNew: a 3D header with an empty surface list panics in the program (`meta[0]` at src/fds/meta.rs:39). The model requires at least one surface name for a 3D header.
- Dispatch.ChunkedUpdate: `chunks(0)` panics in the program. The model requires a positive chunk size, here and in its helpers `Dispatch.PiecesPlaced`, `Dispatch.PiecesShaped`, `Dispatch.PiecePlaced`, `Dispatch.ChunkOf` and `Dispatch.ChunkSizeInvariant`. The invariance over chunk sizes is proved for kernels that compute each element from its own coefficients and `q` (`Dispatch.PerElement`); that the WGSL kernels are of this kind is not modelled, since the kernels are not part of this model.
- GpuM1.Build: `chunks_mut(0)` panics in the program. The model requires a positive chunk size, here and in `GpuM1.BuildCovers`.
- GpuM3.Setup: `chunks_mut(0)` panics in the program. The model requires a positive chunk size, here and in `GpuM3.GroupsBounded`.
- Shader.CountLine: the `usize` subtraction `n - 2` underflows below 2. The model requires `n >= 2`; every element has at least three cells.
- GpuM2.Build: indexing the first element (`wall_elements[0]` at src/heat_transfer/one_dimensional/gpu_m2.rs:137) panics on an empty element list. The model requires at least one element.
- Sampler.TemplateDir / Sampler.BuildReplace: a speed test of the diabatic kinds reaches `unimplemented!()` (src/fds/sampler.rs:81), and a speed-test size that is not a multiple of 4 reaches `panic!` (src/fds/sampler.rs:250). The model requires these cases away through `HasTemplate` and `CanReplace`, here and in `Sampler.SimulationDir`, `Sampler.SurfaceValues`, `Sampler.PartKeys`, `Sampler.RampValues`, `Sampler.SpeedTestValues`, `Sampler.CreateLines` and `Sampler.Create`. `Sampler.SpeedTestSettingsValid` proves that the settings the program builds never reach either case.
- Cpu.SolveHeatTransfer: the new temperatures satisfy the implicit scheme only when no pivot vanishes. `Cpu.SchemeDominant` shows this for physical material data, a non-negative time step and ghost factors of at most one; for other inputs a zero pivot gives IEEE infinities in the program, which are not modelled.
- Metadata errors for a present file are not modelled in `was_modified`. A file is its modification time or missing.
- Splitting a device file into lines is not modelled: the lines are an input. UTF-8 decoding of FDS's error output is a parameter of `FdsRuns.Classify`.
- The formatting of error messages with `Display` and `Debug` is not modelled. Errors are plain strings.

## Findings

| source | as written | input that shows it | evidently intended | confidence | as-written member | corrected member |
|---|---|---|---|---|---|---|
| src/heat_transfer/one_dimensional/cpu.rs:120-128 | `2_usize.pow(k)` with `k = ceil(log2(eta))` wraps to 0 in a release build once `k >= 64`, and the clamp then gives 1 sub-step | a maximum temperature change of `10 * 2^64` degrees | a huge change gives the maximum of 4 sub-steps | not executed; low, the input is physically absurd | Cpu.RepeatsAsWritten, Cpu.RepeatsWrapExample | Cpu.Repeats, Cpu.RepeatsMonotone |
| src/heat_transfer/simulations/benchmark.rs:385-391 | the loop breaks only when `i > SIMULATION_STEPS`, so it performs `SIMULATION_STEPS + 1` updates | a device file with 200 readable steps gives 101 updates | `SIMULATION_STEPS` (100) updates per run | not executed; medium | SimBenchmark.UpdatesAsWrittenCount, SimBenchmark.UpdatesOffByOne | SimBenchmark.Updates, SimBenchmark.UpdatesCount |
