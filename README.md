# eis_toolkit nodata utilities and CLR transform, modelled in Dafny

This project models two small parts of the EIS toolkit, a Python library for
preparing geospatial and tabular data in mineral exploration:

* **Nodata utilities** (`eis_toolkit/utilities/nodata.py`). These functions
  rewrite the `nodata` entry of raster metadata and replace nodata sentinels
  in arrays (`replace_values_with_nodata`), per raster band
  (`replace_raster_nodata_each_band`) and per table column
  (`replace_nodata_dataframe`). They also wrap an arbitrary array transform
  so that it only ever sees NaN in place of nodata (`handle_nodata_as_nan`).
* **The CLR transform as the code implements it**
  (`eis_toolkit/transformations/coda/clr.py`). The code checks the requested
  columns, rejects a table that holds a zero, divides each selected cell by the
  sum of its **whole** row, and takes the logarithm. `_inverse_CLR` hands its
  argument back unchanged.

Files:

* `outcomes.dfy`: `Option`, the toolkit's exceptions (`Error`) and `Result`.
* `cells.dfy`: `Cell = Fin(v) | PosInf | NegInf | NaN`, one floating-point sample.
* `frames.dfy`: `Frame<T>`, a DataFrame as ordered column names, a name-to-column
  map and a row count.
* `nodata.dfy`: module `Nodata`.
* `clr.dfy`: module `Clr`.

Modelling decisions:

* A raster band is a `seq<Cell>` of flattened pixels, and a raster is a
  sequence of bands.
* The copies the source makes (`raster_data.copy()`, `df.copy()`,
  `raster_meta.copy()`) become local values that the methods reassign. Dafny
  sequences and maps are values, so the caller's raster, table or metadata
  cannot change.
* `np.isin` compares with IEEE equality, so NaN is never "listed", even when
  the list holds NaN (`Nodata.IsListed`). `Series.replace` matches NaN with
  NaN and gives infinities no special treatment (`Nodata.ReplaceInColumn`).
* The natural logarithm of a positive real is the parameter `ln: real -> real`.
  Every lemma about the CLR output holds for any such function.
  `Clr.Log` adds what `np.log` does outside the positive reals: log of 0 is
  minus infinity, log of a negative is NaN.
* `Clr.Divide` covers a row that sums to zero. The zero check lets such a row
  through when it has negative entries, and then division gives a signed
  infinity.
* The source's defaults are named constants used as parameter defaults.
  `Nodata.DefaultRasterNodata` is -9999, the default `new_nodata` of the
  per-band replacement. `Nodata.DefaultNodata` is NaN, the default of the
  array and table replacements.
* The wrapped transform of `handle_nodata_as_nan` is a function parameter
  `func: (seq<Cell>, A) -> seq<Cell>`. Here `A` stands for the extra
  positional and keyword arguments, which reach `func` untouched.

The code differs from the textbook centred log-ratio transform, and the model
follows the code:

* The code closes each row by the sum of all columns, not only the selected
  ones (`Clr.ClrSubsetUsesWholeRow`).
* The code does not centre on the geometric mean. An all-ones table maps to
  `ln(1/n)`, not to 0 (`Clr.ClrAllOnes`, `Clr.ClrOnes4x4`).
* The code rejects only zeros. Negative cells pass the check.
* The inverse is the identity.

## Model

| member | source | states |
|---|---|---|
| `Nodata.SetNodataRasterMeta` | eis_toolkit/utilities/nodata.py:14-30 | The result's "nodata" entry is the new value. Its keys are the input's keys plus "nodata". Every other entry equals the input's. |
| `Nodata.ReplaceValuesWithNodata` | eis_toolkit/utilities/nodata.py:65-80 | The length is kept. A cell that is listed (IEEE equality) or infinite becomes `new_nodata`. Every other cell is unchanged. |
| `Nodata.ReplaceValuesChangesOnlyNodata` | eis_toolkit/utilities/nodata.py:80 | A cell that differs from the input was listed or infinite, and now holds `new_nodata`. |
| `Nodata.ReplaceValuesIdempotent` | eis_toolkit/utilities/nodata.py:80 | Applying the replacement twice with the same arguments equals applying it once. |
| `Nodata.ReplacedDataHasNoNodata` | eis_toolkit/utilities/nodata.py:80 | If `new_nodata` is neither listed nor infinite, no output cell is listed or infinite. |
| `Nodata.ReplaceRasterNodataEachBand` | eis_toolkit/utilities/nodata.py:33-62 | Fails with `InvalidRasterBand` exactly when some mapping key is `< 1` or `> #bands`. Otherwise the band count and every band length are kept. Band `k-1` is the replacement of the original band with `nodata_per_band[k]`. Unmapped bands are unchanged. |
| `Nodata.ReplaceInColumn` | eis_toolkit/utilities/nodata.py:111 | `Series.replace`: the length is kept, cells equal to an old nodata value become `new_nodata`, other cells are unchanged. |
| `Nodata.ReplaceInColumnIdempotent` | eis_toolkit/utilities/nodata.py:110-111 | Replacing in a column twice equals replacing once, so a column named twice in `columns` ends up as if named once. |
| `Nodata.ReplaceInColumns` | eis_toolkit/utilities/nodata.py:110-111 | The loop over the selected columns: starting from the copy, exactly the named columns end up replaced, each once however often it is named, and no key is added or lost. |
| `Nodata.ReplaceNodataDataframe` | eis_toolkit/utilities/nodata.py:83-113 | Fails with `InvalidColumn(ColumnsNotFound)` exactly when an explicit `columns` list names a missing column. Otherwise the column order, column set and row count are kept. Every selected column (all of them for `None`) is replaced. Every other column is unchanged. |
| `Nodata.RestoreNodata` | eis_toolkit/utilities/nodata.py:117 | The restore stage as documented: the length is kept, NaN and infinite cells become the representative, others are unchanged. |
| `Nodata.HandleNodataAsNan` | eis_toolkit/utilities/nodata.py:116-126 | Substitute, call, restore. The result is as long as `func`'s output on the substituted array. |
| `Nodata.GuardedInputHasNoNodata` | eis_toolkit/utilities/nodata.py:121-122 | The array handed to `func` holds no listed nodata value and no infinity. |
| `Nodata.GuardedOutputIsFinite` | eis_toolkit/utilities/nodata.py:116-124 | With a finite representative, every cell the caller receives is finite, so NaN never reaches the caller. |
| `Nodata.GuardedElementwise` | eis_toolkit/utilities/nodata.py:116-124 | For a cell-by-cell `func` that propagates NaN: every nodata input cell comes back as the representative. Every other cell comes back as `g` of the cell, restored if that is NaN or infinite. |
| `Nodata.GuardedIdentityRestoresNodata` | eis_toolkit/utilities/nodata.py:116-124 | Round trip through the identity transform: nodata and NaN cells become the representative, and all other cells are returned unchanged. |
| `Nodata.HandleNodataAsNanAsWritten` | eis_toolkit/utilities/nodata.py:119-124 | The wrapper exactly as written, for a scalar `nodata_values`. The result is as long as `func`'s output. |
| `Nodata.AsWrittenKeepsNan` | eis_toolkit/utilities/nodata.py:123 | As written, every NaN cell of `func`'s result reaches the caller as NaN. |
| `Nodata.AsWrittenLosesNodataExample` | eis_toolkit/utilities/nodata.py:121-123 | `[-9999]` through the identity transform with nodata `-9999` gives `[NaN]` as written and `[-9999]` once corrected. |
| `Clr.Divide` | eis_toolkit/transformations/coda/clr.py:24 | Division by a nonzero row sum is exact. Division by a zero row sum gives +inf, -inf or NaN according to the sign of the dividend. |
| `Clr.Log` | eis_toolkit/transformations/coda/clr.py:26 | `np.log`: a positive finite cell gives `Fin(ln(v))`. A finite result only comes from a positive finite cell. |
| `Clr.ClrTransform` | eis_toolkit/transformations/coda/clr.py:10-26 | Fails exactly when an explicit column is missing or the table holds a zero. The column check takes precedence (`ColumnsNotFound`). Valid columns with a zero anywhere give `ContainsZeros`. On success: same row count, exactly the selected columns in the given order, each cell `Log(cell / whole-row sum)`. |
| `Clr.InverseClr` | eis_toolkit/transformations/coda/clr.py:29-32 | Returns its argument unchanged. |
| `Clr.SumOverSubset` | eis_toolkit/transformations/coda/clr.py:24 | On a positive row, distinct columns drawn from distinct columns sum to no more than those columns. |
| `Clr.ClosedSumIsScaledSum` | eis_toolkit/transformations/coda/clr.py:24 | The closed values of a list of columns sum to that list's sum divided by the whole row sum. |
| `Clr.ClosedRowSumsToOne` | eis_toolkit/transformations/coda/clr.py:24 | When the row sum is nonzero, every closed value is finite and the closed values of the whole row sum to 1. |
| `Clr.ClosedSubsetSumAtMostOne` | eis_toolkit/transformations/coda/clr.py:20-24 | On a positive row, the closed values of any distinct column selection sum to at most 1. |
| `Clr.ClrPositiveRowCell` | eis_toolkit/transformations/coda/clr.py:24-26 | On a strictly positive row, each output cell is `Fin(ln(x / whole-row sum))`, with a positive divisor. |
| `Clr.ClrAllOnes` | eis_toolkit/transformations/coda/clr.py:17-26 | An all-ones table with `n` columns is accepted, and every cell becomes `ln(1/n)`. |
| `Clr.ClrOnes4x4` | tests/transformations/coda/clr_test.py:8-12 | The 4 x 4 all-ones table transforms to `ln(0.25)` in every cell, with columns c1..c4. |
| `Clr.ClrRejectsZero` | tests/transformations/coda/clr_test.py:45-50 | The all-ones table with a zero at row 0, column c1 fails with `InvalidColumn(ContainsZeros)`. |
| `Clr.ClrSubsetUsesWholeRow` | eis_toolkit/transformations/coda/clr.py:24 | With row (1, 1, 1, 2) and columns a, b, c selected, each output cell is `ln(1/5)`: the unselected column counts in the divisor. |

## Left out

- `eis_toolkit/raster_processing/clipping.py` and `eis_toolkit/vector_processing/reproject_vector.py` are not part of this model. Their work is done by rasterio masking and GeoPandas reprojection.
- The source of `check_columns_valid` and `check_dataframe_contains_nonzero_numbers` is not part of this model. Their callers' use of them is modelled as "every requested name is a column" (`Frames.Frame.HasColumns`) and "some cell is zero" (`Clr.ContainsZero`), as their callers use them.
- Runtime type checking by `beartype` is not modelled. Arguments are taken to have their annotated types.
- Floating point is abstract. There is no rounding and no distinction between -0.0 and 0.0. The logarithm is an arbitrary function of the positive reals.
- numpy and pandas details are not modelled: dtype coercion (for example NaN written into an integer raster), index alignment and broadcasting.
- A raster's rows and columns are flattened into one sequence per band.
- Duplicate column names in the input table map to a single column. `Frames.Frame.Valid` accepts a repeated name, but the name has only one column, so a table with two different columns under one name is not modelled. A repeated name pairs with identical columns: `Clr.RowSum` counts it once per listing, as pandas sums two identical columns.
- The CLR input cells are finite reals. NaN or an infinity in the input table is not modelled.
- `Nodata.HandleNodataAsNan`: the restore step takes the nodata representative as a separate argument. The code passes the whole `nodata_values` list as the replacement, and numpy broadcasting makes that ill-defined for more than one value. The corrected member restores NaN and infinities to that one representative, as the docstring at nodata.py:117 intends.
- `Nodata.HandleNodataAsNanAsWritten`: models the code for a scalar `nodata_values` only. Line 123 passes `nodata_values` as the `new_nodata: Number` of the beartype-checked `replace_values_with_nodata`. So with beartype active, a list of any length raises a type violation at line 123, and that raise is not modelled.
- "The input is not modified" has no member of its own. Rasters, tables and metadata are Dafny values, so no call can change them.

## Findings

| source | as written | input that shows it | evidently intended | confidence | as-written member | corrected member |
|---|---|---|---|---|---|---|
| eis_toolkit/utilities/nodata.py:123 | The wrapper restores by `replace_values_with_nodata(result, np.nan, nodata_values)`. That uses `np.isin`, which never matches NaN, so the NaN cells the wrapper introduced stay NaN. Only infinities are restored. | `in_data = [-9999]`, scalar `nodata_values = -9999`, identity transform: the result is `[NaN]` | The docstring says the replacement is reversed afterwards, so the caller should get `[-9999]` | high (by reading numpy's equality semantics; not executed) | `Nodata.HandleNodataAsNanAsWritten` (`Nodata.AsWrittenKeepsNan`, `Nodata.AsWrittenLosesNodataExample`) | `Nodata.HandleNodataAsNan` (`Nodata.GuardedIdentityRestoresNodata`, `Nodata.GuardedElementwise`, `Nodata.GuardedOutputIsFinite`) |
