# Sentinel-to-missing normalisation in petrophys-viz

Well-log files and core-measurement spreadsheets mark "no measurement" with a
sentinel. In a LAS log this is the null value `-999.25`. In the core spreadsheet it is
a dash `'-'`, and the notebooks also blank the text `'0.66'` as an outlier. Before
plotting, the repository replaces every cell that equals the sentinel with NaN and
leaves every other cell as it was. It does this in two ways:

- `convert_value_to_nan(arr, value=-999.25)` (petrophys/data/utils.py) is pure: one
  `np.where` builds a new array and the argument is not touched.
- `valtonan(inp, val=-999.25)` works in place: the masked assignment
  `inp[inp == val] = np.nan` writes into the caller's array or data frame, and the
  function returns that same object. The four notebooks carry the same text:
  petrophys/well_log_vis.py:50-53, src/02_well_logs_visualization.py:43-46,
  src/03_well_and_cores_visualization.py:35-38 and
  src/04_core_measurements_plotting.py:31-34. Each notebook then calls it twice on
  the core table, first with `'-'` and then with `'0.66'` (petrophys/well_log_vis.py:287-288,
  src/02_well_logs_visualization.py:273-274, src/03_well_and_cores_visualization.py:204-205,
  src/04_core_measurements_plotting.py:67-68). It keeps reading the table under both
  names, `km` and `km2`.

The model has three modules:

- `Cells` (cells.dfy) defines a cell, `Num(real) | Text(string) | Missing`, where
  `Missing` is NaN. It also defines the default sentinel `NullValue = Num(-999.25)` and
  `Matches`, which is the element-wise `==` of the array library. That comparison is
  exact. A number never equals a string. NaN equals nothing, so a NaN cell is never
  replaced, and a NaN sentinel replaces nothing.
- `DataUtils` (data_utils.dfy) models `convert_value_to_nan` as functions on sequences:
  one for a 1-D array and one for a 2-D array given as its rows. A Dafny default
  parameter supplies the `-999.25` default. The module also has a reference single pass
  that blanks any of several sentinels, the lemmas that relate these functions, and
  the four tests as lemmas.
- `NotebookHelpers` (notebook_helpers.dfy) models `valtonan` as a method over an
  `array2<Cell>`, which stands for a data frame or a 2-D array. The method changes the
  caller's table in place and returns the same reference. Its contract ties the new
  contents to `ConvertValueToNan2D` applied to the old contents. `CleanCoreTable` models
  the chained pair of calls.

## Model

| member | source | states |
|---|---|---|
| `Cells.Normalize` | petrophys/data/utils.py:22 | one cell becomes Missing exactly when it equals the sentinel, otherwise it is kept; the result never equals the sentinel |
| `Cells.MatchesIsEquality` | petrophys/data/utils.py:22 | the comparison is exact structural equality on every cell except NaN, which equals nothing |
| `Cells.SentinelKindIsRespected` | src/02_well_logs_visualization.py:273-274 | a text sentinel such as `'-'` never changes a numeric cell, and a numeric sentinel never changes a text cell |
| `DataUtils.ConvertValueToNan` | petrophys/data/utils.py:4-23 | the output has the input's length; a position equal to the sentinel is Missing; every other position holds the identical input cell; no output cell equals the sentinel; the sentinel defaults to -999.25 |
| `DataUtils.ConvertValueToNan2D` | petrophys/data/utils.py:22 | for a 2-D input: the same row count and row lengths, Missing exactly where a cell equals the sentinel, and the input cell everywhere else |
| `DataUtils.ShapeIsPreserved` | petrophys/data/utils.py:22 | a rectangular table with a given column count stays rectangular with the same column count and row count |
| `DataUtils.RowsConvertIndependently` | petrophys/data/utils.py:22 | row i of the converted table is the 1-D conversion of row i |
| `DataUtils.NoSentinelNoChange` | petrophys/data/utils.py:22 | an array that holds no cell equal to the sentinel comes back equal to itself |
| `DataUtils.Idempotent` | petrophys/data/utils.py:22 | converting the output a second time with the same sentinel gives the same output |
| `DataUtils.Idempotent2D` | src/03_well_and_cores_visualization.py:37 | a second pass over a table with the same sentinel changes nothing |
| `DataUtils.NanSentinelChangesNothing` | petrophys/data/utils.py:22 | with NaN as the sentinel the output equals the input |
| `DataUtils.ConvertValuesToNan` | src/02_well_logs_visualization.py:273-274 | a single pass with a set of sentinels: Missing where a cell equals any of them, the input cell where it equals none, and no output cell equal to any of them |
| `DataUtils.TwoPassesAreOnePass` | src/02_well_logs_visualization.py:273-274 | a pass with `first` and then a pass with `second` equals one pass that blanks cells equal to either sentinel |
| `DataUtils.TwoPassesAreOnePass2D` | src/04_core_measurements_plotting.py:67-68 | the same equality for a table |
| `DataUtils.PassOrderIsIrrelevant` | petrophys/well_log_vis.py:287-288 | the `'-'` and `'0.66'` passes can run in either order with the same result |
| `DataUtils.DefaultSentinelExample` | tests/test_convert_value_to_nan.py:5-9 | with the default sentinel, `[1, 2, -999.25, 4, -999.25]` becomes `[1, 2, NaN, 4, NaN]` |
| `DataUtils.CustomSentinelExample` | tests/test_convert_value_to_nan.py:12-18 | with sentinel 0, `[1, 2, 0, 4, 0]` becomes `[1, 2, NaN, 4, NaN]` |
| `DataUtils.TwoDimensionalExample` | tests/test_convert_value_to_nan.py:21-25 | `[[1, 2, -999.25], [4, -999.25, 6]]` becomes `[[1, 2, NaN], [4, NaN, 6]]` |
| `DataUtils.EmptyExample` | tests/test_convert_value_to_nan.py:28-32 | the empty array converts to the empty array |
| `NotebookHelpers.ValToNan` | petrophys/well_log_vis.py:50-53 | in the caller's own table, every cell that equalled `val` is now Missing and every other cell is unchanged; the shape does not change; the returned reference is the argument (aliasing); the new contents equal `ConvertValueToNan2D` of the old contents; `val` defaults to -999.25 |
| `NotebookHelpers.CleanCoreTable` | src/03_well_and_cores_visualization.py:204-205 | after the `'-'` call and then the `'0.66'` call, `km2` is `km`; every cell that held `'-'` or `'0.66'` is now Missing and no cell of `km` equals either sentinel; every other cell is unchanged; the contents equal one pass that blanks both sentinels |

## Left out

- The four copies of `valtonan` are the same text, so `NotebookHelpers.ValToNan`
  models all of them. The four identical call-site pairs are modelled once by
  `NotebookHelpers.CleanCoreTable`.
- `NotebookHelpers.ValToNan` models only the table (data frame, 2-D array) form of
  the argument, which is how every live call site uses it. No call site, live or
  commented out, passes a 1-D array. The commented-out calls
  (petrophys/well_log_vis.py:127, src/02_well_logs_visualization.py:123) pass the
  whole LAS file object returned by `lasio.read` (petrophys/well_log_vis.py:72). The
  in-place 1-D form is not modelled; the pure 1-D case is `DataUtils.ConvertValueToNan`.
- NotebookHelpers.ValToNan: does not model the error the masked assignment raises on
  an integer-typed array that holds a matching cell. Such an array cannot store NaN, so
  the array library raises ValueError there, while the model blanks the cell. Every
  live call site passes a data frame read from CSV, so no call site reaches this error.
- `np.where` (petrophys/data/utils.py:22) works on arrays of any rank. The model covers
  rank 1 (`DataUtils.ConvertValueToNan`) and rank 2 (`DataUtils.ConvertValueToNan2D`)
  and not higher ranks.
- The masked assignment is vectorised in the source and becomes a nested loop here.
  Either way each cell is written at most once and independently of the others.
- IEEE floating point is left out. A number is an exact `real`, and NaN is the
  `Missing` constructor. NaN never equals anything, including the sentinel, which is
  how the array library compares it. The tests' "NaN matches NaN" reading is
  structural equality of `Missing`. The integer-to-float promotion that `np.where`
  makes (test 2 uses integers) disappears, because 1 and 1.0 are the same `real`.
- Column dtypes of a data frame are left out. A cell is a number or a string on its
  own. This is how pandas compares an object column against a string sentinel, and a
  numeric column never equals one. The text `'0.66'` therefore blanks only cells that
  hold the string `'0.66'`, not a numeric 0.66.
- "The input is not modified" by `convert_value_to_nan` is not stated as a contract.
  Dafny sequences are values, so the function cannot change its argument.
- Plotting, tick and colour helpers (`remove_last` and the matplotlib calls), file
  loading (`lasio.read`, `pd.read_csv`, `pd.read_excel`), the float coercions,
  `np.nanmin`/`np.nanmax` and the discarded core-interval filter are not part of this
  model. They are calls into libraries outside the repository or glue with no
  contract.
- petrophys/visualization/visualize.py, petrophys/01_geomech_properties.py and
  petrophys/00_introduction_data.py are not part of this model. They are plotting
  wrappers and narrative with no sentinel logic.
