# world-globe: data shaping and feature annotation, in Dafny

This project models the core of the world-globe program: how it turns
population and GDP-per-capita tables into a 3D globe of countries. Each
country's height and colour encode the chosen metric for one year. The
model covers four parts of `main.py`:

- `wide_to_long` (module `Reshape`) reshapes a wide table into long form.
  The wide table has one code column and one column per year; the long
  form has one row per (country, year) pair. Only columns whose header is
  all digits are years. Rows come out in the column-major order of pandas'
  `melt`.
- `make_color` (module `Color`) clamps a parameter to [0, 1] and maps it to
  an RGBA list. Python's `int()` truncation is written out as `Trunc`.
- The selection in `main` (module `Rows`) keeps the rows of the requested
  continent (unless it is "All"; a missing continent counts as "") and of
  the requested year.
- `attach_metric_to_geojson` is split across two modules:
  - `Metric` builds the `values` table. A missing value reads as 0. The log
    value is log10(value + 1) for positive values and 0 otherwise. The
    normalisation bounds are the min and max of the positive log values,
    or (0, 1) when there are none. It also computes elevation and colour,
    and the iso3 lookup.
  - `GeoJson` holds the loop that writes `value`, `elevation` and
    `fill_color` into each feature's properties in place. A feature with
    no matching row gets the gray, zero default.

Features are objects of class `GeoJson.Feature`, and the loop updates
their `properties` map in place. Everything else is functions over
sequences and maps. `math.log10` is a parameter `lg`. The model assumes
only `Metric.IsLog10(lg)`: log10(1) = 0, and log10 is strictly increasing
on positive reals. The elevation scale is a parameter, not the global
`ELEVATION_SCALE`.

Three behaviours of the code, modelled as written:

- Country codes are kept exactly as read; nothing upper-cases them.
- A missing continent is compared as "".
- One run computes one year: the table is filtered to `--year` and the
  features are annotated once.

Two inputs make the program raise, and the model returns an error for each:

- `wide_to_long` raises when the code column is missing. It also raises
  when a year header is too large for `astype(int)`, which converts to
  int64, and the table has at least one row.
- The feature loop raises `TypeError` at the first feature whose
  `ADM0_A3` is a JSON list or object, because `lookup.get` cannot hash it.
  The features before it are already annotated, and the rest are not.

## Model

| member | source | states |
|---|---|---|
| `Reshape.IndexOf` | main.py:75 | selecting the code column finds it exactly when the table has it, at a position holding that name |
| `Reshape.YearColumns` | main.py:74 | the year columns are exactly the all-digit headers, every one of them, in header order |
| `Reshape.ShowNat` | main.py:80 | the decimal header of a year is all digits |
| `Reshape.DigitsValue` | main.py:80 | `int` of an all-digit header is a natural number below 10 to the power of its digit count |
| `Reshape.DigitsValueShowNat` | main.py:80 | converting the header `str(y)` back with `astype(int)` gives `y` |
| `Reshape.ShortHeaderFits` | main.py:80 | a header of at most 18 digits, every real year among them, converts to int64 without overflow |
| `Reshape.FirstOversized` | main.py:80 | finds nothing exactly when every all-digit header fits in int64; otherwise finds an all-digit header of value 2^63 or more |
| `Reshape.Entry` | main.py:75-80 | the long row for (table row, year column) holds the row's code, the cell under the column, and the header's number as year, which is `y` for a header written as `str(y)` |
| `Reshape.MeltColumn` | main.py:75-79 | the block for one year column has one long row per table row, in table order |
| `Reshape.Melt` | main.py:75-79 | melt emits exactly rows × year columns long rows |
| `Reshape.WideToLong` | main.py:70-81 | fails exactly when the code column is absent (missing-column error) or when some all-digit header is 2^63 or more and the table has rows (the error names such a header) |
| `Reshape.MeltAt` | main.py:75-79 | position j·rows + i holds table row i under year column j |
| `Reshape.MeltCovers` | main.py:75-79 | every position k of melt holds table row k mod rows under year column k div rows |
| `Reshape.WideToLongIsMelt` | main.py:74-80 | with the code column present and every year header fitting int64 (or no rows), the result is the melted table |
| `Reshape.WideToLongShape` | main.py:74-80 | with the code column present and the years fitting int64 (or no rows): success, rows × year columns output rows, and row i of year column j at position j·rows + i |
| `Reshape.WideToLongCovers` | main.py:74-80 | under the same conditions, output position k holds table row k mod rows under year column k div rows, so each (row, year column) pair occurs exactly once |
| `Reshape.WideToLongRow` | main.py:75-80 | each output row carries its row's code, the cell under its year column, and the header's integer as year, below 2^63 |
| `Color.Clamp` | main.py:121 | the result is in [0, 1], equals t inside it, and is 0 below it and 1 above it |
| `Color.Trunc` | main.py:123-125 | `int()` truncates toward zero: for x ≥ 0 the result is the floor of x |
| `Color.MakeColor` | main.py:120-127 | exactly four components, r in [40, 240], g in [90, 150], b in [70, 220], alpha 190 |
| `Color.TruncMonotone` | main.py:123-125 | truncation is monotone on non-negative reals |
| `Color.MakeColorMonotone` | main.py:123-125 | as the parameter grows, red never falls and green and blue never rise |
| `Color.MakeColorClamps` | main.py:121-127 | out-of-range parameters give the end colours [40, 150, 220, 190] and [240, 90, 70, 190] |
| `Rows.Select` | main.py:216 | a boolean-mask selection returns no more rows than it is given, all satisfying the mask |
| `Rows.SelectCounts` | main.py:216-219 | each row satisfying the mask is kept as often as it occurs; every other row is dropped |
| `Rows.SelectAppend` | main.py:216-219 | selection distributes over concatenation, so the kept rows stay in their order |
| `Rows.SelectTwice` | main.py:215-219 | two successive selections equal one selection by both conditions |
| `Rows.SelectSameCondition` | main.py:215-219 | selections by masks that agree on every row are equal |
| `Rows.SelectForView` | main.py:214-219 | the view keeps no more rows than `df`; each kept row is a row of `df` with the requested year and, unless "All", the requested continent |
| `Rows.SelectForViewSpec` | main.py:214-219 | a row is kept iff it has the requested year and, unless "All", the requested continent, missing read as "" |
| `Rows.SelectForViewIsOneSelection` | main.py:214-219 | the continent-then-year filter is one order-preserving selection by the conjunction |
| `Metric.Coerce` | main.py:135 | a present cell keeps its number and a missing cell reads as 0 |
| `Metric.LogValue` | main.py:138 | 0 for values ≤ 0 and log10(value + 1) for positive values |
| `Metric.LogValueSign` | main.py:138 | the log value is 0 for values ≤ 0 and positive for values > 0 |
| `Metric.LogValueMonotone` | main.py:138 | the log value is monotone in the value, strictly among positive values |
| `Metric.Positives` | main.py:141 | `nz` holds exactly the strictly positive log values |
| `Metric.MinOf` | main.py:142 | the minimum is an element and below every element |
| `Metric.MaxOf` | main.py:143 | the maximum is an element and above every element |
| `Metric.NormBounds` | main.py:141-143 | vmin ≤ vmax; (0, 1) without positive log values; otherwise vmin and vmax are positive log values enclosing all of them |
| `Metric.Normalize` | main.py:150-153 | 0 when vmax ≤ vmin; otherwise in [0, 1] inside the range, 0 exactly at vmin, 1 exactly at vmax, negative below vmin |
| `Metric.NormalizeMonotone` | main.py:150-153 | normalisation is monotone in its argument |
| `Metric.ValueBounds` | main.py:141-143 | vmin ≤ vmax; (0, 1) when no row has a positive value; otherwise a range containing every row's positive log value |
| `Metric.ValueColumn` | main.py:135 | one value per row of `df_year`: the metric's cell, or 0 when it is missing |
| `Metric.LogColumn` | main.py:138 | one log value per value: 0 for values ≤ 0, log10(value + 1) otherwise |
| `Metric.ComputeValues` | main.py:133-155 | one `values` row per `df_year` row, carrying that row's iso3, in order |
| `Metric.ValueRowNonPositive` | main.py:135-155 | a missing or non-positive value gives log value 0, elevation 0 and colour [40, 150, 220, 190] |
| `Metric.ValueRowPositive` | main.py:138-155 | a positive value v gives log value log10(v + 1) > 0, elevation log value × scale, and the colour of a normalised value in [0, 1] |
| `Metric.ColorMonotone` | main.py:138-155 | a row with a larger value is at least as red and at most as green and blue |
| `Metric.Elevation` | main.py:147 | elevation is 0 for log value 0 and non-negative for a non-negative log value and scale |
| `Metric.ElevationMonotone` | main.py:138-147 | with a non-negative scale, elevation is non-negative and monotone in the value |
| `Metric.ElevationOrder` | main.py:147 | with a non-negative scale, elevation is non-negative and monotone in the log value |
| `Metric.MiddleStrictlyInside` | main.py:141-153 | a positive value strictly between two other positive values normalises strictly inside (0, 1) |
| `Metric.BuildLookup` | main.py:158 | the lookup's keys are the table's iso3 values, and each maps to its own row's value, elevation and colour |
| `Metric.Lookup` | main.py:133-158 | the lookup built from `df_year` maps each row's iso3 to that row's entry and has no other keys |
| `GeoJson.ColorJsonInjective` | main.py:169-173 | different colours are written as different JSON lists |
| `GeoJson.IsoOf` | main.py:162 | the lookup key is the `ADM0_A3` string when there is one, and nothing otherwise |
| `GeoJson.Find` | main.py:163 | `lookup.get` returns the entry under a key the lookup has, and nothing otherwise |
| `GeoJson.Annotate` | main.py:162-173 | `value`, `elevation` and `fill_color` are set; every other property, including `ADM0_A3`, is unchanged |
| `GeoJson.AnnotateIdempotent` | main.py:161-173 | annotating an annotated feature again changes nothing |
| `GeoJson.AnnotateFeature` | main.py:162-173 | for a feature whose `ADM0_A3` can be hashed, the loop body leaves its properties as `Annotate` of the old ones |
| `GeoJson.AnnotateAll` | main.py:161-173 | the loop stops at the first feature with a list or object `ADM0_A3`, or runs to the end. Every feature before that point (even one listed twice) has its old properties annotated; every other feature is unchanged |
| `GeoJson.AttachMetricToGeoJson` | main.py:130-175 | the feature list and the geometries are unchanged. It succeeds with the same collection exactly when no feature has a list or object `ADM0_A3`, and then every feature is annotated from the `df_year` lookup. Otherwise the error names the first such feature; the features before it are annotated and the rest are unchanged |
| `GeoJson.AnnotateMatched` | main.py:170-173 | a feature whose `ADM0_A3` is a row's iso3 gets that row's value, elevation and colour |
| `GeoJson.AnnotateUnmatched` | main.py:162-169 | a feature whose `ADM0_A3` is absent, null, a boolean, a number, or a string matching no row gets value 0, elevation 0 and [120, 120, 120, 70] |
| `GeoJson.AnnotateMatchedNoData` | main.py:135-173 | a matched feature with a missing or non-positive value has elevation 0 and the low ramp colour, not the gray default |

## Left out

- `require_file` and `download_geojson` (file checks, HTTP fetch, JSON cache): I/O with no logic to prove.
- `read_population`, `read_gdp_pc`, `read_continents`: CSV parsing, header skipping, column drops and renames. Numeric coercion appears only as "missing reads as 0" (`Metric.Coerce`); missing cells are `None`.
- The outer and left merges in `main`: pandas join semantics. The merged rows are an input (`Rows.MergedRow`).
- Repeated iso3 values in `df_year`: pandas raises when it builds the lookup. `Metric.UniqueIso3` is a precondition instead.
- IEEE floating point. Values are reals and `math.log10` is an abstract increasing function. Rounding in `int()` of a float product is not modelled.
- `Reshape.IsDigits`: only ASCII digits count. Python's `str.isdigit` also accepts other Unicode digits, whose `int()` conversion may fail.
- `Reshape.WideToLong`: a code column whose own header is all digits gives pandas a repeated column. The model counts it as a year column too.
- A feature without `properties`, or a document without `features`, raises `KeyError` in Python. The model's features always have both.
- The default `value` and `elevation` are the integer `0` in Python. The model stores them as the number 0.
- Layer construction, tooltip, view state, HTML output, argument parsing and the `ELEVATION_SCALE` global: rendering and command-line glue. The scale is a parameter.
