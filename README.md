# Temperature heatmap: monthly aggregation and matrix model

Two page scripts draw a year × month heatmap of daily temperatures. `level1.js`
draws the matrix for 1997–2017. `level2.js` draws it for 2008–2017 and adds, inside
each cell, two small daily trend lines (daily maxima and daily minima). Both
scripts load the same file of daily rows and run `processData`:

- keep the rows whose year lies in a closed range;
- summarise each (year, month) by the highest daily maximum and the lowest daily minimum;
- list the distinct years in the order they first occur;
- in level 2, also group the kept rows by (year, month), keeping their original order.

A button toggles between colouring by maxima and by minima. Each click
relabels the button and redraws the page.

This Dafny project models that pipeline:

- `records.dfy` (module `Records`): the decoded daily row, the (year, month) key, the
  monthly bucket, and the maximum/minimum of a sequence (`d3.max`, `d3.min`).
- `keytext.dfy` (`KeyText`): how a template literal writes integers. It also covers the map key
  `${year}-${month}` and the tooltip date `${year}-${MM}`. It proves that both identify their (year,
  month), which is why the model can key its maps by the pair `MonthKey(year, month)`.
- `aggregate.dfy` (`Aggregate`): both `processData` variants. The `has`/`set` aggregation loop is
  a method proved against the specification function `MonthlyData`, and lemmas
  give that function's properties. The year filter, `d3.group` and the `Set` dedup are functions.
- `matrix.dfy` (`Matrix`): the cell list of `drawMatrix`, the fill and tooltip of a cell, the
  colour domain `d3.extent` over all rows, and which cells get trend paths.
- `heatmap.dfy` (`Heatmap`): the state a script keeps, as a class. It holds the toggle and its
  label, the drawn cells, the trend-line groups and the tooltip. Its methods are the click
  handler, `updateVisualization`, `drawMatrix`, `drawTrendLines` and the hover handlers.

`drawTrendLines` removes only the `path.trend-line` elements. The `<g>` elements
that held them stay in the page, empty. The model keeps this: `DrawTrendLines`
ends with the old groups cleared, followed by the new ones. It proves that the
visible trend paths are exactly those of the last redraw.

The list of years is in first-occurrence order (the insertion order of a `Set`).
A month's daily group keeps the kept rows' original order; it is not sorted by day.

## Model

| member | source | states |
|---|---|---|
| `Records.SeqMax` | level1.js:82 | the maximum of a non-empty sequence is one of its elements and no element exceeds it |
| `Records.SeqMin` | level1.js:83 | the minimum of a non-empty sequence is one of its elements and no element is below it |
| `KeyText.NatToString` | level1.js:124 | the decimal text of a natural number is non-empty, all digits, one digit exactly below 10, and has no leading zero from 10 on; with `ParseNatToString` this fixes the text `${n}` writes |
| `KeyText.PadStart` | level1.js:124 | padStart keeps the text as its suffix, fills the front with the fill character, and reaches the width |
| `KeyText.NatToStringInjective` | level1.js:78 | different month numbers give different key texts |
| `KeyText.IntToStringInjective` | level1.js:78 | different years, negative ones included, give different texts |
| `KeyText.KeyStringInjective` | level1.js:78 | `KeyString`: the key `${year}-${month}` identifies its year and month, so distinct buckets never share a key |
| `KeyText.DateLabelFields` | level1.js:124 | `DateLabel`: the tooltip date is the year's text, a '-', then exactly two digits reading back as month + 1 |
| `KeyText.MonthField` | level1.js:124 | the padded 1-based month is exactly two digits that read back as month + 1 |
| `KeyText.DateLabelInjective` | level1.js:124 | two cells with the same tooltip date have the same year and month |
| `Aggregate.Select` | level1.js:73 | filter keeps exactly the elements satisfying the predicate and never lengthens the sequence |
| `Aggregate.FilterYearsKeeps` | level1.js:73 | `FilterYears`: a row survives the filter iff startYear <= year <= endYear, so both boundary years are kept |
| `Aggregate.MonthlyData` | level1.js:77-87 | the bucket map's keys are exactly the (year, month) pairs of the kept rows |
| `Aggregate.AggregateMonthly` | level1.js:77-87 | the has/set loop builds exactly MonthlyData of the kept rows: the first row of a month stores the whole month's bucket, later rows never overwrite it |
| `Aggregate.StoredAfterStep` | level1.js:77-86 | one step of the has/set loop: a row whose key is already stored changes nothing; the first row of a month stores the bucket of that whole month |
| `Aggregate.KeysOfFiltered` | level1.js:73-87 | a bucket exists for (y, m) iff some row in the year range has year y and month m |
| `Aggregate.BucketExtremes` | level1.js:80-84 | `BucketOf` over `InMonth` (the month's rows): a bucket's max is >= every max of its month and equals one of them; its min is <= every min of its month and equals one of them |
| `Aggregate.MonthlyDataOrderIndependent` | level1.js:79-81 | rows with the same multiset give the same buckets, so which row of a month comes first does not matter |
| `Aggregate.Distinct` | level1.js:89 | the deduplicated years have no repeats and contain exactly the input's values |
| `Aggregate.DistinctFirstSeenOrder` | level1.js:89 | the years are listed in the order of their first occurrence |
| `Aggregate.YearsOfFiltered` | level1.js:89 | a year is listed iff some row in the year range has it |
| `Aggregate.ProcessData` | level1.js:63-94 | years are the distinct kept years in first-seen order, months the twelve names, buckets exist exactly for kept (year, month) pairs and equal MonthlyData |
| `Aggregate.ProcessDataDaily` | level2.js:64-99 | as ProcessData, plus the daily groups equal GroupByMonth of the kept rows and have exactly the bucket keys |
| `Aggregate.GroupByMonth` | level2.js:90 | the daily groups' keys are exactly the (year, month) pairs of the kept rows |
| `Aggregate.GroupsPartition` | level2.js:90 | a group holds only rows of its key, every kept row sits in its key's group as often as it occurs, and a group keeps the rows' relative order |
| `Aggregate.GroupsMatchBuckets` | level2.js:78-90 | groups and buckets share their keys, every group is non-empty, and each bucket summarises its group |
| `Aggregate.ExampleJanuary2016` | level2.js:74-93 | rows of 2016-01-01 (5, -2) and 2016-01-15 (8, -5) give the bucket (8, -5); a 2007-12-31 row is excluded from buckets and years for [2008, 2017] |
| `Matrix.Cells` | level1.js:109 | the cell list has (number of years) × (number of months) entries |
| `Matrix.CellAt` | level1.js:109 | entry i * 12 + m is year years[i], month index m, with hasData iff that bucket exists (year-major order) |
| `Matrix.CellsCover` | level1.js:109 | every cell has a listed year, a month index in range, and a truthful hasData flag |
| `Matrix.FillFollowsRecords` | level1.js:116-119 | `CellFill`: a cell is white iff no kept row has its year and month; otherwise its shade is the lowest minimum (min mode) or highest maximum (max mode) of those rows |
| `Matrix.TooltipShowsBucket` | level1.js:120-127 | `Tooltip`: a tooltip appears iff the cell has a bucket; it shows that bucket's max and min and a date reading back as the cell's year and month + 1 |
| `Matrix.ColourDomain` | level1.js:25-29 | the colour domain spans every row, kept or not: low <= each selected value <= high, both ends attained; none for an empty file |
| `Matrix.ShadesWithinDomain` | level2.js:25-32 | every shaded cell's value lies inside the colour domain of the same mode |
| `Matrix.TrendGroups` | level2.js:113-158 | `OverlayFor` per cell: a cell without a daily group gets no overlay; any appended group has exactly two paths, the max series then the min series over that group |
| `Matrix.TrendGroupsOnePerCell` | level2.js:113-157 | one `<g>` per grouped cell: for every key, the groups with that key are exactly as many as the cells with that key when it has a daily group, and none otherwise; with `TrendGroups`, a grouped cell gets exactly two paths |
| `Matrix.TrendGroupsCoverCells` | level2.js:113-118 | every cell whose key has a daily group gets its overlay |
| `Matrix.RedrawShowsOnlyNewPaths` | level2.js:111-158 | `Cleared` strips the old paths (line 111): after a redraw the visible trend paths are exactly the new ones, whatever was drawn before |
| `Heatmap.ButtonLabel` | level1.js:42 | the label reads "Show Max Temperature" iff minima are shown, "Show Min Temperature" otherwise |
| `Heatmap.HeatmapView.Level1` | level1.js:19-37 | the level-1 view keeps years 1997–2017, starts in max mode and is drawn consistently |
| `Heatmap.HeatmapView.Level2` | level2.js:19-38 | the level-2 view keeps years 2008–2017, starts in max mode, and draws its matrix and trend lines |
| `Heatmap.HeatmapView.UpdateVisualization` | level2.js:24-35 | recomputes the domain over all rows and redraws cells and trend lines for the current mode; nothing else changes |
| `Heatmap.HeatmapView.DrawMatrix` | level1.js:105-119 | the drawn cells are replaced by one rect per (year, month index), filled for the current mode |
| `Heatmap.HeatmapView.DrawTrendLines` | level2.js:110-160 | old trend paths are removed first (their groups stay, empty); then the new groups are exactly `TrendGroups` of the drawn cells, one group of two paths per cell with a daily group (`TrendGroupsOnePerCell`) |
| `Heatmap.HeatmapView.OnToggleClick` | level2.js:41-45 | a click flips the mode, sets the label to match it and redraws consistently |
| `Heatmap.HeatmapView.MouseOver` | level1.js:120-128 | hovering a cell with a bucket shows its `Tooltip`: the cell's date label and the bucket's max and min; hovering an empty cell changes nothing |
| `Heatmap.HeatmapView.MouseOut` | level1.js:129 | leaving a cell hides the tooltip |
| `Heatmap.ToggleTwice` | level1.js:40-44 | from any consistent page, two clicks restore the mode, the fills, the colour domain and the visible trend paths; the label then matches the mode, and equals the old label whenever that one matched |

## Left out

- Loading the file (`d3.csv`, the promise and its `catch`). This is asynchronous browser I/O. The views take the loaded rows as a parameter.
- Date parsing with `new Date` and `getFullYear`/`getMonth`/`getDate`. This depends on the time zone and the library. Rows arrive with year, 0-based month and day already decoded. The level-1 script has no use for `day`.
- Numeric coercion with unary `+` and NaN. Temperatures are `real`, and `d3.max`/`d3.min`/`d3.extent` are modelled on numbers only, with no NaN or undefined to skip.
- `createScales`, the band positions, `interpolateOrRd` and the colour scale itself. `Fill.Shade(v)` stands for `colorScale(v)`. The domain is kept as a value beside the cells.
- The trend lines' geometry. This covers `dayScale` on 1–31, `tempScale` on the fixed 0–40 range, `curveMonotoneX` and the path strings. A trend path is modelled by its series and its data rows.
- Axes, `createTooltip`, the tooltip's styling and position, and the tooltip's number text. `TooltipText` keeps the two temperatures as numbers.
- The legends (`drawTemperatureLegend`, `drawLevel2Legend`). They append constant elements and hold no logic.
- The order of page elements between the cells and the trend-line groups. Each is kept as its own list.
- Level 2 reuses level 1's `drawMatrix` and `drawAxes` through page-wide function names. This is modelled by both views sharing one `DrawMatrix`.
- The button's initial text comes from the HTML page, which is not part of this model. The constructors take it as a parameter.
- Matrix.TooltipShowsBucket: stated only for month indexes 0..11. These are the only indexes the cell list produces (`CellsCover` with the twelve month names).
