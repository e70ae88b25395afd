# Residents dashboard data pipeline, in Dafny

The dashboard (`dash1.py`) shows where Genoa's residents live. It joins a
residents census table with the municipal census-tract shapefile, draws a
choropleth map and shows the matching records in a table. A range slider
over the residents' ages (the `Eta` column) redraws both. This project
models the data pipeline behind it as pure functions over sequences of
rows, and proves what each step promises:

- **Column reconciliation** (`Schema`): seven legacy headers of the
  residents table are renamed to the shapefile's names. The most important
  one is the tract key, `SEZIONE_CENSIMENTO` → `SEZIONE_20`. Every other
  header passes through unchanged.
- **Rows and the age filter** (`Frame`): a resident row is its tract key,
  its age and its other fields, kept opaque. A shapefile row is its tract
  key, its polygon and its other attributes. The callback's filter is the
  tabular library's boolean-mask selection
  `df[(df['Eta'] >= lo) & (df['Eta'] <= hi)]`: a mask built element by
  element, then the rows where the mask is true, in order. The slider's
  bounds are the column's minimum and maximum.
- **Inner join** (`Join`): `gdf.merge(df, on='SEZIONE_20', how='inner')`
  pairs each shapefile row with every resident row that has the same key.
  The tract key is an `int`, compared by equality.
- **Colour classification** (`Colour`): `get_color` is an `if/elif` chain
  with half-open bounds 25, 50, 75, 90 and 105. It returns one of six
  colours, keeping the source's spelling `"yelow"`. It is proved equal to
  an independent definition: the band is the number of thresholds the age
  has reached.
- **Start-up and the callback** (`Dashboard`): the module's top level
  (rename, read the key on both sides, join, read the slider bounds) is
  one function that returns a `Result`. `update_output_div` is a function
  from that context and the selected range to the map's features, their
  fill colours and the table rows.

Error paths and edge cases, as the code has them:

- Start-up fails when it reads a column that is not there: `SEZIONE_20`
  missing after renaming (line 34) or missing in the shapefile (line 35),
  and `Eta` missing (line 53). It also fails when the raw header holds the
  key under both names. Renaming then gives two `SEZIONE_20` labels, and
  the merge at line 38 refuses a non-unique key label. Finally, it fails
  when the table is empty: the minimum is then not a number, and the
  slider's `range` call fails (lines 53-54, 67). `Startup` returns an `Err`
  for exactly these conditions.
- The selected range is not validated. The model takes any pair. An
  inverted range, or one outside the observed ages, yields an empty map
  and an empty table without error.
- The colour chain covers every integer, and so does the model.
- The join computed at start-up (line 38) is never drawn: its GeoJSON
  (line 50) is unused, and the map starts empty (line 71). The first map
  comes from the callback fired with the slider's initial value.

## Model

| member | source | states |
|---|---|---|
| `Schema.RenameColumn` | dash1.py:23-31 | the new name of one header is never a legacy header; `RenameColumnsPointwise`, `RenamesInjective` and `RenameColumnCollision` specify it |
| `Schema.RenameColumns` | dash1.py:23-31 | the header row keeps its length; `RenameColumnsPointwise`, `RenameColumnsDistinct`, `RenamedContains` and `KeyColumnCount` specify it |
| `Schema.KeyColumnCount` | dash1.py:23-38 | after renaming, `SEZIONE_20` occurs once for every raw `SEZIONE_20` or `SEZIONE_CENSIMENTO` header, so the merge finds a single key label exactly when the raw header has one of the two, once |
| `Schema.RenameColumnsPointwise` | dash1.py:23-31 | each of the seven legacy headers gets its listed shapefile name; every header outside the mapping keeps its name |
| `Schema.RenamesInjective` | dash1.py:23-31 | two legacy headers never share a new name |
| `Schema.RenameColumnIdempotent` | dash1.py:23-31 | no new name is a legacy header, so renaming a renamed header changes nothing |
| `Schema.RenameColumnCollision` | dash1.py:23-31 | two different headers collide after renaming exactly when one is a legacy header and the other is already its new name |
| `Schema.RenameColumnsDistinct` | dash1.py:23-31 | distinct headers stay distinct when no legacy header appears beside its new name |
| `Schema.RenameColumnsNoLegacy` | dash1.py:23-31 | no legacy header is left after renaming |
| `Schema.RenamedContains` | dash1.py:23-31 | a non-legacy name is present after renaming exactly when it, or a legacy header mapped to it, was present before |
| `Schema.KeyColumnAfterRename` | dash1.py:23-34 | `SEZIONE_20` can be read after renaming exactly when the raw header row has `SEZIONE_20` or `SEZIONE_CENSIMENTO` |
| `Schema.AgeColumnAfterRename` | dash1.py:23-31 | `Eta` is present after renaming exactly when it was present before |
| `Frame.Select` | dash1.py:90-93 | `rows[mask]` returns no more rows than it is given; `FilterEtaCons` and the `FilterEta` lemmas specify it |
| `Frame.AgeMask` | dash1.py:91-92 | the mask `(Eta >= lo) & (Eta <= hi)` has one entry per row; `FilterEtaCons` states what each entry selects |
| `Frame.FilterEta` | dash1.py:90-93 | the filtered table is no longer than the table; `FilterEtaMembers`, `FilterEtaCount`, `FilterEtaAppend` and `FilterEtaSingleton` specify it completely |
| `Frame.FilterEtaMembers` | dash1.py:90-93 | soundness and completeness: a row is in the filtered table exactly when it is in the table and `lo <= Eta <= hi` |
| `Frame.FilterEtaCount` | dash1.py:90-93 | every in-range row is kept as many times as it occurs; every other row is dropped |
| `Frame.FilterEtaAppend` | dash1.py:90-93 | the filter of a concatenation is the concatenation of the filters, so the result keeps the table's order |
| `Frame.FilterEtaSingleton` | dash1.py:90-93 | a one-row table is kept exactly when its age is in range |
| `Frame.FilterEtaKeepsAll` | dash1.py:90-93 | a table whose every age is in range comes back unchanged |
| `Frame.FilterEtaEmpty` | dash1.py:90-93 | the result is empty exactly when no age is in range; with `lo > hi` it is empty, and there is no error |
| `Frame.EtaMin` | dash1.py:53 | the minimum age is the age of some row and no larger than any row's age |
| `Frame.EtaMax` | dash1.py:54 | the maximum age is the age of some row and no smaller than any row's age |
| `Frame.SliderBounds` | dash1.py:53-54 | the bounds exist exactly when the table is non-empty, and then the minimum is at most the maximum |
| `Frame.FullRangeKeepsAll` | dash1.py:53-66 | filtering by the slider's initial value `[Eta_min, Eta_max]` returns the whole table in order |
| `Frame.OutsideDomainSelectsNothing` | dash1.py:90-93 | a range above the largest age or below the smallest selects no row |
| `Join.Partners` | dash1.py:38 | one shapefile row contributes at most one joined row per resident row; `PartnersMembers` and `PartnersCount` specify it |
| `Join.Merge` | dash1.py:38 | the join (here and again at line 96) has at most one row per pair of input rows; `MergeMembers`, `MergeKeys` and `MergeCount` specify it |
| `Join.Combine` | dash1.py:38 | a joined row is built from a shapefile row and a resident row with the same key, and both can be read back from it unchanged |
| `Join.PartnersMembers` | dash1.py:38 | the joined rows of one shapefile row are exactly its pairings with resident rows of the same key |
| `Join.MergeMembers` | dash1.py:38 | join soundness and completeness: a row is joined exactly when its shapefile part is a row of `gdf` and its resident part is a row of `df` |
| `Join.MergeKeys` | dash1.py:38 | the keys of the joined rows are exactly the keys present in both tables |
| `Join.MergeCount` | dash1.py:38 | a joined row occurs as many times as its shapefile row occurs, multiplied by the number of times its resident row occurs |
| `Join.MergeDropsUnmatchedTract` | dash1.py:38 | removing a shapefile row whose key no resident has leaves the join unchanged |
| `Join.MergeDropsUnmatchedResident` | dash1.py:38 | removing a resident row whose key no shapefile row has leaves the join unchanged |
| `Join.FilterThenJoin` | dash1.py:90-96 | joining the age-filtered residents gives the same rows, in the same order, as filtering the joined rows by age |
| `Join.FilterThenJoinMultiset` | dash1.py:90-96 | as multisets, joining the filtered residents equals the in-range part of the full join |
| `Colour.GetColor` | dash1.py:103-115 | every integer age gets one of the six palette colours |
| `Colour.GetColorIsBucket` | dash1.py:103-115 | the branch chain agrees, on every integer age, with the band read off the ascending thresholds 25, 50, 75, 90, 105 |
| `Colour.PassedAscending` | dash1.py:104-115 | over ascending thresholds, threshold k is reached exactly when the band index exceeds k |
| `Colour.GetColorPartition` | dash1.py:103-115 | exactly one palette colour fits each age, namely that of its band; band i covers the ages from threshold i-1 (inclusive) to threshold i (exclusive) |
| `Colour.PassedMonotone` | dash1.py:104-115 | a larger age never reaches fewer thresholds |
| `Colour.GetColorOrdered` | dash1.py:104-115 | if `a <= b`, the colour of `a` is no later in green < orange < blue < yelow < black < red than the colour of `b` |
| `Colour.GetColorBoundaries` | dash1.py:104-115 | the band edges: 24 green, 25 orange, 49 orange, 50 blue, 74 blue, 75 yelow, 89 yelow, 90 black, 104 black, 105 red |
| `Dashboard.Startup` | dash1.py:23-67 | start-up succeeds exactly when the raw residents header has the key exactly once under its legacy or its new name, the shapefile has the key, `Eta` is present and the table is non-empty; the context then holds the renamed header, both tables unchanged, the full join and the age bounds |
| `Dashboard.FillColours` | dash1.py:122-123 | one fill colour per feature, each from the palette; `UpdateOutputColours` ties each to its feature's band |
| `Dashboard.UpdateOutput` | dash1.py:89-133 | one fill per map feature and no more table rows than residents; `UpdateOutputTable`, `UpdateOutputMap`, `UpdateOutputColours` and `UpdateOutputEmpty` specify it |
| `Dashboard.UpdateOutputTable` | dash1.py:90-93 | the table rows are exactly the residents in the selected range, with their multiplicities |
| `Dashboard.UpdateOutputMap` | dash1.py:90-101 | the map's features are the start-up join restricted to the range; each one pairs a shapefile row with a row the table shows |
| `Dashboard.UpdateOutputColours` | dash1.py:103-123 | there is one fill colour per feature, and it is the palette colour of that feature's age band |
| `Dashboard.InitialSelectionShowsAll` | dash1.py:38-96 | the first callback, fired with the slider's initial value `[Eta_min, Eta_max]`, draws exactly the join computed at line 38 (otherwise never drawn) and puts every resident in the table |
| `Dashboard.UpdateOutputEmpty` | dash1.py:90-96 | a range above or below every observed age, or an inverted one, yields an empty map, no colours and an empty table |
| `Dashboard.DuplicateKeyHeaderFails` | dash1.py:23-38 | a header row holding both `SEZIONE_20` and `SEZIONE_CENSIMENTO` makes start-up fail |
| `Dashboard.ThreeTractScenario` | dash1.py:23-123 | tracts 1, 2, 3 with residents aged 10, 40, 80: start-up succeeds, and the range [0, 50] gives a table of the first two residents whose features are coloured green and orange |

## Left out

- File loading (`pd.read_csv`, `gpd.read_file`, lines 14-19) is I/O with fixed paths. The tables and their header rows are parameters of `Startup`.
- The float coercion of the key (lines 34-35) is floating-point library behaviour. Keys are integers compared by equality; only the failure when the column is missing is modelled.
- Reference-system handling and the reprojection to EPSG:4326 (lines 41-47, 99-101) are calls into the geometry library over floating-point coordinates. Polygons are opaque values that the model never changes, so the WGS84 range property of the joined features is not stated.
- The GeoJSON conversion, the folium map, the style function's fixed fields, and the HTML and iframe output (lines 50, 117-133) are library output. Only the fill colour of each feature is modelled (`FillColours`).
- The Dash application, its layout and the callback wiring (lines 11, 57-88, 136-137) are UI framework plumbing. The slider's tick marks (line 67) are cosmetic.
- `Join.Merge` fixes one row order: each shapefile row in turn, then its partners in residents order. The library may order rows with repeated keys differently, so the order-free statements (`MergeMembers`, `MergeCount`, `FilterThenJoinMultiset`) are the ones that carry over. `FilterThenJoin` holds for the modelled order.
- Clashes between non-key column names in the merge are not modelled. The library suffixes shared non-key columns with `_x` and `_y`, and the rows here keep their other fields opaque. Only the duplicate key label is modelled, as a start-up failure. `Schema.RenameColumnsDistinct` states when renaming keeps all labels distinct.
- A missing value (NaN) in the `Eta` column is not modelled. Ages are integers.
- Running the callback twice with the same range gives the same result. This needs no lemma: `UpdateOutput` is a function of the context and the range.
