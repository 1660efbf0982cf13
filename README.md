# Deforestation near roads in Roraima: a Dafny model of the pipeline's logic

The repository measures how much of Roraima's yearly PRODES deforestation falls
within distance rings around the OpenStreetMap road network. Its stages are:

1. Cut the state out of the IBGE state-boundary shapefile (`01`).
2. Clip PRODES to the state and count polygons per year (`02`).
3. Buffer the roads at several distances and turn the buffers into rings
   `0-d1km, d1-d2km, …, >dmaxkm` (`03`).
4. Intersect the deforestation polygons with the rings and tabulate the area
   per (ring, year) and per ring, in hectares (`04`, `05`).
5. Load those tables into DuckDB (`06`).
6. Present them in a PDF report (`doc.py`) and a Streamlit dashboard (`app.py`).

Every geometric step is a geopandas/shapely call. This includes buffer, union,
overlay, clip, spatial join, `make_valid`, reprojection and area. This project
models the deterministic logic around those calls:

- regions are finite point sets (`Geometry.Region = set<Point>`);
- union, intersection and difference are the set operations;
- every geometric primitive is a function parameter;
- areas are reals;
- distances are whole kilometres;
- years are integers.

Modules follow the scripts:

| module | file modelled |
|---|---|
| `PrepareOsm` | `scripts/01_prepare_osm_rr.py` |
| `PrepareProdes` | `scripts/02_prepare_prodes_rr.py` |
| `Buffers` | `scripts/03_create_buffers.py` |
| `Overlay`, `Intersection` | `scripts/04_intersection.py` |
| `Analyze` | `scripts/04_analyze_deforestation.py` |
| `Precompute` | `scripts/05_precompute_intersections.py` |
| `DuckDb` | `scripts/06_build_duckdb.py` |
| `Report` | `doc.py` |
| `Dashboard` | `app.py` |
| `Format` | `fmt_int_br` and `fmt_float2_br`, identical in `doc.py` and `app.py` |

`Common`, `Text`, `Columns`, `Geometry`, `GroupBy` and `Aggregates` hold the
shared vocabulary:

- order-preserving masks;
- `head`;
- ASCII case mapping;
- the case-insensitive `year` column;
- `groupby(...).sum()` with `sort_values`;
- the two aggregate tables.

What the scripts do step by step is written as methods with loops, checked
against a specification function:

- `buffer_in_chunks`;
- the distance loop and the ring builder of `03`;
- the per-ring clip loop of `04`;
- the `find_year_col` loops;
- the Roraima cascade;
- the shapefile choice;
- the pagination of the report;
- the dashboard's session state, a class whose methods overwrite the applied filters.

Group-by tables are specified by `GroupBy.GroupTable`. It says four things:

- one row per distinct key;
- every key of the input has a row;
- every row's key occurs in the input;
- every row carries the sum of its key's values.

## Model

| member | source | states |
|---|---|---|
| `Common.Windows` | scripts/03_create_buffers.py:72-73 | The chunk windows `[i, min(i+c, n))` stay inside `[start, n)`, are non-empty, are at most `c` long and come in increasing, non-overlapping order. |
| `Common.WindowsTile` | scripts/03_create_buffers.py:72-73 | The windows are consecutive: the first starts at `start`, each starts where the previous ended, the last ends at `n`, and every index in `[start, n)` lies in some window. |
| `Common.Head` | scripts/04_analyze_deforestation.py:153 | `head(n)` is a prefix of the table of length `min(n, len)`, and for negative `n` of length `max(len + n, 0)`. |
| `Common.WhereSubsequence` | scripts/04_analyze_deforestation.py:90-105 | A boolean mask keeps the surviving rows in their original order. |
| `Common.WhereMultiset` | scripts/03_create_buffers.py:60-63 | A boolean mask keeps every copy of a row that passes it and no copy of a row that does not. |
| `Common.WhereConcat` | scripts/04_intersection.py:111 | Masking a concatenation is concatenating the masked parts. |
| `Common.FlattenAppend` | scripts/04_intersection.py:108-111 | Concatenating the collected blocks after appending one more block is the previous concatenation followed by that block. |
| `Columns.YearColumn` | scripts/04_analyze_deforestation.py:82-87 | The year column is the first column, in column order, whose lower-cased name is `year`. It is absent exactly when no column has that lower-cased name. |
| `Columns.FindYearCol` | scripts/04_intersection.py:58-62 | The loop returns the first column, in column order, whose lower-cased name is `year`, and None when there is none. This equals `YearColumn`. |
| `PrepareOsm.LowerMap` | scripts/01_prepare_osm_rr.py:48 | The lower-cased column map has a key exactly for each lower-cased column name, and maps it to the last column with that name. |
| `PrepareOsm.FirstInAt` | scripts/01_prepare_osm_rr.py:49-50 | When the candidate loop returns, it stopped at the first candidate whose lower-cased name is a key, and returned that key's column. |
| `PrepareOsm.FirstInNone` | scripts/01_prepare_osm_rr.py:49-51 | The candidate loop returns None exactly when no lower-cased candidate is a key. |
| `PrepareOsm.FindColSpec` | scripts/01_prepare_osm_rr.py:47-51 | `find_col` is None exactly when no candidate matches a column case-insensitively. Otherwise the result matches the first candidate that matches any column, and is the last column spelled that way in lower case. |
| `PrepareOsm.Select` | scripts/01_prepare_osm_rr.py:56-57 | The rows a mask selects are exactly the positions where it holds, in ascending order. |
| `PrepareOsm.FirstMentioning` | scripts/01_prepare_osm_rr.py:65-69 | The fallback finds nothing exactly when no `object` column mentions "roraima". Otherwise it returns the matching rows of the first `object` column that does. |
| `PrepareOsm.PickRoraima` | scripts/01_prepare_osm_rr.py:53-70 | It returns `Cascade`, the first non-empty selection of the cascade: sigla == "RR", then name == "roraima", then the first text column mentioning "roraima". It returns None only when all three are empty. Returned rows exist and are non-empty. |
| `PrepareOsm.CandidateRowsBounded` | scripts/01_prepare_osm_rr.py:54-62 | Rows selected through a resolved column are row positions of the table. |
| `PrepareOsm.PriorityLeTotal` | scripts/01_prepare_osm_rr.py:95 | The sort key `("UF" not in NAME, NAME)` compares any two files. |
| `PrepareOsm.PriorityLeTransitive` | scripts/01_prepare_osm_rr.py:95 | The sort key order is transitive. |
| `PrepareOsm.ChooseShapefile` | scripts/01_prepare_osm_rr.py:95-96 | There is no file exactly when the list is empty. The chosen file has the least key, and is the first such file in listing order, as a stable sort puts it first. |
| `PrepareOsm.PrepareAoi` | scripts/01_prepare_osm_rr.py:84-103 | A missing roads file, a missing IBGE folder or no `.shp` file is fatal. Otherwise the shapefile examined is the one a stable sort puts first: the least priority key, earliest in listing order, taken from the top-level listing (the recursive one when that is empty). The run fails exactly when the cascade finds nothing in that file. On success the rows are exactly the cascade's selection on it. |
| `PrepareProdes.YearOrAno` | scripts/02_prepare_prodes_rr.py:77-82 | The year column is a column named `year` or `ano` in any case, with `year` preferred whenever one exists. It is the first column with its lower-cased name, as `list.index` finds it. It is None exactly when neither name exists. |
| `PrepareProdes.FindYearColumn` | scripts/02_prepare_prodes_rr.py:77-82 | The loop over `["year", "ano"]` with `list.index` returns `YearOrAno`. |
| `PrepareProdes.CountIsSize` | scripts/02_prepare_prodes_rr.py:85 | Counting a year's features with `size()` is the number of features of that year. |
| `PrepareProdes.YearStatsSpec` | scripts/02_prepare_prodes_rr.py:84-87 | One row per distinct year, strictly ascending, each holding the number of features of its year. The counts add up to the number of clipped features. |
| `PrepareProdes.RunSpec` | scripts/02_prepare_prodes_rr.py:59-92 | Only a missing input is fatal. The preview is the first `min(100, n)` clipped features. A summary table is printed exactly when a `year`/`ano` column exists; otherwise the column list is printed. |
| `Buffers.FilterByFclass` | scripts/03_create_buffers.py:55-63 | Without an `fclass` column the layer is unchanged. Otherwise it keeps exactly the rows whose class equals a kept class case-insensitively, every copy of them, in their original order. |
| `Buffers.SortedDistinct` | scripts/03_create_buffers.py:108 | `sorted(set(dists))` is strictly ascending and holds exactly the input's distances. |
| `Buffers.BufUnionSplit` | scripts/03_create_buffers.py:76-78 | The union of the buffers of a road range is the union over any split of it. |
| `Buffers.LotClipSpec` | scripts/03_create_buffers.py:81-83 | A lot's clip is empty exactly when the lot misses every AOI row. Otherwise the kept part is its intersection with the first AOI row it meets. |
| `Buffers.LotClipInside` | scripts/03_create_buffers.py:81-83 | A kept part lies inside the area of interest. |
| `Buffers.ClipPartsInside` | scripts/03_create_buffers.py:80-89 | The union of the clipped lots lies inside the area of interest. |
| `Buffers.ClipPartsNonEmpty` | scripts/03_create_buffers.py:82-88 | There are no parts exactly when their union is empty. |
| `Buffers.ChunkedBuffer` | scripts/03_create_buffers.py:65-89 | A chunked buffer, when there is one, lies inside the area of interest. |
| `Buffers.ClipPartsSingleAoi` | scripts/03_create_buffers.py:72-89 | With a one-row AOI, the union of the clipped lots from any window on is the union of those roads' buffers, intersected with the AOI. |
| `Buffers.ChunkSizeIrrelevant` | scripts/03_create_buffers.py:65-89 | With a one-row AOI, the chunk size does not change the result: it is the clipped union of all buffers, or None when that is empty. |
| `Buffers.BufferInChunks` | scripts/03_create_buffers.py:65-89 | A zero chunk size raises and a negative one yields None. Otherwise the loop returns `ChunkedBuffer`: None when no lot reached the AOI, else the union of the clipped lots. |
| `Buffers.RingsShape` | scripts/03_create_buffers.py:127-140 | `k` buffers give `k+1` rings. The labels are `0-d1km`, `d(j-1)-d(j)km` and `>dmaxkm`, with bounds `(0, d1)`, `(d(j-1), d(j))` and `(dmax, None)`. |
| `Buffers.RingsCover` | scripts/03_create_buffers.py:129-140 | When every buffer lies inside the AOI, the rings together cover exactly the AOI. |
| `Buffers.RingsDisjoint` | scripts/03_create_buffers.py:129-140 | When the buffers are nested, no two rings overlap. |
| `Buffers.BuildRings` | scripts/03_create_buffers.py:127-140 | The loop that advances `prev_d`/`prev_g` builds exactly the ring list `Rings`. |
| `Buffers.KeepAscending` | scripts/03_create_buffers.py:110-121 | Skipping distances without a buffer keeps the surviving distances strictly ascending. |
| `Buffers.SurvivorsBuffers` | scripts/03_create_buffers.py:110-121 | Each surviving pair is a distance together with its chunked buffer. |
| `Buffers.BufUnionMonotone` | scripts/03_create_buffers.py:76-78 | A buffer that grows with the distance gives growing unions. |
| `Buffers.SurvivorsNested` | scripts/03_create_buffers.py:108-121 | With a one-row AOI and a growing buffer, the surviving buffers are nested. |
| `Buffers.SurvivorsInside` | scripts/03_create_buffers.py:110-121 | Every surviving buffer lies inside the AOI. |
| `Buffers.SurvivorRingsCover` | scripts/03_create_buffers.py:123-140 | The rings built from the survivors cover exactly the AOI. |
| `Buffers.SurvivorRingsDisjoint` | scripts/03_create_buffers.py:123-140 | With one AOI row and a growing buffer, the rings built from the survivors are pairwise disjoint. |
| `Buffers.BuildBuffers` | scripts/03_create_buffers.py:108-121 | The distance loop skips distances without a buffer and returns the survivors in order. It fails only on a zero chunk size with distances to process. |
| `Buffers.CreateRings` | scripts/03_create_buffers.py:99-140 | A class filter that leaves no road is fatal, as are a non-positive chunk size and no surviving buffer. On success the rings are `Rings` of the survivors and cover the AOI; with one AOI row and a growing buffer they are also disjoint. |
| `Overlay.Tag` | scripts/04_intersection.py:106-107 | Tagging a clipped block keeps its rows, in order, and sets every row's `ring_id` to the ring's id. |
| `Overlay.ClippedProvenance` | scripts/04_intersection.py:102-111 | Every collected piece comes from the clip by some ring and carries that ring's id. |
| `Overlay.ClippedEmpty` | scripts/04_intersection.py:102-110 | Nothing is collected exactly when every ring's clip is empty. |
| `Overlay.WithColumn` | scripts/04_intersection.py:107 | Assigning a column adds it, keeps every other column and adds nothing else. |
| `Overlay.ClipLoop` | scripts/04_intersection.py:102-111 | The loop fails exactly when every clip is empty. Otherwise it returns the tagged clips, concatenated in ring order, with a `ring_id` column. |
| `Overlay.OverlaidOutcome` | scripts/04_intersection.py:98-111 | The intersection step fails exactly when the overlay raised and every clip was empty. A fallback result is the non-empty tagged clips in ring order. |
| `Overlay.Records` | scripts/04_intersection.py:124 | One record per piece, with its ring and year, and `area_ha * 10000` equal to the piece's area. |
| `Overlay.PruneColumns` | scripts/04_intersection.py:132-133 | The kept columns are exactly those of `ring_id, year_col, area_ha, geometry` that the table has. |
| `Intersection.IntersectFails` | scripts/04_intersection.py:81-111 | The script stops with an error exactly when there is no year column, or when the overlay raised and every per-ring clip is empty. |
| `Intersection.IntersectSaves` | scripts/04_intersection.py:113-149 | An empty intersection saves empty files whose parquet columns are exactly `ring_id, <year_col>, area_ha, geometry`. Otherwise the records are `Records` of the pieces (ring, year and area in hectares), only output columns are kept, `area_ha` is present, and both tables are grouped from those records. |
| `Intersection.AsWrittenNeverSaves` | scripts/04_intersection.py:86 | As written, every run fails: at the year check, or at the undefined `unary_union`. The intended script succeeds whenever the year column exists and the overlay works. |
| `Aggregates.YearThenRingPreorder` | scripts/04_intersection.py:143 | Ordering by `(year, ring_id)` is a total preorder. |
| `Aggregates.RingIdOrderPreorder` | scripts/06_build_duckdb.py:47 | `ORDER BY ring_id` is a total preorder. |
| `Aggregates.ByRingYearSpec` | scripts/04_intersection.py:141-145 | `by_ring_year` has one row per `(ring, year)` present, each with the sum of its records' areas, strictly ordered by year then ring. |
| `Aggregates.ByRingTotalSpec` | scripts/04_intersection.py:146-149 | `by_ring` has one row per ring present, each with its records' summed area, in non-increasing order of area. |
| `Aggregates.ByRingFromYearsSpec` | scripts/06_build_duckdb.py:42-48 | Grouping per-(ring, year) rows by ring gives one row per ring, with the sum of that ring's rows, strictly ordered by ring id. |
| `Aggregates.YearRowsRollUp` | scripts/04_intersection.py:141-149 | Summing a ring's `by_ring_year` rows gives that ring's total over the records. |
| `Aggregates.ByRingTotalSums` | scripts/04_intersection.py:146-149 | Each `by_ring` row carries its ring's total over the records. |
| `Aggregates.RingTotalsAgree` | scripts/04_intersection.py:141-149 | Each ring's `by_ring` value equals the sum of that ring's `by_ring_year` rows. |
| `Aggregates.GrandTotalsAgree` | scripts/04_intersection.py:141-149 | Both tables add up to the total area of the records. |
| `Aggregates.DerivedByRingAgrees` | scripts/06_build_duckdb.py:42-48 | The per-ring table derived from `by_ring_year` gives each ring its total over the records. |
| `GroupBy.GroupRowsTable` | scripts/04_intersection.py:141-149 | `groupby(key)[val].sum().reset_index()` is a group table: one row per distinct key, all keys covered, and each row holding its key's sum. |
| `GroupBy.GroupTablePermutation` | scripts/04_intersection.py:143 | Reordering a group table, as `sort_values` does, leaves it a group table. |
| `GroupBy.GroupTableTotal` | scripts/04_intersection.py:141-149 | A group table adds up to the total of its input. |
| `GroupBy.GroupTableRollup` | scripts/06_build_duckdb.py:42-48 | Summing a finer group table's rows by a coarser key gives the coarser key's sum over the input. |
| `GroupBy.Sort` | scripts/04_intersection.py:143 | Sorting yields a permutation of its input. |
| `GroupBy.SortSorted` | scripts/04_intersection.py:143 | Under a total preorder, the sorted sequence is ordered and a permutation of its input. |
| `GroupBy.TotalSort` | scripts/04_intersection.py:143-149 | Sorting does not change a table's total. |
| `Analyze.FilterProdes` | scripts/04_analyze_deforestation.py:90-105 | A row survives exactly when it meets each given year bound, inclusive, and the upper-cased class test when classes are given and the field exists. The result equals `Filtered`. |
| `Analyze.FilteredConcat` | scripts/04_analyze_deforestation.py:90-105 | The filters keep row order: filtering a concatenation concatenates the filtered parts. |
| `Analyze.RunFails` | scripts/04_analyze_deforestation.py:82-128 | The run is fatal exactly when there is no year column, nothing survives the filters, the overlay is empty, or the overlay raised and every clip was empty. |
| `Analyze.RunSucceeds` | scripts/04_analyze_deforestation.py:131-153 | A successful run tabulates a non-empty intersection, grouped per (ring, year) and per ring. The preview is its first `preview_n` pieces, in order. |
| `Precompute.Repaired` | scripts/05_precompute_intersections.py:32 | `make_valid` is applied to each non-null geometry; null stays null; attributes and row count are kept. |
| `Precompute.ExplodeConcat` | scripts/05_precompute_intersections.py:34 | `explode` works row by row: exploding a concatenation concatenates the exploded parts. |
| `Precompute.PolygonRows` | scripts/05_precompute_intersections.py:36-41 | The reference result holds only Polygon rows. |
| `Precompute.AllPolygonsFixed` | scripts/05_precompute_intersections.py:39-41 | Rows that are all Polygons are left unchanged by a further explode and Polygon filter, so skipping that step is harmless. |
| `Precompute.FixGeomsSpec` | scripts/05_precompute_intersections.py:28-43 | `_fix_geoms` equals the reference `PolygonRows` of the repaired rows: one Polygon row per polygon, multipolygon part, or polygon directly inside a collection, with the row's attributes and in row order. Every result row is a Polygon. |
| `Precompute.Recs` | scripts/05_precompute_intersections.py:76 | One record per intersection row, with its ring, year and `area / 10000`. |
| `Precompute.RunOutcome` | scripts/05_precompute_intersections.py:61-99 | An empty intersection saves the fixed empty files. The run fails exactly when a non-empty intersection lacks the year, `ring_id` or `geometry` column. Otherwise exactly the four output columns are saved, with the records `Recs` of the rows and both tables grouped from them. |
| `DuckDb.BuildFails` | scripts/06_build_duckdb.py:19-29 | A missing parquet file aborts first. Otherwise the build fails exactly when no column is named `year` in any case. |
| `DuckDb.BuildTables` | scripts/06_build_duckdb.py:32-48 | `by_ring_year` has one row per (ring, year) with summed area, ordered by year then ring. `by_ring` is grouped from `by_ring_year`, strictly ordered by ring id, and each of its values is the ring's total over the records. |
| `DuckDb.DerivedRingSums` | scripts/06_build_duckdb.py:42-48 | Every row of `by_ring` carries its ring's total over the records. |
| `DuckDb.AgreesWithCsv` | scripts/06_build_duckdb.py:32-48 | The database's tables agree with the CSVs of the precompute step: the same `by_ring_year`, the same grand total, and the same total for each ring. |
| `Format.Group` | doc.py:75 | Python's `,` grouping adds one comma per full group of three digits beyond the first. |
| `Format.GroupChars` | doc.py:75 | The grouping keeps every digit and adds only commas. |
| `Format.GroupSeparators` | doc.py:75 | The commas stand exactly at every fourth position counted from the end. |
| `Format.GroupRemove` | doc.py:75 | Removing the commas gives back the digit string. |
| `Format.FmtIntBrDigits` | doc.py:73-75 | Deleting the dots of `fmt_int_br(n)` gives the plain decimal rendering of `n`. |
| `Format.FmtIntBrGroups` | doc.py:73-75 | In `fmt_int_br(n)` the dots stand exactly every fourth position from the end of the digits, after a leading `-` for negative `n`. |
| `Format.SwapInvolutive` | doc.py:81 | Exchanging `,` and `.` twice is the identity. |
| `Format.PlaceholderIsSwap` | doc.py:81 | The three replacements through `X` exchange `,` and `.` on any string without `X`. |
| `Format.FmtFloat2BrSwap` | doc.py:79-81 | `fmt_float2_br` is the en-US two-decimal rendering with `,` and `.` exchanged; exchanging again gives the en-US rendering back. |
| `Format.FmtFloat2BrNonNegative` | doc.py:79-81 | A non-negative amount renders as `fmt_int_br` of its integer part, a comma and two decimals. |
| `Format.FmtFloat2BrNegative` | doc.py:79-81 | A negative amount renders as `-` followed by the rendering of its magnitude. |
| `Report.FirstPresent` | doc.py:105 | The first candidate present in the columns, with no earlier candidate present, or None when none is. |
| `Report.MunicipalityNames` | doc.py:104-110 | There is one name per row. |
| `Report.MunicipalityNamesSpec` | doc.py:104-110 | The name column is the first candidate present, and each row's name is its value there. Without a candidate, the rows still get pairwise different names. |
| `Report.YearWindow` | doc.py:230-233 | A year lies in `[y_min, y_max]` exactly when it lies in the data's range and, if years were requested, in the requested range. |
| `Report.ByYearSpec` | doc.py:246-247 | `by_year` has one row per year of the period's rows, with that year's summed area, strictly ascending by year. |
| `Report.PeriodRows` | doc.py:236-240 | The period's rows are exactly the database rows whose year lies in the window. |
| `Report.PeriodTotalsAgree` | doc.py:243-247 | `total_area`, the sum of `by_year`, equals the sum of `by_ring` and the total of the period's rows. |
| `Report.MuniFiltered` | doc.py:280-281 | With a filter, exactly the records of listed municipalities are kept, every copy of them. Without one, all records are kept. |
| `Report.MuniTotalsSpec` | doc.py:284-285 | `muni_total` has one row per municipality, with its summed area, in non-increasing order of area. |
| `Report.TopTotalSpec` | doc.py:291 | `top_total` is a prefix of `muni_total` of length `min(10, n)`. Each row carries its municipality's total, and no municipality left out has more area than one listed. |
| `Report.YearSliceSum` | doc.py:294-295 | Summing one year's `muni_year_ring` rows per municipality equals summing the rows keyed by (municipality, that year). |
| `Report.MuniYearSum` | doc.py:287-295 | A municipality's area in year `y`, according to `muni_year_ring`, is its area over that year's records. |
| `Report.RankedYearSpec` | doc.py:294-296 | The year's ranking has one row per municipality of that year, with its summed area, in non-increasing order. |
| `Report.TopLastYearSpec` | doc.py:293-296 | `top_last_year` is the prefix of length `min(10, n)` of the ranking of year `y_max`, and no municipality left out has more area that year than one listed. Each municipality appears once, in non-increasing order, with its area over the records of `y_max`. |
| `Report.MuniListSpec` | doc.py:408-411 | Without a filter the list is `muni_total`'s names in order. With one, it holds the filter's names present in `muni_total`, in the filter's order, each repeated as often as in the filter. |
| `Report.PaginateStep` | doc.py:412-413 | Appending the next block extends the covered prefix of the list by that block. |
| `Report.Paginate` | doc.py:407-416 | There are `ceil(n/4)` blocks. Block `j` is numbered `j+1`, labelled `4j+1 – 4j+len(chunk)` and holds `list[4j : 4j+4]`. The blocks concatenate to the whole list. |
| `Dashboard.DefaultYears` | app.py:136 | The default window ends at `y1` and starts at `y1-2` or `y0`, whichever is later. It is never below `y0`, and is ordered when `y0 <= y1`. |
| `Dashboard.RingsAllSpec` | app.py:135 | `rings_all` is the ring ids in ascending string order. |
| `Dashboard.DefaultRingsSpec` | app.py:137 | The defaults are exactly the rings starting with `0-5`, every copy of them, in `rings_all` order, when there are any; otherwise the first ring. They are never empty when rings exist. |
| `Dashboard.Session.constructor` | app.py:132-135 | A new session holds the data's year range and the sorted ring list, with no filters applied. |
| `Dashboard.Session.Start` | app.py:151-156 | On first run the defaults are applied and existing filters are kept. Applied filters stay inside the data's range and the ring list. |
| `Dashboard.Session.Submit` | app.py:163-168 | Submitting stores the slider's years, the chosen rings (all rings when none is chosen) and the municipality choice, keeping the session invariant. |
| `Dashboard.ByRingByIdSpec` | app.py:283-286 | The re-aggregated `by_ring` has one row per ring of the joined records, with its summed area, strictly ordered by ring id. |
| `Dashboard.DuckTablesSpec` | app.py:224-239 | The DuckDB tables hold exactly the rows inside the years and rings, ordered by year then ring. Their sums per ring are ordered by ring id, and both tables have the same total. |
| `Dashboard.DashboardTablesSpec` | app.py:245-290 | For the dashboard with its year column kept under any spelling: a missing year column stops the app. An active municipality filter with an empty join empties both tables. A non-empty join re-aggregates the joined records into `ByRingYear`, ordered by year and ring, and `ByRingById`, ordered by ring id; both are group tables of the join. Otherwise the DuckDB tables stand. The card's total always equals the year-table total. |
| `Dashboard.AsWrittenDropsYear` | app.py:251-290 | As written, the dashboard fails exactly where the intended one fails, or when a non-empty municipality join meets a year column not spelled exactly `year`. Wherever it succeeds, it gives the intended tables. |
| `Dashboard.UpperCaseYearFails` | app.py:251 | With the year column named `YEAR`, one chosen municipality and a non-empty join, the dashboard as written fails while the intended tables exist. |
| `Dashboard.AutoShowSpec` | app.py:566 | Forcing always shows the layer. Without forcing, it is shown exactly up to 6000 polygons, and fewer polygons never hide a layer that more would show. |

## Left out

- Geometry is not computed; it enters as function parameters. This covers buffer, `unary_union` of shapely polygons, overlay, clip, `sjoin`, `make_valid`, bounding boxes, `simplify` and CRS reprojection. Regions are point sets and areas are given reals.
- Floating point is left out:
  - the `astype(float).round().astype(int)` year normalisation (scripts/04_intersection.py:126-129, scripts/05_precompute_intersections.py:78-81);
  - `int(round(float(x)))` in `fmt_int_br`;
  - `int(d)` in ring labels.
  - Distances are whole kilometres, years are integers, `fmt_int_br` takes integers and `fmt_float2_br` takes whole hundredths.
- File reading and writing, argparse, logging, the DuckDB connection and the CSV/GeoParquet/shapefile formats are left out. Existence checks are kept only as "missing means error".
- Rendering is left out: matplotlib figures, the ReportLab story and styles, Altair charts, the Folium map, and Streamlit widgets other than the stored filters.
- The ring-area summary printed at the end of `03` and the preview log line of `04_intersection` are I/O only.
- `dir.py` is not part of this model: it only lists files.
- The `try/except` fallbacks of `fmt_*` that return `str(x)` for values that are not numbers are left out.
- Text functions use ASCII case mapping and ASCII whitespace. Python's `str.lower`, `str.upper` and `str.strip` are Unicode-aware.
- `Aggregates.ByRingTotalSpec`, `Report.MuniTotalsSpec` and `Report.RankedYearSpec` promise only non-increasing area plus the group contents. This is because `sort_values(ascending=False)` uses an unstable quicksort, so rows of equal area may come in any order. The model fixes one order, but no lemma depends on it.
- `PrepareOsm.ChooseShapefile` models `list.sort` as stable, which Python's sort is. The glob listing order is an input.
- `Precompute.FixGeomsSpec`: `explode` splits only one level, so a collection nested in a collection is dropped at the Polygon filter. The model does this as well; it does not claim that such polygons survive.
- `PrepareProdes.YearStatsSpec` carries the per-year counts as reals, the value type of the shared group-by.
- `Report.TopLastYearSpec` ranks the `muni_year_ring` rows of `y_max`. `muni_ring` and the stacked-bar input of the 12 largest municipalities (doc.py:286, 401-402) feed only a figure.
- `Report.YearWindow` and `Dashboard.Session.constructor` take the year range as given. `MIN(year)`/`MAX(year)` over an empty `by_ring_year` gives NULL, and `int()` of it raises; that case is not modelled.
- `Dashboard.DashboardTablesSpec` receives the spatial join as a function. A polygon that meets two chosen municipalities is counted once per municipality by `sjoin`. The join decides that, so the model does not state it. The join runs on the WGS84 `inter_map` while areas stay as stored, which the model also leaves to the join parameter.
- `Dashboard.DashboardTablesSpec`: `next(...)` without a default raises `StopIteration` when no year column exists (app.py:245, doc.py:252). This is modelled as an error result.
- `Dashboard.Session.Submit` takes the slider and multiselect values as given by the widgets. They are inside the data's range and the ring list, which Streamlit guarantees.
- `Report` takes the joined municipal records as input. The report's spatial join (doc.py:268-277) is geometry.
- The `fclass` column of `03` is compared through `astype(str)`, modelled as strings already. The overlay of `04_analyze_deforestation` likewise carries attribute values as strings.

## Findings

| source | as written | input that shows it | evidently intended | confidence | as-written member | corrected member |
|---|---|---|---|---|---|---|
| scripts/04_intersection.py:86 | `unary_union` is called, but the file's imports (lines 23-27) never bring it in, so the call raises `NameError` | any run whose PRODES layer has a `year` column | shapely's `unary_union` of the rings, whose envelope pre-clips PRODES, as in scripts/05_precompute_intersections.py:54 | high (not executed) | `Intersection.IntersectAsWritten`, with `Intersection.AsWrittenNeverSaves` | `Intersection.Intersect`, with `Intersection.IntersectFails` and `Intersection.IntersectSaves` |
| app.py:251 | the map layer keeps `ring_id, year, area_ha, geometry` only under those exact names, so a year column spelled `YEAR` (the intersection scripts keep the original spelling, scripts/04_intersection.py:132-133, scripts/05_precompute_intersections.py:83-84) is dropped, and the regrouping by `["ring_id", "year"]` at lines 287-290 raises `KeyError` | intersection file with columns `ring_id, YEAR, area_ha, geometry`, a municipality chosen, and a join that keeps a record | the year column found at line 245 is used, or renamed to `year` as doc.py:253 does | medium (not executed) | `Dashboard.DashboardTablesAsWritten`, with `Dashboard.AsWrittenDropsYear` and `Dashboard.UpperCaseYearFails` | `Dashboard.DashboardTables`, with `Dashboard.DashboardTablesSpec` |
