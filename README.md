# Mobility dashboard core in Dafny

This project models the integer and list core of the mobility dashboard, a
Streamlit script that shows trips between the sub-areas ("delområder") of a
region. The script has five parts:

- It reads the area names from a shapefile column and derives the sorted
  catalogue `områder_liste`.
- It generates a synthetic origin-destination table `od_data`, with one trip
  count in [300, 3000] for every ordered pair of distinct areas.
- It keeps one selected area in the session state. The sidebar selectbox and a
  click on a map polygon can change it.
- For the selected area it scans the table into outbound rows (`reiser_ut`) and
  inbound rows (`reiser_inn`). It shows their totals and the net flow, and draws
  a Sankey diagram.
- It builds an "all areas" table of trips out, trips in, their total and the net
  flow for every area.

## How the model is built

- **Modules.** Each module follows one part of the script:
  - `Areas`: the catalogue.
  - `OdData`: the generated table.
  - `Aggregation`: the per-selection scan.
  - `Sankey`: nodes, the `node_dict` index and the links.
  - `AreaStats`: the all-areas table.
  - `Selection`: the session field.
  - `Dashboard`: one pass of the selected-area panel.
- **The OD table.** A Python dict keeps insertion order, and that order shows in
  the rows, so the table is a sequence of `Trip` entries with distinct keys.
  Dict assignment is `Put`: it overwrites keys already present and appends new
  ones. `random.randint(300, 3000)` is a nondeterministic choice bounded to
  [300, 3000], so every property proved holds for every possible draw.
- **Loops become methods.** Each loop of the modelled core is a method with
  loop invariants: the generator's nested loops, the aggregation scan, the two
  link loops and the stats loop. The map-drawing loops are left out with the
  rest of the rendering. Most of these methods are proved against a recursive
  specification function that adds one element at a time, as the loop does;
  the stats loop is proved against a pointwise one, row `i` being the
  statistics of area `i`.
- **Comprehensions and sorting become functions.** This covers `sorted(unique())`,
  the sums, the `andre` filters and `node_dict`.
- **The session.** It is a class with one mutable field. `None` stands for "the
  key is not yet in the session state".
- **The mixed DataFrame of the Sankey cap.** `df_rel` is built from outbound
  dicts (`til`, `antall`) and inbound dicts (`fra`, `antall`), and is modelled
  as a sequence of `Rel` rows:
  - The `'til'` column exists exactly when some row is outbound.
  - A missing cell is NaN (`None`), and NaN never equals an area name.
  - `nlargest(10, 'antall')` picks, ten times, the best remaining row. A higher
    count wins; on equal counts the earlier row wins, as pandas does with
    `keep='first'`.
  - `unique()` on the chosen column is not modelled, because later code only
    tests whether a name is in that list.
- **Behaviour modelled as written.** When at least one outbound row exists, the
  code reads only the `'til'` column of the ten chosen rows, so inbound rows
  among them contribute no area. `Sankey.InboundCrowdsOut` proves a
  consequence: when ten inbound rows are each heavier than every outbound row
  (other inbound rows may be lighter), no other area is kept and the panel
  shows "no flows", although trips exist in both directions.
- **How the cap chooses the other nodes**, as the code does it:
  - The ten heaviest rows are ranked over outbound and inbound rows together,
    but inbound rows decide which areas are kept only when there is no
    outbound row at all.
  - Above ten other areas, fewer than ten other areas, or none, may be kept.
  - With more than ten other areas and no row at all, nothing is cut:
    `Sankey.KeptShape` proves that every other area is kept. The link list is
    then empty and the panel shows "no flows".

## Model

| member | source | states |
|---|---|---|
| Areas.Unique | main.py:69 | `unique()` returns each name of the column exactly once, and only names of the column |
| Areas.Sort | main.py:69 | sorting keeps the length and the members of the list |
| Areas.AreaListSpec | main.py:69 | the catalogue is strictly ascending under Python's string order, holds no name twice, and holds a name iff the column does |
| Areas.AreaListCanonical | main.py:69 | any strictly ascending, repetition-free list of the column's names equals the catalogue, whatever the column's order |
| Areas.Others | main.py:232 | `andre` holds exactly the catalogue areas other than the selection, and is a subsequence of the catalogue, so it keeps catalogue order; it has n − 1 entries and no repetitions when the catalogue is distinct and holds the selection |
| OdData.Generate | main.py:40-51 | the nested loops produce one key per ordered pair of distinct areas, in loop order, each count in [300, 3000], no self-loop; for a distinct catalogue the keys are exactly the ordered pairs and there are n·(n − 1) of them |
| OdData.GeneratedTable | main.py:42-51 | a table whose keys are the loop's pairs and whose counts are in range meets the generator's promise: a key (fra, til) exists iff both are listed areas and fra ≠ til |
| OdData.CompleteCount | main.py:42-51 | any table meeting that promise over n distinct areas has n·(n − 1) entries, so one area yields an empty table |
| OdData.PairsCount | main.py:44-46 | the nested loops visit n·(n − 1) pairs when the inner list is distinct and the outer list is drawn from it |
| Aggregation.Aggregate | main.py:212-219 | the scan returns exactly the outbound rows and the inbound rows of the selection, in table order |
| Aggregation.OutboundMembers | main.py:215-217 | `reiser_ut` holds a row (til, w) iff the table has the entry (sel, til) → w |
| Aggregation.InboundMembers | main.py:215-219 | `reiser_inn` holds a row (fra, w) iff the table has the entry (fra, sel) → w |
| Aggregation.NoDoubleCounting | main.py:222-228 | without self-loops, `total_ut + total_inn` is the weight of the entries touching the selection, each counted once |
| Aggregation.GeneratedRows | main.py:215-219 | for the generated table, `reiser_ut` and `reiser_inn` each name every other area exactly once, in catalogue order |
| AreaStats.AllAreaStats | main.py:361-371 | one row per catalogue area, in order; "Reiser ut" and "Reiser inn" equal the selected-area totals, "Totalt" is their sum, "Netto" is the (unclamped) net flow |
| AreaStats.SumAtIsTotal | main.py:363-364 | the table's comprehensions give the same sums as the selected-area scan with that area selected |
| AreaStats.ColumnsBalance | main.py:361-371 | for a generated table, the "Reiser ut" column and the "Reiser inn" column each sum to the total number of trips, and "Netto" sums to zero |
| Sankey.NLargest | main.py:242-244 | `nlargest(k)` returns min(k, n) distinct rows; every chosen row has a larger count than every omitted row, or an equal count and an earlier position |
| Sankey.ReadColumnOfRows | main.py:240-244 | the `'til'` column is read exactly when `reiser_ut` is non-empty, otherwise `'fra'` |
| Sankey.TopCellsSpec | main.py:240-244 | a name is in `top_områder` iff it is the destination of an outbound row among the ten chosen (when outbound rows exist), or the origin of a chosen row (when there are none) |
| Sankey.Filter | main.py:245 | the filter keeps exactly the areas that occur in the chosen column, without adding repetitions |
| Sankey.KeptShape | main.py:232-245 | kept areas are other catalogue areas, a subsequence of `andre` (catalogue order), repetition-free for a distinct catalogue; all of `andre` when it has at most ten entries or there are no rows; at most ten otherwise |
| Sankey.KeptFromTopRows | main.py:236-245 | above ten other areas, an area is kept iff it is another area named in the chosen column; the `[:10]` slice never removes one |
| Sankey.NodesShape | main.py:231-246 | `alle_noder` has the selection at index 0 and, after it, other catalogue areas forming a subsequence of the catalogue (catalogue order), no node twice for a distinct catalogue, and at most eleven nodes once the cap applies |
| Sankey.NodeDict | main.py:248 | the dict's keys are the nodes, each maps to a position holding it, and for distinct nodes `node_dict[alle_noder[i]] == i` |
| Sankey.BuildLinks | main.py:250-267 | the three arrays have equal length and list the outbound links first, then the inbound links, in row order |
| Sankey.OutLinksSpec | main.py:255-260 | every outbound link goes from index 0 to a later node and carries the count of an outbound row to that node, and every such row yields that link |
| Sankey.InLinksSpec | main.py:262-267 | every inbound link goes from a later node to index 0 and carries the count of an inbound row from that node, and every such row yields that link |
| Sankey.OutLinksCount | main.py:255-260 | one link per outbound row when every destination is a node, none when no destination is |
| Sankey.InLinksCount | main.py:262-267 | one link per inbound row when every origin is a node, none when no origin is |
| Sankey.OutLinksBound | main.py:255-260 | when the outbound rows have distinct destinations, as dict keys make them, every outbound link points to a node after index 0 and no two point to the same node, so there are at most `len(alle_noder) - 1` of them |
| Sankey.InLinksBound | main.py:262-267 | when the inbound rows have distinct origins, every inbound link comes from a node after index 0 and no two from the same node, so there are at most `len(alle_noder) - 1` of them |
| Sankey.AggregatedRows | main.py:215-219 | the scan yields only outbound rows in `reiser_ut` and only inbound rows in `reiser_inn`; without self-loops, none leads back to the selection |
| Sankey.EveryRowLinked | main.py:236-267 | with at most ten other areas, every outbound and inbound row of another catalogue area becomes a link |
| Sankey.SankeyPanel | main.py:231-299 | the panel shows "no flows" exactly when the link list is empty; otherwise it shows the diagram of `alle_noder` with the link arrays |
| Sankey.InboundCrowdsOut | main.py:236-245 | with an outbound row, more than ten other areas and ten distinct inbound rows each heavier than every outbound row (whatever the other inbound rows weigh), no other area is kept, the nodes are just the selection, and no link is emitted |
| Sankey.TopHoldsInbound | main.py:242-244 | when ten distinct inbound rows are each heavier than every outbound row, every row chosen by `nlargest(10)` is an inbound row |
| Selection.IndexOf | main.py:97 | `list.index` gives the first position holding the name, and fails exactly when the name is absent |
| Selection.ClickOnPolygon | main.py:199-206 | a click whose first point lies on a map trace of area `a` (line 155 gives every point of that trace the `customdata` `[a]`) names `a` and leaves `a` selected, whatever was selected before; a click without points names nothing and changes nothing |
| Selection.Session.constructor | main.py:76 | a new session holds no selection |
| Selection.Session.Start | main.py:76-77 | without a stored selection, the first catalogue area is stored; this fails only on an empty catalogue; a stored selection is kept |
| Selection.Session.Selectbox | main.py:94-99 | the stored area is preselected and stays unless the user picks another, which is then stored; this fails exactly when there is no stored area or it is not in the list |
| Selection.Session.Click | main.py:199-206 | a click stores the clicked area and asks for a rerun iff it names an area different from the stored one; otherwise nothing changes; a click on a catalogue polygon keeps a selection inside the catalogue |
| Selection.ClickKeepsValid | main.py:199-206 | a click on a catalogue polygon keeps the selection inside the catalogue |
| Selection.ClickSettles | main.py:204-206 | handling the same click again changes nothing, so the rerun a click causes does not cause another |
| Dashboard.SelectedAreaPanel | main.py:208-299 | the panel's metrics are the outbound total, the inbound total and their difference, and its Sankey view is the one for the scanned rows |
| Dashboard.SmallCatalogueFullDiagram | main.py:215-267 | for the generated table over two to eleven distinct areas, the diagram has 2·(n − 1) links |
| Dashboard.GeneratedLinksBound | main.py:231-267 | for the generated table over a distinct catalogue of n areas, each direction of the diagram has at most min(n − 1, 10) links |
| Dashboard.GeneratedPanel | main.py:208-299 | one pass from the catalogue: the generated table meets the generator's promise, the metrics and the Sankey view are those of the selected-area panel, and on two to eleven distinct areas the panel never shows "no flows" and draws 2·(n − 1) links |

## Left out

- Shapefile reading, the attribute check and CRS reprojection (main.py:23-36, 55-66) are file I/O through geopandas. The names column is an input sequence instead.
- Polygon ring extraction and map traces (main.py:123-156) work on shapely geometry and only render.
- The map centre and zoom (main.py:159-175) use floating-point bounds arithmetic.
- The percentage columns rounded with `.round(1)` (main.py:310, 335) are floating-point.
- The CSV export and download buttons (main.py:322-328, 347-353) are serialisation and UI.
- The sorted outbound and inbound tables and the top-10 bar chart (main.py:300-355, 373-411) only sort and display rows the model already computes.
- All Plotly and `st.*` rendering is out, including the number formatting of the metrics, the link and node colours, and the caption at main.py:294.
- `@st.cache_data` memoisation is out, as are `st.rerun` and `st.stop`. `Selection.Session.Click` returns the rerun request as a boolean.
- Real randomness is out. Each trip count is an arbitrary choice in [300, 3000].
- Sankey.TopCells: `unique()` on the chosen column is not applied, because only membership in that list is read later.
- Selection.Session.Selectbox: the user's pick is an input position, and the method requires it to lie in the list, since the widget offers only list entries.
- Selection.ClickedArea: the nested selection event is flattened to the list of its points. A missing selection or a missing points list counts as an empty list.
