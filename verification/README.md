# GTFS-analysis: a Dafny model of feed parsing and network construction

GTFS-analysis reads public-transit feeds (GTFS) and builds a travel network from them. It then uses the network for travel-time queries. This project models the part that turns the feeds into that network:

- **Feed parsing** (`src/parse.py`). Each feed's `stops.txt` and `stop_times.txt` is reduced to the needed columns. Every stop id and trip id then gets the suffix `"_" + feed name`, so that ids from different feeds can share one table. A missing column is the `KeyError` that `.loc` raises; here it is a `Failure` that lists the missing columns.
- **Time parsing** (`src/utils.py`). `_parse_time` searches each arrival string for the leftmost `\d\d:\d\d:\d\d`. It returns `H*3600 + M*60 + S` with no range check and no wrap-around. If any entry of the column does not match, the whole column fails: that is the `astype(int)` error.
- **Transit edges** (`_get_transit_edges`). Each stop-time row is paired with the row before it in table order. The pair is kept when both rows belong to the same trip. The edge runs from the current row's stop (`stop_id_start`) to the previous row's stop (`stop_id_stop`). Its weight is the difference between the two parsed arrivals. With pruning, `groupby([start, stop]).min()` keeps one edge per key. That edge has the least weight, and the keys come out in Python's string order.
- **Walk edges** (`_parse_nearest_indicies`, `_get_walk_edges`). Every stop is paired with each entry of its neighbour list, and pairs whose two ids are equal are dropped. The row order is kept.
- **Records and assembly** (`_get_edge_recs`, `_get_node_recs`, `load_network`):
  - A networkx `MultiDiGraph` receives the stops as `(id, {stop_lat, stop_lon})` nodes.
  - It then receives the transit edge records, then the walk edge records.
  - `add_nodes_from` updates the dict of a node that is already present.
  - `add_edges_from` creates missing endpoints with an empty dict and keeps parallel edges.
- **Publisher** (`src/network.py:131`): the last `"_"`-separated piece of a stop id.

The model has these modules:

- `Wrappers` (Option and Result);
- `Naming` (the time constants);
- `Utils` (time parsing);
- `Parse` (feed frames);
- `Lexicographic` (Python's `str` order, used by the sorted groupby);
- `MultiGraph`: a value-level `Graph`, and a `MultiDiGraph` class whose methods update its fields in loops;
- `Network` (edges, records, the publisher and `LoadNetwork`).

Three behaviours of the code shape the model:

- **Edge direction.** Transit edges run from the current row's stop back to the previous row's stop. The current stop is renamed `stop_id_start` (`src/network.py:34`), and the shifted previous stop is `stop_id_stop` (`src/network.py:28`). `add_edges_from` takes the two as `(u, v)`.
- **Ordering.** Rows are paired in table order by `shift(1)` and `diff()` (`src/network.py:24-31`). Nothing sorts them by `stop_sequence` first.
- **Parallel edges.** `MultiDiGraph` (`src/network.py:135`) keeps parallel edges, so unpruned transit edges and walk edges that share a (start, stop) pair are all kept.

## Model

| member | source | states |
|---|---|---|
| Utils.Search | src/utils.py:11 | a found position is at or after the start and the pattern `\d\d:\d\d:\d\d` matches there |
| Utils.SearchSpec | src/utils.py:11 | the search finds the leftmost match, and it finds none only when the pattern occurs nowhere from the start on |
| Utils.Extract | src/utils.py:11 | `str.extract`: a match exists exactly when the search finds one, and then each of the three captured groups is below 100 |
| Utils.ParseTime | src/utils.py:9-14 | `_parse_time` on one string; what it promises is stated by ParseTimeDefined, ParseTimeLeftmost, ParseTimeRange and ParseFormat |
| Utils.ParseTimeDefined | src/utils.py:9-14 | a string parses exactly when the pattern occurs somewhere in it |
| Utils.SecondsRange | src/utils.py:13 | three two-digit groups give a value between 0 and 99:99:99 in seconds |
| Utils.ParseTimeRange | src/utils.py:9-14 | every parsed time lies between 0 and `MAX_SECONDS`: hours and minutes are not range-checked |
| Utils.ParseTimes | src/utils.py:9-14 | a column that parses yields one value per entry |
| Utils.ParseTimesSpec | src/utils.py:12 | the column parses exactly when every entry parses, and then entry `i` is `_parse_time` of string `i` |
| Utils.ParseTimeLeftmost | src/utils.py:11-13 | the value is `H*3600 + M*60 + S` from the groups of the leftmost match |
| Utils.ParseTimeUnchecked | src/utils.py:9-14 | "25:10:00" gives 90600 and "08:75:00" gives 33300: values past midnight and minutes above 59 are accepted |
| Utils.ParseTimeSearches | src/utils.py:11 | a match inside a longer string is used ("108:00:00" gives 28800) |
| Utils.ParseTimeRejects | src/utils.py:11-12 | a single-digit hour and the empty string fail to parse |
| Utils.DigitChar | src/utils.py:11 | the rendered digit is matched by `\d` and reads back as the same value |
| Utils.ParseFormat | src/utils.py:9-14 | parsing the `HH:MM:SS` rendering of any three two-digit fields gives back `H*3600 + M*60 + S` |
| Utils.SecondsMonotone | src/naming.py:17-20 | with minutes and seconds below 60, clock order is numeric order and distinct clocks give distinct values |
| Parse.NamespacedId | src/parse.py:20-26 | the global id `raw + "_" + feed name`; its injectivity and its collision are the three lemmas below |
| Parse.Missing | src/parse.py:11-19 | the result holds exactly the wanted columns that the frame lacks |
| Parse.ParseStops | src/parse.py:8-28 | fails exactly when one of the four stop columns is missing, and then names exactly those; otherwise one stop per row, in order, with the namespaced id and the row's name, lon and lat |
| Parse.ParseStopTimes | src/parse.py:31-66 | fails exactly when one of the five stop-time columns is missing, and then names exactly those; otherwise one record per row, in order, with both ids namespaced and the other cells unchanged |
| Parse.ParseFeed | src/parse.py:69-79 | a failure of the stops table is returned first, then a failure of the stop-times table; it succeeds exactly when both tables parse, and then holds exactly the two parsed tables, namespaced with the directory's name |
| Parse.NamespacedIdInjectiveInRaw | src/parse.py:20-26 | within one feed, distinct raw ids give distinct namespaced ids |
| Parse.NamespacedIdInjectiveInFeed | src/parse.py:52-58 | for one raw id, distinct feed names give distinct namespaced ids |
| Parse.NamespacingCollision | src/parse.py:23 | the suffix is not escaped: ("1_a", "b") and ("1", "a_b") meet in the same id |
| Lexicographic.StrLessIrreflexive | src/network.py:46-48 | no group key sorts before itself |
| Lexicographic.StrLessTransitive | src/network.py:46-48 | the string order used to sort group keys is transitive |
| Lexicographic.StrLessTotal | src/network.py:46-48 | any two distinct strings are ordered one way or the other |
| Lexicographic.PairLessStrictTotal | src/network.py:46-48 | the (start, stop) key order is a strict total order |
| MultiGraph.AddNode | src/network.py:136 | one `add_node`: a new node is appended with its dict, an existing node's dict is updated with later values winning |
| MultiGraph.AddNodes | src/network.py:136 | `add_nodes_from`, record after record (behaviour in AddNodesSpec, AddNodesMembers, AddNodesLastWins) |
| MultiGraph.EnsureNode | src/network.py:137-140 | a missing endpoint is created with an empty dict; a present one is left alone |
| MultiGraph.AddEdge | src/network.py:137-140 | one `add_edge`: create missing endpoints, then append the edge (behaviour in AddEdgeNodes, AddEdgeValid) |
| MultiGraph.AddEdges | src/network.py:137-140 | `add_edges_from`, record after record (behaviour in AddEdgesSpec, AddEdgesNodes) |
| MultiGraph.EmptyValid | src/network.py:135 | a new multigraph is well formed |
| MultiGraph.AddNodeValid | src/network.py:136 | adding or updating one node keeps the graph well formed |
| MultiGraph.EnsureNodeValid | src/network.py:137-140 | creating a missing endpoint keeps the graph well formed and makes the endpoint a node |
| MultiGraph.AddNodesSpec | src/network.py:136 | `add_nodes_from` keeps the graph well formed and leaves the edges unchanged |
| MultiGraph.AddNodesMembers | src/network.py:136 | after `add_nodes_from`, the nodes are exactly the old nodes and the records' ids |
| MultiGraph.AddEdgeValid | src/network.py:137-140 | adding one edge keeps the graph well formed |
| MultiGraph.AddEdgeNodes | src/network.py:137-140 | one edge adds its missing endpoints and nothing else, and leaves existing dicts untouched |
| MultiGraph.AddEdgesSpec | src/network.py:137-140 | `add_edges_from` keeps the graph well formed and appends every record in order, with parallel edges kept |
| MultiGraph.AddEdgesNodes | src/network.py:137-140 | after `add_edges_from`, the nodes are the old nodes plus the records' endpoints, and existing dicts are untouched |
| MultiGraph.AddNodesKeysWithin | src/network.py:136 | when all records carry the same keys, no node's dict gains other keys |
| MultiGraph.AddNodesLastWins | src/network.py:136 | when all records carry the same keys, a node's dict is that of the last record with its id |
| MultiGraph.MultiDiGraph.constructor | src/network.py:135 | the new object holds the empty graph |
| MultiGraph.MultiDiGraph.AddNodesFrom | src/network.py:136 | the in-place loop leaves the graph that `AddNodes` specifies, and keeps it well formed |
| MultiGraph.MultiDiGraph.AddEdgesFrom | src/network.py:137-140 | the in-place loop leaves the graph that `AddEdges` specifies, and keeps it well formed |
| Network.ShiftRow | src/network.py:22-33 | row `i` after `.assign`: its trip and stop, and for `i > 0` the previous row's stop and trip and the arrival difference (NaN on row 0) |
| Network.Shift | src/network.py:22-33 | the `.assign` step gives one shifted row per stop-time row |
| Network.ShiftRows | src/network.py:22-33 | row `i` of the shifted table is the shift of row `i`: no row is reordered, dropped or added |
| Network.Kept | src/network.py:35-42 | the `trip_id == departure_trip_id` filter on one row (behaviour in KeptRow) |
| Network.KeepSameTrip | src/network.py:35-42 | the filter and the column selection over the frame, row by row (behaviour in KeepSameTripSpec) |
| Network.TransitEdges | src/network.py:19-53 | `_get_transit_edges`: parse, shift, filter, then prune or not; what it promises is in TransitEdgesDefined, TransitEdgesUnpruned and PruneSpec |
| Network.PairRowsSpec | src/network.py:35-36 | the reference list of pairing rows holds exactly the rows that follow a row of the same trip, ascending, with at most n-1 of them |
| Network.EdgeAtPrefix | src/network.py:24-31 | the edge of row `i` depends only on rows `i-1` and `i` |
| Network.KeptRow | src/network.py:35-42 | a shifted row survives the filter exactly when it follows a row of the same trip (row 0's NaN equals nothing), and then it yields (its stop, the previous stop, the arrival difference) |
| Network.KeepSameTripAppend | src/network.py:35-42 | the filter works row by row: filtering one more row appends only that row's edge |
| Network.KeepSameTripStep | src/network.py:22-42 | one more stop-time row adds at most the edge that this row yields |
| Network.KeepSameTripSpec | src/network.py:22-42 | the filtered frame has one edge per pairing row, in table order, each equal to that row's edge |
| Network.TransitEdgesDefined | src/network.py:25 | the transit edges can be computed exactly when every arrival time parses |
| Network.TransitEdgesUnpruned | src/network.py:19-53 | without pruning: one edge per row that follows a row of the same trip, in table order, from that row's stop to the previous row's stop, weighing the arrival difference |
| Network.ParsedArrivals | src/network.py:25 | entry `i` of the parsed arrival column is `_parse_time` of row `i`'s arrival |
| Network.TransitEdgeCount | src/network.py:24-43 | row 0 never yields an edge, and there are at most n-1 unpruned edges |
| Network.UnprunedWeightsNonNegative | src/network.py:24-26 | when arrivals never decrease within a trip, no unpruned edge has negative weight |
| Network.TransitWeightsNonNegative | src/network.py:19-53 | under the same premise, no transit edge has negative weight, pruned or not |
| Network.Merge | src/network.py:46-48 | inserts one edge into the grouped frame, keeping the lesser weight for its key (behaviour in MergeKeys, MergeSorted, MergeLookup) |
| Network.Prune | src/network.py:45-48 | `groupby([start, stop]).min()` on the unpruned frame (behaviour in PruneSpec) |
| Network.MinDistance | src/network.py:46-48 | the minimum exists exactly when the key occurs; it is the weight of some edge with that key and at most the weight of every such edge |
| Network.LookupNone | src/network.py:46-48 | a key is absent from the grouped frame exactly when it is not among its keys |
| Network.LookupSorted | src/network.py:46-48 | in a strictly sorted frame, looking up an edge's key finds that edge's weight |
| Network.KeysAppend | src/network.py:46-48 | appending an edge adds exactly its key |
| Network.MergeKeys | src/network.py:46-48 | merging an edge into the grouped frame adds its key and no other |
| Network.BeforeAll | src/network.py:46-48 | a key before the first key of a sorted frame is before all of them and is not among them |
| Network.MergeSorted | src/network.py:46-48 | merging keeps the frame strictly sorted by key |
| Network.MergeLookup | src/network.py:46-48 | after merging, the edge's key holds the lesser of the two weights and every other key is unchanged |
| Network.PruneLookup | src/network.py:45-48 | the pruned frame is strictly sorted, has the unpruned keys, and holds under each key its minimum weight |
| Network.PruneSpec | src/network.py:45-48 | `groupby(...).min()`: keys ascend and none repeats, the key set is the unpruned one, and each weight is the least unpruned weight for its key |
| Network.NearestPairs | src/network.py:56-74 | `_parse_nearest_indicies(i)`: stop `i` beside each of its neighbours with the walking time (layout in CandidateAt) |
| Network.Candidates | src/network.py:86-94 | `pd.concat` of the frames of the stops in order (layout in CandidatesLength, CandidateAt, CandidatesMembers) |
| Network.DropSelfPairs | src/network.py:95 | the `stop_id_start != stop_id_stop` filter (behaviour in DropSelfPairsSpec, DropSelfPairsAppend) |
| Network.WalkEdges | src/network.py:77-98 | `_get_walk_edges` on a non-empty stops table (behaviour in WalkEdgesSpec, WalkEdgesPerStop) |
| Network.CandidatesLength | src/network.py:86-94 | the concatenated frames hold one row per neighbour of each stop |
| Network.CandidateAt | src/network.py:59-74 | stop `i`'s `k`-th neighbour sits at offset(i)+k, paired with stop `i` and with its walking time |
| Network.CandidatesMembers | src/network.py:86-94 | every concatenated row is some stop paired with one of its neighbours |
| Network.DropSelfPairsSpec | src/network.py:95 | the filter keeps exactly the rows whose two ids differ, and never adds rows |
| Network.DropSelfPairsAppend | src/network.py:95 | the filter keeps row order: filtering a concatenation filters each part |
| Network.WalkEdgesPerStop | src/network.py:86-95 | walk edges are stop 0's surviving pairs, then stop 1's, and so on |
| Network.WalkEdgesSpec | src/network.py:77-98 | a walk edge is exactly a (stop, neighbour) pair whose ids differ, and both of its ends are stop ids |
| Network.EdgeRecs | src/network.py:101-108 | one `(start, stop, {distance})` record per frame row, in order, with the row's ids and weight |
| Network.NodeRecs | src/network.py:111-112 | one `(id, {stop_lat, stop_lon})` record per stop, in order, all with the same two keys |
| Network.IndexOf | src/network.py:131 | absent exactly when the separator does not occur; otherwise the first position where it occurs |
| Network.Split | src/network.py:131 | `str.split`: at least one piece, no piece contains the separator, and joining the pieces gives back the string |
| Network.JoinEndsWithLast | src/network.py:131 | a joined string ends with its last piece, preceded by the separator when there are several pieces |
| Network.Publisher | src/network.py:131 | the publisher is the longest suffix of the id without "_" |
| Network.PublisherOfNamespacedId | src/network.py:131 | when the feed name has no "_", the publisher of a namespaced id is the feed name |
| Network.NamespacedIdsUnique | src/network.py:131 | when feed names have no "_", distinct (raw id, feed) pairs give distinct ids |
| Network.PublisherTruncatesFeedName | src/network.py:131 | a feed named "bkk_2021" yields the publisher "2021" |
| Network.Assemble | src/network.py:135-140 | stops as nodes, then transit records, then walk records, on an empty multigraph (behaviour in AssembleEdges, AssembleNodes) |
| Network.BuildGraph | src/network.py:115-143 | the network, or `None` when an arrival does not parse or there are no stops (behaviour in BuildGraphDefined, BuildGraphSpec) |
| Network.BuildGraphDefined | src/network.py:86-94 | the network exists exactly when every arrival time parses and the stops table is not empty |
| Network.LoadNetwork | src/network.py:115-143 | succeeds exactly when the transit edges can be computed and there is at least one stop, and then returns a fresh multigraph holding the graph `BuildGraph` specifies |
| Network.BatchesValid | src/network.py:135-140 | nodes, then two edge batches, added to an empty graph give a well-formed graph whose edges are the two batches in order |
| Network.BatchesNodes | src/network.py:135-140 | when the second batch's endpoints are already nodes, the nodes are the added ones plus the first batch's endpoints, and their dicts are untouched |
| Network.AssembleEdges | src/network.py:135-140 | the assembled graph is well formed, and its edges are the transit records followed by the walk records |
| Network.StopNodes | src/network.py:136 | the nodes added from the stops are exactly the stop ids |
| Network.AssembleNodes | src/network.py:135-140 | when the walk edges join stops, the nodes are the stops and the transit endpoints, and a stop keeps the coordinates of the last stop row with its id |
| Network.GraphWeightsNonNegative | src/network.py:135-140 | when arrivals never decrease within a trip and walking times are not negative, no edge weight of the network is negative |
| Network.BuildGraphSpec | src/network.py:115-143 | the network is well formed; its edges are all transit records, then all walk records; its nodes are the stops plus transit endpoints; each stop carries its last row's coordinates |

## Left out

- The pickle cache (`read_gpickle`, `write_gpickle`, `fp`, `overwrite`) and the `TableRepo` storage are I/O. `LoadNetwork` always builds.
- `pd.read_csv` and file paths are left out. A table arrives as a `Frame` of columns and text cells in which every row has every column. `astype(str)` on ids is the identity on text.
- `Parse.ParseStops`: cells are kept as text. The float typing of lat/lon and the `set_index` on the id are not modelled; the id is a field of each `Stop`.
- `Parse.ParseStopTimes`: the rename of `trip_id` and `stop_id` to the schema's column names is treated as the identity. The schema library's naming is not part of this model.
- The `GeoDataFrame` geometry column is left out. The graph never reads it.
- The radius query is an input and is not modelled: the `BallTree` haversine query, `deg2rad`, `EARTH_RADIUS` and `PREFERRED_WALKING_SPEED`. Each stop's neighbour positions and walking times (already divided by the speed) are given, and walk weights are opaque reals. `src/config.py` is not part of this model.
- `tqdm` progress output is left out.
- `src/merge.py` (combining feeds) is not modelled.
- `src/meta.py` is used only for column names.
- The travel-time queries run on the finished network are not modelled.
- `Utils.IsDigit`: `\d` is taken as ASCII digits. Python also matches other Unicode decimal digits.
- Networkx edge keys (0, 1, … for parallel edges) are not modelled. Edges are kept as an ordered list of records.
- The publisher column (`src/network.py:131`) is computed on the stops frame but never reaches the graph. It is modelled as a function on ids, with its properties proved separately.
- `Network.TransitEdgesUnpruned` states each weight through the parsed arrival column. `Network.ParsedArrivals` ties each entry of that column to `_parse_time` of the row's arrival.
- `Network.GraphWeightsNonNegative` assumes walking times are not negative. They are inputs here, so the model cannot derive this.
- `Network.UnprunedWeightsNonNegative` assumes arrivals never decrease within a trip. The source does not check this, so a negative weight is possible when it fails.
