/**
 * Graph construction (src/network.py).
 *
 * Transit edges come from the stop-times table in table order: every row is
 * paired with the row before it (`shift(1)` and `diff()`, no sort by
 * sequence number) and the pair is kept when both rows belong to the same
 * trip. The edge runs from the CURRENT row's stop ("_start") to the
 * PREVIOUS row's stop ("_stop") and weighs the difference of their parsed
 * arrival times. With pruning, `groupby([start, stop]).min()` keeps one edge
 * per key, with the least weight, in sorted key order.
 *
 * Walk edges pair every stop with each entry of its radius-query neighbour
 * list and drop the pairs whose two ids are equal. The neighbour lists and
 * the walking times are inputs here (see README).
 *
 * `load_network` adds the stops as nodes, then the transit edge records,
 * then the walk edge records, to a multigraph.
 */
module Network {
  import opened Wrappers
  import opened Parse
  import opened Lexicographic
  import opened MultiGraph
  import Utils

  /** A row of an edge frame: its (start, stop) index and its "distance" column. */
  datatype Edge<W> = Edge(start: string, stop: string, distance: W)

  function Key<W>(e: Edge<W>): (string, string) {
    (e.start, e.stop)
  }

  function Keys<W(==)>(es: seq<Edge<W>>): set<(string, string)> {
    set e | e in es :: Key(e)
  }

  function Min(a: int, b: int): int {
    if a <= b then a else b
  }

  // ---------------------------------------------------------------------
  // Transit edges (`_get_transit_edges`)
  // ---------------------------------------------------------------------

  /** What `shift(1)` and `diff()` bring from the previous row; NaN (None) on row 0. */
  datatype Predecessor = Predecessor(stop: string, trip: string, distance: int)

  /** A row of the frame before the filter: trip id, the row's own stop ("_start"), the shifted columns. */
  datatype ShiftedRow = ShiftedRow(trip: string, start: string, pred: Option<Predecessor>)

  function Arrivals(visits: seq<StopTime>): seq<string> {
    seq(|visits|, i requires 0 <= i < |visits| => visits[i].arrival)
  }

  /** Row `i` after the `.assign` step: the previous row's stop and trip and the arrival difference. */
  function ShiftRow(visits: seq<StopTime>, times: seq<int>, i: nat): ShiftedRow
    requires |times| == |visits| && i < |visits|
  {
    ShiftedRow(visits[i].tripId, visits[i].stopId,
               if i == 0 then None
               else Some(Predecessor(visits[i - 1].stopId, visits[i - 1].tripId, times[i] - times[i - 1])))
  }

  /** The `.assign` step on the whole table, row by row. */
  function Shift(visits: seq<StopTime>, times: seq<int>): (r: seq<ShiftedRow>)
    requires |times| == |visits|
    ensures |r| == |visits|
  {
    if |visits| == 0 then []
    else Shift(visits[..|visits| - 1], times[..|visits| - 1]) + [ShiftRow(visits, times, |visits| - 1)]
  }

  /** Row `i` of the shifted table is ShiftRow of row `i`: nothing is reordered, dropped or added. */
  lemma {:induction false} ShiftRows(visits: seq<StopTime>, times: seq<int>)
    requires |times| == |visits|
    ensures forall i :: 0 <= i < |visits| ==> Shift(visits, times)[i] == ShiftRow(visits, times, i)
  {
    if |visits| > 0 {
      var n := |visits|;
      var init, initTimes := visits[..n - 1], times[..n - 1];
      ShiftRows(init, initTimes);
      forall i | 0 <= i < n - 1 ensures Shift(visits, times)[i] == ShiftRow(visits, times, i) {
        assert Shift(visits, times)[i] == Shift(init, initTimes)[i];
        assert ShiftRow(init, initTimes, i) == ShiftRow(visits, times, i);
      }
    }
  }

  /** The edge a shifted row keeps: the `.loc` filter `trip_id == departure_trip_id` (NaN equals nothing). */
  function Kept(row: ShiftedRow): seq<Edge<int>> {
    if row.pred.Some? && row.pred.value.trip == row.trip
    then [Edge(row.start, row.pred.value.stop, row.pred.value.distance)]
    else []
  }

  /** The filter and the column selection over the whole frame, in row order. */
  function KeepSameTrip(rows: seq<ShiftedRow>): seq<Edge<int>> {
    if |rows| == 0 then []
    else KeepSameTrip(rows[..|rows| - 1]) + Kept(rows[|rows| - 1])
  }

  /**
   * `_get_transit_edges`. `None` is the error `astype(int)` raises when an
   * arrival time anywhere in the table does not parse.
   */
  function TransitEdges(visits: seq<StopTime>, prune: bool): Option<seq<Edge<int>>> {
    var times :- Utils.ParseTimes(Arrivals(visits));
    var edges := KeepSameTrip(Shift(visits, times));
    Some(if prune then Prune(edges) else edges)
  }

  /** Row `i` follows a row of the same trip. */
  predicate FollowsSameTrip(visits: seq<StopTime>, i: int) {
    1 <= i < |visits| && visits[i].tripId == visits[i - 1].tripId
  }

  /** The rows that yield a transit edge, ascending: a reference for the filter. */
  function PairRows(visits: seq<StopTime>): seq<nat> {
    if |visits| == 0 then []
    else PairRows(visits[..|visits| - 1]) + (if FollowsSameTrip(visits, |visits| - 1) then [|visits| - 1] else [])
  }

  /** PairRows lists exactly the rows that follow a row of the same trip, ascending. */
  lemma {:induction false} PairRowsSpec(visits: seq<StopTime>)
    ensures forall j :: 0 <= j < |PairRows(visits)| ==> FollowsSameTrip(visits, PairRows(visits)[j])
    ensures forall i :: FollowsSameTrip(visits, i) ==> i in PairRows(visits)
    ensures forall j, k :: 0 <= j < k < |PairRows(visits)| ==> PairRows(visits)[j] < PairRows(visits)[k]
    ensures |PairRows(visits)| <= if |visits| == 0 then 0 else |visits| - 1
  {
    if |visits| > 0 {
      var init := visits[..|visits| - 1];
      PairRowsSpec(init);
      assert forall i :: FollowsSameTrip(init, i) <==> FollowsSameTrip(visits, i) && i < |visits| - 1;
    }
  }

  /** The edge that row `i` yields, given the parsed arrival times. */
  function EdgeAt(visits: seq<StopTime>, times: seq<int>, i: nat): Edge<int>
    requires |times| == |visits| && 1 <= i < |visits|
  {
    Edge(visits[i].stopId, visits[i - 1].stopId, times[i] - times[i - 1])
  }

  lemma EdgeAtPrefix(visits: seq<StopTime>, times: seq<int>, i: nat)
    requires |times| == |visits| && 1 <= i < |visits| - 1
    ensures EdgeAt(visits[..|visits| - 1], times[..|visits| - 1], i) == EdgeAt(visits, times, i)
  {
  }

  /** Row `i` is kept exactly when it follows a row of the same trip, and then it yields EdgeAt. */
  lemma KeptRow(visits: seq<StopTime>, times: seq<int>, i: nat)
    requires |times| == |visits| && i < |visits|
    ensures Kept(ShiftRow(visits, times, i)) == if FollowsSameTrip(visits, i) then [EdgeAt(visits, times, i)] else []
  {
  }

  lemma KeepSameTripAppend(rows: seq<ShiftedRow>, row: ShiftedRow)
    ensures KeepSameTrip(rows + [row]) == KeepSameTrip(rows) + Kept(row)
  {
  }

  /** One more row adds at most the edge that row yields. */
  lemma KeepSameTripStep(visits: seq<StopTime>, times: seq<int>)
    requires |times| == |visits| && |visits| > 0
    ensures KeepSameTrip(Shift(visits, times))
              == KeepSameTrip(Shift(visits[..|visits| - 1], times[..|visits| - 1]))
                 + (if FollowsSameTrip(visits, |visits| - 1) then [EdgeAt(visits, times, |visits| - 1)] else [])
  {
    var n := |visits|;
    KeepSameTripAppend(Shift(visits[..n - 1], times[..n - 1]), ShiftRow(visits, times, n - 1));
    KeptRow(visits, times, n - 1);
  }

  lemma {:induction false} KeepSameTripSpec(visits: seq<StopTime>, times: seq<int>)
    requires |times| == |visits|
    ensures |KeepSameTrip(Shift(visits, times))| == |PairRows(visits)|
    ensures forall j :: 0 <= j < |PairRows(visits)| ==>
              && FollowsSameTrip(visits, PairRows(visits)[j])
              && KeepSameTrip(Shift(visits, times))[j] == EdgeAt(visits, times, PairRows(visits)[j])
  {
    if |visits| > 0 {
      var n := |visits|;
      var init, initTimes := visits[..n - 1], times[..n - 1];
      KeepSameTripSpec(init, initTimes);
      KeepSameTripStep(visits, times);
      var edges := KeepSameTrip(Shift(visits, times));
      var before := KeepSameTrip(Shift(init, initTimes));
      var pairs := PairRows(visits);
      var pairsBefore := PairRows(init);
      assert pairs == pairsBefore + (if FollowsSameTrip(visits, n - 1) then [n - 1] else []);
      forall j | 0 <= j < |pairs|
        ensures FollowsSameTrip(visits, pairs[j])
        ensures edges[j] == EdgeAt(visits, times, pairs[j])
      {
        if j < |pairsBefore| {
          var i := pairsBefore[j];
          assert FollowsSameTrip(init, i);
          EdgeAtPrefix(visits, times, i);
          assert edges[j] == before[j];
          assert pairs[j] == i;
        } else {
          assert pairs[j] == n - 1;
        }
      }
    }
  }

  /** An arrival time fails to parse exactly when the table's transit edges cannot be computed. */
  lemma TransitEdgesDefined(visits: seq<StopTime>, prune: bool)
    ensures TransitEdges(visits, prune).Some? <==>
              forall i :: 0 <= i < |visits| ==> Utils.ParseTime(visits[i].arrival).Some?
  {
    Utils.ParseTimesSpec(Arrivals(visits));
    assert forall i :: 0 <= i < |visits| ==> Arrivals(visits)[i] == visits[i].arrival;
  }

  /**
   * Without pruning: exactly one edge per row that follows a row of the same
   * trip, in table order, from that row's stop to the previous row's stop,
   * weighing the difference of the two rows' entries in the parsed arrival
   * column (ParsedArrivals: each entry is `_parse_time` of that row).
   */
  lemma TransitEdgesUnpruned(visits: seq<StopTime>)
    requires TransitEdges(visits, false).Some?
    ensures Utils.ParseTimes(Arrivals(visits)).Some?
    ensures var times := Utils.ParseTimes(Arrivals(visits)).value;
            var edges := TransitEdges(visits, false).value;
            var rows := PairRows(visits);
            && |times| == |visits|
            && |edges| == |rows|
            && forall j :: 0 <= j < |rows| ==>
                 var i := rows[j];
                 && FollowsSameTrip(visits, i)
                 && edges[j] == EdgeAt(visits, times, i)
  {
    var times := Utils.ParseTimes(Arrivals(visits)).value;
    var edges := KeepSameTrip(Shift(visits, times));
    assert TransitEdges(visits, false).value == edges;
    KeepSameTripSpec(visits, times);
  }

  /** The parsed arrival column, entry by entry. */
  lemma ParsedArrivals(visits: seq<StopTime>, times: seq<int>)
    requires Utils.ParseTimes(Arrivals(visits)) == Some(times)
    ensures |times| == |visits|
    ensures forall i :: 0 <= i < |visits| ==> Utils.ParseTime(visits[i].arrival) == Some(times[i])
  {
    Utils.ParseTimesSpec(Arrivals(visits));
    assert forall i :: 0 <= i < |visits| ==> Arrivals(visits)[i] == visits[i].arrival;
  }

  /** Row 0 never yields an edge, no edge crosses a trip boundary, and there are at most n - 1 edges. */
  lemma TransitEdgeCount(visits: seq<StopTime>)
    requires TransitEdges(visits, false).Some?
    ensures |TransitEdges(visits, false).value| <= if |visits| == 0 then 0 else |visits| - 1
    ensures forall j :: 0 <= j < |PairRows(visits)| ==> PairRows(visits)[j] != 0
  {
    TransitEdgesUnpruned(visits);
    PairRowsSpec(visits);
  }

  /** Arrivals that never decrease within a trip (in table order). */
  predicate ArrivalsNonDecreasing(visits: seq<StopTime>) {
    forall i :: 1 <= i < |visits| && FollowsSameTrip(visits, i) ==>
      Utils.ParseTime(visits[i - 1].arrival).Some? && Utils.ParseTime(visits[i].arrival).Some? &&
      Utils.ParseTime(visits[i - 1].arrival).value <= Utils.ParseTime(visits[i].arrival).value
  }

  /** When arrivals never decrease within a trip, no unpruned transit edge has negative weight. */
  lemma UnprunedWeightsNonNegative(visits: seq<StopTime>)
    requires TransitEdges(visits, false).Some?
    requires ArrivalsNonDecreasing(visits)
    ensures forall j :: 0 <= j < |TransitEdges(visits, false).value| ==> TransitEdges(visits, false).value[j].distance >= 0
  {
    TransitEdgesUnpruned(visits);
    var times := Utils.ParseTimes(Arrivals(visits)).value;
    ParsedArrivals(visits, times);
    var edges := TransitEdges(visits, false).value;
    var rows := PairRows(visits);
    forall j | 0 <= j < |edges| ensures edges[j].distance >= 0 {
      var i := rows[j];
      assert FollowsSameTrip(visits, i);
      assert Utils.ParseTime(visits[i].arrival) == Some(times[i]);
      assert Utils.ParseTime(visits[i - 1].arrival) == Some(times[i - 1]);
    }
  }

  /** When arrivals never decrease within a trip, no transit edge has negative weight, pruned or not. */
  lemma TransitWeightsNonNegative(visits: seq<StopTime>, prune: bool)
    requires TransitEdges(visits, prune).Some?
    requires ArrivalsNonDecreasing(visits)
    ensures forall e :: e in TransitEdges(visits, prune).value ==> e.distance >= 0
  {
    var times := Utils.ParseTimes(Arrivals(visits)).value;
    var edges := KeepSameTrip(Shift(visits, times));
    assert TransitEdges(visits, false) == Some(edges);
    UnprunedWeightsNonNegative(visits);
    if prune {
      assert TransitEdges(visits, prune).value == Prune(edges);
      PruneSpec(edges);
      var pruned := Prune(edges);
      forall e | e in pruned ensures e.distance >= 0 {
        var m := MinDistance(edges, Key(e)).value;
        var w :| w in edges && Key(w) == Key(e) && w.distance == m;
        var k :| 0 <= k < |edges| && edges[k] == w;
      }
    } else {
      forall e | e in edges ensures e.distance >= 0 {
        var k :| 0 <= k < |edges| && edges[k] == e;
      }
    }
  }

  // ---------------------------------------------------------------------
  // Pruning (`groupby([start, stop]).min()`)
  // ---------------------------------------------------------------------

  /** Ordered by key with no key twice: the shape of a sorted groupby result. */
  predicate StrictlySorted(es: seq<Edge<int>>) {
    forall i, j :: 0 <= i < j < |es| ==> PairLess(Key(es[i]), Key(es[j]))
  }

  /** The least weight among the edges with key `k`; `None` when there is none. */
  function MinDistance(edges: seq<Edge<int>>, k: (string, string)): (r: Option<int>)
    ensures r.None? <==> k !in Keys(edges)
    ensures r.Some? ==> exists e :: e in edges && Key(e) == k && e.distance == r.value
    ensures r.Some? ==> forall e :: e in edges && Key(e) == k ==> r.value <= e.distance
  {
    if |edges| == 0 then None
    else
      var init, last := edges[..|edges| - 1], edges[|edges| - 1];
      assert edges == init + [last];
      var m := MinDistance(init, k);
      if Key(last) != k then m
      else match m
        case None => Some(last.distance)
        case Some(d) => Some(Min(d, last.distance))
  }

  /** Insert one edge into a sorted frame, merging it with an edge of the same key. */
  function Merge(e: Edge<int>, sorted: seq<Edge<int>>): seq<Edge<int>>
    decreases |sorted|
  {
    if |sorted| == 0 then [e]
    else if Key(e) == Key(sorted[0]) then [sorted[0].(distance := Min(sorted[0].distance, e.distance))] + sorted[1..]
    else if PairLess(Key(e), Key(sorted[0])) then [e] + sorted
    else [sorted[0]] + Merge(e, sorted[1..])
  }

  /** The pruned frame: one edge per key, least weight, keys ascending. */
  function Prune(edges: seq<Edge<int>>): seq<Edge<int>> {
    if |edges| == 0 then []
    else Merge(edges[|edges| - 1], Prune(edges[..|edges| - 1]))
  }

  /** The weight stored under key `k` (the first match). */
  function Lookup(es: seq<Edge<int>>, k: (string, string)): Option<int> {
    if |es| == 0 then None
    else if Key(es[0]) == k then Some(es[0].distance)
    else Lookup(es[1..], k)
  }

  lemma {:induction false} LookupNone(es: seq<Edge<int>>, k: (string, string))
    ensures Lookup(es, k).None? <==> k !in Keys(es)
  {
    if |es| > 0 {
      LookupNone(es[1..], k);
      assert es == [es[0]] + es[1..];
      assert Keys(es) == {Key(es[0])} + Keys(es[1..]);
    }
  }

  lemma {:induction false} LookupSorted(es: seq<Edge<int>>, j: nat)
    requires StrictlySorted(es) && j < |es|
    ensures Lookup(es, Key(es[j])) == Some(es[j].distance)
  {
    if j > 0 {
      PairLessStrictTotal(Key(es[0]), Key(es[j]), Key(es[j]));
      assert StrictlySorted(es[1..]);
      LookupSorted(es[1..], j - 1);
    }
  }

  lemma KeysAppend(es: seq<Edge<int>>, e: Edge<int>)
    ensures Keys(es + [e]) == Keys(es) + {Key(e)}
  {
  }

  /** Merging adds the edge's key and no other. */
  lemma {:induction false} MergeKeys(e: Edge<int>, sorted: seq<Edge<int>>)
    ensures Keys(Merge(e, sorted)) == Keys(sorted) + {Key(e)}
    decreases |sorted|
  {
    if |sorted| == 0 {
      assert Keys([e]) == {Key(e)};
    } else {
      var head, rest := sorted[0], sorted[1..];
      assert sorted == [head] + rest;
      assert Keys(sorted) == {Key(head)} + Keys(rest);
      var merged := Merge(e, sorted);
      if Key(e) == Key(head) {
        assert merged == [head.(distance := Min(head.distance, e.distance))] + rest;
        assert Keys(merged) == {Key(head)} + Keys(rest);
      } else if PairLess(Key(e), Key(head)) {
        assert Keys(merged) == {Key(e)} + Keys(sorted);
      } else {
        MergeKeys(e, rest);
        assert merged == [head] + Merge(e, rest);
        assert Keys(merged) == {Key(head)} + Keys(Merge(e, rest));
      }
    }
  }

  /** An edge whose key precedes the first key of a sorted frame precedes all of them. */
  lemma BeforeAll(e: Edge<int>, sorted: seq<Edge<int>>)
    requires StrictlySorted(sorted) && |sorted| > 0 && PairLess(Key(e), Key(sorted[0]))
    ensures forall j :: 0 <= j < |sorted| ==> PairLess(Key(e), Key(sorted[j]))
    ensures Key(e) !in Keys(sorted)
  {
    forall j | 0 <= j < |sorted| ensures PairLess(Key(e), Key(sorted[j])) {
      if j > 0 {
        PairLessStrictTotal(Key(e), Key(sorted[0]), Key(sorted[j]));
      }
    }
    forall x | x in sorted ensures Key(x) != Key(e) {
      var j :| 0 <= j < |sorted| && sorted[j] == x;
      PairLessStrictTotal(Key(e), Key(sorted[j]), Key(sorted[j]));
    }
  }

  /** Merging into a strictly sorted frame keeps it strictly sorted. */
  lemma {:induction false} MergeSorted(e: Edge<int>, sorted: seq<Edge<int>>)
    requires StrictlySorted(sorted)
    ensures StrictlySorted(Merge(e, sorted))
    decreases |sorted|
  {
    if |sorted| > 0 {
      var head, rest := sorted[0], sorted[1..];
      assert StrictlySorted(rest);
      if Key(e) == Key(head) {
      } else if PairLess(Key(e), Key(head)) {
        BeforeAll(e, sorted);
      } else {
        PairLessStrictTotal(Key(e), Key(head), Key(head));
        MergeSorted(e, rest);
        MergeKeys(e, rest);
        var tail := Merge(e, rest);
        var merged := [head] + tail;
        forall x | x in tail ensures PairLess(Key(head), Key(x)) {
          assert Key(x) in Keys(tail);
          if Key(x) != Key(e) {
            var y :| y in rest && Key(y) == Key(x);
            var j :| 0 <= j < |rest| && rest[j] == y;
            assert sorted[j + 1] == y;
          }
        }
        forall i, j | 0 <= i < j < |merged| ensures PairLess(Key(merged[i]), Key(merged[j])) {
          if i == 0 {
            assert merged[j] in tail;
          } else {
            assert merged[i] == tail[i - 1] && merged[j] == tail[j - 1];
          }
        }
      }
    }
  }

  /** After merging, the edge's key holds the lesser of the two weights; other keys are unchanged. */
  lemma {:induction false} MergeLookup(e: Edge<int>, sorted: seq<Edge<int>>)
    requires StrictlySorted(sorted)
    ensures forall k :: Lookup(Merge(e, sorted), k) ==
              if k != Key(e) then Lookup(sorted, k)
              else match Lookup(sorted, k)
                case None => Some(e.distance)
                case Some(d) => Some(Min(d, e.distance))
    decreases |sorted|
  {
    if |sorted| > 0 {
      var head, rest := sorted[0], sorted[1..];
      if Key(e) == Key(head) {
      } else if PairLess(Key(e), Key(head)) {
        BeforeAll(e, sorted);
        LookupNone(sorted, Key(e));
      } else {
        assert StrictlySorted(rest);
        MergeLookup(e, rest);
      }
    }
  }

  /**
   * `groupby([start, stop]).min()`: the keys ascend (so each key appears
   * once), the key set is the unpruned frame's, and each edge's weight is
   * the least unpruned weight for its key.
   */
  lemma {:induction false} PruneSpec(edges: seq<Edge<int>>)
    ensures StrictlySorted(Prune(edges))
    ensures forall i, j :: 0 <= i < j < |Prune(edges)| ==> Key(Prune(edges)[i]) != Key(Prune(edges)[j])
    ensures Keys(Prune(edges)) == Keys(edges)
    ensures forall j :: 0 <= j < |Prune(edges)| ==>
              MinDistance(edges, Key(Prune(edges)[j])) == Some(Prune(edges)[j].distance)
  {
    PruneLookup(edges);
    var r := Prune(edges);
    forall i, j | 0 <= i < j < |r| ensures Key(r[i]) != Key(r[j]) {
      PairLessStrictTotal(Key(r[i]), Key(r[j]), Key(r[j]));
    }
    forall j | 0 <= j < |r| ensures MinDistance(edges, Key(r[j])) == Some(r[j].distance) {
      LookupSorted(r, j);
    }
  }

  lemma {:induction false} PruneLookup(edges: seq<Edge<int>>)
    ensures StrictlySorted(Prune(edges))
    ensures Keys(Prune(edges)) == Keys(edges)
    ensures forall k :: Lookup(Prune(edges), k) == MinDistance(edges, k)
  {
    if |edges| > 0 {
      var init, last := edges[..|edges| - 1], edges[|edges| - 1];
      PruneLookup(init);
      MergeSorted(last, Prune(init));
      MergeKeys(last, Prune(init));
      MergeLookup(last, Prune(init));
      assert edges == init + [last];
      KeysAppend(init, last);
    }
  }

  // ---------------------------------------------------------------------
  // Walk edges (`_parse_nearest_indicies`, `_get_walk_edges`)
  // ---------------------------------------------------------------------

  /**
   * The shape of a radius query over all stops: one neighbour list per stop,
   * each neighbour a valid row position, and one walking time per neighbour.
   */
  predicate WalkInputs(stops: seq<Stop>, near: seq<seq<nat>>, walk: seq<seq<real>>) {
    && |near| == |stops| && |walk| == |stops|
    && (forall i :: 0 <= i < |near| ==> |walk[i]| == |near[i]|)
    && (forall i, k :: 0 <= i < |near| && 0 <= k < |near[i]| ==> near[i][k] < |stops|)
  }

  /** `_parse_nearest_indicies(i)`: stop `i` repeated once per neighbour, beside that neighbour. */
  function NearestPairs(stops: seq<Stop>, near: seq<seq<nat>>, walk: seq<seq<real>>, i: nat): seq<Edge<real>>
    requires WalkInputs(stops, near, walk) && i < |stops|
  {
    seq(|near[i]|, k requires 0 <= k < |near[i]| => Edge(stops[i].id, stops[near[i][k]].id, walk[i][k]))
  }

  /** `pd.concat` of the frames of the first `n` stops. */
  function Candidates(stops: seq<Stop>, near: seq<seq<nat>>, walk: seq<seq<real>>, n: nat): seq<Edge<real>>
    requires WalkInputs(stops, near, walk) && n <= |stops|
  {
    if n == 0 then [] else Candidates(stops, near, walk, n - 1) + NearestPairs(stops, near, walk, n - 1)
  }

  /** The filter `stop_id_start != stop_id_stop`; the order of the rows is kept. */
  function DropSelfPairs(es: seq<Edge<real>>): seq<Edge<real>> {
    if |es| == 0 then []
    else
      var last := es[|es| - 1];
      DropSelfPairs(es[..|es| - 1]) + (if last.start != last.stop then [last] else [])
  }

  /** The filter keeps exactly the rows whose two ids differ. */
  lemma {:induction false} DropSelfPairsSpec(es: seq<Edge<real>>)
    ensures forall e :: e in DropSelfPairs(es) <==> e in es && e.start != e.stop
    ensures |DropSelfPairs(es)| <= |es|
  {
    if |es| > 0 {
      var last := es[|es| - 1];
      DropSelfPairsSpec(es[..|es| - 1]);
      assert es == es[..|es| - 1] + [last];
    }
  }

  /** `_get_walk_edges`. */
  function WalkEdges(stops: seq<Stop>, near: seq<seq<nat>>, walk: seq<seq<real>>): seq<Edge<real>>
    requires WalkInputs(stops, near, walk)
  {
    DropSelfPairs(Candidates(stops, near, walk, |stops|))
  }

  /** Where stop `i`'s candidates start in the concatenation. */
  function Offset(near: seq<seq<nat>>, i: nat): nat
    requires i <= |near|
  {
    if i == 0 then 0 else Offset(near, i - 1) + |near[i - 1]|
  }

  /** The first `n` stops contribute one candidate per neighbour. */
  lemma {:induction false} CandidatesLength(stops: seq<Stop>, near: seq<seq<nat>>, walk: seq<seq<real>>, n: nat)
    requires WalkInputs(stops, near, walk) && n <= |stops|
    ensures |Candidates(stops, near, walk, n)| == Offset(near, n)
  {
    if n > 0 {
      CandidatesLength(stops, near, walk, n - 1);
    }
  }

  /**
   * The candidates are laid out stop by stop: stop `i`'s `k`-th neighbour
   * sits at `Offset(i) + k`, paired with stop `i` and with its walking time.
   */
  lemma {:induction false} CandidateAt(stops: seq<Stop>, near: seq<seq<nat>>, walk: seq<seq<real>>, n: nat, i: nat, k: nat)
    requires WalkInputs(stops, near, walk) && n <= |stops|
    requires i < n && k < |near[i]|
    ensures Offset(near, i) + k < |Candidates(stops, near, walk, n)|
    ensures Candidates(stops, near, walk, n)[Offset(near, i) + k] == Edge(stops[i].id, stops[near[i][k]].id, walk[i][k])
  {
    CandidatesLength(stops, near, walk, n - 1);
    var before := Candidates(stops, near, walk, n - 1);
    var pairs := NearestPairs(stops, near, walk, n - 1);
    assert Candidates(stops, near, walk, n) == before + pairs;
    if i < n - 1 {
      CandidateAt(stops, near, walk, n - 1, i, k);
    } else {
      assert pairs[k] == Edge(stops[i].id, stops[near[i][k]].id, walk[i][k]);
    }
  }

  /** A candidate is a stop paired with one of its neighbours. */
  predicate IsCandidate(stops: seq<Stop>, near: seq<seq<nat>>, walk: seq<seq<real>>, e: Edge<real>)
    requires WalkInputs(stops, near, walk)
  {
    exists i, k :: 0 <= i < |stops| && 0 <= k < |near[i]| && e == Edge(stops[i].id, stops[near[i][k]].id, walk[i][k])
  }

  lemma {:induction false} CandidatesMembers(stops: seq<Stop>, near: seq<seq<nat>>, walk: seq<seq<real>>, n: nat)
    requires WalkInputs(stops, near, walk) && n <= |stops|
    ensures forall e :: e in Candidates(stops, near, walk, n) ==> IsCandidate(stops, near, walk, e)
  {
    if n > 0 {
      CandidatesMembers(stops, near, walk, n - 1);
      forall e | e in NearestPairs(stops, near, walk, n - 1) ensures IsCandidate(stops, near, walk, e) {
        var k :| 0 <= k < |near[n - 1]| && NearestPairs(stops, near, walk, n - 1)[k] == e;
      }
    }
  }

  /**
   * A walk edge is exactly a (stop, neighbour) candidate whose two ids
   * differ: none is a self-pair, none is lost, and both ends are stop ids.
   */
  lemma WalkEdgesSpec(stops: seq<Stop>, near: seq<seq<nat>>, walk: seq<seq<real>>)
    requires WalkInputs(stops, near, walk)
    ensures forall e :: e in WalkEdges(stops, near, walk) <==> IsCandidate(stops, near, walk, e) && e.start != e.stop
    ensures forall e :: e in WalkEdges(stops, near, walk) ==> IsStopId(stops, e.start) && IsStopId(stops, e.stop)
  {
    var all := Candidates(stops, near, walk, |stops|);
    DropSelfPairsSpec(all);
    CandidatesMembers(stops, near, walk, |stops|);
    forall e | IsCandidate(stops, near, walk, e) ensures e in all {
      var i, k :| 0 <= i < |stops| && 0 <= k < |near[i]| && e == Edge(stops[i].id, stops[near[i][k]].id, walk[i][k]);
      CandidateAt(stops, near, walk, |stops|, i, k);
    }
    forall e | e in WalkEdges(stops, near, walk)
      ensures exists i :: 0 <= i < |stops| && stops[i].id == e.start
      ensures exists i :: 0 <= i < |stops| && stops[i].id == e.stop
    {
      var i, k :| 0 <= i < |stops| && 0 <= k < |near[i]| && e == Edge(stops[i].id, stops[near[i][k]].id, walk[i][k]);
      assert stops[i].id == e.start;
      assert stops[near[i][k]].id == e.stop;
    }
  }

  /** The self-pair filter keeps the order of the rows: filtering a concatenation filters each part. */
  lemma {:induction false} DropSelfPairsAppend(a: seq<Edge<real>>, b: seq<Edge<real>>)
    ensures DropSelfPairs(a + b) == DropSelfPairs(a) + DropSelfPairs(b)
    decreases |b|
  {
    if |b| > 0 {
      var init, last := b[..|b| - 1], b[|b| - 1];
      var ab := a + b;
      var kept := if last.start != last.stop then [last] else [];
      DropSelfPairsAppend(a, init);
      assert ab[..|ab| - 1] == a + init;
      assert ab[|ab| - 1] == last;
      assert DropSelfPairs(ab) == DropSelfPairs(a + init) + kept;
      assert DropSelfPairs(b) == DropSelfPairs(init) + kept;
    } else {
      assert a + b == a;
    }
  }

  /** Walk edges are stop 0's surviving pairs, then stop 1's, and so on. */
  lemma WalkEdgesPerStop(stops: seq<Stop>, near: seq<seq<nat>>, walk: seq<seq<real>>, n: nat)
    requires WalkInputs(stops, near, walk) && 0 < n <= |stops|
    ensures DropSelfPairs(Candidates(stops, near, walk, n)) ==
              DropSelfPairs(Candidates(stops, near, walk, n - 1)) + DropSelfPairs(NearestPairs(stops, near, walk, n - 1))
  {
    DropSelfPairsAppend(Candidates(stops, near, walk, n - 1), NearestPairs(stops, near, walk, n - 1));
  }

  // ---------------------------------------------------------------------
  // Records (`_get_edge_recs`, `_get_node_recs`)
  // ---------------------------------------------------------------------

  function WholeSeconds(d: int): Distance {
    Whole(d)
  }

  function WalkingSeconds(d: real): Distance {
    Fractional(d)
  }

  /** `_get_edge_recs`: one `(start, stop, {"distance": d})` record per frame row, in frame order. */
  function EdgeRecs<W>(frame: seq<Edge<W>>, attr: W -> Distance): (r: seq<EdgeRec>)
    ensures |r| == |frame|
    ensures forall i :: 0 <= i < |frame| ==> r[i].u == frame[i].start && r[i].v == frame[i].stop
    ensures forall i :: 0 <= i < |frame| ==> r[i].distance == attr(frame[i].distance)
  {
    seq(|frame|, i requires 0 <= i < |frame| => EdgeRec(frame[i].start, frame[i].stop, attr(frame[i].distance)))
  }

  const LAT_LON: set<string> := {"stop_lat", "stop_lon"}

  /** `_get_node_recs`: one `(stop_id, {"stop_lat", "stop_lon"})` record per stop, in order. */
  function NodeRecs(stops: seq<Stop>): (r: seq<NodeRec>)
    ensures |r| == |stops|
    ensures forall i :: 0 <= i < |stops| ==> r[i].id == stops[i].id
    ensures forall i :: 0 <= i < |stops| ==> r[i].attrs == map["stop_lat" := stops[i].lat, "stop_lon" := stops[i].lon]
    ensures UniformKeys(r, LAT_LON)
  {
    seq(|stops|, i requires 0 <= i < |stops| =>
      NodeRec(stops[i].id, map["stop_lat" := stops[i].lat, "stop_lon" := stops[i].lon]))
  }

  // ---------------------------------------------------------------------
  // Publisher (`index.str.split("_").str[-1]`)
  // ---------------------------------------------------------------------

  /** The first position of `c` in `s`. */
  function IndexOf(s: string, c: char): (r: Option<nat>)
    ensures r.None? <==> c !in s
    ensures r.Some? ==> r.value < |s| && s[r.value] == c && c !in s[..r.value]
  {
    if |s| == 0 then None
    else if s[0] == c then Some(0)
    else match IndexOf(s[1..], c)
      case None => None
      case Some(k) => assert s[..k + 1] == [s[0]] + s[1..][..k]; Some(k + 1)
  }

  function Join(parts: seq<string>, sep: char): string
    requires |parts| >= 1
  {
    if |parts| == 1 then parts[0] else parts[0] + [sep] + Join(parts[1..], sep)
  }

  /** `str.split(sep)`: the pieces between separators; joining them again gives back `s`. */
  function Split(s: string, sep: char): (parts: seq<string>)
    ensures |parts| >= 1
    ensures forall p :: p in parts ==> sep !in p
    ensures Join(parts, sep) == s
    decreases |s|
  {
    match IndexOf(s, sep)
    case None => [s]
    case Some(k) =>
      var rest := Split(s[k + 1..], sep);
      assert s == s[..k] + [sep] + s[k + 1..];
      [s[..k]] + rest
  }

  lemma {:induction false} JoinEndsWithLast(parts: seq<string>, sep: char)
    requires |parts| >= 1
    ensures var s, p := Join(parts, sep), parts[|parts| - 1];
            |p| <= |s| && s[|s| - |p|..] == p && (|parts| > 1 ==> |p| < |s| && s[|s| - |p| - 1] == sep)
  {
    if |parts| > 1 {
      JoinEndsWithLast(parts[1..], sep);
    }
  }

  /**
   * The publisher of a stop: the last "_"-separated piece of its id, that is
   * the longest suffix without "_".
   */
  function Publisher(id: string): (p: string)
    ensures '_' !in p
    ensures |p| <= |id| && id[|id| - |p|..] == p
    ensures |p| < |id| ==> id[|id| - |p| - 1] == '_'
  {
    var parts := Split(id, '_');
    JoinEndsWithLast(parts, '_');
    assert parts[|parts| - 1] in parts;
    if |parts| == 1 then parts[0] else parts[|parts| - 1]
  }

  /** Namespacing and the publisher split round-trip when the feed name has no "_". */
  lemma PublisherOfNamespacedId(raw: string, feedName: string)
    requires '_' !in feedName
    ensures Publisher(NamespacedId(raw, feedName)) == feedName
  {
    var id := NamespacedId(raw, feedName);
    var p := Publisher(id);
    assert id[|raw|] == '_';
    if |p| > |feedName| {
      assert false;
    } else if |p| < |feedName| {
      assert false;
    }
    assert id[|raw| + 1..] == feedName;
  }

  /** With "_"-free feed names, namespaced ids from different (raw id, feed) pairs never collide. */
  lemma NamespacedIdsUnique(raw1: string, feed1: string, raw2: string, feed2: string)
    requires '_' !in feed1 && '_' !in feed2
    requires (raw1, feed1) != (raw2, feed2)
    ensures NamespacedId(raw1, feed1) != NamespacedId(raw2, feed2)
  {
    PublisherOfNamespacedId(raw1, feed1);
    PublisherOfNamespacedId(raw2, feed2);
    if feed1 == feed2 {
      NamespacedIdInjectiveInRaw(raw1, raw2, feed1);
    }
  }

  /** A feed name with "_" in it loses its head in the publisher column. */
  lemma PublisherTruncatesFeedName()
    ensures Publisher(NamespacedId("17", "bkk_2021")) == "2021"
  {
    assert NamespacedId("17", "bkk_2021") == NamespacedId("17_bkk", "2021");
    PublisherOfNamespacedId("17_bkk", "2021");
  }

  // ---------------------------------------------------------------------
  // Assembly (`load_network`)
  // ---------------------------------------------------------------------

  /** Stops as nodes, then the transit edge records, then the walk edge records. */
  function Assemble(stops: seq<Stop>, transit: seq<Edge<int>>, walking: seq<Edge<real>>): Graph {
    var withNodes := AddNodes(EMPTY, NodeRecs(stops));
    var withTransit := AddEdges(withNodes, EdgeRecs(transit, WholeSeconds));
    AddEdges(withTransit, EdgeRecs(walking, WalkingSeconds))
  }

  /**
   * The graph `load_network` builds. `None` when the transit edges cannot be
   * computed, and when there are no stops: the radius query over an empty
   * table fails and `pd.concat` of no frames raises, so `_get_walk_edges`
   * never returns for an empty stops table.
   */
  function BuildGraph(stops: seq<Stop>, visits: seq<StopTime>, near: seq<seq<nat>>, walk: seq<seq<real>>, prune: bool)
    : Option<Graph>
    requires WalkInputs(stops, near, walk)
  {
    var transit :- TransitEdges(visits, prune);
    if |stops| == 0 then None
    else Some(Assemble(stops, transit, WalkEdges(stops, near, walk)))
  }

  /** The network exists exactly when every arrival parses and there is at least one stop. */
  lemma BuildGraphDefined(stops: seq<Stop>, visits: seq<StopTime>, near: seq<seq<nat>>, walk: seq<seq<real>>, prune: bool)
    requires WalkInputs(stops, near, walk)
    ensures BuildGraph(stops, visits, near, walk, prune).Some? <==>
              (forall i :: 0 <= i < |visits| ==> Utils.ParseTime(visits[i].arrival).Some?) && |stops| > 0
  {
    TransitEdgesDefined(visits, prune);
  }

  /**
   * `load_network` without the cache: a fresh multigraph built by successive
   * in-place additions. It fails, as the source raises, when an arrival
   * time does not parse or when there are no stops.
   */
  method LoadNetwork(stops: seq<Stop>, visits: seq<StopTime>, near: seq<seq<nat>>, walk: seq<seq<real>>, prune: bool)
    returns (r: Option<MultiDiGraph>)
    requires WalkInputs(stops, near, walk)
    ensures r.Some? <==> TransitEdges(visits, prune).Some? && |stops| > 0
    ensures r.Some? ==> fresh(r.value) && r.value.Value() == BuildGraph(stops, visits, near, walk, prune).value
  {
    var graph := new MultiDiGraph();
    graph.AddNodesFrom(NodeRecs(stops));
    var transit := TransitEdges(visits, prune);
    if transit.None? {
      return None;
    }
    graph.AddEdgesFrom(EdgeRecs(transit.value, WholeSeconds));
    if |stops| == 0 {
      return None;
    }
    graph.AddEdgesFrom(EdgeRecs(WalkEdges(stops, near, walk), WalkingSeconds));
    return Some(graph);
  }

  /** `n` is the id of some stop. */
  predicate IsStopId(stops: seq<Stop>, n: string) {
    exists i :: 0 <= i < |stops| && stops[i].id == n
  }

  /** Nodes, then two batches of edges, added to an empty multigraph. */
  lemma BatchesValid(recs: seq<NodeRec>, first: seq<EdgeRec>, second: seq<EdgeRec>)
    ensures Valid(AddEdges(AddEdges(AddNodes(EMPTY, recs), first), second))
    ensures AddEdges(AddEdges(AddNodes(EMPTY, recs), first), second).edges == first + second
  {
    var withNodes := AddNodes(EMPTY, recs);
    var withFirst := AddEdges(withNodes, first);
    EmptyValid();
    AddNodesSpec(EMPTY, recs);
    assert withNodes.edges == [];
    AddEdgesSpec(withNodes, first);
    assert withFirst.edges == [] + first == first;
    AddEdgesSpec(withFirst, second);
  }

  lemma BatchesNodes(recs: seq<NodeRec>, first: seq<EdgeRec>, second: seq<EdgeRec>)
    requires forall n :: IsEndpoint(second, n) ==> n in AddNodes(EMPTY, recs).attrs
    ensures forall n :: n in AddEdges(AddEdges(AddNodes(EMPTY, recs), first), second).attrs <==>
              n in AddNodes(EMPTY, recs).attrs || IsEndpoint(first, n)
    ensures forall n :: n in AddNodes(EMPTY, recs).attrs ==>
              AddEdges(AddEdges(AddNodes(EMPTY, recs), first), second).attrs[n] == AddNodes(EMPTY, recs).attrs[n]
  {
    AddEdgesNodes(AddNodes(EMPTY, recs), first);
    AddEdgesNodes(AddEdges(AddNodes(EMPTY, recs), first), second);
  }

  /** The assembled graph is a valid multigraph whose edges are the transit records then the walk records. */
  lemma AssembleEdges(stops: seq<Stop>, transit: seq<Edge<int>>, walking: seq<Edge<real>>)
    ensures Valid(Assemble(stops, transit, walking))
    ensures Assemble(stops, transit, walking).edges == EdgeRecs(transit, WholeSeconds) + EdgeRecs(walking, WalkingSeconds)
  {
    BatchesValid(NodeRecs(stops), EdgeRecs(transit, WholeSeconds), EdgeRecs(walking, WalkingSeconds));
  }

  /** The nodes added from the stops are exactly the stop ids. */
  lemma StopNodes(stops: seq<Stop>)
    ensures forall n :: n in AddNodes(EMPTY, NodeRecs(stops)).attrs <==> IsStopId(stops, n)
  {
    var recs := NodeRecs(stops);
    AddNodesMembers(EMPTY, recs);
    forall n ensures n in AddNodes(EMPTY, recs).attrs <==> IsStopId(stops, n) {
      if n in AddNodes(EMPTY, recs).attrs {
        var i :| 0 <= i < |recs| && recs[i].id == n;
        assert stops[i].id == n;
      }
      if IsStopId(stops, n) {
        var i :| 0 <= i < |stops| && stops[i].id == n;
        assert recs[i].id == n;
      }
    }
  }

  /**
   * When every walk edge joins two stops, the nodes are the stops and the
   * transit endpoints, and a stop's dict is that of the last stop row with
   * its id: the coordinates are never overwritten by an edge.
   */
  lemma AssembleNodes(stops: seq<Stop>, transit: seq<Edge<int>>, walking: seq<Edge<real>>)
    requires forall e :: e in walking ==> IsStopId(stops, e.start) && IsStopId(stops, e.stop)
    ensures forall n :: n in Assemble(stops, transit, walking).attrs <==>
              IsStopId(stops, n) || IsEndpoint(EdgeRecs(transit, WholeSeconds), n)
    ensures forall i :: 0 <= i < |stops| && (forall j :: i < j < |stops| ==> stops[j].id != stops[i].id) ==>
              && stops[i].id in Assemble(stops, transit, walking).attrs
              && Assemble(stops, transit, walking).attrs[stops[i].id] == map["stop_lat" := stops[i].lat, "stop_lon" := stops[i].lon]
  {
    var recs := NodeRecs(stops);
    var walkRecs := EdgeRecs(walking, WalkingSeconds);
    StopNodes(stops);
    forall n | IsEndpoint(walkRecs, n) ensures n in AddNodes(EMPTY, recs).attrs {
      var r :| r in walkRecs && (r.u == n || r.v == n);
      var j :| 0 <= j < |walkRecs| && walkRecs[j] == r;
      assert walking[j] in walking;
    }
    BatchesNodes(recs, EdgeRecs(transit, WholeSeconds), walkRecs);
    forall i | 0 <= i < |stops| && (forall j :: i < j < |stops| ==> stops[j].id != stops[i].id)
      ensures stops[i].id in AddNodes(EMPTY, recs).attrs
      ensures AddNodes(EMPTY, recs).attrs[stops[i].id] == map["stop_lat" := stops[i].lat, "stop_lon" := stops[i].lon]
    {
      AddNodesLastWins(EMPTY, recs, LAT_LON, i);
    }
  }

  /**
   * The graph `load_network` builds is a valid multigraph whose edges are
   * the transit records followed by the walk records, none dropped; every
   * stop is a node carrying the coordinates of the last stop row with its
   * id; the only other nodes are transit endpoints that name no stop.
   */
  lemma BuildGraphSpec(stops: seq<Stop>, visits: seq<StopTime>, near: seq<seq<nat>>, walk: seq<seq<real>>, prune: bool)
    requires WalkInputs(stops, near, walk)
    requires BuildGraph(stops, visits, near, walk, prune).Some?
    ensures TransitEdges(visits, prune).Some?
    ensures var g := BuildGraph(stops, visits, near, walk, prune).value;
            var transit := EdgeRecs(TransitEdges(visits, prune).value, WholeSeconds);
            var walking := EdgeRecs(WalkEdges(stops, near, walk), WalkingSeconds);
            && Valid(g)
            && g.edges == transit + walking
            && (forall n :: n in g.attrs <==> IsStopId(stops, n) || IsEndpoint(transit, n))
            && (forall i :: 0 <= i < |stops| && (forall j :: i < j < |stops| ==> stops[j].id != stops[i].id) ==>
                  stops[i].id in g.attrs && g.attrs[stops[i].id] == map["stop_lat" := stops[i].lat, "stop_lon" := stops[i].lon])
  {
    var transit := TransitEdges(visits, prune).value;
    var walking := WalkEdges(stops, near, walk);
    assert BuildGraph(stops, visits, near, walk, prune).value == Assemble(stops, transit, walking);
    WalkEdgesSpec(stops, near, walk);
    AssembleEdges(stops, transit, walking);
    AssembleNodes(stops, transit, walking);
  }

  /** A stored weight that is not negative. */
  predicate NonNegative(d: Distance) {
    match d
    case Whole(seconds) => seconds >= 0
    case Fractional(amount) => amount >= 0.0
  }

  /** Walking times that are never negative, as distances over a positive speed are. */
  predicate WalkTimesNonNegative(walk: seq<seq<real>>) {
    forall i, k :: 0 <= i < |walk| && 0 <= k < |walk[i]| ==> walk[i][k] >= 0.0
  }

  /**
   * When arrivals never decrease within a trip and walking times are not
   * negative, no edge of the network has a negative weight.
   */
  lemma GraphWeightsNonNegative(stops: seq<Stop>, visits: seq<StopTime>, near: seq<seq<nat>>, walk: seq<seq<real>>, prune: bool)
    requires WalkInputs(stops, near, walk)
    requires BuildGraph(stops, visits, near, walk, prune).Some?
    requires ArrivalsNonDecreasing(visits)
    requires WalkTimesNonNegative(walk)
    ensures forall e :: e in BuildGraph(stops, visits, near, walk, prune).value.edges ==> NonNegative(e.distance)
  {
    var transit := TransitEdges(visits, prune).value;
    var walking := WalkEdges(stops, near, walk);
    var g := BuildGraph(stops, visits, near, walk, prune).value;
    assert g == Assemble(stops, transit, walking);
    AssembleEdges(stops, transit, walking);
    TransitWeightsNonNegative(visits, prune);
    WalkEdgesSpec(stops, near, walk);
    var transitRecs := EdgeRecs(transit, WholeSeconds);
    var walkRecs := EdgeRecs(walking, WalkingSeconds);
    forall e | e in g.edges ensures NonNegative(e.distance) {
      var j :| 0 <= j < |g.edges| && g.edges[j] == e;
      if j < |transitRecs| {
        assert e == transitRecs[j];
        assert transit[j] in transit;
      } else {
        var k := j - |transitRecs|;
        assert e == walkRecs[k];
        assert walking[k] in walking;
        var i, m :| 0 <= i < |stops| && 0 <= m < |near[i]|
                    && walking[k] == Edge(stops[i].id, stops[near[i][m]].id, walk[i][m]);
      }
    }
  }
}
