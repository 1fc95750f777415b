/**
 * Feed normalisation (src/parse.py).
 *
 * A feed's `stops.txt` and `stop_times.txt` arrive as frames: a header of
 * column names and one row per record, each row mapping every column to its
 * cell text. `.loc[:, columns]` keeps exactly the needed columns and fails
 * when one of them is missing; `.assign` appends `"_" + feed_name` to every
 * stop id and trip id. Nothing is filtered or reordered.
 */
module Parse {
  import opened Wrappers

  type Row = map<string, string>

  datatype Frame = Frame(columns: seq<string>, rows: seq<Row>)

  /** What a CSV reader produces: every row has a cell for every column. */
  predicate Rectangular(f: Frame) {
    forall i, c :: 0 <= i < |f.rows| && c in f.columns ==> c in f.rows[i]
  }

  /** A row of the stops table, indexed by its namespaced id. */
  datatype Stop = Stop(id: string, name: string, lon: string, lat: string)

  /** A row of the stop-times table; trip and stop ids are namespaced. */
  datatype StopTime = StopTime(tripId: string, stopId: string, arrival: string, departure: string, sequence: string)

  /** `.loc` with absent labels raises a KeyError naming them. */
  datatype ParseError = MissingColumns(names: seq<string>)

  const STOP_ID: string := "stop_id"
  const STOP_NAME: string := "stop_name"
  const STOP_LON: string := "stop_lon"
  const STOP_LAT: string := "stop_lat"
  const TRIP_ID: string := "trip_id"
  const ARRIVAL_TIME: string := "arrival_time"
  const DEPARTURE_TIME: string := "departure_time"
  const STOP_SEQUENCE: string := "stop_sequence"

  const STOP_COLUMNS: seq<string> := [STOP_ID, STOP_NAME, STOP_LON, STOP_LAT]
  const STOP_TIME_COLUMNS: seq<string> := [TRIP_ID, STOP_ID, ARRIVAL_TIME, DEPARTURE_TIME, STOP_SEQUENCE]

  /** The global id of a raw id from the named feed. */
  function NamespacedId(raw: string, feedName: string): string {
    raw + "_" + feedName
  }

  /** The wanted columns the frame lacks, in the order they were asked for. */
  function Missing(columns: seq<string>, wanted: seq<string>): (r: seq<string>)
    ensures forall c :: c in r <==> c in wanted && c !in columns
    ensures |r| <= |wanted|
  {
    if |wanted| == 0 then []
    else (if wanted[0] in columns then [] else [wanted[0]]) + Missing(columns, wanted[1..])
  }

  /** `_parse_stops`: select id, name, lon, lat and namespace the id. */
  function ParseStops(raw: Frame, feedName: string): (r: Result<seq<Stop>, ParseError>)
    requires Rectangular(raw)
    ensures r.Failure? <==> exists c :: c in STOP_COLUMNS && c !in raw.columns
    ensures r.Failure? ==> forall c :: c in r.error.names <==> c in STOP_COLUMNS && c !in raw.columns
    ensures r.Success? ==> |r.value| == |raw.rows|
    ensures r.Success? ==> forall i :: 0 <= i < |raw.rows| ==>
              && STOP_ID in raw.rows[i] && STOP_NAME in raw.rows[i]
              && STOP_LON in raw.rows[i] && STOP_LAT in raw.rows[i]
              && r.value[i] == Stop(NamespacedId(raw.rows[i][STOP_ID], feedName), raw.rows[i][STOP_NAME],
                                    raw.rows[i][STOP_LON], raw.rows[i][STOP_LAT])
  {
    var missing := Missing(raw.columns, STOP_COLUMNS);
    if |missing| > 0 then
      assert missing[0] in missing;
      Failure(MissingColumns(missing))
    else
      assert forall c :: c in STOP_COLUMNS ==> c in raw.columns;
      assert STOP_ID in raw.columns && STOP_NAME in raw.columns && STOP_LON in raw.columns && STOP_LAT in raw.columns;
      Success(seq(|raw.rows|, i requires 0 <= i < |raw.rows| =>
        var row := raw.rows[i];
        Stop(NamespacedId(row[STOP_ID], feedName), row[STOP_NAME], row[STOP_LON], row[STOP_LAT])))
  }

  /**
   * `_parse_stop_times`: select trip id, stop id, arrival, departure and
   * sequence, and namespace both ids. The rename to the schema's column
   * names is the identity on the names this model reads.
   */
  function ParseStopTimes(raw: Frame, feedName: string): (r: Result<seq<StopTime>, ParseError>)
    requires Rectangular(raw)
    ensures r.Failure? <==> exists c :: c in STOP_TIME_COLUMNS && c !in raw.columns
    ensures r.Failure? ==> forall c :: c in r.error.names <==> c in STOP_TIME_COLUMNS && c !in raw.columns
    ensures r.Success? ==> |r.value| == |raw.rows|
    ensures r.Success? ==> forall i :: 0 <= i < |raw.rows| ==>
              && TRIP_ID in raw.rows[i] && STOP_ID in raw.rows[i] && ARRIVAL_TIME in raw.rows[i]
              && DEPARTURE_TIME in raw.rows[i] && STOP_SEQUENCE in raw.rows[i]
              && r.value[i] == StopTime(NamespacedId(raw.rows[i][TRIP_ID], feedName),
                                        NamespacedId(raw.rows[i][STOP_ID], feedName),
                                        raw.rows[i][ARRIVAL_TIME], raw.rows[i][DEPARTURE_TIME],
                                        raw.rows[i][STOP_SEQUENCE])
  {
    var missing := Missing(raw.columns, STOP_TIME_COLUMNS);
    if |missing| > 0 then
      assert missing[0] in missing;
      Failure(MissingColumns(missing))
    else
      assert forall c :: c in STOP_TIME_COLUMNS ==> c in raw.columns;
      assert TRIP_ID in raw.columns && STOP_ID in raw.columns && ARRIVAL_TIME in raw.columns
        && DEPARTURE_TIME in raw.columns && STOP_SEQUENCE in raw.columns;
      Success(seq(|raw.rows|, i requires 0 <= i < |raw.rows| =>
        var row := raw.rows[i];
        StopTime(NamespacedId(row[TRIP_ID], feedName), NamespacedId(row[STOP_ID], feedName),
                 row[ARRIVAL_TIME], row[DEPARTURE_TIME], row[STOP_SEQUENCE])))
  }

  /** `Path.name`: the last component of the feed directory's path ("" for none). */
  function FeedName(feedDir: seq<string>): string {
    if |feedDir| == 0 then "" else feedDir[|feedDir| - 1]
  }

  /** `parse_feed`: both tables, namespaced by the directory's name; the stops table is read first. */
  function ParseFeed(feedDir: seq<string>, stopsRaw: Frame, stopTimesRaw: Frame)
    : (r: Result<(seq<Stop>, seq<StopTime>), ParseError>)
    requires Rectangular(stopsRaw) && Rectangular(stopTimesRaw)
    ensures ParseStops(stopsRaw, FeedName(feedDir)).Failure? ==> r == ParseStops(stopsRaw, FeedName(feedDir)).PropagateFailure()
    ensures ParseStops(stopsRaw, FeedName(feedDir)).Success? && ParseStopTimes(stopTimesRaw, FeedName(feedDir)).Failure? ==>
              r == ParseStopTimes(stopTimesRaw, FeedName(feedDir)).PropagateFailure()
    ensures r.Success? <==> ParseStops(stopsRaw, FeedName(feedDir)).Success? && ParseStopTimes(stopTimesRaw, FeedName(feedDir)).Success?
    ensures r.Success? ==>
              r.value == (ParseStops(stopsRaw, FeedName(feedDir)).value, ParseStopTimes(stopTimesRaw, FeedName(feedDir)).value)
  {
    var stops :- ParseStops(stopsRaw, FeedName(feedDir));
    var stopTimes :- ParseStopTimes(stopTimesRaw, FeedName(feedDir));
    Success((stops, stopTimes))
  }

  /** For a fixed feed, distinct raw ids stay distinct. */
  lemma {:induction false} NamespacedIdInjectiveInRaw(raw1: string, raw2: string, feedName: string)
    requires raw1 != raw2
    ensures NamespacedId(raw1, feedName) != NamespacedId(raw2, feedName)
  {
    if |raw1| == |raw2| {
      var k :| 0 <= k < |raw1| && raw1[k] != raw2[k];
      assert NamespacedId(raw1, feedName)[k] == raw1[k];
      assert NamespacedId(raw2, feedName)[k] == raw2[k];
    }
  }

  /** For a fixed raw id, distinct feed names give distinct ids. */
  lemma {:induction false} NamespacedIdInjectiveInFeed(raw: string, feed1: string, feed2: string)
    requires feed1 != feed2
    ensures NamespacedId(raw, feed1) != NamespacedId(raw, feed2)
  {
    if |feed1| == |feed2| {
      var k :| 0 <= k < |feed1| && feed1[k] != feed2[k];
      assert NamespacedId(raw, feed1)[|raw| + 1 + k] == feed1[k];
      assert NamespacedId(raw, feed2)[|raw| + 1 + k] == feed2[k];
    }
  }

  /**
   * The separator is not escaped: when a feed name contains "_", two different
   * (raw id, feed) pairs can meet in the same namespaced id.
   */
  lemma NamespacingCollision()
    ensures NamespacedId("1_a", "b") == NamespacedId("1", "a_b")
  {
  }
}
