/**
 * One polling cycle of the trip-update collector: decoded GTFS Realtime feed
 * entities are filtered to the spine routes, classified by operator and
 * spine letter, and flattened into one observation row per stop-time update,
 * which are then appended to the `trip_observations` table.
 *
 * The decoded feed is given as datatypes (protobuf decoding and the HTTP fetch
 * are not part of this model) and the collection timestamp is a parameter.
 */
module Collect {
  import opened Wrappers

  // ---------------------------------------------------------------------------
  // The decoded feed. Numeric protobuf fields that were not set read as 0.
  // ---------------------------------------------------------------------------

  /** A GTFS Realtime StopTimeEvent: the delay in seconds and an absolute epoch time. */
  datatype StopTimeEvent = StopTimeEvent(delay: int, time: int)

  /** A StopTimeUpdate; `arrival` and `departure` are sub-messages that may be absent. */
  datatype StopTimeUpdate = StopTimeUpdate(
    stopId: string,
    stopSequence: nat,
    arrival: Option<StopTimeEvent>,
    departure: Option<StopTimeEvent>)

  datatype TripDescriptor = TripDescriptor(tripId: string, routeId: string, directionId: nat)

  datatype TripUpdate = TripUpdate(trip: TripDescriptor, stopTimeUpdates: seq<StopTimeUpdate>)

  /** A FeedEntity; only its optional `trip_update` field matters here. */
  datatype FeedEntity = FeedEntity(id: string, tripUpdate: Option<TripUpdate>)

  /** Reading `delay` through an absent sub-message yields the protobuf default 0. */
  function EventDelay(e: Option<StopTimeEvent>): int
  {
    if e.Some? then e.value.delay else 0
  }

  /** Reading `time` through an absent sub-message yields the protobuf default 0. */
  function EventTime(e: Option<StopTimeEvent>): int
  {
    if e.Some? then e.value.time else 0
  }

  // ---------------------------------------------------------------------------
  // Lookup tables
  // ---------------------------------------------------------------------------

  /** The three module-level lookup tables of the collector. */
  datatype Tables = Tables(
    operatorByAgency: map<string, string>,  // OPERATOR_MAP
    spineByRoute: map<string, string>,      // SPINE_ROUTE_MAP
    agencyByRoute: map<string, string>)     // ROUTE_AGENCY_MAP

  const OperatorMap: map<string, string> := map[
    "7778019" := "Dublin Bus",
    "7778021" := "Go-Ahead",
    "7778006" := "Go-Ahead",
    "7778020" := "Bus Eireann"]

  const SpineRouteMap: map<string, string> := map[
    "5249_119701" := "N", "5249_119702" := "N",
    "5249_119703" := "S", "5249_119704" := "S", "5249_119705" := "S",
    "5249_119706" := "W", "5249_119707" := "W", "5249_119708" := "W",
    "5402_123830" := "C", "5402_123831" := "C", "5402_123832" := "C",
    "5402_123833" := "C", "5402_123834" := "C", "5402_123835" := "C",
    "5402_123836" := "E", "5402_123837" := "E",
    "5402_123841" := "G", "5402_123842" := "G",
    "5402_123843" := "H", "5402_123844" := "H", "5402_123845" := "H",
    "5402_123846" := "N",
    "5402_123847" := "S"]

  const RouteAgencyMap: map<string, string> := map[
    "5249_119701" := "7778021", "5249_119702" := "7778021",
    "5249_119703" := "7778021", "5249_119704" := "7778021", "5249_119705" := "7778021",
    "5249_119706" := "7778021", "5249_119707" := "7778021", "5249_119708" := "7778021",
    "5402_123830" := "7778019", "5402_123831" := "7778019", "5402_123832" := "7778019",
    "5402_123833" := "7778019", "5402_123834" := "7778019", "5402_123835" := "7778019",
    "5402_123836" := "7778019", "5402_123837" := "7778019",
    "5402_123841" := "7778019", "5402_123842" := "7778019",
    "5402_123843" := "7778019", "5402_123844" := "7778019", "5402_123845" := "7778019",
    "5402_123846" := "7778019",
    "5402_123847" := "7778019"]

  /** The tables exactly as the collector defines them. */
  const SourceTables: Tables := Tables(OperatorMap, SpineRouteMap, RouteAgencyMap)

  // ---------------------------------------------------------------------------
  // Classification and the falsy-zero conversions
  // ---------------------------------------------------------------------------

  /**
   * The operator of a route: the agency is looked up with "" as default, and
   * the operator of that agency with "Unknown" as default. Never fails.
   */
  function OperatorFor(t: Tables, routeId: string): (r: string)
    ensures r == "Unknown" || r in t.operatorByAgency.Values
    ensures "" !in t.operatorByAgency ==>
      r == if routeId in t.agencyByRoute && t.agencyByRoute[routeId] in t.operatorByAgency
           then t.operatorByAgency[t.agencyByRoute[routeId]]
           else "Unknown"
  {
    var agency := if routeId in t.agencyByRoute then t.agencyByRoute[routeId] else "";
    if agency in t.operatorByAgency then t.operatorByAgency[agency] else "Unknown"
  }

  /** Python's `x if x else None` on an integer: a decoded 0 becomes None. */
  function NonZero(x: int): Option<int>
  {
    if x != 0 then Some(x) else None
  }

  /**
   * The reported delay: the arrival delay if it is non-zero, else the
   * departure delay if that is non-zero, else None. A stored delay is never 0.
   */
  function StopDelay(stu: StopTimeUpdate): (r: Option<int>)
    ensures r != Some(0)
    ensures r.None? <==> EventDelay(stu.arrival) == 0 && EventDelay(stu.departure) == 0
    ensures EventDelay(stu.arrival) != 0 ==> r == Some(EventDelay(stu.arrival))
    ensures EventDelay(stu.arrival) == 0 ==> r == NonZero(EventDelay(stu.departure))
  {
    var arrival := EventDelay(stu.arrival);
    if arrival != 0 then Some(arrival) else NonZero(EventDelay(stu.departure))
  }

  // ---------------------------------------------------------------------------
  // Observation rows
  // ---------------------------------------------------------------------------

  /**
   * One row of `trip_observations` as the collector writes it. The column
   * named `scheduled_arrival_secs` receives the arrival time and the column
   * named `actual_arrival_secs` receives the departure time.
   */
  datatype ObservationRow = ObservationRow(
    collectedAt: int,
    tripId: string,
    routeId: string,
    operator: string,
    directionId: Option<int>,
    stopId: string,
    stopSequence: nat,
    scheduledArrivalSecs: Option<int>,
    actualArrivalSecs: Option<int>,
    reportedDelaySeconds: Option<int>,
    spine: string)

  /** The row for one stop-time update of a trip on a spine route. */
  function MakeRow(t: Tables, collectedAt: int, trip: TripDescriptor, stu: StopTimeUpdate): ObservationRow
    requires trip.routeId in t.spineByRoute
  {
    ObservationRow(
      collectedAt,
      trip.tripId,
      trip.routeId,
      OperatorFor(t, trip.routeId),
      NonZero(trip.directionId),
      stu.stopId,
      stu.stopSequence,
      NonZero(EventTime(stu.arrival)),
      NonZero(EventTime(stu.departure)),
      StopDelay(stu),
      t.spineByRoute[trip.routeId])
  }

  /** An entity contributes rows: it carries a trip update on a spine route. */
  predicate Kept(t: Tables, e: FeedEntity)
  {
    e.tripUpdate.Some? && e.tripUpdate.value.trip.routeId in t.spineByRoute
  }

  /** The rows of one entity: one per stop-time update, in feed order. */
  function EntityRows(t: Tables, collectedAt: int, e: FeedEntity): seq<ObservationRow>
  {
    if !Kept(t, e) then []
    else
      var tu := e.tripUpdate.value;
      seq(|tu.stopTimeUpdates|, j requires 0 <= j < |tu.stopTimeUpdates| =>
        MakeRow(t, collectedAt, tu.trip, tu.stopTimeUpdates[j]))
  }

  /** The rows of a whole feed: the entities' rows concatenated in feed order. */
  function FeedRows(t: Tables, collectedAt: int, entities: seq<FeedEntity>): seq<ObservationRow>
  {
    if entities == [] then []
    else EntityRows(t, collectedAt, entities[0]) + FeedRows(t, collectedAt, entities[1..])
  }

  /** The number of stop-time updates of the entities that are kept. */
  function KeptStopUpdates(t: Tables, entities: seq<FeedEntity>): nat
  {
    if entities == [] then 0
    else
      (if Kept(t, entities[0]) then |entities[0].tripUpdate.value.stopTimeUpdates| else 0)
      + KeptStopUpdates(t, entities[1..])
  }

  // ---------------------------------------------------------------------------
  // Properties of the transformation
  // ---------------------------------------------------------------------------

  /** An entity without a trip update, or on a route outside the spine map, yields no rows. */
  lemma DroppedEntityNoRows(t: Tables, collectedAt: int, e: FeedEntity)
    requires e.tripUpdate.None? || e.tripUpdate.value.trip.routeId !in t.spineByRoute
    ensures EntityRows(t, collectedAt, e) == []
  {
  }

  /** The fields of every row built from a stop-time update. */
  lemma RowFields(t: Tables, collectedAt: int, trip: TripDescriptor, stu: StopTimeUpdate)
    requires trip.routeId in t.spineByRoute
    ensures var r := MakeRow(t, collectedAt, trip, stu);
      && r.collectedAt == collectedAt
      && r.tripId == trip.tripId && r.routeId == trip.routeId
      && r.routeId in t.spineByRoute && r.spine == t.spineByRoute[r.routeId]
      && r.operator == OperatorFor(t, trip.routeId)
      && r.stopId == stu.stopId && r.stopSequence == stu.stopSequence
      && (r.directionId.None? <==> trip.directionId == 0)
      && (r.directionId.Some? ==> r.directionId.value == trip.directionId)
      && (r.scheduledArrivalSecs.None? <==> EventTime(stu.arrival) == 0)
      && (r.scheduledArrivalSecs.Some? ==> r.scheduledArrivalSecs.value == EventTime(stu.arrival))
      && (r.actualArrivalSecs.None? <==> EventTime(stu.departure) == 0)
      && (r.actualArrivalSecs.Some? ==> r.actualArrivalSecs.value == EventTime(stu.departure))
      && r.reportedDelaySeconds == StopDelay(stu) && r.reportedDelaySeconds != Some(0)
  {
  }

  /** Rows of a prefix extended by one entity: the loop's step. */
  lemma {:induction false} FeedRowsSnoc(t: Tables, collectedAt: int, entities: seq<FeedEntity>, e: FeedEntity)
    ensures FeedRows(t, collectedAt, entities + [e])
         == FeedRows(t, collectedAt, entities) + EntityRows(t, collectedAt, e)
  {
    if entities == [] {
      assert [e][1..] == [];
    } else {
      assert (entities + [e])[1..] == entities[1..] + [e];
      FeedRowsSnoc(t, collectedAt, entities[1..], e);
    }
  }

  /** The number of rows is the number of stop-time updates of the kept trip updates. */
  lemma {:induction false} FeedRowsCount(t: Tables, collectedAt: int, entities: seq<FeedEntity>)
    ensures |FeedRows(t, collectedAt, entities)| == KeptStopUpdates(t, entities)
  {
    if entities != [] {
      FeedRowsCount(t, collectedAt, entities[1..]);
    }
  }

  /**
   * Every row comes from a stop-time update of a kept entity: it lies on a
   * spine route, carries that route's spine letter, and the common timestamp.
   */
  lemma {:induction false} FeedRowsOrigin(t: Tables, collectedAt: int, entities: seq<FeedEntity>, r: ObservationRow)
    requires r in FeedRows(t, collectedAt, entities)
    ensures r.collectedAt == collectedAt
    ensures r.routeId in t.spineByRoute && r.spine == t.spineByRoute[r.routeId]
    ensures r.operator == OperatorFor(t, r.routeId)
    ensures exists i, j ::
              && 0 <= i < |entities| && Kept(t, entities[i])
              && 0 <= j < |entities[i].tripUpdate.value.stopTimeUpdates|
              && r == MakeRow(t, collectedAt, entities[i].tripUpdate.value.trip,
                              entities[i].tripUpdate.value.stopTimeUpdates[j])
  {
    var head := EntityRows(t, collectedAt, entities[0]);
    if r in head {
      var j :| 0 <= j < |head| && head[j] == r;
      assert Kept(t, entities[0]);
      assert r == MakeRow(t, collectedAt, entities[0].tripUpdate.value.trip,
                          entities[0].tripUpdate.value.stopTimeUpdates[j]);
    } else {
      FeedRowsOrigin(t, collectedAt, entities[1..], r);
      var i, j :| 0 <= i < |entities[1..]| && Kept(t, entities[1..][i])
        && 0 <= j < |entities[1..][i].tripUpdate.value.stopTimeUpdates|
        && r == MakeRow(t, collectedAt, entities[1..][i].tripUpdate.value.trip,
                        entities[1..][i].tripUpdate.value.stopTimeUpdates[j]);
      assert entities[1..][i] == entities[i + 1];
    }
  }

  /** Conversely, every stop-time update of a kept entity yields its row. */
  lemma {:induction false} FeedRowsComplete(t: Tables, collectedAt: int, entities: seq<FeedEntity>, i: nat, j: nat)
    requires i < |entities| && Kept(t, entities[i])
    requires j < |entities[i].tripUpdate.value.stopTimeUpdates|
    ensures MakeRow(t, collectedAt, entities[i].tripUpdate.value.trip,
                    entities[i].tripUpdate.value.stopTimeUpdates[j])
            in FeedRows(t, collectedAt, entities)
  {
    if i == 0 {
      assert EntityRows(t, collectedAt, entities[0])[j]
          == MakeRow(t, collectedAt, entities[0].tripUpdate.value.trip,
                     entities[0].tripUpdate.value.stopTimeUpdates[j]);
    } else {
      assert entities[1..][i - 1] == entities[i];
      FeedRowsComplete(t, collectedAt, entities[1..], i - 1, j);
    }
  }

  /** With the collector's own tables every spine route has a known operator. */
  lemma SourceOperatorsKnown(routeId: string)
    requires routeId in SpineRouteMap
    ensures OperatorFor(SourceTables, routeId) != "Unknown"
    ensures OperatorFor(SourceTables, routeId) in {"Dublin Bus", "Go-Ahead"}
  {
  }

  // ---------------------------------------------------------------------------
  // The collector's loop and its table
  // ---------------------------------------------------------------------------

  /** The nested loop of the collector, appending one row per kept stop-time update. */
  method BuildRows(t: Tables, collectedAt: int, entities: seq<FeedEntity>) returns (rows: seq<ObservationRow>)
    ensures rows == FeedRows(t, collectedAt, entities)
  {
    rows := [];
    var i := 0;
    while i < |entities|
      invariant 0 <= i <= |entities|
      invariant rows == FeedRows(t, collectedAt, entities[..i])
    {
      var entity := entities[i];
      FeedRowsSnoc(t, collectedAt, entities[..i], entity);
      assert entities[..i + 1] == entities[..i] + [entity];
      if entity.tripUpdate.None? {
        i := i + 1;
        continue;
      }
      var tu := entity.tripUpdate.value;
      if tu.trip.routeId !in t.spineByRoute {
        i := i + 1;
        continue;
      }
      ghost var before := rows;
      var j := 0;
      while j < |tu.stopTimeUpdates|
        invariant 0 <= j <= |tu.stopTimeUpdates|
        invariant rows == before + EntityRows(t, collectedAt, entity)[..j]
      {
        var stu := tu.stopTimeUpdates[j];
        assert EntityRows(t, collectedAt, entity)[..j + 1]
            == EntityRows(t, collectedAt, entity)[..j] + [MakeRow(t, collectedAt, tu.trip, stu)];
        rows := rows + [MakeRow(t, collectedAt, tu.trip, stu)];
        j := j + 1;
      }
      assert EntityRows(t, collectedAt, entity)[..j] == EntityRows(t, collectedAt, entity);
      i := i + 1;
    }
    assert entities[..i] == entities;
  }

  /**
   * The `trip_observations` table as the collector sees it: a sequence of
   * rows to which each cycle appends with a plain INSERT (no conflict handling).
   */
  class TripObservationStore {
    var rows: seq<ObservationRow>

    constructor ()
      ensures rows == []
    {
      rows := [];
    }

    /**
     * One cycle of `fetch_and_store` after decoding. Returns the number of rows
     * written; when the feed yields no rows nothing is written.
     */
    method FetchAndStore(t: Tables, entities: seq<FeedEntity>, collectedAt: int) returns (written: nat)
      modifies this
      ensures written == |FeedRows(t, collectedAt, entities)| == KeptStopUpdates(t, entities)
      // the early return for an empty batch: nothing is inserted or committed
      ensures written == 0 ==> rows == old(rows)
      ensures rows == old(rows) + FeedRows(t, collectedAt, entities)
    {
      var batch := BuildRows(t, collectedAt, entities);
      FeedRowsCount(t, collectedAt, entities);
      if |batch| == 0 {
        return 0;
      }
      rows := rows + batch;
      written := |batch|;
    }
  }
}
