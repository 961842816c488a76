/**
 * The detector on a single trip: the threshold boundary, a second run over
 * unchanged data, and a trip whose recent observations do not save it.
 */
module GhostScenarios {
  import opened Wrappers
  import opened Ghosts

  /** An observation of trip "T1" on route "R1", last seen at `lastSeen`. */
  function Seen(stopSequence: int, lastSeen: int, today: int): Observation
  {
    Observation("T1", "R1", "Dublin Bus", "C", stopSequence, lastSeen - 600, lastSeen, today)
  }

  /** The candidate the detector builds from the single stale observation `Seen(...)`. */
  function Flag(stopSequence: int, lastSeen: int, total: int): Candidate
  {
    Candidate("T1", "R1", "Dublin Bus", "C", lastSeen - 600, lastSeen, stopSequence, total, true)
  }

  /** The aggregates of a group with one row are that row's own values. */
  lemma SingleRowAggregate(o: Observation, total: int)
    ensures Aggregate(KeyOf(o), [o], total)
         == Candidate(o.tripId, o.routeId, o.operator, o.spine, o.firstSeenAt, o.lastSeenAt, o.stopSequence, total, true)
  {
  }

  /** A single eligible observation forms a single group. */
  lemma SingleRowSelect(o: Observation, counts: seq<RouteStopCount>, now: int, today: int)
    requires Eligible(o, counts, now, today) && ExpectedTotal(counts, o.tripId).value != 0
    ensures var total := ExpectedTotal(counts, o.tripId).value;
      Select([o], counts, now, today)
        == Ok(if BelowThreshold(o.stopSequence, total) then [Aggregate(KeyOf(o), [o], total)] else [])
  {
    assert [o][1..] == [];
    assert EligibleRows([], counts, now, today) == [];
    var rows := EligibleRows([o], counts, now, today);
    assert rows == [o];
    assert GroupKeys(rows) == [KeyOf(o)];
    assert Members(rows, KeyOf(o)) == [o];
    assert [KeyOf(o)][1..] == [];
    var total := ExpectedTotal(counts, o.tripId).value;
    SingleRowAggregate(o, total);
    assert SelectGroups([KeyOf(o)][1..], rows, counts) == Ok([]);
    var c := Aggregate(KeyOf(o), [o], total);
    assert [c] + [] == [c];
    assert SelectGroups([KeyOf(o)], rows, counts)
        == Ok(if BelowThreshold(o.stopSequence, total) then [Aggregate(KeyOf(o), [o], total)] else []);
  }

  /**
   * A trip seen once, 20 minutes ago, that lists `total` stops is proposed
   * exactly when its stop sequence is strictly below 80% of `total`.
   */
  lemma SingleStaleTrip(stopSequence: int, total: int, now: int, today: int)
    requires total > 0
    ensures Select([Seen(stopSequence, now - 1200, today)], [RouteStopCount("T1", total)], now, today)
         == Ok(if 5 * stopSequence < 4 * total then [Flag(stopSequence, now - 1200, total)] else [])
  {
    var o := Seen(stopSequence, now - 1200, today);
    var counts := [RouteStopCount("T1", total)];
    assert counts[1..] == [];
    assert ExpectedTotal(counts, "T1") == Some(total);
    SingleRowSelect(o, counts, now, today);
    SingleRowAggregate(o, total);
  }

  /** 8 of 10 stops is exactly 0.80 and is not flagged; 79 of 100 is. */
  lemma ThresholdBoundary(now: int, today: int)
    ensures Select([Seen(8, now - 1200, today)], [RouteStopCount("T1", 10)], now, today) == Ok([])
    ensures Select([Seen(79, now - 1200, today)], [RouteStopCount("T1", 100)], now, today)
         == Ok([Flag(79, now - 1200, 100)])
  {
    SingleStaleTrip(8, 10, now, today);
    SingleStaleTrip(79, 100, now, today);
  }

  /**
   * A trip last seen 20 minutes ago at stop 4 of 10: the first run inserts one
   * confirmed candidate, the second run inserts none and leaves it unchanged.
   */
  lemma FlagOnceThenNothing(now: int, today: int)
    ensures Select([Seen(4, now - 1200, today)], [RouteStopCount("T1", 10)], now, today).Ok?
    ensures var proposed := Select([Seen(4, now - 1200, today)], [RouteStopCount("T1", 10)], now, today).value;
      var once := InsertNew(map[], proposed);
      && once == map["T1" := Flag(4, now - 1200, 10)]
      && once["T1"].confirmedGhost
      && |ProposedIds(proposed)| == 1
      && InsertNew(once, proposed) == once
      && |ProposedIds(proposed) - once.Keys| == 0
  {
    SingleStaleTrip(4, 10, now, today);
    var proposed := [Flag(4, now - 1200, 10)];
    assert ProposedIds(proposed) == {"T1"};
    assert proposed[1..] == [];
    var once := InsertNew(map[], proposed);
    assert once == InsertNew(map["T1" := Flag(4, now - 1200, 10)], []);
    DetectTwiceInsertsNothing(map[], [Seen(4, now - 1200, today)], [RouteStopCount("T1", 10)], now, today);
  }

  /**
   * The staleness test applies to each observation, not to the trip: a trip
   * that reported a minute ago at stop 9 is still flagged from its stale
   * observation at stop 3.
   */
  lemma RecentReportDoesNotSaveTrip(now: int, today: int)
    ensures Select([Seen(3, now - 1200, today), Seen(9, now - 60, today)], [RouteStopCount("T1", 10)], now, today)
         == Ok([Flag(3, now - 1200, 10)])
  {
    NonQualifyingIgnored([Seen(3, now - 1200, today)], Seen(9, now - 60, today), [], [RouteStopCount("T1", 10)], now, today);
    assert [Seen(3, now - 1200, today)] + [Seen(9, now - 60, today)] + []
        == [Seen(3, now - 1200, today), Seen(9, now - 60, today)];
    assert [Seen(3, now - 1200, today)] + [] == [Seen(3, now - 1200, today)];
    SingleStaleTrip(3, 10, now, today);
  }

  /**
   * Two runs of the detector over the same data: when the first succeeds, the
   * second reports a `rowcount` of 0 and leaves the table as the first left it;
   * when the first fails, the second fails the same way.
   */
  method DetectTwice(table: GhostCandidateTable, obs: seq<Observation>, counts: seq<RouteStopCount>, now: int, today: int)
    returns (first: Result<nat, DetectError>, second: Result<nat, DetectError>)
    requires table.Valid()
    modifies table
    ensures table.Valid()
    ensures first.Ok? <==> Select(obs, counts, now, today).Ok?
    ensures Select(obs, counts, now, today).Ok? ==>
              && first == Ok(|ProposedIds(Select(obs, counts, now, today).value) - old(table.candidates).Keys|)
              && second == Ok(0)
              && table.candidates == InsertNew(old(table.candidates), Select(obs, counts, now, today).value)
    ensures Select(obs, counts, now, today).Err? ==> second == first && table.candidates == old(table.candidates)
  {
    DetectTwiceInsertsNothing(table.candidates, obs, counts, now, today);
    first := table.DetectGhosts(obs, counts, now, today);
    second := table.DetectGhosts(obs, counts, now, today);
  }

  /**
   * On a fresh table, a trip last seen 20 minutes ago at stop 4 of 10 gives a
   * `rowcount` of 1 on the first run and 0 on the second.
   */
  method FlagOnceThenNothingRun(now: int, today: int) returns (first: Result<nat, DetectError>, second: Result<nat, DetectError>)
    ensures first == Ok(1) && second == Ok(0)
  {
    var obs, counts := [Seen(4, now - 1200, today)], [RouteStopCount("T1", 10)];
    SingleStaleTrip(4, 10, now, today);
    var proposed := [Flag(4, now - 1200, 10)];
    assert Select(obs, counts, now, today) == Ok(proposed);
    assert ProposedIds(proposed) == {"T1"};
    var table := new GhostCandidateTable();
    first, second := DetectTwice(table, obs, counts, now, today);
    assert ProposedIds(proposed) - {} == {"T1"};
  }
}
