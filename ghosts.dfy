/**
 * The ghost-bus detector: one INSERT ... SELECT statement that aggregates the
 * stale observations of today's trips, keeps the trips that stopped reporting
 * before reaching 80% of their stops, and inserts them into
 * `ghost_bus_candidates` with ON CONFLICT (trip_id) DO NOTHING.
 *
 * The SELECT is modelled by functions over the `trip_observations` rows and
 * the `route_stop_counts` relation; the INSERT changes a table keyed by trip
 * id. The clock (`NOW()`, `CURRENT_DATE`) is given as parameters, timestamps
 * are in seconds and service dates are day numbers.
 */
module Ghosts {
  import opened Wrappers
  import opened Aggregates

  /** `INTERVAL '15 minutes'`, in seconds. */
  const StaleWindowSecs: int := 15 * 60

  /** GHOST_THRESHOLD = 0.80, as the fraction ThresholdNum / ThresholdDen. */
  const ThresholdNum: int := 4
  const ThresholdDen: int := 5

  /** The columns of a `trip_observations` row that the detector reads. */
  datatype Observation = Observation(
    tripId: string,
    routeId: string,
    operator: string,
    spine: string,
    stopSequence: int,
    firstSeenAt: int,
    lastSeenAt: int,
    serviceDate: int)

  /** A row of the `route_stop_counts` relation. */
  datatype RouteStopCount = RouteStopCount(tripId: string, totalStops: int)

  /** A row of `ghost_bus_candidates`. */
  datatype Candidate = Candidate(
    tripId: string,
    routeId: string,
    operator: string,
    spine: string,
    firstSeen: int,
    lastSeen: int,
    lastStopSequence: int,
    expectedTotalStops: int,
    confirmedGhost: bool)

  /** The statement fails when the HAVING clause divides by a zero stop count. */
  datatype DetectError = DivisionByZero(tripId: string)

  // ---------------------------------------------------------------------------
  // The SELECT: join, filter, group, aggregate, HAVING
  // ---------------------------------------------------------------------------

  /**
   * The joined sub-query `SELECT trip_id, MAX(total_stops) ... GROUP BY trip_id`:
   * the largest stop count listed for the trip, or None when it is not listed.
   */
  function ExpectedTotal(counts: seq<RouteStopCount>, tripId: string): (r: Option<int>)
    ensures r.None? <==> forall i :: 0 <= i < |counts| ==> counts[i].tripId != tripId
    ensures r.Some? ==> exists i :: 0 <= i < |counts| && counts[i].tripId == tripId && counts[i].totalStops == r.value
    ensures r.Some? ==> forall i :: 0 <= i < |counts| && counts[i].tripId == tripId ==> counts[i].totalStops <= r.value
  {
    if counts == [] then None
    else
      var rest := ExpectedTotal(counts[1..], tripId);
      assert forall i :: 1 <= i < |counts| ==> counts[i] == counts[1..][i - 1];
      if counts[0].tripId != tripId then rest
      else if rest.Some? && counts[0].totalStops < rest.value then rest
      else Some(counts[0].totalStops)
  }

  /** The WHERE clause: seen last more than 15 minutes ago, on today's service date. */
  predicate Qualifies(o: Observation, now: int, today: int)
  {
    o.lastSeenAt < now - StaleWindowSecs && o.serviceDate == today
  }

  /** A row that survives both the WHERE clause and the join. */
  predicate Eligible(o: Observation, counts: seq<RouteStopCount>, now: int, today: int)
  {
    Qualifies(o, now, today) && ExpectedTotal(counts, o.tripId).Some?
  }

  /** The rows that take part in the aggregation. */
  function EligibleRows(obs: seq<Observation>, counts: seq<RouteStopCount>, now: int, today: int): (r: seq<Observation>)
    ensures forall o :: o in r <==> o in obs && Eligible(o, counts, now, today)
  {
    if obs == [] then []
    else
      assert forall o :: o in obs ==> o == obs[0] || o in obs[1..];
      (if Eligible(obs[0], counts, now, today) then [obs[0]] else [])
      + EligibleRows(obs[1..], counts, now, today)
  }

  /** The GROUP BY key; `total_stops` is determined by the trip id and adds nothing. */
  datatype GroupKey = GroupKey(tripId: string, routeId: string)

  function KeyOf(o: Observation): GroupKey
  {
    GroupKey(o.tripId, o.routeId)
  }

  /** The distinct group keys of some rows. */
  function GroupKeys(rows: seq<Observation>): (ks: seq<GroupKey>)
    ensures forall o :: o in rows ==> KeyOf(o) in ks
    ensures forall k :: k in ks ==> exists o :: o in rows && KeyOf(o) == k
    ensures forall i, j :: 0 <= i < j < |ks| ==> ks[i] != ks[j]
  {
    if rows == [] then []
    else
      var rest := GroupKeys(rows[1..]);
      assert forall o :: o in rows ==> o == rows[0] || o in rows[1..];
      if KeyOf(rows[0]) in rest then rest else [KeyOf(rows[0])] + rest
  }

  /** The rows of one group. */
  function Members(rows: seq<Observation>, k: GroupKey): (g: seq<Observation>)
    ensures forall o :: o in g <==> o in rows && KeyOf(o) == k
  {
    if rows == [] then []
    else
      assert forall o :: o in rows ==> o == rows[0] || o in rows[1..];
      (if KeyOf(rows[0]) == k then [rows[0]] else []) + Members(rows[1..], k)
  }

  /** The column projections of a group that the aggregates read. */
  function StopSequences(g: seq<Observation>): (xs: seq<int>)
  {
    seq(|g|, i requires 0 <= i < |g| => g[i].stopSequence)
  }

  function FirstSeens(g: seq<Observation>): (xs: seq<int>)
  {
    seq(|g|, i requires 0 <= i < |g| => g[i].firstSeenAt)
  }

  function LastSeens(g: seq<Observation>): (xs: seq<int>)
  {
    seq(|g|, i requires 0 <= i < |g| => g[i].lastSeenAt)
  }

  function Operators(g: seq<Observation>): (xs: seq<string>)
  {
    seq(|g|, i requires 0 <= i < |g| => g[i].operator)
  }

  function Spines(g: seq<Observation>): (xs: seq<string>)
  {
    seq(|g|, i requires 0 <= i < |g| => g[i].spine)
  }

  /** The select list of one group. */
  function Aggregate(k: GroupKey, g: seq<Observation>, total: int): Candidate
    requires |g| > 0
  {
    Candidate(
      k.tripId,
      k.routeId,
      MaxText(Operators(g)),
      MaxText(Spines(g)),
      MinOf(FirstSeens(g)),
      MaxOf(LastSeens(g)),
      MaxOf(StopSequences(g)),
      total,
      true)
  }

  /**
   * The HAVING clause `maxSeq::float / total < 0.80` without floats. The
   * cross-multiplication flips with the sign of the divisor.
   */
  predicate BelowThreshold(maxSeq: int, total: int)
    requires total != 0
  {
    if total > 0 then ThresholdDen * maxSeq < ThresholdNum * total
    else ThresholdDen * maxSeq > ThresholdNum * total
  }

  /** The groups of `keys` in order; a group with a zero stop count aborts the statement. */
  function SelectGroups(keys: seq<GroupKey>, rows: seq<Observation>, counts: seq<RouteStopCount>): Result<seq<Candidate>, DetectError>
    requires forall k :: k in keys ==> |Members(rows, k)| > 0 && ExpectedTotal(counts, k.tripId).Some?
  {
    if keys == [] then Ok([])
    else
      var k := keys[0];
      var total := ExpectedTotal(counts, k.tripId).value;
      if total == 0 then Err(DivisionByZero(k.tripId))
      else
        match SelectGroups(keys[1..], rows, counts)
        case Err(e) => Err(e)
        case Ok(rest) =>
          var c := Aggregate(k, Members(rows, k), total);
          Ok(if BelowThreshold(c.lastStopSequence, total) then [c] + rest else rest)
  }

  /** Every group of the eligible rows is non-empty and its trip has a listed stop count. */
  lemma GroupsWellFormed(obs: seq<Observation>, counts: seq<RouteStopCount>, now: int, today: int)
    ensures var rows := EligibleRows(obs, counts, now, today);
      forall k :: k in GroupKeys(rows) ==> |Members(rows, k)| > 0 && ExpectedTotal(counts, k.tripId).Some?
  {
  }

  /** The SELECT part of the statement: the rows it proposes for insertion. */
  function Select(obs: seq<Observation>, counts: seq<RouteStopCount>, now: int, today: int): Result<seq<Candidate>, DetectError>
  {
    var rows := EligibleRows(obs, counts, now, today);
    var keys := GroupKeys(rows);
    GroupsWellFormed(obs, counts, now, today);
    SelectGroups(keys, rows, counts)
  }

  // ---------------------------------------------------------------------------
  // Properties of the SELECT
  // ---------------------------------------------------------------------------

  /** The HAVING clause agrees with exact rational division against 0.80. */
  lemma ThresholdIsRatio(maxSeq: int, total: int)
    requires total != 0
    ensures BelowThreshold(maxSeq, total) <==> (maxSeq as real) / (total as real) < 0.80
  {
    var m, t := maxSeq as real, total as real;
    var q := m / t;
    assert q * t == m;
    var d := 0.80 - q;
    assert d * t == 0.80 * t - m;
    assert 5.0 * m == (5 * maxSeq) as real && 4.0 * t == (4 * total) as real;
    if total > 0 {
      if d > 0.0 { assert d * t > 0.0; } else { assert d * t <= 0.0; }
    } else {
      if d > 0.0 { assert d * t < 0.0; } else { assert d * t >= 0.0; }
    }
  }

  lemma {:induction false} EligibleRowsAppend(obs: seq<Observation>, more: seq<Observation>, counts: seq<RouteStopCount>, now: int, today: int)
    ensures EligibleRows(obs + more, counts, now, today)
         == EligibleRows(obs, counts, now, today) + EligibleRows(more, counts, now, today)
  {
    if obs == [] {
      assert obs + more == more;
    } else {
      assert (obs + more)[1..] == obs[1..] + more;
      EligibleRowsAppend(obs[1..], more, counts, now, today);
    }
  }

  /**
   * Observations that fail the WHERE clause take no part: adding one, for
   * instance a recent row of a trip, changes nothing about the result.
   */
  lemma NonQualifyingIgnored(before: seq<Observation>, o: Observation, after: seq<Observation>,
                              counts: seq<RouteStopCount>, now: int, today: int)
    requires !Qualifies(o, now, today)
    ensures Select(before + [o] + after, counts, now, today) == Select(before + after, counts, now, today)
  {
    IneligibleIgnored(before, o, after, counts, now, today);
  }

  /** Observations of trips not listed in `route_stop_counts` take no part either. */
  lemma UnlistedTripIgnored(before: seq<Observation>, o: Observation, after: seq<Observation>,
                             counts: seq<RouteStopCount>, now: int, today: int)
    requires forall i :: 0 <= i < |counts| ==> counts[i].tripId != o.tripId
    ensures Select(before + [o] + after, counts, now, today) == Select(before + after, counts, now, today)
  {
    IneligibleIgnored(before, o, after, counts, now, today);
  }

  /** An observation the WHERE clause or the join drops, wherever it sits in the table, changes nothing. */
  lemma IneligibleIgnored(before: seq<Observation>, o: Observation, after: seq<Observation>,
                          counts: seq<RouteStopCount>, now: int, today: int)
    requires !Eligible(o, counts, now, today)
    ensures EligibleRows(before + [o] + after, counts, now, today) == EligibleRows(before + after, counts, now, today)
  {
    EligibleRowsAppend(before + [o], after, counts, now, today);
    EligibleRowsAppend(before, [o], counts, now, today);
    EligibleRowsAppend(before, after, counts, now, today);
    assert [o][1..] == [];
  }

  /** `MAX(t.stop_sequence)` over a group is the value of one of its rows and bounds all of them. */
  lemma MaxStopSequence(g: seq<Observation>)
    requires |g| > 0
    ensures var m := MaxOf(StopSequences(g));
      && (exists o :: o in g && o.stopSequence == m)
      && (forall o :: o in g ==> o.stopSequence <= m)
  {
    var xs := StopSequences(g);
    forall o | o in g
      ensures o.stopSequence in xs
    {
      var i :| 0 <= i < |g| && g[i] == o;
      assert xs[i] == o.stopSequence;
    }
    var i :| 0 <= i < |xs| && xs[i] == MaxOf(xs);
    assert g[i] in g;
  }

  /** `MIN(t.first_seen_at)` over a group is the value of one of its rows and bounds all of them. */
  lemma MinFirstSeen(g: seq<Observation>)
    requires |g| > 0
    ensures var m := MinOf(FirstSeens(g));
      && (exists o :: o in g && o.firstSeenAt == m)
      && (forall o :: o in g ==> m <= o.firstSeenAt)
  {
    var xs := FirstSeens(g);
    forall o | o in g
      ensures o.firstSeenAt in xs
    {
      var i :| 0 <= i < |g| && g[i] == o;
      assert xs[i] == o.firstSeenAt;
    }
    var i :| 0 <= i < |xs| && xs[i] == MinOf(xs);
    assert g[i] in g;
  }

  /** `MAX(t.last_seen_at)` over a group is the value of one of its rows and bounds all of them. */
  lemma MaxLastSeen(g: seq<Observation>)
    requires |g| > 0
    ensures var m := MaxOf(LastSeens(g));
      && (exists o :: o in g && o.lastSeenAt == m)
      && (forall o :: o in g ==> o.lastSeenAt <= m)
  {
    var xs := LastSeens(g);
    forall o | o in g
      ensures o.lastSeenAt in xs
    {
      var i :| 0 <= i < |g| && g[i] == o;
      assert xs[i] == o.lastSeenAt;
    }
    var i :| 0 <= i < |xs| && xs[i] == MaxOf(xs);
    assert g[i] in g;
  }

  /** `MAX(t.operator)` over a group is the value of one of its rows and bounds all of them. */
  lemma MaxOperator(g: seq<Observation>)
    requires |g| > 0
    ensures var m := MaxText(Operators(g));
      && (exists o :: o in g && o.operator == m)
      && (forall o :: o in g ==> LexLe(o.operator, m))
  {
    var xs := Operators(g);
    forall o | o in g
      ensures o.operator in xs
    {
      var i :| 0 <= i < |g| && g[i] == o;
      assert xs[i] == o.operator;
    }
    var i :| 0 <= i < |xs| && xs[i] == MaxText(xs);
    assert g[i] in g;
  }

  /** `MAX(t.spine)` over a group is the value of one of its rows and bounds all of them. */
  lemma MaxSpine(g: seq<Observation>)
    requires |g| > 0
    ensures var m := MaxText(Spines(g));
      && (exists o :: o in g && o.spine == m)
      && (forall o :: o in g ==> LexLe(o.spine, m))
  {
    var xs := Spines(g);
    forall o | o in g
      ensures o.spine in xs
    {
      var i :| 0 <= i < |g| && g[i] == o;
      assert xs[i] == o.spine;
    }
    var i :| 0 <= i < |xs| && xs[i] == MaxText(xs);
    assert g[i] in g;
  }

  /** What the select list of a group says about the rows of the group. */
  lemma AggregateOfGroup(k: GroupKey, g: seq<Observation>, total: int)
    requires |g| > 0
    ensures var c := Aggregate(k, g, total);
      && c.tripId == k.tripId && c.routeId == k.routeId
      && c.expectedTotalStops == total && c.confirmedGhost
      && (exists o :: o in g && o.stopSequence == c.lastStopSequence)
      && (exists o :: o in g && o.firstSeenAt == c.firstSeen)
      && (exists o :: o in g && o.lastSeenAt == c.lastSeen)
      && (exists o :: o in g && o.operator == c.operator)
      && (exists o :: o in g && o.spine == c.spine)
      && (forall o :: o in g ==> o.stopSequence <= c.lastStopSequence)
      && (forall o :: o in g ==> c.firstSeen <= o.firstSeenAt)
      && (forall o :: o in g ==> o.lastSeenAt <= c.lastSeen)
      && (forall o :: o in g ==> LexLe(o.operator, c.operator) && LexLe(o.spine, c.spine))
  {
    MaxStopSequence(g);
    MinFirstSeen(g);
    MaxLastSeen(g);
    MaxOperator(g);
    MaxSpine(g);
  }

  /** Every row the groups propose is the aggregate of one of them, and passes HAVING. */
  lemma {:induction false} SelectGroupsSound(keys: seq<GroupKey>, rows: seq<Observation>, counts: seq<RouteStopCount>, c: Candidate)
    requires forall k :: k in keys ==> |Members(rows, k)| > 0 && ExpectedTotal(counts, k.tripId).Some?
    requires SelectGroups(keys, rows, counts).Ok? && c in SelectGroups(keys, rows, counts).value
    ensures GroupKey(c.tripId, c.routeId) in keys
    ensures ExpectedTotal(counts, c.tripId) == Some(c.expectedTotalStops) && c.expectedTotalStops != 0
    ensures c == Aggregate(GroupKey(c.tripId, c.routeId), Members(rows, GroupKey(c.tripId, c.routeId)), c.expectedTotalStops)
    ensures BelowThreshold(c.lastStopSequence, c.expectedTotalStops)
  {
    var k := keys[0];
    var total := ExpectedTotal(counts, k.tripId).value;
    var rest := SelectGroups(keys[1..], rows, counts).value;
    var head := Aggregate(k, Members(rows, k), total);
    if c != head || !BelowThreshold(head.lastStopSequence, total) {
      assert c in rest;
      SelectGroupsSound(keys[1..], rows, counts, c);
    }
  }

  /** Every group that passes HAVING is proposed. */
  lemma {:induction false} SelectGroupsComplete(keys: seq<GroupKey>, rows: seq<Observation>, counts: seq<RouteStopCount>, k: GroupKey)
    requires forall k :: k in keys ==> |Members(rows, k)| > 0 && ExpectedTotal(counts, k.tripId).Some?
    requires SelectGroups(keys, rows, counts).Ok? && k in keys
    ensures ExpectedTotal(counts, k.tripId).value != 0
    ensures var total := ExpectedTotal(counts, k.tripId).value;
      BelowThreshold(MaxOf(StopSequences(Members(rows, k))), total) ==>
        Aggregate(k, Members(rows, k), total) in SelectGroups(keys, rows, counts).value
  {
    if k != keys[0] {
      SelectGroupsComplete(keys[1..], rows, counts, k);
    }
  }

  /** The groups fail exactly when one of them has a zero stop count. */
  lemma {:induction false} SelectGroupsError(keys: seq<GroupKey>, rows: seq<Observation>, counts: seq<RouteStopCount>)
    requires forall k :: k in keys ==> |Members(rows, k)| > 0 && ExpectedTotal(counts, k.tripId).Some?
    ensures SelectGroups(keys, rows, counts).Err? <==> exists k :: k in keys && ExpectedTotal(counts, k.tripId) == Some(0)
  {
    if keys != [] {
      SelectGroupsError(keys[1..], rows, counts);
      assert forall k :: k in keys ==> k == keys[0] || k in keys[1..];
    }
  }

  /**
   * The statement fails exactly when a stale observation of today belongs to a
   * trip whose listed stop count is 0.
   */
  lemma SelectError(obs: seq<Observation>, counts: seq<RouteStopCount>, now: int, today: int)
    ensures Select(obs, counts, now, today).Err? <==>
      exists o :: o in obs && Qualifies(o, now, today) && ExpectedTotal(counts, o.tripId) == Some(0)
  {
    var rows := EligibleRows(obs, counts, now, today);
    var keys := GroupKeys(rows);
    GroupsWellFormed(obs, counts, now, today);
    SelectGroupsError(keys, rows, counts);
    if exists o :: o in obs && Qualifies(o, now, today) && ExpectedTotal(counts, o.tripId) == Some(0) {
      var o :| o in obs && Qualifies(o, now, today) && ExpectedTotal(counts, o.tripId) == Some(0);
      assert o in rows && KeyOf(o) in keys;
    }
    if exists k :: k in keys && ExpectedTotal(counts, k.tripId) == Some(0) {
      var k :| k in keys && ExpectedTotal(counts, k.tripId) == Some(0);
      var o :| o in rows && KeyOf(o) == k;
      assert o in obs && Qualifies(o, now, today);
    }
  }

  /** The candidate `c` is one of the rows the SELECT proposes. */
  predicate Proposes(obs: seq<Observation>, counts: seq<RouteStopCount>, now: int, today: int, c: Candidate)
  {
    Select(obs, counts, now, today).Ok? && c in Select(obs, counts, now, today).value
  }

  /**
   * Every proposed candidate aggregates the stale observations of today of its
   * (trip, route) group, for a trip listed in `route_stop_counts`, and its
   * highest stop sequence is strictly below 80% of the largest listed count.
   */
  lemma SelectSound(obs: seq<Observation>, counts: seq<RouteStopCount>, now: int, today: int, c: Candidate)
    ensures Proposes(obs, counts, now, today, c) ==>
      && c.confirmedGhost
      && ExpectedTotal(counts, c.tripId) == Some(c.expectedTotalStops) && c.expectedTotalStops != 0
      && BelowThreshold(c.lastStopSequence, c.expectedTotalStops)
      && (exists o :: o in obs && Qualifies(o, now, today) && o.tripId == c.tripId && o.routeId == c.routeId
                      && o.stopSequence == c.lastStopSequence)
      && (exists o :: o in obs && Qualifies(o, now, today) && o.tripId == c.tripId && o.routeId == c.routeId
                      && o.firstSeenAt == c.firstSeen)
      && (exists o :: o in obs && Qualifies(o, now, today) && o.tripId == c.tripId && o.routeId == c.routeId
                      && o.lastSeenAt == c.lastSeen)
      && (forall o :: o in obs && Qualifies(o, now, today) && o.tripId == c.tripId && o.routeId == c.routeId ==>
            && o.stopSequence <= c.lastStopSequence
            && c.firstSeen <= o.firstSeenAt
            && o.lastSeenAt <= c.lastSeen)
  {
    if Proposes(obs, counts, now, today, c) {
      var rows := EligibleRows(obs, counts, now, today);
      var keys := GroupKeys(rows);
      GroupsWellFormed(obs, counts, now, today);
      SelectGroupsSound(keys, rows, counts, c);
      var k := GroupKey(c.tripId, c.routeId);
      var g := Members(rows, k);
      AggregateOfGroup(k, g, c.expectedTotalStops);
      var o1 :| o1 in g && o1.stopSequence == c.lastStopSequence;
      assert o1 in rows;
      var o2 :| o2 in g && o2.firstSeenAt == c.firstSeen;
      assert o2 in rows;
      var o3 :| o3 in g && o3.lastSeenAt == c.lastSeen;
      assert o3 in rows;
      forall o | o in obs && Qualifies(o, now, today) && o.tripId == c.tripId && o.routeId == c.routeId
        ensures o.stopSequence <= c.lastStopSequence && c.firstSeen <= o.firstSeenAt && o.lastSeenAt <= c.lastSeen
      {
        assert o in rows;
        assert o in g;
      }
    }
  }

  /**
   * Every (trip, route) group with a stale observation of today for a listed
   * trip is proposed exactly when it passes HAVING.
   */
  lemma SelectComplete(obs: seq<Observation>, counts: seq<RouteStopCount>, now: int, today: int, o: Observation)
    ensures Select(obs, counts, now, today).Ok? && o in obs && Eligible(o, counts, now, today) ==>
      var rows := EligibleRows(obs, counts, now, today);
      var total := ExpectedTotal(counts, o.tripId).value;
      && total != 0
      && |Members(rows, KeyOf(o))| > 0
      && (BelowThreshold(MaxOf(StopSequences(Members(rows, KeyOf(o)))), total) <==>
            Aggregate(KeyOf(o), Members(rows, KeyOf(o)), total) in Select(obs, counts, now, today).value)
      && (!BelowThreshold(MaxOf(StopSequences(Members(rows, KeyOf(o)))), total) ==>
            forall c :: c in Select(obs, counts, now, today).value ==> GroupKey(c.tripId, c.routeId) != KeyOf(o))
  {
    if Select(obs, counts, now, today).Ok? && o in obs && Eligible(o, counts, now, today) {
      var rows := EligibleRows(obs, counts, now, today);
      var keys := GroupKeys(rows);
      GroupsWellFormed(obs, counts, now, today);
      var cs := SelectGroups(keys, rows, counts).value;
      var key := KeyOf(o);
      var g := Members(rows, key);
      assert o in rows && o in g && key in keys;
      var total := ExpectedTotal(counts, o.tripId).value;
      SelectGroupsComplete(keys, rows, counts, key);
      var a := Aggregate(key, g, total);
      if a in cs {
        SelectGroupsSound(keys, rows, counts, a);
      }
      if !BelowThreshold(MaxOf(StopSequences(g)), total) {
        forall c | c in cs ensures GroupKey(c.tripId, c.routeId) != key {
          SelectGroupsSound(keys, rows, counts, c);
        }
      }
    }
  }

  // ---------------------------------------------------------------------------
  // The INSERT ... ON CONFLICT (trip_id) DO NOTHING
  // ---------------------------------------------------------------------------

  /** Every candidate is stored under its own trip id: at most one per trip. */
  predicate KeyedByTrip(table: map<string, Candidate>)
  {
    forall id :: id in table ==> table[id].tripId == id
  }

  /** The trip ids of the proposed rows. */
  function ProposedIds(proposed: seq<Candidate>): set<string>
  {
    set i | 0 <= i < |proposed| :: proposed[i].tripId
  }

  /**
   * Inserting the proposed rows in order, skipping each one whose trip id is
   * already present (including one inserted earlier by the same statement).
   */
  function InsertNew(table: map<string, Candidate>, proposed: seq<Candidate>): map<string, Candidate>
    decreases |proposed|
  {
    if proposed == [] then table
    else
      var c := proposed[0];
      InsertNew(if c.tripId in table then table else table[c.tripId := c], proposed[1..])
  }

  lemma ProposedIdsCons(proposed: seq<Candidate>)
    requires proposed != []
    ensures ProposedIds(proposed) == {proposed[0].tripId} + ProposedIds(proposed[1..])
  {
  }

  /** After the insert, exactly the old trip ids and the proposed ones are present. */
  lemma {:induction false} InsertNewKeys(table: map<string, Candidate>, proposed: seq<Candidate>)
    ensures InsertNew(table, proposed).Keys == table.Keys + ProposedIds(proposed)
    decreases |proposed|
  {
    if proposed != [] {
      var c := proposed[0];
      InsertNewKeys(if c.tripId in table then table else table[c.tripId := c], proposed[1..]);
      ProposedIdsCons(proposed);
    }
  }

  /** Existing candidates are never modified. */
  lemma {:induction false} InsertNewKeepsExisting(table: map<string, Candidate>, proposed: seq<Candidate>, id: string)
    requires id in table
    ensures id in InsertNew(table, proposed) && InsertNew(table, proposed)[id] == table[id]
    decreases |proposed|
  {
    if proposed != [] {
      var c := proposed[0];
      InsertNewKeepsExisting(if c.tripId in table then table else table[c.tripId := c], proposed[1..], id);
    }
  }

  /** A newly inserted candidate is the first proposed row carrying its trip id. */
  lemma {:induction false} InsertNewFirstWins(table: map<string, Candidate>, proposed: seq<Candidate>, id: string)
    requires id in InsertNew(table, proposed) && id !in table
    ensures exists i :: 0 <= i < |proposed| && InsertNew(table, proposed)[id] == proposed[i]
              && proposed[i].tripId == id
              && forall j :: 0 <= j < i ==> proposed[j].tripId != id
    decreases |proposed|
  {
    var c := proposed[0];
    var next := if c.tripId in table then table else table[c.tripId := c];
    var r := InsertNew(table, proposed);
    if id == c.tripId {
      InsertNewKeepsExisting(next, proposed[1..], id);
      assert r[id] == proposed[0];
    } else {
      InsertNewFirstWins(next, proposed[1..], id);
      var i :| 0 <= i < |proposed[1..]| && r[id] == proposed[1..][i] && proposed[1..][i].tripId == id
               && forall j :: 0 <= j < i ==> proposed[1..][j].tripId != id;
      assert r[id] == proposed[i + 1];
      forall j | 0 <= j < i + 1 ensures proposed[j].tripId != id {
        if j > 0 { assert proposed[j] == proposed[1..][j - 1]; }
      }
    }
  }

  /** The insert keeps at most one candidate per trip id. */
  lemma {:induction false} InsertNewKeyed(table: map<string, Candidate>, proposed: seq<Candidate>)
    requires KeyedByTrip(table)
    ensures KeyedByTrip(InsertNew(table, proposed))
    decreases |proposed|
  {
    if proposed != [] {
      var c := proposed[0];
      InsertNewKeyed(if c.tripId in table then table else table[c.tripId := c], proposed[1..]);
    }
  }

  /** The number of rows the insert adds: the proposed trip ids not yet present. */
  lemma InsertedCount(table: map<string, Candidate>, proposed: seq<Candidate>)
    ensures |InsertNew(table, proposed)| - |table| == |ProposedIds(proposed) - table.Keys|
  {
    var r := InsertNew(table, proposed);
    InsertNewKeys(table, proposed);
    var added := ProposedIds(proposed) - table.Keys;
    assert r.Keys == table.Keys + added;
    assert table.Keys * added == {};
    assert |r.Keys| == |table.Keys| + |added|;
    assert |r| == |r.Keys| && |table| == |table.Keys|;
  }

  /** Inserting rows whose trip ids are all present changes nothing. */
  lemma InsertPresentNoop(table: map<string, Candidate>, proposed: seq<Candidate>)
    requires ProposedIds(proposed) <= table.Keys
    ensures InsertNew(table, proposed) == table
  {
  }

  /** Inserting the same rows a second time adds nothing and changes nothing. */
  lemma InsertIdempotent(table: map<string, Candidate>, proposed: seq<Candidate>)
    ensures InsertNew(InsertNew(table, proposed), proposed) == InsertNew(table, proposed)
  {
    InsertNewKeys(table, proposed);
    InsertPresentNoop(InsertNew(table, proposed), proposed);
  }

  /**
   * Running the detection twice on unchanged data: the second run proposes the
   * same rows, inserts none of them and leaves the table as the first run left it.
   */
  lemma DetectTwiceInsertsNothing(table: map<string, Candidate>, obs: seq<Observation>, counts: seq<RouteStopCount>, now: int, today: int)
    ensures Select(obs, counts, now, today).Ok? ==>
      var once := InsertNew(table, Select(obs, counts, now, today).value);
      && InsertNew(once, Select(obs, counts, now, today).value) == once
      && |ProposedIds(Select(obs, counts, now, today).value) - once.Keys| == 0
  {
    if Select(obs, counts, now, today).Ok? {
      var proposed := Select(obs, counts, now, today).value;
      InsertIdempotent(table, proposed);
      InsertNewKeys(table, proposed);
      assert ProposedIds(proposed) - InsertNew(table, proposed).Keys == {};
    }
  }

  /** The `ghost_bus_candidates` table, keyed by trip id. */
  class GhostCandidateTable {
    var candidates: map<string, Candidate>

    ghost predicate Valid()
      reads this
    {
      KeyedByTrip(candidates)
    }

    constructor ()
      ensures Valid() && candidates == map[]
    {
      candidates := map[];
    }

    /**
     * One run of `detect_ghosts`: the statement either fails as a whole or
     * inserts the new candidates; the result is `rowcount`.
     */
    method DetectGhosts(obs: seq<Observation>, counts: seq<RouteStopCount>, now: int, today: int)
      returns (flagged: Result<nat, DetectError>)
      requires Valid()
      modifies this
      ensures Valid()
      ensures Select(obs, counts, now, today).Err? ==>
                flagged == Err(Select(obs, counts, now, today).error) && candidates == old(candidates)
      ensures Select(obs, counts, now, today).Ok? ==>
                && candidates == InsertNew(old(candidates), Select(obs, counts, now, today).value)
                && flagged == Ok(|ProposedIds(Select(obs, counts, now, today).value) - old(candidates).Keys|)
      ensures forall id :: id in old(candidates) ==> id in candidates && candidates[id] == old(candidates)[id]
    {
      var selected := Select(obs, counts, now, today);
      match selected {
        case Err(e) =>
          flagged := Err(e);
        case Ok(proposed) =>
          var before := candidates;
          candidates := InsertNew(candidates, proposed);
          InsertedCount(before, proposed);
          InsertNewKeyed(before, proposed);
          forall id | id in before ensures id in candidates && candidates[id] == before[id] {
            InsertNewKeepsExisting(before, proposed, id);
          }
          flagged := Ok(|candidates| - |before|);
      }
    }
  }
}
