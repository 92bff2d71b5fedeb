/** aggregated_stats.go, stats_cache.go and the display decision of api/rules.go: what the
    controller's statistics mean after any sequence of refresh rounds. */
module StatsCache {
  import opened Rules

  datatype Stats = Stats(matched: nat, dropped: nat, pps: real)

  const ZERO := Stats(0, 0, 0.0)

  function Plus(a: Stats, b: Stats): Stats {
    Stats(a.matched + b.matched, a.dropped + b.dropped, a.pps + b.pps)
  }

  datatype Row = Row(id: Id, stats: Option<Stats>)

  /** How one configured node fared in a round. */
  datatype Fetch = Fetched(rows: seq<Row>) | Failed | Offline | Unknown | Syncing

  // ---- Aggregation ----

  function RowsSum(rows: seq<Row>, id: Id): Stats {
    if rows == [] then ZERO
    else
      var rest, r := RowsSum(rows[..|rows| - 1], id), rows[|rows| - 1];
      if r.id == id && r.stats.Some? then Plus(rest, r.stats.value) else rest
  }

  /** The sum over all nodes that answered. */
  function RoundSum(nodes: seq<Fetch>, id: Id): Stats {
    if nodes == [] then ZERO
    else
      var rest, n := RoundSum(nodes[..|nodes| - 1], id), nodes[|nodes| - 1];
      if n.Fetched? then Plus(rest, RowsSum(n.rows, id)) else rest
  }

  // ---- The same sums number by number ----

  /** All rows of the nodes that answered. */
  function AllRows(nodes: seq<Fetch>): seq<Row> {
    if nodes == [] then []
    else AllRows(nodes[..|nodes| - 1]) + (if nodes[|nodes| - 1].Fetched? then nodes[|nodes| - 1].rows else [])
  }

  function Matches(rows: seq<Row>, id: Id): nat {
    if rows == [] then 0
    else
      var r := rows[|rows| - 1];
      Matches(rows[..|rows| - 1], id) + if r.id == id && r.stats.Some? then r.stats.value.matched else 0
  }

  function Drops(rows: seq<Row>, id: Id): nat {
    if rows == [] then 0
    else
      var r := rows[|rows| - 1];
      Drops(rows[..|rows| - 1], id) + if r.id == id && r.stats.Some? then r.stats.value.dropped else 0
  }

  function DropRate(rows: seq<Row>, id: Id): real {
    if rows == [] then 0.0
    else
      var r := rows[|rows| - 1];
      DropRate(rows[..|rows| - 1], id) + if r.id == id && r.stats.Some? then r.stats.value.pps else 0.0
  }

  lemma {:induction false} RowsByNumber(rows: seq<Row>, id: Id)
    ensures RowsSum(rows, id) == Stats(Matches(rows, id), Drops(rows, id), DropRate(rows, id))
  {
    if rows != [] {
      RowsByNumber(rows[..|rows| - 1], id);
    }
  }

  lemma {:induction false} SumsSplit(xs: seq<Row>, ys: seq<Row>, id: Id)
    ensures Matches(xs + ys, id) == Matches(xs, id) + Matches(ys, id)
    ensures Drops(xs + ys, id) == Drops(xs, id) + Drops(ys, id)
    ensures DropRate(xs + ys, id) == DropRate(xs, id) + DropRate(ys, id)
    decreases |ys|
  {
    if ys == [] {
      assert xs + ys == xs;
    } else {
      var n := |ys| - 1;
      assert (xs + ys)[..|xs + ys| - 1] == xs + ys[..n] && (xs + ys)[|xs + ys| - 1] == ys[n];
      SumsSplit(xs, ys[..n], id);
    }
  }

  /** Over all rows of all nodes that answered: the matches, the drops and the drop rates of the
      rule, each added up. */
  lemma {:induction false} SumsByNumber(nodes: seq<Fetch>, id: Id)
    ensures RoundSum(nodes, id) ==
            Stats(Matches(AllRows(nodes), id), Drops(AllRows(nodes), id), DropRate(AllRows(nodes), id))
  {
    hide Matches, Drops, DropRate;
    if nodes == [] {
      RowsByNumber([], id);
    } else {
      var n := |nodes| - 1;
      SumsByNumber(nodes[..n], id);
      if nodes[n].Fetched? {
        RowsByNumber(nodes[n].rows, id);
        SumsSplit(AllRows(nodes[..n]), nodes[n].rows, id);
      } else {
        assert AllRows(nodes[..n]) + [] == AllRows(nodes[..n]);
      }
    }
  }

  // ---- Which rules are reported ----

  predicate Reports(rows: seq<Row>, id: Id) {
    exists i :: 0 <= i < |rows| && rows[i].id == id && rows[i].stats.Some?
  }

  predicate Reported(nodes: seq<Fetch>, id: Id) {
    exists i :: 0 <= i < |nodes| && nodes[i].Fetched? && Reports(nodes[i].rows, id)
  }

  datatype Counts = Counts(configured: nat, attempted: nat, succeeded: nat, failed: nat, offline: nat, unknown: nat,
                           syncing: nat)

  datatype Kind = Answering | Failing | Away | Unheard | Busy

  function KindOf(n: Fetch): Kind {
    match n
    case Fetched(_) => Answering
    case Failed => Failing
    case Offline => Away
    case Unknown => Unheard
    case Syncing => Busy
  }

  ghost function OfKind(nodes: seq<Fetch>, k: Kind): set<nat> {
    set i: nat | i < |nodes| && KindOf(nodes[i]) == k
  }

  /** Every configured node is counted once, as answered, failed, or skipped for one reason. */
  ghost predicate Counted(c: Counts, nodes: seq<Fetch>) {
    CountedOnce(c, nodes) && Extremes(c, nodes)
  }

  ghost predicate CountedOnce(c: Counts, nodes: seq<Fetch>) {
    && c.succeeded == |OfKind(nodes, Answering)|
    && c.failed == |OfKind(nodes, Failing)| && c.offline == |OfKind(nodes, Away)|
    && c.unknown == |OfKind(nodes, Unheard)| && c.syncing == |OfKind(nodes, Busy)|
    && |nodes| == c.succeeded + c.failed + c.offline + c.unknown + c.syncing
    && c.attempted == c.succeeded + c.failed
  }

  /** What the counts say when no node or every node is of a kind. */
  ghost predicate Extremes(c: Counts, nodes: seq<Fetch>) {
    && (c.succeeded == 0 <==> forall i :: 0 <= i < |nodes| ==> !nodes[i].Fetched?)
    && (c.succeeded == |nodes| <==> forall i :: 0 <= i < |nodes| ==> nodes[i].Fetched?)
    && (c.unknown + c.syncing == |nodes| <==> forall i :: 0 <= i < |nodes| ==> nodes[i].Unknown? || nodes[i].Syncing?)
  }

  /** The aggregate holds, for each reported rule, the sum of its reports, and nothing else. */
  ghost predicate Aggregates(stats: map<Id, Stats>, nodes: seq<Fetch>) {
    && (forall id :: id in stats <==> Reported(nodes, id))
    && forall id :: id in stats ==> stats[id] == RoundSum(nodes, id)
  }

  function Get(stats: map<Id, Stats>, id: Id): Stats {
    if id in stats then stats[id] else ZERO
  }

  /** The counters after one more node. */
  function Tallied(c: Counts, n: Fetch): Counts {
    match n
    case Offline => c.(offline := c.offline + 1)
    case Unknown => c.(unknown := c.unknown + 1)
    case Syncing => c.(syncing := c.syncing + 1)
    case Failed => c.(attempted := c.attempted + 1, failed := c.failed + 1)
    case Fetched(_) => c.(attempted := c.attempted + 1, succeeded := c.succeeded + 1)
  }

  /** The aggregation loop of GetAggregatedRuleStatsDetailed over the nodes' answers. */
  method Aggregate(nodes: seq<Fetch>) returns (stats: map<Id, Stats>, c: Counts)
    ensures c.configured == |nodes| && Counted(c, nodes) && Aggregates(stats, nodes)
  {
    hide RowsAdded, Aggregates, Counted, Tallied;
    stats, c := map[], Counts(|nodes|, 0, 0, 0, 0, 0, 0);
    NoNodes(|nodes|);
    for i := 0 to |nodes|
      invariant c.configured == |nodes| && Counted(c, nodes[..i])
      invariant Aggregates(stats, nodes[..i])
    {
      ghost var before := stats;
      if nodes[i].Fetched? {
        stats := AddRows(stats, nodes[i].rows);
      }
      OneMoreNode(nodes, i, c);
      OneMoreSum(nodes, i, before, stats);
      c := Tallied(c, nodes[i]);
    }
    assert nodes[..|nodes|] == nodes;
  }

  lemma NoNodes(configured: nat)
    ensures Aggregates(map[], []) && Counted(Counts(configured, 0, 0, 0, 0, 0, 0), [])
  {
    forall k ensures OfKind([], k) == {} {}
  }

  /** stats is base with the reports of the rows added. */
  ghost predicate RowsAdded(stats: map<Id, Stats>, base: map<Id, Stats>, rows: seq<Row>) {
    && (forall id :: id in stats <==> id in base || Reports(rows, id))
    && forall id :: Get(stats, id) == Plus(Get(base, id), RowsSum(rows, id))
  }

  method AddRows(base: map<Id, Stats>, rows: seq<Row>) returns (stats: map<Id, Stats>)
    ensures RowsAdded(stats, base, rows)
  {
    hide RowsAdded, Plus;
    stats := base;
    NoRows(base);
    for i := 0 to |rows|
      invariant RowsAdded(stats, base, rows[..i])
    {
      var rule := rows[i];
      ghost var before := stats;
      if rule.stats.Some? {
        stats := stats[rule.id := Plus(Get(stats, rule.id), rule.stats.value)];
      }
      RowAdded(before, base, rows, i, stats);
    }
    assert rows[..|rows|] == rows;
  }

  lemma NoRows(base: map<Id, Stats>)
    ensures RowsAdded(base, base, [])
  {
    hide Get;
    forall id
      ensures !Reports([], id)
      ensures Get(base, id) == Plus(Get(base, id), RowsSum([], id))
    {
      PlusZero(Get(base, id));
    }
  }

  lemma PlusZero(s: Stats)
    ensures Plus(s, ZERO) == s
  {
  }

  lemma PlusAssociative(a: Stats, b: Stats, c: Stats)
    ensures Plus(Plus(a, b), c) == Plus(a, Plus(b, c))
  {
  }

  lemma RowAdded(before: map<Id, Stats>, base: map<Id, Stats>, rows: seq<Row>, i: nat, stats: map<Id, Stats>)
    requires i < |rows| && RowsAdded(before, base, rows[..i])
    requires stats == if rows[i].stats.Some?
                      then before[rows[i].id := Plus(Get(before, rows[i].id), rows[i].stats.value)] else before
    ensures RowsAdded(stats, base, rows[..i + 1])
  {
    hide Reports, Plus, RowsSum;
    forall id
      ensures id in stats <==> id in base || Reports(rows[..i + 1], id)
      ensures Get(stats, id) == Plus(Get(base, id), RowsSum(rows[..i + 1], id))
    {
      OneMoreRow(rows, i, id);
      assert Get(before, id) == Plus(Get(base, id), RowsSum(rows[..i], id));
      RowsSumStep(rows, i, id);
      if rows[i].id == id && rows[i].stats.Some? {
        PlusAssociative(Get(base, id), RowsSum(rows[..i], id), rows[i].stats.value);
      }
    }
  }

  lemma RowsSumStep(rows: seq<Row>, i: nat, id: Id)
    requires i < |rows|
    ensures RowsSum(rows[..i + 1], id) ==
            if rows[i].id == id && rows[i].stats.Some? then Plus(RowsSum(rows[..i], id), rows[i].stats.value)
            else RowsSum(rows[..i], id)
  {
    hide Plus;
    assert rows[..i + 1][..i] == rows[..i];
  }

  lemma OneMoreRow(rows: seq<Row>, i: nat, id: Id)
    requires i < |rows|
    ensures Reports(rows[..i + 1], id) <==> Reports(rows[..i], id) || (rows[i].id == id && rows[i].stats.Some?)
  {
    if Reports(rows[..i], id) {
      var j :| 0 <= j < i && rows[..i][j].id == id && rows[..i][j].stats.Some?;
      assert rows[..i + 1][j] == rows[..i][j];
    }
    if rows[i].id == id && rows[i].stats.Some? {
      assert rows[..i + 1][i] == rows[i];
    }
    if Reports(rows[..i + 1], id) {
      var j :| 0 <= j < i + 1 && rows[..i + 1][j].id == id && rows[..i + 1][j].stats.Some?;
      assert j < i ==> rows[..i][j] == rows[..i + 1][j];
    }
  }

  lemma OneMoreNode(nodes: seq<Fetch>, i: nat, c: Counts)
    requires i < |nodes| && Counted(c, nodes[..i])
    ensures Counted(Tallied(c, nodes[i]), nodes[..i + 1]) && Tallied(c, nodes[i]).configured == c.configured
  {
    hide CountedOnce, Extremes;
    assert nodes[..i + 1] == nodes[..i] + [nodes[i]];
    OneMoreOnce(nodes[..i], nodes[i], c);
    OneMoreExtremes(nodes[..i], nodes[i], c);
  }

  lemma OneMoreOnce(s: seq<Fetch>, x: Fetch, c: Counts)
    requires CountedOnce(c, s)
    ensures CountedOnce(Tallied(c, x), s + [x])
  {
    hide OfKind;
    OneMoreOfKind(s, x, KindOf(x));
    forall k | k != KindOf(x)
      ensures OfKind(s + [x], k) == OfKind(s, k)
    {
      OneMoreOfKind(s, x, k);
    }
  }

  lemma OneMoreExtremes(s: seq<Fetch>, x: Fetch, c: Counts)
    requires CountedOnce(c, s) && Extremes(c, s)
    ensures Extremes(Tallied(c, x), s + [x])
  {
    hide OfKind;
    assert forall j :: 0 <= j < |s| ==> (s + [x])[j] == s[j];
    assert (s + [x])[|s|] == x;
  }

  lemma OneMoreOfKind(s: seq<Fetch>, x: Fetch, k: Kind)
    ensures KindOf(x) != k ==> OfKind(s + [x], k) == OfKind(s, k)
    ensures KindOf(x) == k ==> |OfKind(s + [x], k)| == |OfKind(s, k)| + 1
  {
    assert OfKind(s + [x], k) == OfKind(s, k) + if KindOf(x) == k then {|s|} else {};
  }

  lemma OneMoreReport(nodes: seq<Fetch>, i: nat, id: Id)
    requires i < |nodes|
    ensures Reported(nodes[..i + 1], id) <==>
              Reported(nodes[..i], id) || (nodes[i].Fetched? && Reports(nodes[i].rows, id))
  {
    hide Reports;
    if Reported(nodes[..i], id) {
      var j :| 0 <= j < i && nodes[..i][j].Fetched? && Reports(nodes[..i][j].rows, id);
      assert nodes[..i + 1][j] == nodes[..i][j];
    }
    if nodes[i].Fetched? && Reports(nodes[i].rows, id) {
      assert nodes[..i + 1][i] == nodes[i];
    }
    if Reported(nodes[..i + 1], id) {
      var j :| 0 <= j < i + 1 && nodes[..i + 1][j].Fetched? && Reports(nodes[..i + 1][j].rows, id);
      assert j < i ==> nodes[..i][j] == nodes[..i + 1][j];
    }
  }

  lemma RoundSumStep(nodes: seq<Fetch>, i: nat, id: Id)
    requires i < |nodes|
    ensures RoundSum(nodes[..i + 1], id) ==
            if nodes[i].Fetched? then Plus(RoundSum(nodes[..i], id), RowsSum(nodes[i].rows, id))
            else RoundSum(nodes[..i], id)
  {
    hide Plus, RowsSum;
    assert nodes[..i + 1][..i] == nodes[..i];
  }

  lemma AddedAt(stats': map<Id, Stats>, stats: map<Id, Stats>, rows: seq<Row>, id: Id)
    requires RowsAdded(stats', stats, rows)
    ensures id in stats' <==> id in stats || Reports(rows, id)
    ensures Get(stats', id) == Plus(Get(stats, id), RowsSum(rows, id))
  {
    hide Reports, Plus, RowsSum, Get;
  }

  lemma OneMoreSum(nodes: seq<Fetch>, i: nat, stats: map<Id, Stats>, stats': map<Id, Stats>)
    requires i < |nodes| && Aggregates(stats, nodes[..i])
    requires !nodes[i].Fetched? ==> stats' == stats
    requires nodes[i].Fetched? ==> RowsAdded(stats', stats, nodes[i].rows)
    ensures Aggregates(stats', nodes[..i + 1])
  {
    hide RowsAdded, Reported, Reports, RoundSum, RowsSum, Plus;
    forall id
      ensures id in stats' <==> Reported(nodes[..i + 1], id)
      ensures id in stats' ==> stats'[id] == RoundSum(nodes[..i + 1], id)
    {
      OneMoreReport(nodes, i, id);
      RoundSumStep(nodes, i, id);
      if !Reported(nodes[..i], id) {
        UnreportedIsZero(nodes[..i], id);
      }
      if nodes[i].Fetched? {
        AddedAt(stats', stats, nodes[i].rows, id);
      }
    }
  }

  lemma {:induction false} UnreportedRowsZero(rows: seq<Row>, id: Id)
    requires !Reports(rows, id)
    ensures RowsSum(rows, id) == ZERO
  {
    if rows != [] {
      OneMoreRow(rows, |rows| - 1, id);
      assert rows[..|rows|] == rows;
      UnreportedRowsZero(rows[..|rows| - 1], id);
    }
  }

  lemma {:induction false} UnreportedIsZero(nodes: seq<Fetch>, id: Id)
    requires !Reported(nodes, id)
    ensures RoundSum(nodes, id) == ZERO
  {
    if nodes != [] {
      var n := |nodes| - 1;
      assert forall j :: 0 <= j < n ==> nodes[..n][j] == nodes[j];
      UnreportedIsZero(nodes[..n], id);
      if nodes[n].Fetched? {
        UnreportedRowsZero(nodes[n].rows, id);
      }
    }
  }

  // ---- The cache ----

  datatype Status = Initializing | WaitingForHealth | NoNodesConfigured | Ok | Stale | Partial | PartialStale
                  | AllFailed | FailedNoSnapshot | Disabled

  /** One refresh round: its time and the answers of the nodes configured then. */
  datatype Round = Round(now: nat, nodes: seq<Fetch>)

  /** Time 0 stands for "never". The snapshot's base outcome is None before there is one. */
  datatype State = State(stats: map<Id, Stats>, counts: Counts, status: Status, lastAttempt: nat, lastSnapshot: nat,
                         lastFull: nat,
                         failRounds: nat, base: Option<Status>)

  const INITIAL := State(map[], Counts(0, 0, 0, 0, 0, 0, 0), Initializing, 0, 0, 0, 0, None)

  predicate AnySuccess(nodes: seq<Fetch>) { exists i :: 0 <= i < |nodes| && nodes[i].Fetched? }

  predicate AllSuccess(nodes: seq<Fetch>) { forall i :: 0 <= i < |nodes| ==> nodes[i].Fetched? }

  predicate AllWarming(nodes: seq<Fetch>) { forall i :: 0 <= i < |nodes| ==> nodes[i].Unknown? || nodes[i].Syncing? }

  /** deriveBaseStatus, by the counters. */
  function DeriveBaseStatus(disabled: bool, c: Counts, lastAttempt: nat, lastSnapshot: nat): Status {
    var warming := c.unknown + c.syncing;
    var absent := c.failed + c.offline;
    if disabled then Disabled
    else if c.configured == 0 then NoNodesConfigured
    else if lastAttempt == 0 then Initializing
    else if warming == c.configured && lastSnapshot == 0 then WaitingForHealth
    else if absent + warming == c.configured then (if lastSnapshot == 0 then FailedNoSnapshot else AllFailed)
    else if absent + warming > 0 then Partial
    else Ok
  }

  /** deriveStatus */
  function DeriveStatus(now: nat, base: Status, lastSnapshot: nat, threshold: nat): Status {
    var stale := lastSnapshot != 0 && now - lastSnapshot > threshold;
    if base == Ok && stale then Stale else if base == Partial && stale then PartialStale else base
  }

  /** statsKeyOmittedForStatus */
  predicate StatsKeyOmitted(status: Status) {
    status in {Initializing, WaitingForHealth, NoNodesConfigured, FailedNoSnapshot, Disabled}
  }

  /** resolveRuleStats */
  function ResolveRuleStats(status: Status, base: Option<Status>, cached: Stats, hadEntry: bool): Option<Stats> {
    if status == Ok then Some(cached)
    else if !hadEntry then None
    else if base == Some(Ok) then Some(cached)
    else if cached == ZERO then None
    else Some(cached)
  }

  class StatsCache {
    const disabled: bool
    var state: State

    constructor (disabled: bool)
      ensures this.disabled == disabled && Explained(disabled, state, [])
    {
      this.disabled := disabled;
      state := if disabled then INITIAL.(status := Disabled) else INITIAL;
    }

    /** refresh: one round, whose outcome replaces the state. */
    method Refresh(now: nat, nodes: seq<Fetch>, ghost history: seq<Round>)
      requires Explained(disabled, state, history) && 0 < now && state.lastAttempt <= now
      modifies this
      ensures Explained(disabled, state, history + [Round(now, nodes)])
    {
      hide Aggregates, Counted, LastCounted;
      var stats, c := Aggregate(nodes);
      CountedMeans(c, nodes);
      CountedLast(c, history, Round(now, nodes));
      var prev := state;
      var next := State(stats, c, prev.status, now, prev.lastSnapshot, prev.lastFull, prev.failRounds, prev.base);
      if c.succeeded > 0 {
        var fullSuccess := c.failed == 0 && c.offline == 0 && c.unknown == 0 && c.syncing == 0
                           && c.succeeded == c.configured;
        next := next.(lastSnapshot := now, base := Some(if fullSuccess then Ok else Partial));
      } else {
        next := next.(stats := prev.stats);
      }
      if c.configured > 0 && c.succeeded == c.configured && c.failed == 0 && c.offline == 0
         && c.unknown == 0 && c.syncing == 0 {
        next := next.(lastFull := now);
      }
      next := next.(failRounds := if c.configured > 0 && c.succeeded == 0 then prev.failRounds + 1 else 0);
      next := next.(status := DeriveBaseStatus(disabled, c, next.lastAttempt, next.lastSnapshot));
      state := next;
      RoundAppended(history, Round(now, nodes));
    }
  }

  lemma CountedMeans(c: Counts, nodes: seq<Fetch>)
    requires Counted(c, nodes) && c.configured == |nodes|
    ensures c.succeeded > 0 <==> AnySuccess(nodes)
    ensures c.succeeded == c.configured <==> AllSuccess(nodes)
    ensures c.unknown + c.syncing == c.configured <==> AllWarming(nodes)
    ensures c.succeeded + c.failed + c.offline + c.unknown + c.syncing == c.configured
    ensures nodes != [] && AllSuccess(nodes) ==> AnySuccess(nodes)
    ensures nodes != [] && AllWarming(nodes) ==> !AnySuccess(nodes)
  {
    if nodes != [] && AllSuccess(nodes) { assert nodes[0].Fetched?; }
  }

  // ---- What the state says about the rounds so far ----

  /** The latest round in which some node answered. */
  function LatestSnapshot(history: seq<Round>): Option<Round> {
    if history == [] then None
    else if AnySuccess(history[|history| - 1].nodes) then Some(history[|history| - 1])
    else LatestSnapshot(history[..|history| - 1])
  }

  lemma {:induction false} LatestSnapshotIs(history: seq<Round>)
    ensures LatestSnapshot(history).None? <==> forall i :: 0 <= i < |history| ==> !AnySuccess(history[i].nodes)
    ensures LatestSnapshot(history).Some? ==>
              exists i :: 0 <= i < |history| && history[i] == LatestSnapshot(history).value
                          && AnySuccess(history[i].nodes)
                          && forall j :: i < j < |history| ==> !AnySuccess(history[j].nodes)
  {
    hide AnySuccess;
    if history != [] {
      var n := |history| - 1;
      LatestSnapshotIs(history[..n]);
      assert forall i :: 0 <= i < n ==> history[..n][i] == history[i];
      if !AnySuccess(history[n].nodes) && LatestSnapshot(history).Some? {
        var i :| 0 <= i < n && history[..n][i] == LatestSnapshot(history).value && AnySuccess(history[..n][i].nodes)
                 && forall j :: i < j < n ==> !AnySuccess(history[..n][j].nodes);
        assert history[i] == LatestSnapshot(history).value;
      }
    }
  }

  /** The latest round in which there were nodes and all of them answered. */
  function LatestFull(history: seq<Round>): Option<Round> {
    if history == [] then None
    else
      var r := history[|history| - 1];
      if r.nodes != [] && AllSuccess(r.nodes) then Some(r) else LatestFull(history[..|history| - 1])
  }

  /** How many rounds at the end had nodes, none of which answered. */
  function TrailingFailures(history: seq<Round>): nat {
    if history == [] then 0
    else
      var r := history[|history| - 1];
      if r.nodes != [] && !AnySuccess(r.nodes) then TrailingFailures(history[..|history| - 1]) + 1 else 0
  }

  /** The base outcome of the last round in terms of its nodes. */
  function Outcome(disabled: bool, history: seq<Round>): Status {
    if disabled then Disabled
    else if history == [] then Initializing
    else
      var nodes := history[|history| - 1].nodes;
      if nodes == [] then NoNodesConfigured
      else if AnySuccess(nodes) then (if AllSuccess(nodes) then Ok else Partial)
      else if LatestSnapshot(history).Some? then AllFailed
      else if AllWarming(nodes) then WaitingForHealth
      else FailedNoSnapshot
  }

  function TimeOf(r: Option<Round>): nat { if r.Some? then r.value.now else 0 }

  /** The counters are those of the last round. */
  ghost predicate LastCounted(c: Counts, history: seq<Round>) {
    if history == [] then c == Counts(0, 0, 0, 0, 0, 0, 0)
    else Counted(c, history[|history| - 1].nodes) && c.configured == |history[|history| - 1].nodes|
  }

  lemma CountedLast(c: Counts, history: seq<Round>, r: Round)
    requires Counted(c, r.nodes) && c.configured == |r.nodes|
    ensures LastCounted(c, history + [r])
  {
    hide Counted;
  }

  /** The state is what the rounds explain: shown data is that of the latest round with an answer,
      tagged with whether all nodes answered then, and the times and the counter are those of
      the rounds they are named after. */
  ghost predicate Explained(disabled: bool, s: State, history: seq<Round>) {
    && (forall i :: 0 <= i < |history| ==> 0 < history[i].now <= s.lastAttempt)
    && s.lastAttempt == (if history == [] then 0 else history[|history| - 1].now)
    && s.lastSnapshot == TimeOf(LatestSnapshot(history)) && s.lastFull == TimeOf(LatestFull(history))
    && s.lastFull <= s.lastSnapshot <= s.lastAttempt
    && s.failRounds == TrailingFailures(history)
    && LastCounted(s.counts, history)
    && s.status == Outcome(disabled, history)
    && (match LatestSnapshot(history)
        case None => s.stats == map[] && s.base == None
        case Some(r) =>
          Aggregates(s.stats, r.nodes) && s.base == Some(if AllSuccess(r.nodes) then Ok else Partial) && 0 < r.now)
  }

  lemma RoundAppended(history: seq<Round>, r: Round)
    ensures var h := history + [r];
            && LatestSnapshot(h) == (if AnySuccess(r.nodes) then Some(r) else LatestSnapshot(history))
            && LatestFull(h) == (if r.nodes != [] && AllSuccess(r.nodes) then Some(r) else LatestFull(history))
            && TrailingFailures(h) ==
               (if r.nodes != [] && !AnySuccess(r.nodes) then TrailingFailures(history) + 1 else 0)
            && h[|h| - 1] == r && forall i :: 0 <= i < |history| ==> h[i] == history[i]
  {
    assert (history + [r])[..|history|] == history;
  }

  /** What is shown for a rule is its sum over the answers of the latest round that had any. */
  lemma ShownIsLatest(disabled: bool, s: State, history: seq<Round>, now: nat, threshold: nat, id: Id)
    requires Explained(disabled, s, history)
    requires var status := DeriveStatus(now, s.status, s.lastSnapshot, threshold);
             !StatsKeyOmitted(status) && ResolveRuleStats(status, s.base, Get(s.stats, id), id in s.stats).Some?
    ensures LatestSnapshot(history).Some?
    ensures var status := DeriveStatus(now, s.status, s.lastSnapshot, threshold);
            ResolveRuleStats(status, s.base, Get(s.stats, id), id in s.stats).value ==
            RoundSum(LatestSnapshot(history).value.nodes, id)
  {
    if LatestSnapshot(history).Some? && id !in s.stats {
      UnreportedIsZero(LatestSnapshot(history).value.nodes, id);
    }
  }

  /** The last round had nodes and was not too long ago, in the clock's units. */
  predicate Fresh(history: seq<Round>, now: nat, threshold: nat) {
    history != [] && now <= history[|history| - 1].now + threshold
  }

  predicate LastAll(history: seq<Round>) {
    history != [] && history[|history| - 1].nodes != [] && AllSuccess(history[|history| - 1].nodes)
  }

  predicate LastSome(history: seq<Round>) {
    history != [] && AnySuccess(history[|history| - 1].nodes) && !AllSuccess(history[|history| - 1].nodes)
  }

  /** When the status is one of the four that tell full from partial and fresh from stale. */
  lemma StatusIff(disabled: bool, s: State, history: seq<Round>, now: nat, threshold: nat)
    requires Explained(disabled, s, history)
    ensures var status := DeriveStatus(now, s.status, s.lastSnapshot, threshold);
            && (status == Ok <==> !disabled && LastAll(history) && Fresh(history, now, threshold))
            && (status == Stale <==> !disabled && LastAll(history) && !Fresh(history, now, threshold))
            && (status == Partial <==> !disabled && LastSome(history) && Fresh(history, now, threshold))
            && (status == PartialStale <==> !disabled && LastSome(history) && !Fresh(history, now, threshold))
            && (StatsKeyOmitted(status) <==>
                || disabled || LatestSnapshot(history).None?
                || history[|history| - 1].nodes == [])
  {
    hide Aggregates, LastCounted, LatestFull, TrailingFailures;
    if history != [] {
      var nodes := history[|history| - 1].nodes;
      if nodes != [] && AllSuccess(nodes) {
        assert nodes[0].Fetched?;
      }
    }
  }

  /** What the list of rules shows for one of them, if anything. */
  function Shown(s: State, now: nat, threshold: nat, id: Id): Option<Stats> {
    var status := DeriveStatus(now, s.status, s.lastSnapshot, threshold);
    if StatsKeyOmitted(status) then None
    else ResolveRuleStats(status, s.base, Get(s.stats, id), id in s.stats)
  }

  /** Exactly when a rule's numbers are shown. If all nodes answered in the last round, which is
      fresh, always, reported or not. Otherwise the latest round with an answer must have
      reported the rule, and its sum must not be a zero that a silent node might belie; and never
      with the cache disabled, before any answer, or while there are no nodes. */
  lemma ShownIff(disabled: bool, s: State, history: seq<Round>, now: nat, threshold: nat, id: Id)
    requires Explained(disabled, s, history)
    ensures Shown(s, now, threshold, id).Some? <==>
            && !disabled && LatestSnapshot(history).Some? && history[|history| - 1].nodes != []
            && var nodes := LatestSnapshot(history).value.nodes;
               || (LastAll(history) && Fresh(history, now, threshold))
               || (Reported(nodes, id) && (AllSuccess(nodes) || RoundSum(nodes, id) != ZERO))
    ensures Shown(s, now, threshold, id).Some? ==>
              Shown(s, now, threshold, id).value == RoundSum(LatestSnapshot(history).value.nodes, id)
  {
    hide Outcome, LastCounted, LatestFull, LatestSnapshot, TrailingFailures, DeriveStatus, RoundSum, Reported, Fresh,
         LastAll, LastSome;
    StatusIff(disabled, s, history, now, threshold);
    LastIsSnapshot(history);
    if LatestSnapshot(history).Some? && id !in s.stats {
      UnreportedIsZero(LatestSnapshot(history).value.nodes, id);
    }
  }

  lemma LastIsSnapshot(history: seq<Round>)
    ensures LastAll(history) ==> LatestSnapshot(history) == Some(history[|history| - 1])
    ensures LatestSnapshot(history).Some? ==> history != []
    ensures LastAll(history) ==> AllSuccess(history[|history| - 1].nodes)
  {
    if LastAll(history) {
      assert history[|history| - 1].nodes[0].Fetched?;
    }
  }

  /** A zero that is shown is a fact: every node configured in that round answered, and none had
      a hit for the rule to report. */
  lemma ShownZeroIsCertain(disabled: bool, s: State, history: seq<Round>, now: nat, threshold: nat, id: Id)
    requires Explained(disabled, s, history)
    requires var status := DeriveStatus(now, s.status, s.lastSnapshot, threshold);
             !StatsKeyOmitted(status) && ResolveRuleStats(status, s.base, Get(s.stats, id), id in s.stats) == Some(ZERO)
    ensures LatestSnapshot(history).Some? && AllSuccess(LatestSnapshot(history).value.nodes)
    ensures RoundSum(LatestSnapshot(history).value.nodes, id) == ZERO
  {
    ShownIsLatest(disabled, s, history, now, threshold, id);
  }

  /** Any rounds under a clock that does not run backwards. */
  method Rounds(c: StatsCache, rounds: seq<Round>)
    requires c.state.lastAttempt == 0 && Explained(c.disabled, c.state, [])
    requires forall i :: 0 <= i < |rounds| ==> 0 < rounds[i].now
    requires forall i, j :: 0 <= i < j < |rounds| ==> rounds[i].now <= rounds[j].now
    modifies c
    ensures Explained(c.disabled, c.state, rounds)
  {
    hide Explained;
    for i := 0 to |rounds|
      invariant Explained(c.disabled, c.state, rounds[..i])
    {
      assert rounds[..i + 1] == rounds[..i] + [rounds[i]];
      LastAttemptOf(c.disabled, c.state, rounds[..i]);
      c.Refresh(rounds[i].now, rounds[i].nodes, rounds[..i]);
    }
    assert rounds[..|rounds|] == rounds;
  }

  lemma LastAttemptOf(disabled: bool, s: State, history: seq<Round>)
    requires Explained(disabled, s, history)
    ensures s.lastAttempt == if history == [] then 0 else history[|history| - 1].now
  {
  }
}
