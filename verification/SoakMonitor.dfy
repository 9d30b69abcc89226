/**
 The soak monitor: it polls a list of nodes until their parity sample has held for a given time,
 and its exit code is a claim about the polls it has made.
 */
module SoakMonitor {
  import opened Types

  /** What one node answered; an error means that it could not be reached. */
  datatype Row = Row(rpc: string, sampleOk: bool, error: Option<string>)

  datatype Summary = Summary(
    nodes: nat,
    reachable: nat,
    sampleOk: nat,
    sampleOkNodes: seq<string>,
    allSampleOk: bool,
    errors: seq<(string, string)>)

  function Reachable(rows: seq<Row>): seq<Row> {
    if rows == [] then []
    else (if rows[0].error.None? then [rows[0]] else []) + Reachable(rows[1..])
  }

  function SampleOkNodes(rows: seq<Row>): seq<string> {
    if rows == [] then []
    else (if rows[0].sampleOk then [rows[0].rpc] else []) + SampleOkNodes(rows[1..])
  }

  function Errors(rows: seq<Row>): seq<(string, string)> {
    if rows == [] then []
    else (if rows[0].error.Some? then [(rows[0].rpc, rows[0].error.value)] else []) + Errors(rows[1..])
  }

  function Aggregate(rows: seq<Row>): Summary {
    var reachable := Reachable(rows);
    var ok := SampleOkNodes(reachable);
    Summary(|rows|, |reachable|, |ok|, ok, |reachable| > 0 && |ok| == |reachable|, Errors(rows))
  }

  ghost predicate Answered(row: Row) {
    row.error.None?
  }

  ghost predicate Good(row: Row) {
    row.error.None? && row.sampleOk
  }

  lemma {:induction false} ReachableMeans(rows: seq<Row>)
    ensures forall r :: r in Reachable(rows) <==> r in rows && Answered(r)
    ensures |Errors(rows)| + |Reachable(rows)| == |rows|
    ensures |Errors(rows)| == 0 <==> forall r :: r in rows ==> Answered(r)
    decreases |rows|
  {
    if rows == [] {
    } else {
      ReachableMeans(rows[1..]);
      assert rows == [rows[0]] + rows[1..];
      assert forall r :: r in rows <==> r == rows[0] || r in rows[1..];
      if rows[0].error.Some? {
        assert !Answered(rows[0]) && rows[0] in rows;
      } else {
        assert Errors(rows) == Errors(rows[1..]);
      }
    }
  }

  lemma {:induction false} SampleOkMeans(rows: seq<Row>)
    ensures |SampleOkNodes(rows)| <= |rows|
    ensures |SampleOkNodes(rows)| > 0 <==> exists r :: r in rows && r.sampleOk
    ensures |SampleOkNodes(rows)| == |rows| <==> forall r :: r in rows ==> r.sampleOk
    decreases |rows|
  {
    if rows == [] {
    } else {
      SampleOkMeans(rows[1..]);
      assert rows == [rows[0]] + rows[1..];
      assert forall r :: r in rows <==> r == rows[0] || r in rows[1..];
    }
  }

  /** The arguments of a run: --once, --require-all and --min-ok-minutes. */
  datatype Config = Config(once: bool, requireAllFlag: bool, minOkMinutes: real) {

    /** For how long the sample has to hold; zero if no window is asked for. */
    function NeedSeconds(): real {
      (if minOkMinutes > 0.0 then minOkMinutes else 0.0) * 60.0
    }
  }

  /** A window is asked for by a positive number of minutes, and a minute has sixty seconds. */
  lemma NeedSecondsMeans(cfg: Config)
    ensures cfg.NeedSeconds() > 0.0 <==> cfg.minOkMinutes > 0.0
    ensures cfg.minOkMinutes > 0.0 ==> cfg.NeedSeconds() == 60.0 * cfg.minOkMinutes
  {
  }

  /** One round over the listed nodes, and the clock after it. */
  datatype Poll = Poll(rows: seq<Row>, now: real)

  predicate RequireAll(cfg: Config, rows: seq<Row>) {
    cfg.requireAllFlag || |rows| > 1
  }

  /** The source's own test, on the summary. */
  function SummaryOk(requireAll: bool, summary: Summary): bool {
    (if requireAll then summary.allSampleOk else summary.sampleOk > 0) && summary.reachable > 0
  }

  /** What it means: some node answered well, and with requireAll none that answered did not. */
  ghost predicate QuorumOk(cfg: Config, rows: seq<Row>) {
    && (exists r :: r in rows && Good(r))
    && (RequireAll(cfg, rows) ==> forall r :: r in rows && Answered(r) ==> Good(r))
  }

  ghost predicate HasError(rows: seq<Row>) {
    exists r :: r in rows && !Answered(r)
  }

  lemma SummaryOkMeans(cfg: Config, rows: seq<Row>)
    ensures SummaryOk(RequireAll(cfg, rows), Aggregate(rows)) <==> QuorumOk(cfg, rows)
    ensures Aggregate(rows).errors != [] <==> HasError(rows)
  {
    ReachableMeans(rows);
    SampleOkMeans(Reachable(rows));
    if Reachable(rows) != [] {
      assert Reachable(rows)[0] in Reachable(rows);
    }
  }

  // Windows of good polls

  /** This poll starts the window over: a required node could not be reached. */
  ghost predicate Restarts(cfg: Config, poll: Poll) {
    HasError(poll.rows) && cfg.minOkMinutes > 0.0 && RequireAll(cfg, poll.rows)
  }

  /** Polls s to k were all quorum-ok, and none after the first of them restarted the window. */
  ghost predicate Window(cfg: Config, polls: seq<Poll>, s: nat, k: nat) {
    && s <= k < |polls|
    && (forall i :: s <= i <= k ==> QuorumOk(cfg, polls[i].rows))
    && (forall i :: s < i <= k ==> !Restarts(cfg, polls[i]))
  }

  /** Where the window that ends at poll k opened. */
  ghost function Opened(cfg: Config, polls: seq<Poll>, k: nat): (o: Option<nat>)
    requires k < |polls|
    ensures o.Some? ==> o.value <= k
  {
    if !QuorumOk(cfg, polls[k].rows) then None
    else if k == 0 || Restarts(cfg, polls[k]) || Opened(cfg, polls, k - 1).None? then Some(k)
    else Opened(cfg, polls, k - 1)
  }

  /** The window opened as early as any window that ends there. */
  lemma {:induction false} OpenedIsEarliest(cfg: Config, polls: seq<Poll>, k: nat)
    requires k < |polls|
    ensures var o := Opened(cfg, polls, k);
            && (o.Some? ==> Window(cfg, polls, o.value, k))
            && forall s: nat :: Window(cfg, polls, s, k) ==> o.Some? && o.value <= s
  {
    if k == 0 {
    } else {
      OpenedIsEarliest(cfg, polls, k - 1);
      forall s: nat | Window(cfg, polls, s, k)
        ensures Opened(cfg, polls, k).Some? && Opened(cfg, polls, k).value <= s
      {
        if s < k {
          assert Window(cfg, polls, s, k - 1);
        }
      }
    }
  }

  /** At poll k the window has held for the asked minutes. */
  ghost predicate Held(cfg: Config, polls: seq<Poll>, k: nat)
    requires k < |polls|
  {
    && cfg.minOkMinutes > 0.0 && Opened(cfg, polls, k).Some?
    && polls[k].now - polls[Opened(cfg, polls, k).value].now >= 60.0 * cfg.minOkMinutes
  }

  /** What the loop remembers before poll k: when its window opened. */
  ghost function Since(cfg: Config, polls: seq<Poll>, k: nat): Option<real>
    requires k <= |polls|
  {
    if k == 0 then None
    else match Opened(cfg, polls, k - 1)
      case None => None
      case Some(s) => Some(polls[s].now)
  }

  lemma SinceStep(cfg: Config, polls: seq<Poll>, k: nat)
    requires k < |polls|
    ensures var before, after := Since(cfg, polls, k), Since(cfg, polls, k + 1);
            && after == (if !QuorumOk(cfg, polls[k].rows) then None
                         else if Restarts(cfg, polls[k]) || before.None? then Some(polls[k].now)
                         else before)
            && (Held(cfg, polls, k) <==> cfg.NeedSeconds() > 0.0 && after.Some?
                                         && polls[k].now - after.value >= cfg.NeedSeconds())
  {
    NeedSecondsMeans(cfg);
  }

  datatype Outcome = Running | Exit(code: int, at: nat)

  /** Without --once: leaves with 0 at the first poll where the window has held. */
  ghost predicate WaitsForWindow(cfg: Config, polls: seq<Poll>, r: Outcome) {
    match r
    case Running => forall k: nat :: k < |polls| ==> !Held(cfg, polls, k)
    case Exit(code, at) =>
      && code == 0 && at < |polls| && Held(cfg, polls, at)
      && forall k: nat :: k < at ==> !Held(cfg, polls, k)
  }

  /** With --once: decides on the first poll. */
  ghost predicate DecidesAtOnce(polls: seq<Poll>, r: Outcome) {
    if polls == [] then r == Running
    else
      var rows := polls[0].rows;
      r == Exit(if HasError(rows) then 1 else if forall row :: row in rows ==> Good(row) then 0 else 2, 0)
  }

  ghost predicate ClockNeverBack(polls: seq<Poll>) {
    forall i, j :: 0 <= i <= j < |polls| ==> polls[i].now <= polls[j].now
  }

  /** A window that ends at poll k spans the asked minutes. */
  ghost predicate LongWindow(cfg: Config, polls: seq<Poll>, k: nat) {
    && cfg.minOkMinutes > 0.0
    && exists s: nat :: Window(cfg, polls, s, k) && polls[k].now - polls[s].now >= 60.0 * cfg.minOkMinutes
  }

  /**
   Where the clock never goes back, the monitor has what it waits for at poll k exactly when some
   window that ends there spans the asked minutes.
   */
  lemma HeldIff(cfg: Config, polls: seq<Poll>, k: nat)
    requires k < |polls| && ClockNeverBack(polls)
    ensures Held(cfg, polls, k) <==> LongWindow(cfg, polls, k)
  {
    OpenedIsEarliest(cfg, polls, k);
  }

  /** Leaves with 0 at the first poll that ends a long enough window, and not before. */
  ghost predicate LeavesInTime(cfg: Config, polls: seq<Poll>, r: Outcome) {
    match r
    case Running => forall k: nat :: k < |polls| ==> !LongWindow(cfg, polls, k)
    case Exit(code, at) =>
      && code == 0 && at < |polls| && LongWindow(cfg, polls, at)
      && forall k: nat :: k < at ==> !LongWindow(cfg, polls, k)
  }

  lemma WaitsIsInTime(cfg: Config, polls: seq<Poll>)
    ensures ClockNeverBack(polls) ==>
              forall r :: WaitsForWindow(cfg, polls, r) ==> LeavesInTime(cfg, polls, r)
  {
    if ClockNeverBack(polls) {
      forall k: nat | k < |polls|
        ensures Held(cfg, polls, k) <==> LongWindow(cfg, polls, k)
      {
        HeldIff(cfg, polls, k);
      }
    }
  }

  lemma OnceMeans(cfg: Config, rows: seq<Row>)
    requires rows != [] && !HasError(rows)
    ensures QuorumOk(cfg, rows) <==> forall row :: row in rows ==> Good(row)
  {
    assert forall row :: row in rows ==> Answered(row);
    if |rows| == 1 {
      assert forall row :: row in rows ==> row == rows[0];
    }
    assert rows[0] in rows;
  }

  /** The polling loop, over the polls made so far; at least one node is listed. */
  method Monitor(cfg: Config, polls: seq<Poll>) returns (r: Outcome)
    requires forall k :: 0 <= k < |polls| ==> polls[k].rows != []
    ensures cfg.once ==> DecidesAtOnce(polls, r)
    ensures !cfg.once ==> WaitsForWindow(cfg, polls, r)
    ensures !cfg.once && ClockNeverBack(polls) ==> LeavesInTime(cfg, polls, r)
    ensures !cfg.once && cfg.minOkMinutes <= 0.0 ==> r == Running
  {
    NeedSecondsMeans(cfg);
    WaitsIsInTime(cfg, polls);
    var okSince: Option<real> := None;
    var needSeconds := cfg.NeedSeconds();
    for k := 0 to |polls|
      invariant cfg.once ==> k == 0
      invariant okSince == Since(cfg, polls, k)
      invariant forall j: nat :: j < k ==> !Held(cfg, polls, j)
    {
      var rows, now := polls[k].rows, polls[k].now;
      var requireAll := RequireAll(cfg, rows);
      var summary := Aggregate(rows);
      SummaryOkMeans(cfg, rows);
      if summary.errors != [] && (cfg.once || needSeconds > 0.0) {
        if requireAll || cfg.once {
          if cfg.once {
            return Exit(1, k);
          }
          okSince := None;
        }
      }
      var quorumOk := SummaryOk(requireAll, summary);
      if cfg.once {
        OnceMeans(cfg, rows);
        return Exit(if quorumOk then 0 else 2, k);
      }
      SinceStep(cfg, polls, k);
      if quorumOk {
        if okSince.None? {
          okSince := Some(now);
        }
        var held := now - okSince.value;
        if needSeconds > 0.0 && held >= needSeconds {
          return Exit(0, k);
        }
      } else {
        okSince := None;
      }
    }
    return Running;
  }

  // What an exit code 0 means

  /** The listed nodes all answered, and all well. */
  ghost predicate AllGood(rows: seq<Row>) {
    forall row :: row in rows ==> Good(row)
  }

  lemma AllGoodIff(cfg: Config, rows: seq<Row>)
    requires rows != []
    ensures AllGood(rows) <==> QuorumOk(cfg, rows) && !HasError(rows)
    ensures !RequireAll(cfg, rows) && QuorumOk(cfg, rows) ==> !HasError(rows)
  {
    assert rows[0] in rows;
    if |rows| == 1 {
      assert forall row :: row in rows ==> row == rows[0];
    }
  }

  /** In every poll of a window after its first all nodes were good. */
  lemma WindowReachesAll(cfg: Config, polls: seq<Poll>, s: nat, k: nat)
    requires Window(cfg, polls, s, k) && cfg.minOkMinutes > 0.0
    requires forall i :: 0 <= i < |polls| ==> polls[i].rows != []
    ensures forall i :: s < i <= k ==> AllGood(polls[i].rows)
    ensures AllGood(polls[s].rows) <==> !HasError(polls[s].rows)
  {
    forall i | s <= i <= k
      ensures i > s ==> AllGood(polls[i].rows)
      ensures AllGood(polls[i].rows) <==> !HasError(polls[i].rows)
    {
      AllGoodIff(cfg, polls[i].rows);
      assert QuorumOk(cfg, polls[i].rows);
    }
  }

  ghost predicate GoodThroughout(polls: seq<Poll>, s: nat, k: nat) {
    s <= k < |polls| && forall i :: s <= i <= k ==> AllGood(polls[i].rows)
  }

  /** What --min-ok-minutes is documented to wait for: all nodes stayed good for that long. */
  ghost predicate StayedGood(cfg: Config, polls: seq<Poll>, k: nat)
    requires k < |polls|
  {
    exists s: nat :: GoodThroughout(polls, s, k) && polls[k].now - polls[s].now >= 60.0 * cfg.minOkMinutes
  }

  lemma GoodThroughoutIsWindow(cfg: Config, polls: seq<Poll>, s: nat, k: nat)
    requires GoodThroughout(polls, s, k)
    requires forall i :: 0 <= i < |polls| ==> polls[i].rows != []
    ensures Window(cfg, polls, s, k)
  {
    forall i | s <= i <= k
      ensures QuorumOk(cfg, polls[i].rows) && !HasError(polls[i].rows)
    {
      AllGoodIff(cfg, polls[i].rows);
    }
  }

  /**
   When the monitor leaves, all listed nodes have stayed good for the asked time exactly when the
   poll that opened its window missed none, or the polls after that one already span the time.
   */
  lemma StayedGoodIff(cfg: Config, polls: seq<Poll>, k: nat)
    requires k < |polls| && ClockNeverBack(polls) && Held(cfg, polls, k)
    requires forall i :: 0 <= i < |polls| ==> polls[i].rows != []
    ensures var o := Opened(cfg, polls, k).value;
            StayedGood(cfg, polls, k) <==>
            || !HasError(polls[o].rows)
            || (o < k && polls[k].now - polls[o + 1].now >= 60.0 * cfg.minOkMinutes)
  {
    var o := Opened(cfg, polls, k).value;
    OpenedIsEarliest(cfg, polls, k);
    WindowReachesAll(cfg, polls, o, k);
    if !HasError(polls[o].rows) {
      assert GoodThroughout(polls, o, k);
    } else if o < k && polls[k].now - polls[o + 1].now >= 60.0 * cfg.minOkMinutes {
      assert GoodThroughout(polls, o + 1, k);
    }
    forall s: nat | GoodThroughout(polls, s, k)
      ensures o < s || (s == o && !HasError(polls[o].rows))
    {
      GoodThroughoutIsWindow(cfg, polls, s, k);
      AllGoodIff(cfg, polls[s].rows);
    }
  }

  /** So the monitor may leave too early: of two nodes one is down at first and up a minute later,
      a window of a minute has held, and the two were never both good for a minute. */
  lemma MayLeaveTooEarly()
    ensures var cfg := Config(false, true, 1.0);
            var up, down := Row("a:1", true, None), Row("b:1", false, Some("refused"));
            var polls := [Poll([up, down], 0.0), Poll([up, Row("b:1", true, None)], 60.0)];
            Held(cfg, polls, 1) && !StayedGood(cfg, polls, 1)
  {
    var cfg := Config(false, true, 1.0);
    var up, down := Row("a:1", true, None), Row("b:1", false, Some("refused"));
    var back := Row("b:1", true, None);
    var polls := [Poll([up, down], 0.0), Poll([up, back], 60.0)];
    assert down in polls[0].rows && !Answered(down);
    assert up in polls[0].rows && Good(up);
    assert up in polls[1].rows && Good(up);
    assert QuorumOk(cfg, polls[0].rows) && QuorumOk(cfg, polls[1].rows);
    assert !HasError(polls[1].rows);
    assert Opened(cfg, polls, 0) == Some(0);
    assert Opened(cfg, polls, 1) == Some(0);
    StayedGoodIff(cfg, polls, 1);
  }

  // Progress

  /** From poll `from` on every poll is good and the clock advances by the interval each time. */
  ghost predicate Steady(cfg: Config, polls: seq<Poll>, from: nat, interval: real) {
    && (forall i :: from <= i < |polls| ==> QuorumOk(cfg, polls[i].rows) && !HasError(polls[i].rows))
    && (forall i :: from < i < |polls| ==> polls[i].now - polls[i - 1].now >= interval)
  }

  lemma {:induction false} SteadyClock(cfg: Config, polls: seq<Poll>, from: nat, interval: real, n: nat)
    requires interval > 0.0 && Steady(cfg, polls, from, interval) && from + n < |polls|
    ensures polls[from + n].now - polls[from].now >= interval * n as real
  {
    if n == 0 {
    } else {
      SteadyClock(cfg, polls, from, interval, n - 1);
      assert polls[from + n].now - polls[from + n - 1].now >= interval;
      assert interval * n as real == interval * (n - 1) as real + interval;
    }
  }

  /** Once good polls keep coming, the monitor leaves with 0 as soon as enough of them span the
      needed time: at the latest after n polls, where n intervals are that long. */
  lemma SteadyRunsLeave(cfg: Config, polls: seq<Poll>, from: nat, interval: real, n: nat, r: Outcome)
    requires cfg.minOkMinutes > 0.0 && interval > 0.0 && ClockNeverBack(polls)
    requires Steady(cfg, polls, from, interval) && from + n < |polls|
    requires interval * n as real >= 60.0 * cfg.minOkMinutes
    requires WaitsForWindow(cfg, polls, r)
    ensures r.Exit? && r.code == 0 && r.at <= from + n
  {
    SteadyClock(cfg, polls, from, interval, n);
    forall i | from < i <= from + n
      ensures !Restarts(cfg, polls[i])
    {
      assert !HasError(polls[i].rows);
    }
    assert Window(cfg, polls, from, from + n);
    HeldIff(cfg, polls, from + n);
  }
}
