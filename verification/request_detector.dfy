/** Per-client request scoring over a sliding event-time window. */
module RequestDetector {
  import opened Options
  import opened Collections
  import opened Windows
  import Cooldown
  import LruTable
  import Recency
  import opened WindowTables

  const CORROBORATION_BONUS := 10
  const FLOOD_POINTS := 40

  datatype RuleMatch = RuleMatch(ruleId: string, kind: string, weight: int)

  /** The fields of a request the detector reads, with the rules it matched. */
  datatype Event = Event(
    clientKey: LruTable.Key, millis: Long, path: string, status: int, matches: seq<RuleMatch>)
  {
    function Second(): int { WholeSeconds(millis) }
  }

  /** `isStatic` stands for the STATIC_ASSET pattern: every result below holds for any such pattern. */
  datatype Config = Config(
    isStatic: string -> bool, windowSeconds: nat,
    requestThreshold: int, errorThreshold: int, distinctPathThreshold: int,
    alertThreshold: int, cooldownSeconds: nat, maxTrackedClients: nat, floodThreshold: int)
  {
    function Width(): nat { windowSeconds * 1000 }

    /** Static assets count as requests, but neither as errors nor as paths. */
    function SampleOf(e: Event): Sample {
      Sample(e.millis, if isStatic(e.path) then None else Some(e.path), e.status >= 400)
    }

    function Limits(): LruTable.Limits { LruTable.Limits(maxTrackedClients, windowSeconds * 2000) }
  }

  datatype Failure = FutureSkew

  /** The source's reason strings: late_event_outside_window, request_burst and so on. */
  datatype Reason = LateEventOutsideWindow | RequestBurst | RequestFlood | HttpErrorBurst | PathScan

  datatype DetectionResult = DetectionResult(
    score: int, alert: bool, suppressed: bool, kinds: set<string>, matches: seq<RuleMatch>,
    reasons: seq<Reason>, requests: int, errors: int, distinctPaths: int)

  // ------------------------------------------------------------ specification

  function Samples(c: Config, trace: seq<Event>): seq<Sample> { Mapped(c.SampleOf, trace) }

  /** Everything the score depends on, recounted from the client's whole history. */
  function Recounted(c: Config, trace: seq<Event>, q: Quantity): nat {
    var latest := Latest(Samples(c, trace));
    Recount(Samples(c, trace), q, latest - c.Width(), latest)
  }

  function DistinctPaths(c: Config, trace: seq<Event>): nat {
    var latest := Latest(Samples(c, trace));
    |Distinct(Samples(c, trace), latest - c.Width(), latest)|
  }

  predicate Late(c: Config, trace: seq<Event>)
    requires trace != []
  {
    trace[|trace| - 1].millis <= Latest(Samples(c, trace)) - c.Width()
  }

  function MaxWeight(matches: seq<RuleMatch>): int {
    if matches == [] then 0
    else Max(MaxWeight(matches[..|matches| - 1]), matches[|matches| - 1].weight)
  }

  function Points(condition: bool, points: int): int { if condition then points else 0 }

  function If(condition: bool, reason: Reason): seq<Reason> { if condition then [reason] else [] }

  function Score(c: Config, matches: seq<RuleMatch>, requests: int, errors: int, paths: int): int {
    var total :=
      MaxWeight(matches)
      + (if |matches| > 1 then CORROBORATION_BONUS * (|matches| - 1) else 0)
      + Points(requests >= c.requestThreshold, 30)
      + Points(requests >= c.floodThreshold, FLOOD_POINTS)
      + Points(errors >= c.errorThreshold, 25)
      + Points(paths >= c.distinctPathThreshold, 25);
    if total < 100 then total else 100
  }

  function Reasons(c: Config, late: bool, requests: int, errors: int, paths: int): seq<Reason> {
    If(late, LateEventOutsideWindow)
    + If(requests >= c.requestThreshold, RequestBurst)
    + If(requests >= c.floodThreshold, RequestFlood)
    + If(errors >= c.errorThreshold, HttpErrorBurst)
    + If(paths >= c.distinctPathThreshold, PathScan)
  }

  function ScoreOf(c: Config, trace: seq<Event>): int
    requires trace != []
  {
    Score(c, trace[|trace| - 1].matches, Recounted(c, trace, Requests), Recounted(c, trace, Errors),
          DistinctPaths(c, trace))
  }

  /** The last request of a client's history as an attempt to alert. */
  function AsAttempt(c: Config): seq<Event> -> Cooldown.Attempt {
    (trace: seq<Event>) =>
      if trace == [] then Cooldown.Attempt(0, false)
      else Cooldown.Attempt(trace[|trace| - 1].Second(), ScoreOf(c, trace) >= c.alertThreshold)
  }

  function LastAlert(c: Config, trace: seq<Event>): Option<int> {
    Cooldown.LastAlert(Cooldown.Judged(AsAttempt(c), trace), c.cooldownSeconds)
  }

  /** The result for the last event of one client's history: nothing else enters it. */
  function Outcome(c: Config, trace: seq<Event>): DetectionResult
    requires trace != []
  {
    var e := trace[|trace| - 1];
    var requests, errors, paths := Recounted(c, trace, Requests), Recounted(c, trace, Errors), DistinctPaths(c, trace);
    var score := ScoreOf(c, trace);
    var qualifies := score >= c.alertThreshold;
    var alert := Cooldown.Fires(LastAlert(c, trace[..|trace| - 1]),
                                Cooldown.Attempt(e.Second(), qualifies), c.cooldownSeconds);
    DetectionResult(score, alert, qualifies && !alert, set m | m in e.matches :: m.kind, e.matches,
                    Reasons(c, Late(c, trace), requests, errors, paths), requests, errors, paths)
  }

  lemma {:induction false} SecondsAreNotSentinel(c: Config, trace: seq<Event>)
    ensures LastAlert(c, trace).Some? ==> LastAlert(c, trace).value > LONG_MIN
  {
    if trace != [] {
      SecondsAreNotSentinel(c, trace[..|trace| - 1]);
      var a := Cooldown.Judged(AsAttempt(c), trace);
      assert a[..|a| - 1] == Cooldown.Judged(AsAttempt(c), trace[..|trace| - 1]);
    }
  }

  // ----------------------------------------------------------- the detector

  ghost predicate Fits(c: Config, w: Window, trace: seq<Event>)
    reads w`buckets, w`items, w`latest, w`requests, w`errors, w`history
  {
    w.Valid(c.Width()) && w.history == Samples(c, trace)
  }

  ghost predicate Tracks(c: Config, w: Window, trace: seq<Event>)
    reads w
  {
    Fits(c, w, trace) && w.lastAlertSecond == Sentinel(LastAlert(c, trace))
  }

  lemma LastSample(c: Config, trace: seq<Event>, e: Event)
    ensures Samples(c, trace + [e]) == Samples(c, trace) + [c.SampleOf(e)]
  {
    assert (trace + [e])[..|trace|] == trace;
  }

  lemma NewestTime(c: Config, past: seq<Event>, e: Event)
    ensures Latest(Samples(c, past + [e])) == Max(Latest(Samples(c, past)), e.millis)
  {
    LastSample(c, past, e);
    LatestAppended(Samples(c, past), c.SampleOf(e));
  }

  lemma BlankTracks(c: Config, w: Window)
    requires w.Blank()
    ensures Tracks(c, w, [])
  {
  }

  /** The aggregates of a window that fits a history are what the outcome recounts. */
  lemma Aggregates(c: Config, w: Window, trace: seq<Event>)
    requires Fits(c, w, trace)
    ensures w.requests == Recounted(c, trace, Requests) && w.errors == Recounted(c, trace, Errors)
    ensures |w.items| == DistinctPaths(c, trace)
  {
    CountsDistinct(w.items, w.history, w.latest - c.Width(), w.latest);
  }

  lemma NextAlert(c: Config, past: seq<Event>, e: Event)
    ensures var trace := past + [e];
            var x := Cooldown.Attempt(e.Second(), ScoreOf(c, trace) >= c.alertThreshold);
            LastAlert(c, trace) == if Cooldown.Fires(LastAlert(c, past), x, c.cooldownSeconds) then Some(e.Second())
                                   else LastAlert(c, past)
  {
    var trace := past + [e];
    assert trace[..|past|] == past;
    var a := Cooldown.Judged(AsAttempt(c), trace);
    assert a[..|a| - 1] == Cooldown.Judged(AsAttempt(c), past);
  }

  class Detector {
    const config: Config
    const maxFutureSkewMillis: int
    const table: WindowTable<Event>

    constructor (config: Config, maxFutureSkewSeconds: int)
      requires config.maxTrackedClients >= 1
      ensures Valid() && table.calls == [] && this.config == config && fresh(table)
      ensures maxFutureSkewMillis == maxFutureSkewSeconds * 1000
    {
      this.config := config;
      maxFutureSkewMillis := maxFutureSkewSeconds * 1000;
      table := new WindowTable(config.Limits());
    }

    ghost predicate TracksAllBut(keys: set<LruTable.Key>)
      reads table`windows, table`state, table.windows.Values
    {
      forall k :: k in table.windows && k !in keys ==>
        k in table.state.traces && Tracks(config, table.windows[k], table.state.traces[k])
    }

    ghost predicate Valid()
      reads table, table.windows.Values
    {
      table.Valid() && table.limits == config.Limits() && TracksAllBut({})
    }

    /** Moves the window forward to the event and records it, unless it is late. */
    method Observe(w: Window, event: Event, now: int, ghost past: seq<Event>) returns (late: bool)
      requires Fits(config, w, past)
      modifies w
      ensures Fits(config, w, past + [event]) && late == Late(config, past + [event])
      ensures w.lastProcessedMillis == now && w.lastAlertSecond == old(w.lastAlertSecond)
    {
      var sample := config.SampleOf(event);
      LastSample(config, past, event);
      assert sample.time == event.millis;
      hide Samples, Latest, Window.Valid, Window.Moved, Config.SampleOf;
      w.lastProcessedMillis := now;
      w.MoveTo(event.millis, config.Width());
      var cutoff := w.latest - config.windowSeconds * 1000;
      late := event.millis <= cutoff;
      if !late { w.Add(sample, config.Width()); } else { w.Ignore(sample, config.Width()); }
      NewestTime(config, past, event);
    }

    /** Scores the event from the window's aggregates and applies the alert cooldown. */
    method Judge(w: Window, event: Event, late: bool, ghost past: seq<Event>) returns (r: DetectionResult)
      requires Fits(config, w, past + [event]) && late == Late(config, past + [event])
      requires w.lastAlertSecond == Sentinel(LastAlert(config, past))
      modifies w`lastAlertSecond
      ensures r == Outcome(config, past + [event])
      ensures Tracks(config, w, past + [event])
    {
      ghost var trace := past + [event];
      assert trace[..|past|] == past;
      Aggregates(config, w, trace);
      NextAlert(config, past, event);
      SecondsAreNotSentinel(config, past);
      hide Fits, Recounted, DistinctPaths, Samples, Late, LastAlert, Score, Reasons;
      var score, kinds, reasons := Assess(config, event.matches, late, w.requests, w.errors, |w.items|);
      var qualifies := score >= config.alertThreshold;
      var suppressed := qualifies && w.lastAlertSecond != LONG_MIN
                        && event.Second() - w.lastAlertSecond < config.cooldownSeconds;
      var alert := qualifies && !suppressed;
      if alert { w.lastAlertSecond := event.Second(); }
      r := DetectionResult(score, alert, suppressed, kinds, event.matches, reasons, w.requests, w.errors, |w.items|);
    }

    /** The part of `analyze` before the sweep: the event enters its own client's window. */
    method Admit(event: Event, now: int, ghost past: seq<Event>) returns (w: Window, late: bool)
      requires table.Shape() && table.Dated() && TracksAllBut({}) && table.limits == config.Limits()
      requires LruTable.Admissible(table.order, event.clientKey, event.clientKey in table.windows, table.limits)
      requires past == LruTable.TraceOf(table.state.traces, event.clientKey)
      modifies table`windows, table`order, table`state, table`calls
      modifies if event.clientKey in table.windows then {table.windows[event.clientKey]} else {}
      ensures if event.clientKey in old(table.windows) then w == old(table.windows)[event.clientKey] else fresh(w)
      ensures event.clientKey in table.windows && w == table.windows[event.clientKey]
      ensures table.Shape() && table.Dated() && TracksAllBut({event.clientKey})
      ensures table.calls == old(table.calls) + [LruTable.Call(event.clientKey, event, now)]
      ensures table.state == LruTable.Touch(old(table.state), LruTable.Call(event.clientKey, event, now), table.limits)
      ensures table.state.calls == old(table.state).calls + 1
      ensures Fits(config, w, past + [event]) && late == Late(config, past + [event])
      ensures w.lastAlertSecond == Sentinel(LastAlert(config, past))
    {
      hide LruTable.Admissible, LruTable.Evicted, LruTable.Accessed, Window.Blank;
      hide Samples, Late, LastAlert, Sentinel, Fits;
      w := table.WindowFor(event.clientKey, event, now);
      if event.clientKey !in old(table.windows) { BlankTracks(config, w); }
      late := Observe(w, event, now, past);
    }

    /** The part of `analyze` up to the sweep: all other windows still agree with their histories. */
    method Enter(event: Event, now: int, ghost past: seq<Event>) returns (w: Window, late: bool)
      requires Valid() && past == LruTable.TraceOf(table.state.traces, event.clientKey)
      modifies table, if event.clientKey in table.windows then {table.windows[event.clientKey]} else {}
      ensures if event.clientKey in old(table.windows) then w == old(table.windows)[event.clientKey] else fresh(w)
      ensures event.clientKey in table.windows && w == table.windows[event.clientKey]
      ensures table.Valid() && table.limits == config.Limits() && TracksAllBut({event.clientKey})
      ensures table.calls == old(table.calls) + [LruTable.Call(event.clientKey, event, now)]
      ensures event.clientKey in table.state.traces && table.state.traces[event.clientKey] == past + [event]
      ensures Fits(config, w, past + [event]) && late == Late(config, past + [event])
      ensures w.lastAlertSecond == Sentinel(LastAlert(config, past))
    {
      hide LruTable.Run, LruTable.Admissible, LruTable.Touch, LruTable.Sweep, LruTable.TraceOf;
      hide Fits, Late, LastAlert, Sentinel, Tracks, Samples, WindowTable.Dated;
      ghost var call := LruTable.Call(event.clientKey, event, now);
      ghost var next := LruTable.Run(table.calls + [call], table.limits);
      LruTable.Admission(table.calls, call, table.limits);
      w, late := Admit(event, now, past);
      table.Sweep(now);
      assert table.state == next;
    }

    /** `analyze`, for an event that is not too far in the future. */
    method Process(event: Event, now: int) returns (r: DetectionResult)
      requires Valid()
      modifies table, if event.clientKey in table.windows then {table.windows[event.clientKey]} else {}
      ensures Valid()
      ensures table.calls == old(table.calls) + [LruTable.Call(event.clientKey, event, now)]
      ensures event.clientKey in table.state.traces
      ensures table.state.traces[event.clientKey]
           == LruTable.TraceOf(old(table.state).traces, event.clientKey) + [event]
      ensures r == Outcome(config, table.state.traces[event.clientKey])
    {
      hide LruTable.Run, LruTable.TraceOf, Fits, Late, LastAlert, Sentinel, Outcome, Tracks, WindowTable.Dated;
      ghost var past := LruTable.TraceOf(table.state.traces, event.clientKey);
      var w, late := Enter(event, now, past);
      r := Judge(w, event, late, past);
    }

    /** `analyze`: the outcome depends on the event's own client only. */
    method Analyze(event: Event, skewNow: int, now: int) returns (r: Result<DetectionResult, Failure>)
      requires Valid()
      modifies table, if event.clientKey in table.windows then {table.windows[event.clientKey]} else {}
      ensures Valid()
      ensures event.millis > skewNow + maxFutureSkewMillis ==> r == Err(FutureSkew) && table.calls == old(table.calls)
      ensures event.millis <= skewNow + maxFutureSkewMillis ==>
                && table.calls == old(table.calls) + [LruTable.Call(event.clientKey, event, now)]
                && event.clientKey in table.state.traces
                && table.state.traces[event.clientKey]
                   == LruTable.TraceOf(old(table.state).traces, event.clientKey) + [event]
                && r == Ok(Outcome(config, table.state.traces[event.clientKey]))
    {
      hide LruTable.Run, LruTable.TraceOf, Outcome, TracksAllBut, WindowTable.Shape, WindowTable.Dated;
      if event.millis > skewNow + maxFutureSkewMillis { return Err(FutureSkew); }
      var result := Process(event, now);
      r := Ok(result);
    }
  }

  /** The scoring part of `analyze`, with the reasons it collects. */
  method Assess(c: Config, matches: seq<RuleMatch>, late: bool, requests: int, errors: int, paths: int)
    returns (score: int, kinds: set<string>, reasons: seq<Reason>)
    ensures score == Score(c, matches, requests, errors, paths)
    ensures kinds == set m | m in matches :: m.kind
    ensures reasons == Reasons(c, late, requests, errors, paths)
  {
    reasons := [];
    if late { reasons := reasons + [LateEventOutsideWindow]; }
    score, kinds := TotalWeight(matches);
    if requests >= c.requestThreshold {
      score := score + 30;
      reasons := reasons + [RequestBurst];
    }
    assert reasons == If(late, LateEventOutsideWindow) + If(requests >= c.requestThreshold, RequestBurst);
    if requests >= c.floodThreshold {
      score := score + FLOOD_POINTS;
      reasons := reasons + [RequestFlood];
    }
    if errors >= c.errorThreshold {
      score := score + 25;
      reasons := reasons + [HttpErrorBurst];
    }
    if paths >= c.distinctPathThreshold {
      score := score + 25;
      reasons := reasons + [PathScan];
    }
    score := if score < 100 then score else 100;
  }

  method TotalWeight(matches: seq<RuleMatch>) returns (score: int, kinds: set<string>)
    ensures score == MaxWeight(matches) + if |matches| > 1 then CORROBORATION_BONUS * (|matches| - 1) else 0
    ensures kinds == set m | m in matches :: m.kind
  {
    score, kinds := 0, {};
    for i := 0 to |matches|
      invariant score == MaxWeight(matches[..i])
      invariant kinds == set m | m in matches[..i] :: m.kind
    {
      score := Max(score, matches[i].weight);
      kinds := kinds + {matches[i].kind};
      assert matches[..i + 1][..i] == matches[..i];
      assert matches[..i + 1] == matches[..i] + [matches[i]];
    }
    assert matches[..|matches|] == matches;
    if |matches| > 1 { score := score + CORROBORATION_BONUS * (|matches| - 1); }
  }

  // ------------------------------------------------------- in terms of events

  /** The greatest event time of a history. */
  ghost predicate IsLatest(trace: seq<Event>, latest: int) {
    && (forall i :: 0 <= i < |trace| ==> trace[i].millis <= latest)
    && exists i :: 0 <= i < |trace| && trace[i].millis == latest
  }

  lemma LatestIs(c: Config, trace: seq<Event>, latest: int)
    requires IsLatest(trace, latest)
    ensures Latest(Samples(c, trace)) == latest
  {
    MappedAt(c.SampleOf, trace);
    LatestBounds(Samples(c, trace));
    var i :| 0 <= i < |trace| && trace[i].millis == latest;
    assert Samples(c, trace)[i] in Samples(c, trace);
  }

  /**
   What an outcome counts, event by event: all requests inside the window, those of non-static paths
   answered with 400 or more, and the distinct non-static paths.
   */
  lemma {:induction false} OutcomeCounts(c: Config, trace: seq<Event>, latest: int)
    requires trace != [] && IsLatest(trace, latest)
    ensures Outcome(c, trace).requests
         == |set i | 0 <= i < |trace| && latest - c.windowSeconds * 1000 < trace[i].millis|
    ensures Outcome(c, trace).errors
         == |set i | 0 <= i < |trace| && latest - c.windowSeconds * 1000 < trace[i].millis
                     && !c.isStatic(trace[i].path) && trace[i].status >= 400|
    ensures Outcome(c, trace).distinctPaths
         == |set e | e in trace && latest - c.windowSeconds * 1000 < e.millis && !c.isStatic(e.path) :: e.path|
    ensures LateEventOutsideWindow in Outcome(c, trace).reasons
       <==> trace[|trace| - 1].millis <= latest - c.windowSeconds * 1000
  {
    hide Recount, Latest, ScoreOf, LastAlert;
    var h, lo := Samples(c, trace), latest - c.Width();
    LatestIs(c, trace, latest);
    MappedAt(c.SampleOf, trace);
    RecountIsSize(h, Requests, lo, latest);
    RecountIsSize(h, Errors, lo, latest);
    SameElements(HitsAt(h, Requests, lo, latest), set i | 0 <= i < |trace| && lo < trace[i].millis);
    SameElements(
      HitsAt(h, Errors, lo, latest),
      set i | 0 <= i < |trace| && lo < trace[i].millis && !c.isStatic(trace[i].path) && trace[i].status >= 400);
    PathsAre(c, trace, latest, lo);
  }

  lemma PathsAre(c: Config, trace: seq<Event>, latest: int, lo: int)
    requires IsLatest(trace, latest)
    ensures Distinct(Samples(c, trace), lo, latest)
         == set e | e in trace && lo < e.millis && !c.isStatic(e.path) :: e.path
  {
    var h := Samples(c, trace);
    MappedAt(c.SampleOf, trace);
    forall p ensures p in Distinct(h, lo, latest)
                <==> exists e :: e in trace && lo < e.millis && !c.isStatic(e.path) && e.path == p
    {
      if s :| s in h && lo < s.time <= latest && s.item == Some(p) {
        var i :| 0 <= i < |h| && h[i] == s;
        assert trace[i] in trace;
      }
      if e :| e in trace && lo < e.millis && !c.isStatic(e.path) && e.path == p {
        var i :| 0 <= i < |trace| && trace[i] == e;
        assert h[i] in h;
      }
    }
  }

  /** The weight of a list of matches is its greatest, and at least zero. */
  lemma {:induction false} MaxWeightIs(matches: seq<RuleMatch>)
    ensures MaxWeight(matches) >= 0 && forall m :: m in matches ==> m.weight <= MaxWeight(matches)
    ensures MaxWeight(matches) > 0 ==> exists m :: m in matches && m.weight == MaxWeight(matches)
  {
    if matches != [] {
      var n := |matches| - 1;
      MaxWeightIs(matches[..n]);
      assert matches == matches[..n] + [matches[n]];
    }
  }

  /** The score of an outcome in numbers: the parts that apply, up to 100. */
  lemma {:induction false} ScoreIs(c: Config, trace: seq<Event>)
    requires trace != []
    ensures var o := Outcome(c, trace);
            var rules := MaxWeight(o.matches) + (if |o.matches| > 1 then 10 * |o.matches| - 10 else 0);
            var bursts := (if o.requests < c.requestThreshold then 0 else 30)
                        + (if o.requests < c.floodThreshold then 0 else 40);
            var scans := (if o.errors < c.errorThreshold then 0 else 25)
                       + (if o.distinctPaths < c.distinctPathThreshold then 0 else 25);
            && o.score == (if rules + bursts + scans > 100 then 100 else rules + bursts + scans)
            && o.matches == trace[|trace| - 1].matches
  {
    hide MaxWeight, Recounted, DistinctPaths, Late, LastAlert, Reasons;
  }

  /** Each reason is given if and only if its count reaches its threshold. */
  lemma {:induction false} ReasonsAre(c: Config, trace: seq<Event>)
    requires trace != []
    ensures (RequestBurst in Outcome(c, trace).reasons <==> Outcome(c, trace).requests >= c.requestThreshold)
         && (RequestFlood in Outcome(c, trace).reasons <==> Outcome(c, trace).requests >= c.floodThreshold)
         && (HttpErrorBurst in Outcome(c, trace).reasons <==> Outcome(c, trace).errors >= c.errorThreshold)
         && (PathScan in Outcome(c, trace).reasons <==> Outcome(c, trace).distinctPaths >= c.distinctPathThreshold)
  {
    hide ScoreOf, Recounted, DistinctPaths, Late, LastAlert, Reasons;
    var o := Outcome(c, trace);
    WhichReasons(c, Late(c, trace), o.requests, o.errors, o.distinctPaths);
  }

  lemma WhichReasons(c: Config, late: bool, requests: int, errors: int, paths: int)
    ensures var reasons := Reasons(c, late, requests, errors, paths);
            && (RequestBurst in reasons <==> requests >= c.requestThreshold)
            && (RequestFlood in reasons <==> requests >= c.floodThreshold)
            && (HttpErrorBurst in reasons <==> errors >= c.errorThreshold)
            && (PathScan in reasons <==> paths >= c.distinctPathThreshold)
  {
  }

  /** The second of an event: its milliseconds, rounded towards zero. */
  lemma {:induction false} SecondIs(e: Event)
    ensures if e.millis >= 0 then e.Second() * 1000 <= e.millis < e.Second() * 1000 + 1000
            else e.Second() * 1000 - 1000 < e.millis <= e.Second() * 1000
  {
    WholeSecondsExactly(e.millis, e.Second());
  }

  /**
   Exactly when a client is forgotten: as the least recently analysed of a full table when a new one
   arrives, or at every 1000th call when it was last processed more than two windows ago.
   */
  lemma {:induction false} ForgottenExactly(
    c: Config, past: seq<LruTable.Call<Event>>, call: LruTable.Call<Event>, k: LruTable.Key)
    requires c.maxTrackedClients >= 1 && k in LruTable.Run(past, c.Limits()).traces
    ensures var before := LruTable.Run(past, c.Limits()).traces; var log := LruTable.Log(past);
            k !in LruTable.Run(past + [call], c.Limits()).traces <==>
              && k != call.key
              && (|| (&& call.key !in before && |before| == c.maxTrackedClients
                      && forall j :: j in before && j != k ==> Recency.LastUse(log, k) < Recency.LastUse(log, j))
                  || (&& (|past| + 1) % 1000 == 0 && 0 <= Recency.LastUse(log, k) < |past|
                      && past[Recency.LastUse(log, k)].now < call.now - c.windowSeconds * 2000))
  {
    hide LruTable.Run, Recency.LastUse;
    LruTable.RemovedExactly(past, call, c.Limits(), k);
  }

  // ------------------------------------------------------------ whole runs

  /**
   In any interleaving of clients, the last outcome of a client whose window survives is
   the one it gets when its own calls since that window was created are run alone.
   */
  lemma {:induction false} ClientAlone(c: Config, calls: seq<LruTable.Call<Event>>, k: LruTable.Key)
    requires c.maxTrackedClients >= 1 && k in LruTable.Run(calls, c.Limits()).traces
    ensures var lim := c.Limits();
            var alone := LruTable.Only(calls[LruTable.Birth(calls, lim, k)..], k);
            && k in LruTable.Run(alone, lim).traces
            && LruTable.Run(calls, lim).traces[k] != [] && LruTable.Run(alone, lim).traces[k] != []
            && Outcome(c, LruTable.Run(alone, lim).traces[k]) == Outcome(c, LruTable.Run(calls, lim).traces[k])
  {
    hide Outcome;
    LruTable.NonInterference(calls, c.Limits(), k);
  }

  /** Any two arrival orders of the same events leave a client with the same counts. */
  lemma {:induction false} ArrivalOrder(c: Config, s: seq<Event>, t: seq<Event>, q: Quantity)
    requires multiset(s) == multiset(t)
    ensures Recounted(c, s, q) == Recounted(c, t, q)
    ensures DistinctPaths(c, s) == DistinctPaths(c, t)
  {
    hide Recount, Latest, Distinct;
    MappedPermutation(c.SampleOf, s, t);
    LatestPermutation(Samples(c, s), Samples(c, t));
    var latest := Latest(Samples(c, s));
    RecountPermutation(Samples(c, s), Samples(c, t), q, latest - c.Width(), latest);
  }

  /** The alert of a history's last event is the cooldown's verdict. */
  lemma OutcomeAlerts(c: Config, trace: seq<Event>)
    requires trace != []
    ensures Outcome(c, trace).alert == Cooldown.AlertsAt(AsAttempt(c), trace, c.cooldownSeconds)
    ensures AsAttempt(c)(trace).qualifies == (Outcome(c, trace).score >= c.alertThreshold)
    ensures AsAttempt(c)(trace).second == trace[|trace| - 1].Second()
    ensures Outcome(c, trace).suppressed == (Outcome(c, trace).score >= c.alertThreshold && !Outcome(c, trace).alert)
  {
    hide ScoreOf, Recounted, DistinctPaths, Late, Reasons;
  }

  /** Two alerts for one window are at least one cooldown apart, whatever the order of event times. */
  lemma {:induction false} AlertSpacing(c: Config, trace: seq<Event>, i: nat, j: nat)
    requires i < j < |trace|
    ensures Outcome(c, trace[..i + 1]).alert && Outcome(c, trace[..j + 1]).alert ==>
              trace[j].Second() - trace[i].Second() >= c.cooldownSeconds
  {
    hide Outcome, AsAttempt, Cooldown.AlertsAt;
    OutcomeAlerts(c, trace[..i + 1]);
    OutcomeAlerts(c, trace[..j + 1]);
    if Outcome(c, trace[..i + 1]).alert && Outcome(c, trace[..j + 1]).alert {
      Cooldown.HistoryGap(AsAttempt(c), trace, i, j, c.cooldownSeconds);
    }
  }

  /** A qualifying event is suppressed exactly when an earlier alert is less than a cooldown before it, or after it. */
  lemma {:induction false} SuppressedExactly(c: Config, trace: seq<Event>, j: nat)
    requires j < |trace|
    ensures Outcome(c, trace[..j + 1]).suppressed
       <==> && Outcome(c, trace[..j + 1]).score >= c.alertThreshold
            && exists i :: 0 <= i < j && Outcome(c, trace[..i + 1]).alert
                           && trace[j].Second() - trace[i].Second() < c.cooldownSeconds
  {
    hide Outcome, AsAttempt, Cooldown.AlertsAt;
    forall i | 0 <= i <= j
      ensures Outcome(c, trace[..i + 1]).alert == Cooldown.AlertOf(AsAttempt(c), trace, i, c.cooldownSeconds)
      ensures AsAttempt(c)(trace[..i + 1]).second == trace[i].Second()
    {
      OutcomeAlerts(c, trace[..i + 1]);
    }
    OutcomeAlerts(c, trace[..j + 1]);
    if AsAttempt(c)(trace[..j + 1]).qualifies { Cooldown.HistorySuppressed(AsAttempt(c), trace, j, c.cooldownSeconds); }
  }

  /** The seconds of a client's alerts, in the order they were raised. */
  function AlertSeconds(c: Config, trace: seq<Event>): seq<int> {
    if trace == [] then []
    else AlertSeconds(c, trace[..|trace| - 1])
         + if Outcome(c, trace).alert then [trace[|trace| - 1].Second()] else []
  }

  lemma {:induction false} SecondsAre(c: Config, trace: seq<Event>)
    ensures AlertSeconds(c, trace) == Cooldown.AlertSeconds(AsAttempt(c), trace, c.cooldownSeconds)
  {
    hide Outcome, AsAttempt, Cooldown.AlertsAt;
    if trace != [] {
      SecondsAre(c, trace[..|trace| - 1]);
      OutcomeAlerts(c, trace);
    }
  }

  /** k alerts of one window span at least k - 1 cooldowns. */
  lemma {:induction false} AlertSpan(c: Config, trace: seq<Event>)
    ensures Cooldown.Spaced(AlertSeconds(c, trace), c.cooldownSeconds)
  {
    hide AlertSeconds, AsAttempt, Cooldown.AlertSeconds, Cooldown.Spaced;
    SecondsAre(c, trace);
    Cooldown.HistorySpan(AsAttempt(c), trace, c.cooldownSeconds);
  }
}
