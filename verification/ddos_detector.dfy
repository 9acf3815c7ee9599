/** Per-domain detection of distributed request bursts. */
module DdosDetector {
  import opened Options
  import opened Collections
  import opened Windows
  import opened WindowTables
  import Cooldown
  import LruTable
  import Recency

  /** The fields of a request this detector reads. */
  datatype Event = Event(domainKey: LruTable.Key, clientIp: string, millis: Long)
  {
    function Second(): Long { WholeSeconds(millis) }
  }

  datatype Config = Config(
    windowSeconds: nat, requestThreshold: int, uniqueIpThreshold: int, cooldownSeconds: nat, maxTrackedDomains: nat)
  {
    function Limits(): LruTable.Limits { LruTable.Limits(maxTrackedDomains, windowSeconds * 2000) }

    function SampleOf(e: Event): Sample { Sample(e.Second(), Some(e.clientIp), false) }
  }

  datatype Failure = FutureSkew

  datatype Burst = Burst(requests: int, uniqueIps: int)

  // ------------------------------------------------------------ specification

  function Samples(c: Config, trace: seq<Event>): seq<Sample> { Mapped(c.SampleOf, trace) }

  /** The domain's requests within the window, recounted from its whole history. */
  function LiveRequests(c: Config, trace: seq<Event>): nat {
    var latest := Latest(Samples(c, trace));
    Recount(Samples(c, trace), Requests, latest - c.windowSeconds, latest)
  }

  /** The distinct IPs among them. */
  function LiveIps(c: Config, trace: seq<Event>): nat {
    var latest := Latest(Samples(c, trace));
    |Distinct(Samples(c, trace), latest - c.windowSeconds, latest)|
  }

  predicate Late(c: Config, trace: seq<Event>)
    requires trace != []
  {
    trace[|trace| - 1].Second() <= Latest(Samples(c, trace)) - c.windowSeconds
  }

  predicate Qualifies(c: Config, trace: seq<Event>)
    requires trace != []
  {
    && !Late(c, trace)
    && LiveRequests(c, trace) >= c.requestThreshold
    && LiveIps(c, trace) >= c.uniqueIpThreshold
  }

  /** The last event of a domain's history as an attempt to alert. */
  function AsAttempt(c: Config): seq<Event> -> Cooldown.Attempt {
    (trace: seq<Event>) =>
      if trace == [] then Cooldown.Attempt(0, false)
      else Cooldown.Attempt(trace[|trace| - 1].Second(), Qualifies(c, trace))
  }

  function LastAlert(c: Config, trace: seq<Event>): Option<int> {
    Cooldown.LastAlert(Cooldown.Judged(AsAttempt(c), trace), c.cooldownSeconds)
  }

  predicate Alerts(c: Config, trace: seq<Event>) {
    Cooldown.AlertsAt(AsAttempt(c), trace, c.cooldownSeconds)
  }

  /** The result for the last event of one domain's history. */
  function Outcome(c: Config, trace: seq<Event>): Option<Burst>
    requires trace != []
  {
    if Alerts(c, trace) then Some(Burst(LiveRequests(c, trace), LiveIps(c, trace))) else None
  }

  lemma {:induction false} SecondsAreNotSentinel(c: Config, trace: seq<Event>)
    ensures LastAlert(c, trace).Some? ==> LastAlert(c, trace).value > LONG_MIN
  {
    hide Qualifies;
    if trace != [] {
      SecondsAreNotSentinel(c, trace[..|trace| - 1]);
      var a := Cooldown.Judged(AsAttempt(c), trace);
      assert a[..|a| - 1] == Cooldown.Judged(AsAttempt(c), trace[..|trace| - 1]);
    }
  }

  // ----------------------------------------------------------- the detector

  ghost predicate Fits(c: Config, w: Window, trace: seq<Event>)
    reads w`buckets, w`items, w`latest, w`requests, w`errors, w`history
  {
    w.Valid(c.windowSeconds) && w.history == Samples(c, trace)
  }

  ghost predicate Tracks(c: Config, w: Window, trace: seq<Event>)
    reads w
  {
    Fits(c, w, trace) && w.lastAlertSecond == Sentinel(LastAlert(c, trace))
  }

  /** The window has moved to the event but not yet recorded it. */
  ghost predicate Ready(c: Config, w: Window, past: seq<Event>, event: Event)
    reads w
  {
    && w.Moved(c.windowSeconds, event.Second())
    && w.history == Samples(c, past)
    && w.lastAlertSecond == Sentinel(LastAlert(c, past))
  }

  lemma LastSample(c: Config, trace: seq<Event>, e: Event)
    ensures Samples(c, trace + [e]) == Samples(c, trace) + [c.SampleOf(e)]
    ensures Latest(Samples(c, trace + [e])) == Max(Latest(Samples(c, trace)), e.Second())
  {
    assert (trace + [e])[..|trace|] == trace;
    LatestAppended(Samples(c, trace), c.SampleOf(e));
  }

  lemma SampleTime(c: Config, e: Event)
    ensures c.SampleOf(e).time == e.Second()
  {
  }

  lemma BlankTracks(c: Config, w: Window)
    requires w.Blank()
    ensures Tracks(c, w, [])
  {
  }

  /** The aggregates of a window that fits a history are what the outcome recounts. */
  lemma Aggregates(c: Config, w: Window, trace: seq<Event>)
    requires Fits(c, w, trace)
    ensures w.requests == LiveRequests(c, trace) && |w.items| == LiveIps(c, trace)
  {
    CountsDistinct(w.items, w.history, w.latest - c.windowSeconds, w.latest);
  }

  lemma NextAlert(c: Config, past: seq<Event>, e: Event)
    ensures var trace := past + [e];
            && LastAlert(c, trace) == (if Alerts(c, trace) then Some(e.Second()) else LastAlert(c, past))
            && Alerts(c, trace)
               == Cooldown.Fires(LastAlert(c, past),
                                 Cooldown.Attempt(e.Second(), Qualifies(c, trace)), c.cooldownSeconds)
  {
    var trace := past + [e];
    assert trace[..|past|] == past;
    var a := Cooldown.Judged(AsAttempt(c), trace);
    assert a[..|a| - 1] == Cooldown.Judged(AsAttempt(c), past);
  }

  class Detector {
    const config: Config
    const maxFutureSkewSeconds: int
    const table: WindowTable<Event>

    constructor (config: Config, maxFutureSkewSeconds: int)
      requires config.maxTrackedDomains >= 1
      ensures Valid() && table.calls == [] && this.config == config && fresh(table)
      ensures this.maxFutureSkewSeconds == maxFutureSkewSeconds
    {
      this.config := config;
      this.maxFutureSkewSeconds := maxFutureSkewSeconds;
      table := new WindowTable(config.Limits());
    }

    ghost predicate TracksAllBut(keys: set<LruTable.Key>)
      reads table`windows, table`state, table.windows.Values
    {
      forall k :: k in table.windows && k !in keys ==>
        k in table.state.traces && Tracks(config, table.windows[k], table.state.traces[k])
    }

    ghost predicate Valid()
      reads table, table.windows.Values
    {
      table.Valid() && table.limits == config.Limits() && TracksAllBut({})
    }

    /** The window moves forward to the event. */
    method Arrive(w: Window, event: Event, now: int, ghost past: seq<Event>)
      requires Tracks(config, w, past)
      modifies w
      ensures Ready(config, w, past, event) && w.lastProcessedMillis == now
    {
      hide Samples, LastAlert, Sentinel, Window.Moved;
      w.lastProcessedMillis := now;
      w.MoveTo(event.Second(), config.windowSeconds);
    }

    /** The part of `analyze` before the sweep: the event reaches its own domain's window. */
    method Admit(event: Event, now: int, ghost past: seq<Event>) returns (w: Window)
      requires table.Shape() && table.Dated() && TracksAllBut({}) && table.limits == config.Limits()
      requires LruTable.Admissible(table.order, event.domainKey, event.domainKey in table.windows, table.limits)
      requires past == LruTable.TraceOf(table.state.traces, event.domainKey)
      modifies table`windows, table`order, table`state, table`calls
      modifies if event.domainKey in table.windows then {table.windows[event.domainKey]} else {}
      ensures if event.domainKey in old(table.windows) then w == old(table.windows)[event.domainKey] else fresh(w)
      ensures event.domainKey in table.windows && w == table.windows[event.domainKey]
      ensures table.Shape() && table.Dated() && TracksAllBut({event.domainKey})
      ensures table.calls == old(table.calls) + [LruTable.Call(event.domainKey, event, now)]
      ensures table.state == LruTable.Touch(old(table.state), LruTable.Call(event.domainKey, event, now), table.limits)
      ensures table.state.calls == old(table.state).calls + 1
      ensures Ready(config, w, past, event)
    {
      hide LruTable.Admissible, Samples, LastAlert, Sentinel, LruTable.Evicted, LruTable.Accessed;
      hide Window.Blank, Tracks, Ready;
      w := table.WindowFor(event.domainKey, event, now);
      if event.domainKey !in old(table.windows) { BlankTracks(config, w); }
      Arrive(w, event, now, past);
    }

    /** The part of `analyze` after the sweep: records the event and applies thresholds and cooldown. */
    method Decide(w: Window, event: Event, ghost past: seq<Event>) returns (r: Option<Burst>)
      requires Ready(config, w, past, event)
      modifies w`buckets, w`items, w`requests, w`errors, w`history, w`lastAlertSecond
      ensures r == Outcome(config, past + [event])
      ensures Tracks(config, w, past + [event])
    {
      hide LiveRequests, LiveIps, LastAlert, Alerts, Mapped, Latest, Config.SampleOf, Event.Second;
      hide Window.Valid, Window.Moved;
      ghost var trace := past + [event];
      var sample := config.SampleOf(event);
      SampleTime(config, event);
      LastSample(config, past, event);
      MovedLatest(w, config.windowSeconds, event.Second());
      NextAlert(config, past, event);
      SecondsAreNotSentinel(config, past);
      assert trace[..|past|] == past;
      if event.Second() <= w.latest - config.windowSeconds {
        w.Ignore(sample, config.windowSeconds);
        return None;
      }
      w.Add(sample, config.windowSeconds);
      Aggregates(config, w, trace);
      if w.requests < config.requestThreshold || |w.items| < config.uniqueIpThreshold
         || (w.lastAlertSecond != LONG_MIN && event.Second() - w.lastAlertSecond < config.cooldownSeconds) {
        return None;
      }
      w.lastAlertSecond := event.Second();
      r := Some(Burst(w.requests, |w.items|));
    }

    /** The part of `analyze` up to the sweep: all other windows still agree with their histories. */
    method Enter(event: Event, now: int, ghost past: seq<Event>) returns (w: Window)
      requires Valid() && past == LruTable.TraceOf(table.state.traces, event.domainKey)
      modifies table, if event.domainKey in table.windows then {table.windows[event.domainKey]} else {}
      ensures if event.domainKey in old(table.windows) then w == old(table.windows)[event.domainKey] else fresh(w)
      ensures event.domainKey in table.windows && w == table.windows[event.domainKey]
      ensures table.Valid() && table.limits == config.Limits() && TracksAllBut({event.domainKey})
      ensures table.calls == old(table.calls) + [LruTable.Call(event.domainKey, event, now)]
      ensures event.domainKey in table.state.traces && table.state.traces[event.domainKey] == past + [event]
      ensures Ready(config, w, past, event)
    {
      hide LruTable.Run, LruTable.Admissible, LruTable.Touch, LruTable.Sweep, LruTable.TraceOf;
      hide Ready, Tracks, WindowTable.Dated;
      ghost var call := LruTable.Call(event.domainKey, event, now);
      ghost var next := LruTable.Run(table.calls + [call], table.limits);
      LruTable.Admission(table.calls, call, table.limits);
      w := Admit(event, now, past);
      table.Sweep(now);
      assert table.state == next;
    }

    /** `analyze`, for an event that is not too far in the future. */
    method Process(event: Event, now: int) returns (r: Option<Burst>)
      requires Valid()
      modifies table, if event.domainKey in table.windows then {table.windows[event.domainKey]} else {}
      ensures Valid()
      ensures table.calls == old(table.calls) + [LruTable.Call(event.domainKey, event, now)]
      ensures event.domainKey in table.state.traces
      ensures table.state.traces[event.domainKey]
           == LruTable.TraceOf(old(table.state).traces, event.domainKey) + [event]
      ensures r == Outcome(config, table.state.traces[event.domainKey])
    {
      hide LruTable.Run, LruTable.TraceOf, Ready, Outcome, Tracks, WindowTable.Dated;
      ghost var past := LruTable.TraceOf(table.state.traces, event.domainKey);
      var w := Enter(event, now, past);
      r := Decide(w, event, past);
    }

    /** `analyze`: a result exactly when the domain's recounted history calls for an alert. */
    method Analyze(event: Event, skewNowSecond: int, now: int) returns (r: Result<Option<Burst>, Failure>)
      requires Valid()
      modifies table, if event.domainKey in table.windows then {table.windows[event.domainKey]} else {}
      ensures Valid()
      ensures event.Second() > skewNowSecond + maxFutureSkewSeconds ==>
                r == Err(FutureSkew) && table.calls == old(table.calls)
      ensures event.Second() <= skewNowSecond + maxFutureSkewSeconds ==>
                && table.calls == old(table.calls) + [LruTable.Call(event.domainKey, event, now)]
                && event.domainKey in table.state.traces
                && table.state.traces[event.domainKey]
                   == LruTable.TraceOf(old(table.state).traces, event.domainKey) + [event]
                && r == Ok(Outcome(config, table.state.traces[event.domainKey]))
    {
      hide LruTable.Run, LruTable.TraceOf, Outcome, TracksAllBut, WindowTable.Shape, WindowTable.Dated;
      if event.Second() > skewNowSecond + maxFutureSkewSeconds { return Err(FutureSkew); }
      var result := Process(event, now);
      r := Ok(result);
    }
  }

  // ------------------------------------------------------- in terms of events

  /** The greatest event second of a history. */
  ghost predicate IsLatest(trace: seq<Event>, latest: int) {
    && (forall i :: 0 <= i < |trace| ==> trace[i].Second() <= latest)
    && exists i :: 0 <= i < |trace| && trace[i].Second() == latest
  }

  lemma LatestIs(c: Config, trace: seq<Event>, latest: int)
    requires IsLatest(trace, latest)
    ensures Latest(Samples(c, trace)) == latest
  {
    MappedAt(c.SampleOf, trace);
    LatestBounds(Samples(c, trace));
    var i :| 0 <= i < |trace| && trace[i].Second() == latest;
    assert Samples(c, trace)[i] in Samples(c, trace);
  }

  /** What the thresholds are compared with: the requests inside the window, and their distinct client IPs. */
  lemma {:induction false} LiveCounts(c: Config, trace: seq<Event>, latest: int)
    requires trace != [] && IsLatest(trace, latest)
    ensures LiveRequests(c, trace) == |set i | 0 <= i < |trace| && latest - c.windowSeconds < trace[i].Second()|
    ensures LiveIps(c, trace) == |set e | e in trace && latest - c.windowSeconds < e.Second() :: e.clientIp|
    ensures Late(c, trace) <==> trace[|trace| - 1].Second() <= latest - c.windowSeconds
  {
    hide Recount, Latest;
    var h, lo := Samples(c, trace), latest - c.windowSeconds;
    LatestIs(c, trace, latest);
    MappedAt(c.SampleOf, trace);
    RecountIsSize(h, Requests, lo, latest);
    SameElements(HitsAt(h, Requests, lo, latest), set i | 0 <= i < |trace| && lo < trace[i].Second());
    IpsAre(c, trace, latest, lo);
  }

  lemma IpsAre(c: Config, trace: seq<Event>, latest: int, lo: int)
    requires IsLatest(trace, latest)
    ensures Distinct(Samples(c, trace), lo, latest) == set e | e in trace && lo < e.Second() :: e.clientIp
  {
    forall p ensures p in Distinct(Samples(c, trace), lo, latest)
                <==> exists e :: e in trace && lo < e.Second() && e.clientIp == p
    {
      IpIsLive(c, trace, latest, lo, p);
    }
  }

  lemma IpIsLive(c: Config, trace: seq<Event>, latest: int, lo: int, ip: string)
    requires IsLatest(trace, latest)
    ensures ip in Distinct(Samples(c, trace), lo, latest)
       <==> exists e :: e in trace && lo < e.Second() && e.clientIp == ip
  {
    var h := Samples(c, trace);
    MappedAt(c.SampleOf, trace);
    if s :| s in h && lo < s.time <= latest && s.item == Some(ip) {
      var i :| 0 <= i < |h| && h[i] == s;
      assert trace[i] in trace;
    }
    if e :| e in trace && lo < e.Second() && e.clientIp == ip {
      var i :| 0 <= i < |trace| && trace[i] == e;
      assert h[i] in h;
    }
  }

  /** A result reports these counts, and both reach their thresholds. */
  lemma {:induction false} BurstIs(c: Config, trace: seq<Event>)
    requires trace != [] && Outcome(c, trace).Some?
    ensures Outcome(c, trace) == Some(Burst(LiveRequests(c, trace), LiveIps(c, trace)))
    ensures LiveRequests(c, trace) >= c.requestThreshold && LiveIps(c, trace) >= c.uniqueIpThreshold
  {
    hide LiveRequests, LiveIps, Late;
  }

  /** The second of an event: its milliseconds, rounded towards zero. */
  lemma {:induction false} SecondIs(e: Event)
    ensures if e.millis >= 0 then e.Second() * 1000 <= e.millis < e.Second() * 1000 + 1000
            else e.Second() * 1000 - 1000 < e.millis <= e.Second() * 1000
  {
    WholeSecondsExactly(e.millis, e.Second());
  }

  /**
   Exactly when a domain is forgotten: as the least recently analysed of a full table when a new one
   arrives, or at every 1000th call when it was last processed more than two windows ago.
   */
  lemma {:induction false} ForgottenExactly(
    c: Config, past: seq<LruTable.Call<Event>>, call: LruTable.Call<Event>, k: LruTable.Key)
    requires c.maxTrackedDomains >= 1 && k in LruTable.Run(past, c.Limits()).traces
    ensures var before := LruTable.Run(past, c.Limits()).traces; var log := LruTable.Log(past);
            k !in LruTable.Run(past + [call], c.Limits()).traces <==>
              && k != call.key
              && (|| (&& call.key !in before && |before| == c.maxTrackedDomains
                      && forall j :: j in before && j != k ==> Recency.LastUse(log, k) < Recency.LastUse(log, j))
                  || (&& (|past| + 1) % 1000 == 0 && 0 <= Recency.LastUse(log, k) < |past|
                      && past[Recency.LastUse(log, k)].now < call.now - c.windowSeconds * 2000))
  {
    hide LruTable.Run, Recency.LastUse;
    LruTable.RemovedExactly(past, call, c.Limits(), k);
  }

  // ------------------------------------------------------------ whole runs

  /** A domain's result does not depend on the other domains. */
  lemma {:induction false} DomainAlone(c: Config, calls: seq<LruTable.Call<Event>>, k: LruTable.Key)
    requires c.maxTrackedDomains >= 1 && k in LruTable.Run(calls, c.Limits()).traces
    ensures var lim := c.Limits();
            var alone := LruTable.Only(calls[LruTable.Birth(calls, lim, k)..], k);
            && k in LruTable.Run(alone, lim).traces
            && LruTable.Run(calls, lim).traces[k] != [] && LruTable.Run(alone, lim).traces[k] != []
            && Outcome(c, LruTable.Run(alone, lim).traces[k]) == Outcome(c, LruTable.Run(calls, lim).traces[k])
  {
    hide Outcome;
    LruTable.NonInterference(calls, c.Limits(), k);
  }

  lemma OutcomeAlerts(c: Config, trace: seq<Event>)
    requires trace != []
    ensures Outcome(c, trace).Some? == Cooldown.AlertsAt(AsAttempt(c), trace, c.cooldownSeconds)
    ensures AsAttempt(c)(trace) == Cooldown.Attempt(trace[|trace| - 1].Second(), Qualifies(c, trace))
    ensures Outcome(c, trace).Some? ==> Qualifies(c, trace)
  {
    hide Qualifies, LiveRequests, LiveIps;
  }

  /**
   For any event order: there is a result exactly when the event is inside the window, both
   recounts reach their thresholds, and no earlier alert is less than one cooldown before
   the event, or after it.
   */
  lemma {:induction false} ResultExactly(c: Config, trace: seq<Event>, j: nat)
    requires j < |trace|
    ensures Outcome(c, trace[..j + 1]).Some?
       <==> && Qualifies(c, trace[..j + 1])
            && !exists i :: 0 <= i < j && Outcome(c, trace[..i + 1]).Some?
                            && trace[j].Second() - trace[i].Second() < c.cooldownSeconds
  {
    hide Outcome, AsAttempt, Cooldown.AlertsAt, Qualifies;
    forall i | 0 <= i <= j
      ensures Outcome(c, trace[..i + 1]).Some? == Cooldown.AlertOf(AsAttempt(c), trace, i, c.cooldownSeconds)
      ensures AsAttempt(c)(trace[..i + 1]).second == trace[i].Second()
    {
      OutcomeAlerts(c, trace[..i + 1]);
    }
    OutcomeAlerts(c, trace[..j + 1]);
    if Qualifies(c, trace[..j + 1]) { Cooldown.HistorySuppressed(AsAttempt(c), trace, j, c.cooldownSeconds); }
  }

  /** Two alerts for one domain window are at least one cooldown apart. */
  lemma {:induction false} AlertSpacing(c: Config, trace: seq<Event>, i: nat, j: nat)
    requires i < j < |trace|
    ensures Outcome(c, trace[..i + 1]).Some? && Outcome(c, trace[..j + 1]).Some? ==>
              trace[j].Second() - trace[i].Second() >= c.cooldownSeconds
  {
    hide Outcome, AsAttempt, Cooldown.AlertsAt, Qualifies;
    OutcomeAlerts(c, trace[..i + 1]);
    OutcomeAlerts(c, trace[..j + 1]);
    if Outcome(c, trace[..i + 1]).Some? && Outcome(c, trace[..j + 1]).Some? {
      Cooldown.HistoryGap(AsAttempt(c), trace, i, j, c.cooldownSeconds);
    }
  }

  /** The seconds of a domain's alerts, in the order they were raised. */
  function AlertSeconds(c: Config, trace: seq<Event>): seq<int> {
    if trace == [] then []
    else AlertSeconds(c, trace[..|trace| - 1])
         + if Outcome(c, trace).Some? then [trace[|trace| - 1].Second()] else []
  }

  lemma {:induction false} SecondsAre(c: Config, trace: seq<Event>)
    ensures AlertSeconds(c, trace) == Cooldown.AlertSeconds(AsAttempt(c), trace, c.cooldownSeconds)
  {
    hide Outcome, AsAttempt, Cooldown.AlertsAt, Qualifies;
    if trace != [] {
      SecondsAre(c, trace[..|trace| - 1]);
      OutcomeAlerts(c, trace);
    }
  }

  /** k alerts for one domain window span at least k - 1 cooldowns. */
  lemma {:induction false} AlertSpan(c: Config, trace: seq<Event>)
    ensures Cooldown.Spaced(AlertSeconds(c, trace), c.cooldownSeconds)
  {
    hide AlertSeconds, AsAttempt, Cooldown.AlertSeconds, Cooldown.Spaced;
    SecondsAre(c, trace);
    Cooldown.HistorySpan(AsAttempt(c), trace, c.cooldownSeconds);
  }

  /** The counts behind a result do not depend on the order in which the events arrived. */
  lemma {:induction false} ArrivalOrder(c: Config, s: seq<Event>, t: seq<Event>)
    requires multiset(s) == multiset(t)
    ensures LiveRequests(c, s) == LiveRequests(c, t) && LiveIps(c, s) == LiveIps(c, t)
  {
    hide Recount, Latest, Distinct;
    MappedPermutation(c.SampleOf, s, t);
    LatestPermutation(Samples(c, s), Samples(c, t));
    var latest := Latest(Samples(c, s));
    RecountPermutation(Samples(c, s), Samples(c, t), Requests, latest - c.windowSeconds, latest);
  }
}
