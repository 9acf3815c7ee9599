/**
 The alert cooldown of both detectors: an attempt that qualifies raises an alert unless
 the last alert is less than one cooldown before it. Attempts may arrive out of order.
 */
module Cooldown {
  import opened Options

  datatype Attempt = Attempt(second: int, qualifies: bool)

  predicate Fires(last: Option<int>, x: Attempt, cooldown: int) {
    x.qualifies && (last.None? || x.second - last.value >= cooldown)
  }

  /** The second of the last alert raised by the attempts `a`. */
  function LastAlert(a: seq<Attempt>, cooldown: int): Option<int> {
    if a == [] then None
    else
      var last := LastAlert(a[..|a| - 1], cooldown);
      var x := a[|a| - 1];
      if Fires(last, x, cooldown) then Some(x.second) else last
  }

  /** Whether the i-th attempt of a run raises an alert. */
  predicate FiresAt(a: seq<Attempt>, i: nat, cooldown: int)
    requires i < |a|
  {
    Fires(LastAlert(a[..i], cooldown), a[i], cooldown)
  }

  /** The seconds of the alerts of a run, in the order they were raised. */
  function Alerts(a: seq<Attempt>, cooldown: int): seq<int> {
    if a == [] then []
    else if FiresAt(a, |a| - 1, cooldown) then Alerts(a[..|a| - 1], cooldown) + [a[|a| - 1].second]
    else Alerts(a[..|a| - 1], cooldown)
  }

  /** The remembered second is that of some alert, and no alert was at a later one. */
  lemma {:induction false} LastAlertIsNewest(a: seq<Attempt>, cooldown: nat)
    ensures LastAlert(a, cooldown).None? ==> forall i :: 0 <= i < |a| ==> !FiresAt(a, i, cooldown)
    ensures LastAlert(a, cooldown).Some? ==>
              && (exists i :: 0 <= i < |a| && FiresAt(a, i, cooldown) && a[i].second == LastAlert(a, cooldown).value)
              && (forall i :: 0 <= i < |a| && FiresAt(a, i, cooldown) ==> a[i].second <= LastAlert(a, cooldown).value)
  {
    if a != [] {
      var n := |a| - 1;
      LastAlertIsNewest(a[..n], cooldown);
      forall i | 0 <= i < n ensures FiresAt(a, i, cooldown) == FiresAt(a[..n], i, cooldown) {
        assert a[..n][..i] == a[..i];
      }
      if FiresAt(a, n, cooldown) {
      } else if LastAlert(a, cooldown).Some? {
        var i :| 0 <= i < n && FiresAt(a[..n], i, cooldown) && a[..n][i].second == LastAlert(a[..n], cooldown).value;
        assert FiresAt(a, i, cooldown);
      }
    }
  }

  /** Any two alerts of a run are at least one cooldown apart, in order of processing. */
  lemma {:induction false} AlertGap(a: seq<Attempt>, i: nat, j: nat, cooldown: nat)
    requires i < j < |a| && FiresAt(a, i, cooldown) && FiresAt(a, j, cooldown)
    ensures a[j].second - a[i].second >= cooldown
  {
    LastAlertIsNewest(a[..j], cooldown);
    assert a[..j][..i] == a[..i];
    assert FiresAt(a[..j], i, cooldown);
  }

  /**
   A qualifying attempt stays silent exactly when an earlier-processed alert lies less
   than one cooldown before it, or after it.
   */
  lemma {:induction false} SuppressedExactly(a: seq<Attempt>, j: nat, cooldown: nat)
    requires j < |a| && a[j].qualifies
    ensures !FiresAt(a, j, cooldown)
       <==> exists i :: 0 <= i < j && FiresAt(a, i, cooldown) && a[j].second - a[i].second < cooldown
  {
    LastAlertIsNewest(a[..j], cooldown);
    forall i | 0 <= i < j ensures FiresAt(a, i, cooldown) == FiresAt(a[..j], i, cooldown) {
      assert a[..j][..i] == a[..i];
    }
    if !FiresAt(a, j, cooldown) {
      var i :| 0 <= i < j && FiresAt(a[..j], i, cooldown) && a[..j][i].second == LastAlert(a[..j], cooldown).value;
      assert FiresAt(a, i, cooldown);
    }
  }

  lemma {:induction false} AlertsEnd(a: seq<Attempt>, cooldown: nat)
    ensures LastAlert(a, cooldown) == if Alerts(a, cooldown) == [] then None
                                      else Some(Alerts(a, cooldown)[|Alerts(a, cooldown)| - 1])
  {
    if a != [] { AlertsEnd(a[..|a| - 1], cooldown); }
  }

  /** k alerts span at least k - 1 cooldowns; with a positive cooldown their seconds strictly increase. */
  lemma {:induction false} AlertSpan(a: seq<Attempt>, cooldown: nat, i: nat, j: nat)
    requires i <= j < |Alerts(a, cooldown)|
    ensures Alerts(a, cooldown)[j] - Alerts(a, cooldown)[i] >= (j - i) * cooldown
  {
    var n := |a| - 1;
    var all := Alerts(a, cooldown);
    AlertsEnd(a[..n], cooldown);
    if !FiresAt(a, n, cooldown) || j < |all| - 1 {
      AlertSpan(a[..n], cooldown, i, j);
    } else if i < j {
      AlertSpan(a[..n], cooldown, i, j - 1);
      assert (j - i) * cooldown == (j - 1 - i) * cooldown + cooldown;
    }
  }

  // ------------------------------------------------ the alerts of a history

  /** The attempts of a history of events, where `judge` makes an attempt of each event and its past. */
  function Judged<E>(judge: seq<E> -> Attempt, trace: seq<E>): seq<Attempt> {
    if trace == [] then [] else Judged(judge, trace[..|trace| - 1]) + [judge(trace)]
  }

  /** Whether the last event of a history raises an alert. */
  predicate AlertsAt<E>(judge: seq<E> -> Attempt, trace: seq<E>, cooldown: int) {
    trace != [] && Fires(LastAlert(Judged(judge, trace[..|trace| - 1]), cooldown), judge(trace), cooldown)
  }

  /** The seconds of all its alerts. */
  function AlertSeconds<E>(judge: seq<E> -> Attempt, trace: seq<E>, cooldown: int): seq<int> {
    if trace == [] then []
    else AlertSeconds(judge, trace[..|trace| - 1], cooldown)
         + if AlertsAt(judge, trace, cooldown) then [judge(trace).second] else []
  }

  lemma {:induction false} JudgedAt<E>(judge: seq<E> -> Attempt, trace: seq<E>, i: nat)
    requires i < |trace|
    ensures |Judged(judge, trace)| == |trace|
    ensures Judged(judge, trace)[i] == judge(trace[..i + 1])
    ensures Judged(judge, trace)[..i] == Judged(judge, trace[..i])
  {
    var n := |trace| - 1;
    if n > 0 { JudgedAt(judge, trace[..n], if i < n then i else n - 1); }
    if i < n {
      assert trace[..n][..i + 1] == trace[..i + 1] && trace[..n][..i] == trace[..i];
    } else {
      assert trace[..n + 1] == trace;
    }
  }

  /** The alert of the i-th event is the verdict on its attempt. */
  lemma {:induction false} AlertIsFiring<E>(judge: seq<E> -> Attempt, trace: seq<E>, i: nat, cooldown: int)
    requires i < |trace|
    ensures |Judged(judge, trace)| == |trace| && Judged(judge, trace)[i] == judge(trace[..i + 1])
    ensures AlertsAt(judge, trace[..i + 1], cooldown) == FiresAt(Judged(judge, trace), i, cooldown)
  {
    hide Judged;
    JudgedAt(judge, trace, i);
    assert trace[..i + 1][..i] == trace[..i];
  }

  /** Any two alerts of a history are at least one cooldown apart. */
  lemma HistoryGap<E>(judge: seq<E> -> Attempt, trace: seq<E>, i: nat, j: nat, cooldown: nat)
    requires i < j < |trace|
    requires AlertsAt(judge, trace[..i + 1], cooldown) && AlertsAt(judge, trace[..j + 1], cooldown)
    ensures judge(trace[..j + 1]).second - judge(trace[..i + 1]).second >= cooldown
  {
    hide Judged, AlertsAt;
    AlertIsFiring(judge, trace, i, cooldown);
    AlertIsFiring(judge, trace, j, cooldown);
    AlertGap(Judged(judge, trace), i, j, cooldown);
  }

  /** Whether the i-th event of a history raised an alert. */
  predicate AlertOf<E>(judge: seq<E> -> Attempt, trace: seq<E>, i: nat, cooldown: int)
    requires i < |trace|
  {
    AlertsAt(judge, trace[..i + 1], cooldown)
  }

  /** A qualifying event is silent exactly when an earlier alert is less than one cooldown before it, or after it. */
  lemma HistorySuppressed<E>(judge: seq<E> -> Attempt, trace: seq<E>, j: nat, cooldown: nat)
    requires j < |trace| && judge(trace[..j + 1]).qualifies
    ensures !AlertOf(judge, trace, j, cooldown)
       <==> exists i :: 0 <= i < j && AlertOf(judge, trace, i, cooldown)
                        && judge(trace[..j + 1]).second - judge(trace[..i + 1]).second < cooldown
  {
    hide Judged, AlertsAt;
    var all := Judged(judge, trace);
    forall i | 0 <= i <= j
      ensures |all| == |trace| && all[i] == judge(trace[..i + 1])
      ensures AlertOf(judge, trace, i, cooldown) == FiresAt(all, i, cooldown)
    {
      AlertIsFiring(judge, trace, i, cooldown);
    }
    AlertIsFiring(judge, trace, j, cooldown);
    SuppressedExactly(all, j, cooldown);
  }

  lemma {:induction false} SecondsAreAlerts<E>(judge: seq<E> -> Attempt, trace: seq<E>, cooldown: int)
    ensures AlertSeconds(judge, trace, cooldown) == Alerts(Judged(judge, trace), cooldown)
  {
    if trace != [] {
      var n := |trace| - 1;
      SecondsAreAlerts(judge, trace[..n], cooldown);
      AlertIsFiring(judge, trace, n, cooldown);
      assert trace[..n + 1] == trace;
      var all := Judged(judge, trace);
      assert all[..n] == Judged(judge, trace[..n]);
    }
  }

  /** Any k of the seconds, one after the other, span at least k - 1 cooldowns. */
  ghost predicate Spaced(seconds: seq<int>, cooldown: nat) {
    forall i, j :: 0 <= i <= j < |seconds| ==> seconds[j] - seconds[i] >= (j - i) * cooldown
  }

  /** k alerts of a history span at least k - 1 cooldowns. */
  lemma {:induction false} HistorySpan<E>(judge: seq<E> -> Attempt, trace: seq<E>, cooldown: nat)
    ensures Spaced(AlertSeconds(judge, trace, cooldown), cooldown)
  {
    hide Judged, AlertSeconds;
    SecondsAreAlerts(judge, trace, cooldown);
    var seconds := AlertSeconds(judge, trace, cooldown);
    forall i, j | 0 <= i <= j < |seconds| ensures seconds[j] - seconds[i] >= (j - i) * cooldown {
      AlertSpan(Judged(judge, trace), cooldown, i, j);
    }
  }
}
