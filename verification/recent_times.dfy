/** A deque of recent times that is only ever shortened at its front, by age and by length. */
module RecentTimes {
  /** The first time at or after position `at` that is not before the cutoff. */
  function FirstLive(times: seq<real>, at: nat, cutoff: real): (r: nat)
    requires at <= |times|
    ensures at <= r <= |times|
    ensures forall i :: at <= i < r ==> times[i] < cutoff
    ensures r < |times| ==> times[r] >= cutoff
    decreases |times| - at
  {
    if at < |times| && times[at] < cutoff then FirstLive(times, at + 1, cutoff) else at
  }

  function Larger(a: int, b: int): int { if a < b then b else a }

  /** Where the deque begins in the history of all times. */
  function Start(times: seq<real>, window: real, cap: nat): (r: nat)
    ensures r <= |times| && |times| - r <= cap
  {
    if times == [] then 0
    else
      var n := |times| - 1;
      Larger(FirstLive(times, Start(times[..n], window, cap), times[n] - window), |times| - cap)
  }

  function Held(times: seq<real>, window: real, cap: nat): seq<real> { times[Start(times, window, cap)..] }

  // ------------------------------------------------------- one step of the deque

  /** Trimming a suffix of the history is trimming the history. */
  lemma {:induction false} TrimmedSuffix(times: seq<real>, start: nat, at: nat, cutoff: real)
    requires start <= at <= |times|
    ensures FirstLive(times, at, cutoff) == start + FirstLive(times[start..], at - start, cutoff)
    decreases |times| - at
  {
    if at < |times| && times[at] < cutoff { TrimmedSuffix(times, start, at + 1, cutoff); }
  }

  lemma SuffixOfSuffix(times: seq<real>, i: nat, j: nat)
    requires i + j <= |times|
    ensures times[i..][j..] == times[i + j..]
  {
  }

  lemma StartStep(past: seq<real>, now: real, window: real, cap: nat)
    ensures var all := past + [now];
            Start(all, window, cap)
              == Larger(FirstLive(all, Start(past, window, cap), now - window), |all| - cap)
  {
    assert (past + [now])[..|past|] == past;
  }

  lemma TrimThenCap(all: seq<real>, from: nat, cap: nat)
    requires from <= |all|
    ensures all[from..][Larger(0, |all[from..]| - cap)..] == all[Larger(from, |all| - cap)..]
  {
    SuffixOfSuffix(all, from, Larger(0, |all| - from - cap));
  }

  /** Append, trim, cap. */
  lemma {:induction false} HeldStep(past: seq<real>, now: real, window: real, cap: nat)
    ensures var grown := Held(past, window, cap) + [now];
            var trimmed := grown[FirstLive(grown, 0, now - window)..];
            Held(past + [now], window, cap) == trimmed[Larger(0, |trimmed| - cap)..]
  {
    hide FirstLive, Start, Larger;
    var all := past + [now];
    var start := Start(past, window, cap);
    StartStep(past, now, window, cap);
    assert all[start..] == Held(past, window, cap) + [now];
    TrimmedSuffix(all, start, start, now - window);
    var live := FirstLive(all[start..], 0, now - window);
    SuffixOfSuffix(all, start, live);
    TrimThenCap(all, start + live, cap);
  }

  lemma NothingHeld(window: real, cap: nat)
    ensures Held([], window, cap) == [] && Start([], window, cap) == 0
  {
  }

  // ------------------------------------------------------ what should be held

  /** The times not before the cutoff, wherever they stand, in order. */
  function Live(times: seq<real>, cutoff: real): seq<real> {
    if times == [] then []
    else Live(times[..|times| - 1], cutoff) + if times[|times| - 1] >= cutoff then [times[|times| - 1]] else []
  }

  function Newest(s: seq<real>, cap: nat): seq<real> { if |s| > cap then s[|s| - cap..] else s }

  /** The deque holds exactly the newest times of the window that ends at the last one. */
  ghost predicate Exact(times: seq<real>, window: real, cap: nat)
    requires times != []
  {
    Held(times, window, cap) == Newest(Live(times, times[|times| - 1] - window), cap)
  }

  /** ... after every record. */
  ghost predicate AlwaysExact(times: seq<real>, window: real, cap: nat) {
    forall m :: 0 < m <= |times| ==> Exact(times[..m], window, cap)
  }

  predicate Expired(times: seq<real>, i: nat, k: nat, window: real)
    requires i < |times| && k < |times|
  {
    times[i] < times[k] - window
  }

  /**
   What the k-th clock reading must not do: leave an expired time, among the last `cap`, behind
   one that is not, or revive one of them that had expired at the reading before.
   */
  ghost predicate SteadyAt(times: seq<real>, k: nat, window: real, cap: nat)
    requires k < |times|
  {
    && (forall i, j :: 0 <= i < j <= k && k - cap < j && Expired(times, j, k, window) ==> Expired(times, i, k, window))
    && (forall i :: 0 <= i < k && k - cap < i && Expired(times, i, k - 1, window) ==> Expired(times, i, k, window))
  }

  ghost predicate Steady(times: seq<real>, window: real, cap: nat) {
    forall k :: 0 <= k < |times| ==> SteadyAt(times, k, window, cap)
  }

  // ------------------------------------------------------------- the theorem

  /** By position: after record `k` nothing expired is held, and below the cap nothing live is missing. */
  ghost predicate Partitioned(times: seq<real>, k: nat, start: nat, window: real, cap: nat)
    requires k < |times| && start <= k + 1
  {
    && (forall i :: start <= i <= k ==> !Expired(times, i, k, window))
    && (k + 1 - start < cap ==> forall i :: 0 <= i < start ==> Expired(times, i, k, window))
  }

  lemma {:induction false} LiveConcat(a: seq<real>, b: seq<real>, cutoff: real)
    ensures Live(a + b, cutoff) == Live(a, cutoff) + Live(b, cutoff)
  {
    if b == [] {
      assert a + b == a;
    } else {
      var n := |b| - 1;
      assert (a + b)[..|a + b| - 1] == a + b[..n];
      LiveConcat(a, b[..n], cutoff);
    }
  }

  ghost predicate AllLive(times: seq<real>, cutoff: real) { forall i :: 0 <= i < |times| ==> times[i] >= cutoff }

  ghost predicate NoneLive(times: seq<real>, cutoff: real) { forall i :: 0 <= i < |times| ==> times[i] < cutoff }

  lemma {:induction false} LiveOnly(times: seq<real>, cutoff: real)
    ensures AllLive(Live(times, cutoff), cutoff)
  {
    if times != [] { LiveOnly(times[..|times| - 1], cutoff); }
  }

  lemma {:induction false} LiveAll(times: seq<real>, cutoff: real)
    requires AllLive(times, cutoff)
    ensures Live(times, cutoff) == times
  {
    if times != [] {
      var n := |times| - 1;
      LiveAll(times[..n], cutoff);
      assert times == times[..n] + [times[n]];
    }
  }

  lemma NoneLiveSnoc(times: seq<real>, x: real, cutoff: real)
    ensures NoneLive(times + [x], cutoff) <==> NoneLive(times, cutoff) && x < cutoff
  {
    var all := times + [x];
    assert all[|times|] == x;
    assert forall i :: 0 <= i < |times| ==> all[i] == times[i];
    if NoneLive(all, cutoff) {
      forall i | 0 <= i < |times| ensures times[i] < cutoff { assert all[i] < cutoff; }
    }
  }

  lemma {:induction false} LiveNone(times: seq<real>, cutoff: real)
    ensures Live(times, cutoff) == [] <==> NoneLive(times, cutoff)
  {
    if times != [] {
      var n := |times| - 1;
      LiveNone(times[..n], cutoff);
      NoneLiveSnoc(times[..n], times[n], cutoff);
      assert times == times[..n] + [times[n]];
    }
  }

  /** Splitting the history anywhere: the rest is its newest live times exactly when the split is right. */
  lemma SplitIsNewest(before: seq<real>, held: seq<real>, cutoff: real, cap: nat)
    requires |held| <= cap
    ensures held == Newest(Live(before + held, cutoff), cap)
       <==> AllLive(held, cutoff) && (|held| < cap ==> NoneLive(before, cutoff))
  {
    hide Live;
    LiveConcat(before, held, cutoff);
    LiveOnly(before + held, cutoff);
    LiveNone(before, cutoff);
    var live := Live(before + held, cutoff);
    if held == Newest(live, cap) {
      forall i | 0 <= i < |held| ensures held[i] >= cutoff { assert held[i] == live[|live| - |held| + i]; }
    }
    if AllLive(held, cutoff) { LiveAll(held, cutoff); }
  }

  lemma PartitionedSplit(times: seq<real>, start: nat, window: real, cap: nat)
    requires times != [] && start <= |times|
    ensures var k := |times| - 1; var cutoff := times[k] - window;
            Partitioned(times, k, start, window, cap) <==>
              AllLive(times[start..], cutoff) && (|times| - start < cap ==> NoneLive(times[..start], cutoff))
  {
    var k := |times| - 1;
    var cutoff := times[k] - window;
    var before, held := times[..start], times[start..];
    if Partitioned(times, k, start, window, cap) {
      forall i | 0 <= i < |held| ensures held[i] >= cutoff { assert !Expired(times, start + i, k, window); }
      if |held| < cap {
        forall i | 0 <= i < start ensures before[i] < cutoff { assert Expired(times, i, k, window); }
      }
    }
    if AllLive(held, cutoff) && (|held| < cap ==> NoneLive(before, cutoff)) {
      forall i | start <= i <= k ensures !Expired(times, i, k, window) { assert held[i - start] >= cutoff; }
      if |held| < cap {
        forall i | 0 <= i < start ensures Expired(times, i, k, window) { assert before[i] < cutoff; }
      }
    }
  }

  /** Holding the right times and beginning at the right place are the same. */
  lemma ExactIsPartitioned(times: seq<real>, window: real, cap: nat)
    requires times != []
    ensures Exact(times, window, cap) <==> Partitioned(times, |times| - 1, Start(times, window, cap), window, cap)
  {
    hide Live, Start, Newest, AllLive, NoneLive, Partitioned;
    var start := Start(times, window, cap);
    assert times == times[..start] + times[start..];
    SplitIsNewest(times[..start], times[start..], times[|times| - 1] - window, cap);
    PartitionedSplit(times, start, window, cap);
  }

  /** The deque begins at `start` after record `k`, when it began at `before`. */
  ghost predicate Moves(times: seq<real>, k: nat, before: nat, start: nat, window: real, cap: nat)
    requires k < |times|
  {
    && before <= k && start <= k + 1 && k - before <= cap
    && start == Larger(FirstLive(times[..k + 1], before, times[k] - window), k + 1 - cap)
    && if k > 0 then Partitioned(times, k - 1, before, window, cap) else before == 0
  }

  lemma PartitionedIsSteady(times: seq<real>, k: nat, before: nat, start: nat, window: real, cap: nat)
    requires k < |times| && Moves(times, k, before, start, window, cap)
    requires Partitioned(times, k, start, window, cap)
    ensures SteadyAt(times, k, window, cap)
  {
    hide Expired;
    forall i | 0 <= i < k && k - cap < i && Expired(times, i, k - 1, window) ensures Expired(times, i, k, window) {
      assert i < before;
    }
  }

  lemma TrimmedTime(times: seq<real>, k: nat, before: nat, window: real, i: nat)
    requires k < |times| && before <= k
    requires before <= i < FirstLive(times[..k + 1], before, times[k] - window)
    ensures Expired(times, i, k, window)
  {
    assert times[..k + 1][i] == times[i];
  }

  lemma SteadyHoldsOnlyLive(times: seq<real>, k: nat, before: nat, start: nat, window: real, cap: nat, j: nat)
    requires k < |times| && Moves(times, k, before, start, window, cap)
    requires SteadyAt(times, k, window, cap) && start <= j <= k
    ensures !Expired(times, j, k, window)
  {
    var first := FirstLive(times[..k + 1], before, times[k] - window);
    assert times[..k + 1][first] == times[first];
    assert !Expired(times, first, k, window);
  }

  lemma SteadyMissesNothing(times: seq<real>, k: nat, before: nat, start: nat, window: real, cap: nat, i: nat)
    requires k < |times| && Moves(times, k, before, start, window, cap)
    requires SteadyAt(times, k, window, cap) && k + 1 - start < cap && i < start
    ensures Expired(times, i, k, window)
  {
    hide Expired, FirstLive;
    if i >= before {
      TrimmedTime(times, k, before, window, i);
    } else if i <= k - cap {
      var j := k - cap + 1;
      if j >= before { TrimmedTime(times, k, before, window, j); } else { assert Expired(times, j, k - 1, window); }
      assert Expired(times, j, k, window);
    } else {
      assert Expired(times, i, k - 1, window);
    }
  }

  /** One record after an exact deque: it is exact again if and only if the reading is steady. */
  lemma PartitionedStep(times: seq<real>, k: nat, before: nat, start: nat, window: real, cap: nat)
    requires k < |times| && Moves(times, k, before, start, window, cap)
    ensures Partitioned(times, k, start, window, cap) <==> SteadyAt(times, k, window, cap)
  {
    hide Expired, FirstLive;
    if Partitioned(times, k, start, window, cap) { PartitionedIsSteady(times, k, before, start, window, cap); }
    if SteadyAt(times, k, window, cap) {
      forall j | start <= j <= k ensures !Expired(times, j, k, window) {
        SteadyHoldsOnlyLive(times, k, before, start, window, cap, j);
      }
      if k + 1 - start < cap {
        forall i | 0 <= i < start ensures Expired(times, i, k, window) {
          SteadyMissesNothing(times, k, before, start, window, cap, i);
        }
      }
    }
  }

  lemma PartitionedPrefix(times: seq<real>, k: nat, start: nat, window: real, cap: nat)
    requires k < |times| && start <= k + 1
    ensures Partitioned(times[..k + 1], k, start, window, cap) <==> Partitioned(times, k, start, window, cap)
  {
    var prefix := times[..k + 1];
    forall i | 0 <= i <= k ensures Expired(prefix, i, k, window) == Expired(times, i, k, window) {}
    assert Partitioned(times, k, start, window, cap) ==> Partitioned(prefix, k, start, window, cap);
    assert Partitioned(prefix, k, start, window, cap) ==>
        forall i :: start <= i <= k ==> Expired(prefix, i, k, window) == Expired(times, i, k, window);
  }

  lemma ExactAt(times: seq<real>, k: nat, window: real, cap: nat)
    requires k < |times|
    ensures Exact(times[..k + 1], window, cap)
       <==> Partitioned(times, k, Start(times[..k + 1], window, cap), window, cap)
  {
    hide Exact, Partitioned, Start;
    ExactIsPartitioned(times[..k + 1], window, cap);
    PartitionedPrefix(times, k, Start(times[..k + 1], window, cap), window, cap);
  }

  lemma ExactStep(times: seq<real>, k: nat, window: real, cap: nat)
    requires k < |times| && (k > 0 ==> Exact(times[..k], window, cap))
    ensures Exact(times[..k + 1], window, cap) <==> SteadyAt(times, k, window, cap)
  {
    hide Exact, Partitioned, SteadyAt, FirstLive;
    var before := Start(times[..k], window, cap);
    assert times[..k + 1][..k] == times[..k];
    if k > 0 { ExactAt(times, k - 1, window, cap); }
    ExactAt(times, k, window, cap);
    PartitionedStep(times, k, before, Start(times[..k + 1], window, cap), window, cap);
  }

  /**
   After every record the deque holds exactly the newest times of the window, if and only if
   every clock reading is steady.
   */
  lemma {:induction false} AlwaysExactly(times: seq<real>, window: real, cap: nat)
    ensures AlwaysExact(times, window, cap) <==> Steady(times, window, cap)
  {
    hide Exact, SteadyAt;
    if AlwaysExact(times, window, cap) {
      forall k | 0 <= k < |times| ensures SteadyAt(times, k, window, cap) { ExactStep(times, k, window, cap); }
    }
    if Steady(times, window, cap) {
      forall m | 0 < m <= |times| ensures Exact(times[..m], window, cap) { SteadyIsExact(times, m, window, cap); }
    }
  }

  lemma {:induction false} SteadyIsExact(times: seq<real>, m: nat, window: real, cap: nat)
    requires 0 < m <= |times| && Steady(times, window, cap)
    ensures Exact(times[..m], window, cap)
  {
    hide Exact, SteadyAt;
    if m > 1 { SteadyIsExact(times, m - 1, window, cap); }
    ExactStep(times, m - 1, window, cap);
  }

  /** An exact deque is as long as the number of times in the window, up to the cap. */
  lemma ExactCount(times: seq<real>, window: real, cap: nat)
    requires times != [] && Exact(times, window, cap)
    ensures var live := |Live(times, times[|times| - 1] - window)|;
            |Held(times, window, cap)| == if live < cap then live else cap
  {
  }

  ghost predicate NonDecreasing(times: seq<real>) { forall i, j :: 0 <= i < j < |times| ==> times[i] <= times[j] }

  /** A clock that does not run backwards is steady, for every window and cap. */
  lemma {:induction false} ForwardIsSteady(times: seq<real>, window: real, cap: nat)
    requires NonDecreasing(times)
    ensures Steady(times, window, cap) && AlwaysExact(times, window, cap)
  {
    AlwaysExactly(times, window, cap);
  }

  /** A clock set back too far breaks both halves: an expired time is counted ... */
  lemma {:induction false} ExpiredIsCounted()
    ensures var times := [100.0, 50.0, 120.0];
            && !Steady(times, 60.0, 1000)
            && Held(times, 60.0, 1000) == times && Live(times, 120.0 - 60.0) == [100.0, 120.0]
  {
    var times := [100.0, 50.0, 120.0];
    var two := times[..2];
    assert two == [100.0, 50.0] && two[..1] == [100.0] && [100.0][..0] == [];
    assert Live([100.0], 60.0) == [100.0] && Live(two, 60.0) == [100.0];
    assert Start([100.0], 60.0, 1000) == 0 && Start(two, 60.0, 1000) == 0;
    assert Expired(times, 1, 2, 60.0) && !Expired(times, 0, 2, 60.0);
    assert !SteadyAt(times, 2, 60.0, 1000);
  }

  /** ... or a time of the window is missing. */
  lemma {:induction false} LiveIsMissing()
    ensures var times := [0.0, 100.0, 50.0];
            !Steady(times, 60.0, 1000) && Held(times, 60.0, 1000) == [100.0, 50.0] && Live(times, 50.0 - 60.0) == times
  {
    hide Start, FirstLive, Live;
    var times := [0.0, 100.0, 50.0];
    StartsSecond();
    LiveAll(times, -10.0);
    assert times[1..] == [100.0, 50.0];
    assert Expired(times, 0, 1, 60.0) && !Expired(times, 0, 2, 60.0);
    assert !SteadyAt(times, 2, 60.0, 1000);
  }

  lemma FirstLiveIs(times: seq<real>, at: nat, r: nat, cutoff: real)
    requires at <= r <= |times|
    requires (forall i :: at <= i < r ==> times[i] < cutoff) && (r < |times| ==> times[r] >= cutoff)
    ensures FirstLive(times, at, cutoff) == r
  {
    hide FirstLive;
  }

  lemma StartsSecond()
    ensures Start([0.0, 100.0, 50.0], 60.0, 1000) == 1
  {
    hide FirstLive, Start;
    NothingHeld(60.0, 1000);
    StartStep([], 0.0, 60.0, 1000);
    assert [] + [0.0] == [0.0] && [0.0] + [100.0] == [0.0, 100.0] && [0.0, 100.0] + [50.0] == [0.0, 100.0, 50.0];
    FirstLiveIs([0.0], 0, 0, -60.0);
    StartStep([0.0], 100.0, 60.0, 1000);
    FirstLiveIs([0.0, 100.0], 0, 1, 40.0);
    StartStep([0.0, 100.0], 50.0, 60.0, 1000);
    FirstLiveIs([0.0, 100.0, 50.0], 1, 1, -10.0);
  }

  /** A clock set back a little can be steady: running forward is enough, but not necessary. */
  lemma {:induction false} SlightlyBackIsSteady()
    ensures var times := [100.0, 99.0, 120.0]; !NonDecreasing(times) && Steady(times, 60.0, 1000)
  {
    var times := [100.0, 99.0, 120.0];
    assert times[0] > times[1];
  }
}
