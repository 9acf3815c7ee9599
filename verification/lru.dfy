/**
 The access-ordered map of windows, common to both detectors: a LinkedHashMap in
 access order whose `removeEldestEntry` keeps at most `max` keys, plus a sweep of
 idle keys at every 1000th call. What is stored per key is the list of events the
 key has received since its entry was created.
 */
module LruTable {
  import opened Collections
  import opened Recency

  /** What a window is kept for: a client (domain and IP) or a domain. */
  datatype Key = Key(text: string)

  const SWEEP_EVERY := 1000

  datatype Call<E> = Call(key: Key, event: E, now: int)

  datatype State<E> = State(
    traces: map<Key, seq<E>>,
    lastSeen: map<Key, int>,
    order: seq<Key>,
    calls: nat)

  datatype Limits = Limits(max: nat, grace: nat)

  function Start<E>(): State<E> { State(map[], map[], [], 0) }

  function TraceOf<E>(m: map<Key, seq<E>>, k: Key): seq<E> {
    if k in m then m[k] else []
  }

  /** Whether inserting `key` makes removeEldestEntry drop the eldest key. */
  predicate Overflows(order: seq<Key>, key: Key, present: bool, lim: Limits) {
    !present && |Refreshed(order, key)| > lim.max
  }

  function Evicted(order: seq<Key>, key: Key, present: bool, lim: Limits): set<Key> {
    if Overflows(order, key, present, lim) then {Refreshed(order, key)[0]} else {}
  }

  function Accessed(order: seq<Key>, key: Key, present: bool, lim: Limits): seq<Key> {
    if Overflows(order, key, present, lim) then Refreshed(order, key)[1..] else Refreshed(order, key)
  }

  /** computeIfAbsent: the key becomes the most recent; a new key may evict the eldest. */
  function Touch<E>(s: State<E>, c: Call<E>, lim: Limits): State<E> {
    var gone := Evicted(s.order, c.key, c.key in s.traces, lim);
    State((s.traces - gone)[c.key := TraceOf(s.traces, c.key) + [c.event]],
          (s.lastSeen - gone)[c.key := c.now],
          Accessed(s.order, c.key, c.key in s.traces, lim),
          s.calls + 1)
  }

  function Idle(lastSeen: map<Key, int>, before: int): set<Key> {
    set k | k in lastSeen && lastSeen[k] < before
  }

  /** The sweep of entries not processed within the grace period. */
  function Sweep<E>(s: State<E>, now: int, lim: Limits): State<E> {
    if s.calls % SWEEP_EVERY != 0 then s
    else
      var idle := Idle(s.lastSeen, now - lim.grace);
      s.(traces := s.traces - idle, lastSeen := s.lastSeen - idle, order := Drop(s.order, idle))
  }

  function Step<E>(s: State<E>, c: Call<E>, lim: Limits): State<E> {
    Sweep(Touch(s, c, lim), c.now, lim)
  }

  function Run<E>(calls: seq<Call<E>>, lim: Limits): State<E> {
    if calls == [] then Start()
    else Step(Run(calls[..|calls| - 1], lim), calls[|calls| - 1], lim)
  }

  ghost predicate Consistent<E>(s: State<E>, lim: Limits) {
    && Unique(s.order)
    && Elements(s.order) == s.traces.Keys
    && s.lastSeen.Keys == s.traces.Keys
    && |s.order| <= lim.max
  }

  lemma NoEviction(order: seq<Key>, key: Key, lim: Limits)
    ensures Evicted(order, key, true, lim) == {} && Accessed(order, key, true, lim) == Refreshed(order, key)
  {
  }

  lemma TouchKeys<E>(s: State<E>, c: Call<E>, lim: Limits)
    requires s.lastSeen.Keys == s.traces.Keys
    ensures var t := Touch(s, c, lim); var present := c.key in s.traces;
            && t.traces.Keys == t.lastSeen.Keys == (s.traces.Keys - Evicted(s.order, c.key, present, lim)) + {c.key}
            && t.order == Accessed(s.order, c.key, present, lim)
            && t.calls == s.calls + 1
  {
    hide Evicted, Accessed;
  }

  lemma TouchConsistent<E>(s: State<E>, c: Call<E>, lim: Limits)
    requires Consistent(s, lim) && lim.max >= 1
    ensures Consistent(Touch(s, c, lim), lim)
    ensures var order := Touch(s, c, lim).order; order != [] && order[|order| - 1] == c.key
  {
    hide Drop, Refreshed, Unique, Elements;
    var present := c.key in s.traces;
    TouchKeys(s, c, lim);
    RefreshedFacts(s.order, c.key);
    SizeOfOrder(s, lim);
    if Overflows(s.order, c.key, present, lim) { EldestLeaves(Refreshed(s.order, c.key), c.key); }
  }

  lemma EldestLeaves(order: seq<Key>, key: Key)
    requires Unique(order) && |order| > 1 && order[|order| - 1] == key
    ensures Unique(order[1..]) && Elements(order[1..]) == (Elements(order) - {key} - {order[0]}) + {key}
  {
    UniqueTail(order);
  }

  lemma SizeOfOrder<E>(s: State<E>, lim: Limits)
    requires Consistent(s, lim)
    ensures |s.order| == |s.traces.Keys|
  {
    UniqueSize(s.order);
  }

  /** A key new to the table is appended; if that overflows, the eldest key is another one. */
  lemma NewKey<E>(s: State<E>, key: Key, lim: Limits)
    requires Consistent(s, lim) && lim.max >= 1 && key !in s.traces
    ensures Refreshed(s.order, key) == s.order + [key]
    ensures |s.order| + 1 > lim.max ==> s.order != [] && s.order[0] != key && s.order[0] in s.traces
  {
    DropNothing(s.order, {key});
    UniqueSize(s.order);
    if s.order != [] { assert s.order[0] in Elements(s.order); }
  }

  lemma SweepConsistent<E>(s: State<E>, now: int, lim: Limits)
    requires Consistent(s, lim)
    ensures Consistent(Sweep(s, now, lim), lim)
  {
    hide Drop, Unique, Elements, Idle;
    var idle := Idle(s.lastSeen, now - lim.grace);
    DropElements(s.order, idle);
    DropUnique(s.order, idle);
    DropShorter(s.order, idle);
  }

  lemma DropLast<T>(s: seq<T>, gone: set<T>)
    requires s != [] && s[|s| - 1] !in gone
    ensures Drop(s, gone) != [] && Drop(s, gone)[|Drop(s, gone)| - 1] == s[|s| - 1]
  {
  }

  lemma StepConsistent<E>(s: State<E>, c: Call<E>, lim: Limits)
    requires Consistent(s, lim) && lim.max >= 1
    ensures Consistent(Step(s, c, lim), lim)
    ensures c.key in Step(s, c, lim).traces
    ensures var order := Step(s, c, lim).order; order != [] && order[|order| - 1] == c.key
  {
    TouchConsistent(s, c, lim);
    var t := Touch(s, c, lim);
    SweepConsistent(t, c.now, lim);
    DropLast(t.order, Idle(t.lastSeen, c.now - lim.grace));
  }

  /** At most `max` windows after every call, and the key just analysed is one of them. */
  lemma {:induction false} Capacity<E>(calls: seq<Call<E>>, lim: Limits)
    requires lim.max >= 1
    ensures Consistent(Run(calls, lim), lim) && |Run(calls, lim).traces| <= lim.max
    ensures calls != [] ==> calls[|calls| - 1].key in Run(calls, lim).traces
    ensures Run(calls, lim).calls == |calls|
  {
    if calls != [] {
      var n := |calls| - 1;
      Capacity(calls[..n], lim);
      StepConsistent(Run(calls[..n], lim), calls[n], lim);
    }
    UniqueSize(Run(calls, lim).order);
  }

  /** A new key is appended to the order, and never evicts itself. */
  predicate Admissible(order: seq<Key>, key: Key, present: bool, lim: Limits) {
    && (!present ==> Refreshed(order, key) == order + [key])
    && (Overflows(order, key, present, lim) ==> Refreshed(order, key)[0] != key)
  }

  /** What an admitted event finds, and what it leaves. */
  lemma {:induction false} Admission<E>(calls: seq<Call<E>>, c: Call<E>, lim: Limits)
    requires lim.max >= 1
    ensures var s := Run(calls, lim); var next := Run(calls + [c], lim);
            && s.lastSeen.Keys == s.traces.Keys && s.calls == |calls|
            && Admissible(s.order, c.key, c.key in s.traces, lim)
            && next == Step(s, c, lim)
            && c.key in next.traces && next.traces[c.key] == TraceOf(s.traces, c.key) + [c.event]
  {
    Capacity(calls, lim);
    var s := Run(calls, lim);
    assert (calls + [c])[..|calls|] == calls;
    StepConsistent(s, c, lim);
    if c.key !in s.traces { NewKey(s, c.key, lim); }
  }

  /** The keys of the calls. */
  function Log<E>(calls: seq<Call<E>>): seq<Key> { seq(|calls|, i requires 0 <= i < |calls| => calls[i].key) }

  lemma LogAppend<E>(calls: seq<Call<E>>, c: Call<E>)
    ensures Log(calls + [c]) == Log(calls) + [c.key]
  {
  }

  ghost predicate Remembers<E>(lastSeen: map<Key, int>, calls: seq<Call<E>>) {
    forall k :: k in lastSeen ==>
      0 <= LastUse(Log(calls), k) < |calls| && lastSeen[k] == calls[LastUse(Log(calls), k)].now
  }

  lemma TouchByRecency<E>(s: State<E>, calls: seq<Call<E>>, c: Call<E>, lim: Limits)
    requires ByRecency(s.order, Log(calls)) && Remembers(s.lastSeen, calls)
    ensures ByRecency(Touch(s, c, lim).order, Log(calls + [c]))
    ensures Remembers(Touch(s, c, lim).lastSeen, calls + [c])
  {
    hide LastUse, Drop;
    RefreshedByRecency(s.order, Log(calls), c.key);
    LogAppend(calls, c);
    var after := calls + [c];
    var t := Touch(s, c, lim);
    forall k | k in t.lastSeen
      ensures 0 <= LastUse(Log(after), k) < |after| && t.lastSeen[k] == after[LastUse(Log(after), k)].now
    {
      LastUseAppend(Log(calls), c.key, k);
      if k != c.key { assert k in s.lastSeen; }
    }
  }

  lemma SweepByRecency<E>(s: State<E>, calls: seq<Call<E>>, now: int, lim: Limits)
    requires ByRecency(s.order, Log(calls)) && Remembers(s.lastSeen, calls)
    ensures ByRecency(Sweep(s, now, lim).order, Log(calls))
    ensures Remembers(Sweep(s, now, lim).lastSeen, calls)
  {
    DropKeepsRecency(s.order, Idle(s.lastSeen, now - lim.grace), Log(calls));
  }

  /** In every reachable table the keys are ordered by their last use, and each remembers when that was. */
  lemma {:induction false} OrderedByRecency<E>(calls: seq<Call<E>>, lim: Limits)
    ensures ByRecency(Run(calls, lim).order, Log(calls))
    ensures Remembers(Run(calls, lim).lastSeen, calls)
  {
    if calls != [] {
      var n := |calls| - 1;
      var c := calls[n];
      OrderedByRecency(calls[..n], lim);
      assert calls == calls[..n] + [c];
      TouchByRecency(Run(calls[..n], lim), calls[..n], c, lim);
      SweepByRecency(Touch(Run(calls[..n], lim), c, lim), calls, c.now, lim);
    }
  }

  /** `j` is the least recently used key of a full table, and the arriving key is new to it. */
  ghost predicate EldestEvicted<E>(before: State<E>, past: seq<Call<E>>, c: Call<E>, lim: Limits, j: Key) {
    && c.key !in before.traces
    && |before.traces| == lim.max
    && forall k :: k in before.traces && k != j ==> LastUse(Log(past), j) < LastUse(Log(past), k)
  }

  /** `j` was last used longer ago than the grace period, and this is a sweeping call. */
  ghost predicate IdleSwept<E>(before: State<E>, past: seq<Call<E>>, c: Call<E>, lim: Limits, j: Key) {
    && (|past| + 1) % SWEEP_EVERY == 0
    && 0 <= LastUse(Log(past), j) < |past|
    && past[LastUse(Log(past), j)].now < c.now - lim.grace
  }

  /**
   A key leaves the table only as the least recently used one when a new key arrives at
   a full table, or in a 1000th-call sweep after being idle for longer than the grace.
   */
  lemma {:induction false} WhyRemoved<E>(past: seq<Call<E>>, c: Call<E>, lim: Limits, j: Key)
    requires lim.max >= 1
    requires j in Run(past, lim).traces && j !in Run(past + [c], lim).traces
    ensures EldestEvicted(Run(past, lim), past, c, lim, j) || IdleSwept(Run(past, lim), past, c, lim, j)
  {
    assert (past + [c])[..|past|] == past;
    Capacity(past, lim);
    OrderedByRecency(past, lim);
    hide Touch, Consistent;
    if j !in Touch(Run(past, lim), c, lim).traces {
      EvictedIsEldest(Run(past, lim), past, c, lim, j);
    } else {
      SweptIsIdle(Run(past, lim), past, c, lim, j);
    }
  }

  /** And it leaves the table whenever one of the two applies to it, unless it is the key of the call. */
  lemma {:induction false} RemovedExactly<E>(past: seq<Call<E>>, c: Call<E>, lim: Limits, j: Key)
    requires lim.max >= 1 && j in Run(past, lim).traces
    ensures j !in Run(past + [c], lim).traces
       <==> && j != c.key
            && (EldestEvicted(Run(past, lim), past, c, lim, j) || IdleSwept(Run(past, lim), past, c, lim, j))
  {
    hide Touch, Consistent, Run, Sweep, EldestEvicted, IdleSwept;
    var before := Run(past, lim);
    Capacity(past, lim);
    OrderedByRecency(past, lim);
    Admission(past, c, lim);
    if j !in Run(past + [c], lim).traces { WhyRemoved(past, c, lim, j); }
    if j != c.key && EldestEvicted(before, past, c, lim, j) { EldestIsEvicted(before, past, c, lim, j); }
    if j != c.key && IdleSwept(before, past, c, lim, j) { IdleIsSwept(before, past, c, lim, j); }
  }

  lemma EldestIsEvicted<E>(before: State<E>, past: seq<Call<E>>, c: Call<E>, lim: Limits, j: Key)
    requires lim.max >= 1 && Consistent(before, lim) && ByRecency(before.order, Log(past))
    requires j in before.traces && EldestEvicted(before, past, c, lim, j)
    ensures j !in Step(before, c, lim).traces
  {
    hide Drop;
    FullOrder(before.order, c.key);
    UniqueSize(before.order);
    var order := Refreshed(before.order, c.key);
    assert j in Elements(before.order);
    var i :| 0 <= i < |before.order| && before.order[i] == j;
    assert before.order[0] in Elements(before.order);
    assert order[0] == j;
  }

  lemma IdleIsSwept<E>(before: State<E>, past: seq<Call<E>>, c: Call<E>, lim: Limits, j: Key)
    requires before.calls == |past| && Remembers(before.lastSeen, past) && before.lastSeen.Keys == before.traces.Keys
    requires j in before.traces && j != c.key && IdleSwept(before, past, c, lim, j)
    ensures j !in Step(before, c, lim).traces
  {
    hide Drop, Refreshed;
    assert before.lastSeen[j] < c.now - lim.grace;
    assert j in Touch(before, c, lim).traces ==> j in Idle(Touch(before, c, lim).lastSeen, c.now - lim.grace);
  }

  lemma SweptIsIdle<E>(before: State<E>, past: seq<Call<E>>, c: Call<E>, lim: Limits, j: Key)
    requires Consistent(before, lim) && before.calls == |past| && Remembers(before.lastSeen, past)
    requires j in before.traces
    requires j in Touch(before, c, lim).traces && j !in Step(before, c, lim).traces
    ensures IdleSwept(before, past, c, lim, j)
  {
    hide Drop;
    assert j != c.key;
  }

  lemma EvictedIsEldest<E>(before: State<E>, past: seq<Call<E>>, c: Call<E>, lim: Limits, j: Key)
    requires lim.max >= 1 && Consistent(before, lim) && ByRecency(before.order, Log(past))
    requires j in before.traces && j !in Touch(before, c, lim).traces
    ensures EldestEvicted(before, past, c, lim, j)
  {
    hide Drop;
    var order := Refreshed(before.order, c.key);
    assert c.key !in before.traces && |order| > lim.max && j == order[0];
    FullOrder(before.order, c.key);
    UniqueSize(before.order);
    forall k | k in before.traces && k != j ensures LastUse(Log(past), j) < LastUse(Log(past), k) {
      assert k in Elements(before.order);
      var i :| 0 <= i < |before.order| && before.order[i] == k;
    }
  }

  lemma FullOrder(order: seq<Key>, key: Key)
    requires key !in Elements(order)
    ensures Refreshed(order, key) == order + [key]
  {
    DropNothing(order, {key});
  }

  // ------------------------------------------------------- non-interference

  /** The events of one key, in order. */
  function Project<E>(calls: seq<Call<E>>, k: Key): seq<E> {
    if calls == [] then []
    else if calls[|calls| - 1].key == k then Project(calls[..|calls| - 1], k) + [calls[|calls| - 1].event]
    else Project(calls[..|calls| - 1], k)
  }

  /** The calls of one key, in order. */
  function Only<E>(calls: seq<Call<E>>, k: Key): seq<Call<E>> {
    if calls == [] then []
    else if calls[|calls| - 1].key == k then Only(calls[..|calls| - 1], k) + [calls[|calls| - 1]]
    else Only(calls[..|calls| - 1], k)
  }

  /** The call that created the present entry of `k`. */
  ghost function Birth<E>(calls: seq<Call<E>>, lim: Limits, k: Key): (b: nat)
    ensures b <= |calls|
  {
    if calls == [] then 0
    else if k !in Run(calls[..|calls| - 1], lim).traces then |calls| - 1
    else Birth(calls[..|calls| - 1], lim, k)
  }

  /** One call extends its own key's entry and leaves every other surviving entry as it was. */
  lemma {:induction false} LastCall<E>(calls: seq<Call<E>>, lim: Limits, k: Key)
    requires k in Run(calls, lim).traces
    ensures calls != []
    ensures var past, c := Run(calls[..|calls| - 1], lim).traces, calls[|calls| - 1];
            && (k in past || k == c.key)
            && Run(calls, lim).traces[k] == if k == c.key then TraceOf(past, k) + [c.event] else TraceOf(past, k)
  {
  }

  /** The entry was created by the call at its birth, and has been in the table ever since. */
  lemma {:induction false} AliveSinceBirth<E>(calls: seq<Call<E>>, lim: Limits, k: Key, m: nat)
    requires k in Run(calls, lim).traces && Birth(calls, lim, k) < m <= |calls|
    ensures k in Run(calls[..m], lim).traces
    ensures calls[Birth(calls, lim, k)].key == k
    ensures k !in Run(calls[..Birth(calls, lim, k)], lim).traces
  {
    hide Run;
    var n := |calls| - 1;
    LastCall(calls, lim, k);
    assert calls[..|calls|] == calls;
    if k in Run(calls[..n], lim).traces {
      var b := Birth(calls[..n], lim, k);
      assert calls[..n][..b] == calls[..b];
      assert m <= n ==> calls[..n][..m] == calls[..m];
      BirthBefore(calls[..n], lim, k);
      AliveSinceBirth(calls[..n], lim, k, if m <= n then m else n);
    }
  }

  lemma {:induction false} BirthBefore<E>(calls: seq<Call<E>>, lim: Limits, k: Key)
    requires k in Run(calls, lim).traces
    ensures Birth(calls, lim, k) < |calls|
  {
    var n := |calls| - 1;
    if k in Run(calls[..n], lim).traces { BirthBefore(calls[..n], lim, k); }
  }

  /**
   A surviving entry holds exactly its own key's events since it was created, whatever
   the other keys did in between.
   */
  lemma {:induction false} TraceIsProjection<E>(calls: seq<Call<E>>, lim: Limits, k: Key)
    requires k in Run(calls, lim).traces
    ensures Run(calls, lim).traces[k] == Project(calls[Birth(calls, lim, k)..], k)
  {
    hide Run;
    var n := |calls| - 1;
    var b := Birth(calls, lim, k);
    var tail := calls[b..];
    LastCall(calls, lim, k);
    BirthBefore(calls, lim, k);
    assert tail[|tail| - 1] == calls[n];
    if k in Run(calls[..n], lim).traces {
      TraceIsProjection(calls[..n], lim, k);
      BirthBefore(calls[..n], lim, k);
      assert tail[..|tail| - 1] == calls[..n][b..];
    } else {
      assert tail[..|tail| - 1] == [];
    }
  }

  lemma {:induction false} AloneRun<E>(calls: seq<Call<E>>, lim: Limits, k: Key)
    requires lim.max >= 1
    ensures var alone := Only(calls, k);
            TraceOf(Run(alone, lim).traces, k) == Project(calls, k) && Run(alone, lim).traces.Keys <= {k}
  {
    if calls != [] {
      var n := |calls| - 1;
      AloneRun(calls[..n], lim, k);
      if calls[n].key == k {
        var alone := Only(calls, k);
        assert alone[..|alone| - 1] == Only(calls[..n], k);
        Capacity(Only(calls[..n], k), lim);
        StepConsistent(Run(Only(calls[..n], k), lim), calls[n], lim);
      }
    }
  }

  /** Running a surviving key alone since its entry was created gives the same entry. */
  lemma {:induction false} NonInterference<E>(calls: seq<Call<E>>, lim: Limits, k: Key)
    requires lim.max >= 1 && k in Run(calls, lim).traces
    ensures var alone := Only(calls[Birth(calls, lim, k)..], k);
            k in Run(alone, lim).traces && Run(alone, lim).traces[k] == Run(calls, lim).traces[k] != []
  {
    TraceIsProjection(calls, lim, k);
    BirthBefore(calls, lim, k);
    AliveSinceBirth(calls, lim, k, |calls|);
    var b := Birth(calls, lim, k);
    AloneRun(calls[b..], lim, k);
    ProjectNonEmpty(calls[b..], k, 0);
  }

  lemma {:induction false} ProjectNonEmpty<E>(calls: seq<Call<E>>, k: Key, i: nat)
    requires i < |calls| && calls[i].key == k
    ensures Project(calls, k) != []
  {
    if i < |calls| - 1 { ProjectNonEmpty(calls[..|calls| - 1], k, i); }
  }
}
