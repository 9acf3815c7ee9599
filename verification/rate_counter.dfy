/** The sliding request-rate counter per (domain, IP), bounded per key and in keys. */
module RateCounter {
  import opened Collections
  import opened Recency
  import opened RecentTimes

  datatype Key = Key(domain: string, srcIp: string)

  // -------------------------------------------------------------- the keys

  /** `order` lists, from eldest to newest, the `cap` most recently recorded keys of `log`. */
  ghost predicate MostRecent(order: seq<Key>, log: seq<Key>, cap: nat) {
    && Unique(order) && Elements(order) <= Elements(log)
    && |order| == (if |Elements(log)| < cap then |Elements(log)| else cap)
    && ByRecency(order, log)
    && (forall i, k :: 0 <= i < |order| && k in Elements(log) && k !in Elements(order) ==>
          LastUse(log, k) < LastUse(log, order[i]))
  }

  function Trimmed(order: seq<Key>, cap: nat): seq<Key> {
    if |order| > cap then order[1..] else order
  }

  /** Before the cap is applied, the refreshed order is sorted and ahead of everything dropped. */
  lemma RefreshedRecent(order: seq<Key>, log: seq<Key>, k: Key, cap: nat)
    requires MostRecent(order, log, cap)
    ensures var grown := Refreshed(order, k); var after := log + [k];
            && ByRecency(grown, after)
            && (forall i, x :: 0 <= i < |grown| && x in Elements(after) && x !in Elements(grown) ==>
                  LastUse(after, x) < LastUse(after, grown[i]))
  {
    hide Elements, Drop, LastUse, Unique;
    var after := log + [k];
    forall x ensures LastUse(after, x) == if x == k then |log| else LastUse(log, x) { LastUseAppend(log, k, x); }
    forall x ensures -1 <= LastUse(log, x) < |log| { LastUseBound(log, x); }
    RefreshedByRecency(order, log, k);
    RefreshedFacts(order, k);
    ElementsAppend(log, k);
    var kept := Drop(order, {k});
    forall i | 0 <= i < |kept| ensures kept[i] in order && kept[i] != k { DropMember(order, {k}, kept[i]); }
  }

  lemma {:induction false} MostRecentKept(order: seq<Key>, log: seq<Key>, k: Key, cap: nat)
    requires MostRecent(order, log, cap)
    ensures MostRecent(Trimmed(Refreshed(order, k), cap), log + [k], cap)
    ensures |Refreshed(order, k)| <= cap + 1
  {
    hide Drop, LastUse, Unique, Elements;
    var grown := Refreshed(order, k);
    RefreshedFacts(order, k);
    RefreshedRecent(order, log, k, cap);
    ElementsAppend(log, k);
    UniqueSize(order);
    if k in Elements(log) { assert Elements(log) + {k} == Elements(log); }
    if |grown| > cap {
      UniqueTail(grown);
    } else if k in Elements(log) && k !in Elements(order) {
      SameSize(Elements(order), Elements(log));
    }
  }

  // ----------------------------------------------------------- the counter

  class RequestRateCounter {
    const window: real
    const maxIps: nat
    const maxPerIp: nat
    /** An OrderedDict: its deques, and its keys from eldest to newest. */
    var hits: map<Key, seq<real>>
    var order: seq<Key>
    /** All keys recorded so far, and per present key the times since it was last inserted. */
    ghost var log: seq<Key>
    ghost var times: map<Key, seq<real>>

    constructor (window: real, maxIps: nat, maxPerIp: nat)
      ensures Valid() && log == [] && hits == map[]
    {
      this.window, this.maxIps, this.maxPerIp := window, maxIps, maxPerIp;
      hits, order, log, times := map[], [], [], map[];
      assert Elements<Key>([]) == {};
    }

    ghost predicate Valid()
      reads this
    {
      && MostRecent(order, log, maxIps)
      && hits.Keys == times.Keys == Elements(order)
      && forall k :: k in hits ==> hits[k] == Held(times[k], window, maxPerIp)
    }

    /** The times recorded for `k` since it was last inserted. */
    ghost function TimesOf(k: Key): seq<real>
      reads this
    {
      if k in times then times[k] else []
    }

    method Record(key: Key, now: real) returns (count: nat)
      requires Valid()
      modifies this
      ensures Valid() && log == old(log) + [key] && |hits| <= maxIps
      ensures count == |Held(old(TimesOf(key)) + [now], window, maxPerIp)|
      ensures Steady(old(TimesOf(key)) + [now], window, maxPerIp) ==>
                var live := |Live(old(TimesOf(key)) + [now], now - window)|;
                count == if live < maxPerIp then live else maxPerIp
      ensures forall k :: k in times ==>
                times[k] == if k == key then old(TimesOf(key)) + [now] else old(TimesOf(k))
    {
      hide MostRecent, Held, Live, Steady, Drop, Unique, Elements;
      ghost var past := TimesOf(key);
      MostRecentKept(order, log, key, maxIps);
      KeyFacts(order, log, key, maxIps);
      if Steady(past + [now], window, maxPerIp) { SteadyCount(past, now, window, maxPerIp); }
      count := Push(key, now);
      order, log := Refreshed(order, key), log + [key];
      CapCapacity();
    }

    /** Appends to the key's deque, drops what left the window, and keeps at most `maxPerIp` times. */
    method Push(key: Key, now: real) returns (count: nat)
      requires forall k :: k in hits ==> k in times && hits[k] == Held(times[k], window, maxPerIp)
      requires hits.Keys == times.Keys
      modifies this`hits, this`times
      ensures times == old(times)[key := old(TimesOf(key)) + [now]]
      ensures hits.Keys == times.Keys == old(times.Keys) + {key}
      ensures forall k :: k in hits ==> hits[k] == Held(times[k], window, maxPerIp)
      ensures count == |Held(times[key], window, maxPerIp)|
    {
      hide Held;
      ghost var past := TimesOf(key);
      NothingHeld(window, maxPerIp);
      HeldStep(past, now, window, maxPerIp);
      var deque := (if key in hits then hits[key] else []) + [now];
      deque := TrimWindow(deque, now);
      deque := CapPerIp(deque);
      count := |deque|;
      hits, times := hits[key := deque], times[key := past + [now]];
    }

    /** `_cap_capacity`: forgets the least recently recorded keys. */
    method CapCapacity()
      requires Unique(order) && hits.Keys == times.Keys == Elements(order) && |order| <= maxIps + 1
      modifies this`hits, this`times, this`order
      ensures order == Trimmed(old(order), maxIps) && hits.Keys == times.Keys == Elements(order) && |hits| <= maxIps
      ensures forall k :: k in hits ==>
                k in old(hits) && hits[k] == old(hits)[k] && k in old(times) && times[k] == old(times)[k]
    {
      hide Elements, Unique;
      KeyCount(hits, order);
      while |hits| > maxIps
        invariant Unique(order) && hits.Keys == times.Keys == Elements(order) && |hits| == |order|
        invariant order == old(order) || order == Trimmed(old(order), maxIps)
        invariant forall k :: k in hits ==>
                    k in old(hits) && hits[k] == old(hits)[k] && k in old(times) && times[k] == old(times)[k]
        decreases |order|
      {
        UniqueTail(order);
        hits, times, order := hits - {order[0]}, times - {order[0]}, order[1..];
        KeyCount(hits, order);
      }
    }

    /** `_trim_window`: drops times from the front while they are before the cutoff. */
    method TrimWindow(timestamps: seq<real>, now: real) returns (r: seq<real>)
      ensures r == timestamps[FirstLive(timestamps, 0, now - window)..]
    {
      var cutoff := now - window;
      r := timestamps;
      ghost var at := 0;
      while r != [] && r[0] < cutoff
        invariant at <= |timestamps| && r == timestamps[at..]
        invariant FirstLive(timestamps, 0, cutoff) == FirstLive(timestamps, at, cutoff)
        decreases |r|
      {
        r, at := r[1..], at + 1;
      }
    }

    /** `_cap_per_ip`: keeps the newest times. */
    method CapPerIp(timestamps: seq<real>) returns (r: seq<real>)
      ensures r == timestamps[Larger(0, |timestamps| - maxPerIp)..]
    {
      r := timestamps;
      ghost var at := 0;
      while |r| > maxPerIp
        invariant 0 <= at <= Larger(0, |timestamps| - maxPerIp) && r == timestamps[at..]
        decreases |r|
      {
        r, at := r[1..], at + 1;
      }
    }
  }

  lemma SteadyCount(past: seq<real>, now: real, window: real, cap: nat)
    requires Steady(past + [now], window, cap)
    ensures var live := |Live(past + [now], now - window)|;
            |Held(past + [now], window, cap)| == if live < cap then live else cap
  {
    hide Held, Live, Steady;
    var all := past + [now];
    AlwaysExactly(all, window, cap);
    assert all[..|all|] == all;
    ExactCount(all, window, cap);
  }

  lemma KeyCount(hits: map<Key, seq<real>>, order: seq<Key>)
    requires hits.Keys == Elements(order) && Unique(order)
    ensures |hits| == |order|
  {
    UniqueSize(order);
    assert |hits| == |hits.Keys|;
  }

  lemma KeyFacts(order: seq<Key>, log: seq<Key>, k: Key, cap: nat)
    requires MostRecent(order, log, cap)
    ensures Unique(Refreshed(order, k)) && Elements(Refreshed(order, k)) == Elements(order) + {k}
  {
    RefreshedFacts(order, k);
  }
}
