/**
 The sliding event-time window that both detectors keep per key. The two nested
 `Window`/`Bucket` class pairs of the detector have the same shape; the DDoS one
 has no error counter, which here simply stays 0.
 */
module Windows {
  import opened Options
  import opened Collections
  import LruTable

  /** Java's long: what Instant.toEpochMilli can return. */
  type Long = x: int | -0x8000_0000_0000_0000 <= x < 0x8000_0000_0000_0000
  const LONG_MIN: int := -0x8000_0000_0000_0000

  /** Java's `millis / 1_000`, which truncates towards zero. */
  function WholeSeconds(millis: int): int { if millis >= 0 then millis / 1000 else -((-millis) / 1000) }

  /** The source's `lastAlertSecond`: Long.MIN_VALUE stands for "no alert yet". */
  function Sentinel(last: Option<int>): int { if last.None? then LONG_MIN else last.value }

  /** One event as a window sees it; `item` (a path or an IP) is None for static assets. */
  datatype Sample = Sample(time: Long, item: Option<string>, error: bool)

  /** The three things a window counts. */
  datatype Quantity = Requests | Errors | Item(name: string)

  predicate Counted(s: Sample, q: Quantity) {
    match q
    case Requests => true
    case Errors => s.item.Some? && s.error
    case Item(p) => s.item == Some(p)
  }

  predicate Hit(s: Sample, q: Quantity, lo: int, hi: int) {
    lo < s.time <= hi && Counted(s, q)
  }

  /** Plain recount: how many samples of `h` with lo < time <= hi count towards `q`. */
  function Recount(h: seq<Sample>, q: Quantity, lo: int, hi: int): nat {
    if h == [] then 0
    else Recount(h[..|h| - 1], q, lo, hi) + if Hit(h[|h| - 1], q, lo, hi) then 1 else 0
  }

  /** The distinct items among the samples of `h` with lo < time <= hi. */
  function Distinct(h: seq<Sample>, lo: int, hi: int): set<string> {
    set s | s in h && lo < s.time <= hi && s.item.Some? :: s.item.value
  }

  /** The greatest time in `h`, or the initial value of the source's field. */
  function Latest(h: seq<Sample>): int {
    if h == [] then LONG_MIN
    else Max(Latest(h[..|h| - 1]), h[|h| - 1].time)
  }

  function Max(a: int, b: int): int { if a < b then b else a }

  ghost predicate Occurs(h: seq<Sample>, t: int) {
    exists s :: s in h && s.time == t
  }

  lemma {:induction false} LatestBounds(h: seq<Sample>)
    ensures forall s :: s in h ==> s.time <= Latest(h)
    ensures h != [] ==> Occurs(h, Latest(h))
  {
    if h != [] {
      var n := |h| - 1;
      LatestBounds(h[..n]);
      assert h == h[..n] + [h[n]];
      if n > 0 && Latest(h) != h[n].time {
        var s :| s in h[..n] && s.time == Latest(h[..n]);
        assert s in h;
      } else {
        assert h[n] in h;
      }
    }
  }

  /** The positions of the samples that a recount counts. */
  function HitsAt(h: seq<Sample>, q: Quantity, lo: int, hi: int): set<int> {
    set i | 0 <= i < |h| && Hit(h[i], q, lo, hi)
  }

  lemma {:induction false} RecountIsSize(h: seq<Sample>, q: Quantity, lo: int, hi: int)
    ensures Recount(h, q, lo, hi) == |HitsAt(h, q, lo, hi)|
  {
    if h == [] {
      NoHits(q, lo, hi);
    } else {
      var n := |h| - 1;
      RecountIsSize(h[..n], q, lo, hi);
      var rest := HitsAt(h[..n], q, lo, hi);
      SameElements(HitsAt(h, q, lo, hi), rest + if Hit(h[n], q, lo, hi) then {n} else {});
    }
  }

  lemma NoHits(q: Quantity, lo: int, hi: int)
    ensures HitsAt([], q, lo, hi) == {}
  {
    SameElements(HitsAt([], q, lo, hi), {});
  }

  /** Whole seconds: less than one away from the milliseconds, and on the side of zero. */
  lemma WholeSecondsExactly(millis: int, second: int)
    ensures second == WholeSeconds(millis)
       <==> if millis >= 0 then second * 1000 <= millis < second * 1000 + 1000
            else second * 1000 - 1000 < millis <= second * 1000
  {
  }

  /** Counting over adjacent intervals adds up. */
  lemma {:induction false} RecountSplit(h: seq<Sample>, q: Quantity, lo: int, mid: int, hi: int)
    requires lo <= mid <= hi
    ensures Recount(h, q, lo, hi) == Recount(h, q, lo, mid) + Recount(h, q, mid, hi)
  {
    if h != [] { RecountSplit(h[..|h| - 1], q, lo, mid, hi); }
  }

  /** A recount is zero exactly when no sample hits. */
  lemma {:induction false} RecountZero(h: seq<Sample>, q: Quantity, lo: int, hi: int)
    ensures Recount(h, q, lo, hi) == 0 <==> forall s :: s in h ==> !Hit(s, q, lo, hi)
  {
    if h != [] {
      var n := |h| - 1;
      RecountZero(h[..n], q, lo, hi);
      assert h == h[..n] + [h[n]];
    }
  }

  lemma {:induction false} RecountRemove(h: seq<Sample>, k: nat, q: Quantity, lo: int, hi: int)
    requires k < |h|
    ensures Recount(h, q, lo, hi)
         == Recount(h[..k] + h[k + 1..], q, lo, hi) + if Hit(h[k], q, lo, hi) then 1 else 0
  {
    var n := |h| - 1;
    var rest := h[..k] + h[k + 1..];
    if k == n {
      assert rest == h[..n];
    } else {
      RecountRemove(h[..n], k, q, lo, hi);
      assert rest[..|rest| - 1] == h[..n][..k] + h[..n][k + 1..];
      assert rest[|rest| - 1] == h[n];
    }
  }

  /** A recount does not depend on the order of arrival. */
  lemma {:induction false} RecountPermutation(g: seq<Sample>, h: seq<Sample>, q: Quantity, lo: int, hi: int)
    requires multiset(g) == multiset(h)
    ensures Recount(g, q, lo, hi) == Recount(h, q, lo, hi)
    decreases |g|
  {
    if g == [] {
      assert |multiset(h)| == 0;
    } else {
      var k := TakeOut(g, h);
      RecountPermutation(g[..|g| - 1], h[..k] + h[k + 1..], q, lo, hi);
      RecountRemove(h, k, q, lo, hi);
    }
  }

  /** The distinct items of an interval are those with a non-zero recount. */
  lemma {:induction false} DistinctCounted(h: seq<Sample>, lo: int, hi: int, p: string)
    ensures p in Distinct(h, lo, hi) <==> Recount(h, Item(p), lo, hi) > 0
  {
    RecountZero(h, Item(p), lo, hi);
    if Recount(h, Item(p), lo, hi) > 0 {
      var s :| s in h && Hit(s, Item(p), lo, hi);
      assert s.item.value == p;
    }
  }

  lemma LatestPermutation(g: seq<Sample>, h: seq<Sample>)
    requires multiset(g) == multiset(h)
    ensures Latest(g) == Latest(h) && forall lo, hi :: Distinct(g, lo, hi) == Distinct(h, lo, hi)
  {
    SameMembers(g, h);
    LatestBounds(g);
    LatestBounds(h);
    if g == [] { assert |multiset(h)| == 0; }
    if h == [] { assert |multiset(g)| == 0; }
  }

  // ---------------------------------------------------------------- counters

  /** A map of counters stores exactly the positive recounts. */
  ghost predicate Counts(m: map<string, int>, h: seq<Sample>, lo: int, hi: int) {
    forall p :: (p in m <==> Recount(h, Item(p), lo, hi) > 0)
             && (p in m ==> m[p] == Recount(h, Item(p), lo, hi))
  }

  lemma {:induction false} CountsDistinct(m: map<string, int>, h: seq<Sample>, lo: int, hi: int)
    requires Counts(m, h, lo, hi)
    ensures m.Keys == Distinct(h, lo, hi)
  {
    forall p ensures p in m <==> p in Distinct(h, lo, hi) { DistinctCounted(h, lo, hi, p); }
  }

  function Merge(m: map<string, int>, p: string): map<string, int> {
    m[p := if p in m then m[p] + 1 else 1]
  }

  function Counting(b: Bucket, s: Sample): Bucket {
    match s.item
    case None => b.(requests := b.requests + 1)
    case Some(p) => Bucket(b.requests + 1, if s.error then b.errors + 1 else b.errors, Merge(b.items, p))
  }

  lemma HoldsAppended(b: Bucket, h: seq<Sample>, s: Sample, lo: int, hi: int)
    requires Holds(b, h, lo, hi)
    ensures Holds(if lo < s.time <= hi then Counting(b, s) else b, h + [s], lo, hi)
  {
    assert (h + [s])[..|h|] == h;
    assert (h + [s])[|h|] == s;
    forall q ensures Recount(h + [s], q, lo, hi) == Recount(h, q, lo, hi) + if Hit(s, q, lo, hi) then 1 else 0 {}
  }

  /** Each counter is reduced by its counter in `part`, and dropped when that uses it up. */
  ghost predicate IsDifference(r: map<string, int>, total: map<string, int>, part: map<string, int>) {
    && (forall p :: p in r <==> p in total && !(p in part && total[p] <= part[p]))
    && (forall p :: p in r ==> r[p] == if p in part then total[p] - part[p] else total[p])
  }

  /** The loop of `expire` over one expired bucket's entries. */
  method Subtract(total: map<string, int>, part: map<string, int>) returns (r: map<string, int>)
    ensures IsDifference(r, total, part)
  {
    r := total;
    var todo := part.Keys;
    while todo != {}
      invariant todo <= part.Keys
      invariant forall p :: p in r <==> p in total && !(p in part && p !in todo && total[p] <= part[p])
      invariant forall p :: p in r ==> r[p] == if p in part && p !in todo then total[p] - part[p] else total[p]
      decreases todo
    {
      var p :| p in todo;
      todo := todo - {p};
      if p in r {
        if r[p] <= part[p] { r := r - {p}; } else { r := r[p := r[p] - part[p]]; }
      }
    }
  }

  datatype Bucket = Bucket(requests: int, errors: int, items: map<string, int>)

  ghost predicate Holds(b: Bucket, h: seq<Sample>, lo: int, hi: int) {
    && b.requests == Recount(h, Requests, lo, hi)
    && b.errors == Recount(h, Errors, lo, hi)
    && Counts(b.items, h, lo, hi)
  }

  function Get(m: map<int, Bucket>, t: int): Bucket {
    if t in m then m[t] else Bucket(0, 0, map[])
  }

  function FirstKey<V>(m: map<int, V>): (t: int)
    requires m != map[]
    ensures t in m && forall u :: u in m ==> t <= u
  {
    LeastExists(m.Keys);
    var t :| t in m && forall u :: u in m ==> t <= u;
    t
  }

  /** There is one bucket per live time, and it holds the recount of that time. */
  ghost predicate BucketsMirror(buckets: map<int, Bucket>, h: seq<Sample>, cutoff: int) {
    && (forall t :: t in buckets <==> cutoff < t && Occurs(h, t))
    && (forall t :: t in buckets ==> Holds(buckets[t], h, t - 1, t))
  }

  class Window {
    var buckets: map<int, Bucket>
    var items: map<string, int>
    var latest: int
    var lastProcessedMillis: int
    var lastAlertSecond: int
    var requests: int
    var errors: int
    /** Every event since the window was created, late ones included. */
    ghost var history: seq<Sample>

    /** The key the window was created for: distinct keys have distinct windows. */
    ghost const key: LruTable.Key

    constructor (ghost key: LruTable.Key)
      ensures this.key == key && Blank()
    {
      this.key := key;
      buckets, items, requests, errors := map[], map[], 0, 0;
      latest, lastAlertSecond, lastProcessedMillis := LONG_MIN, LONG_MIN, 0;
      history := [];
    }

    /** A window that has seen nothing yet. */
    ghost predicate Blank()
      reads this
    {
      history == [] && latest == lastAlertSecond == LONG_MIN && forall width: nat :: Valid(width)
    }

    /** Buckets and aggregates are the recount of the samples after `cutoff`. */
    ghost predicate Represents(cutoff: int)
      reads `buckets, `items, `latest, `requests, `errors, `history
    {
      && (forall s :: s in history ==> s.time <= latest)
      && BucketsMirror(buckets, history, cutoff)
      && Holds(Bucket(requests, errors, items), history, cutoff, latest)
    }

    ghost predicate Valid(width: nat)
      reads `buckets, `items, `latest, `requests, `errors, `history
    {
      latest == Latest(history) && Represents(latest - width)
    }

    /** Moves the newest event time forward and expires what falls out of the window. */
    method MoveTo(time: Long, width: nat)
      requires Valid(width)
      modifies this`latest, this`buckets, this`items, this`requests, this`errors
      ensures latest == Max(old(latest), time) && Moved(width, time)
    {
      hide Recount, Occurs, Counts, Latest;
      ghost var previous := latest - width;
      Raised(Bucket(requests, errors, items), history, previous, latest, Max(latest, time));
      latest := Max(latest, time);
      Expire(latest - width, previous);
    }

    /** The window after moving to `time`, before the event at `time` is recorded. */
    ghost predicate Moved(width: nat, time: int)
      reads `buckets, `items, `latest, `requests, `errors, `history
    {
      latest == Max(Latest(history), time) && Represents(latest - width)
    }

    /** Records one event inside the window. */
    method Add(s: Sample, ghost width: nat)
      requires Moved(width, s.time) && latest - width < s.time
      modifies this`buckets, this`items, this`requests, this`errors, this`history
      ensures history == old(history) + [s] && Valid(width)
    {
      LatestAppended(history, s);
      hide Recount, Occurs, Counts, Latest;
      ghost var cutoff := latest - width;
      BucketAppended(buckets, history, s, cutoff);
      HoldsAppended(Bucket(requests, errors, items), history, s, cutoff, latest);
      history := history + [s];
      var bucket := Get(buckets, s.time);
      bucket := bucket.(requests := bucket.requests + 1);
      requests := requests + 1;
      if s.item.Some? {
        if s.error {
          bucket := bucket.(errors := bucket.errors + 1);
          errors := errors + 1;
        }
        bucket := bucket.(items := Merge(bucket.items, s.item.value));
        items := Merge(items, s.item.value);
      }
      buckets := buckets[s.time := bucket];
    }

    /** Drops every bucket at or before `cutoff`, taking it out of the aggregates. */
    method Expire(cutoff: int, ghost previous: int)
      requires Represents(previous) && previous <= cutoff <= latest
      modifies this`buckets, this`items, this`requests, this`errors
      ensures Represents(cutoff)
    {
      ghost var c := previous;
      while buckets != map[] && FirstKey(buckets) <= cutoff
        invariant previous <= c <= cutoff && Represents(c)
        decreases |buckets|
      {
        ghost var t := FirstKey(buckets);
        PopFirst(c);
        c := t;
      }
      MoveCutoff(buckets, Bucket(requests, errors, items), history, c, cutoff, latest);
    }

    /** One round of the loop: the oldest bucket leaves, and nothing else changes. */
    method PopFirst(ghost c: int)
      requires Represents(c) && buckets != map[]
      modifies this`buckets, this`items, this`requests, this`errors
      ensures c < old(FirstKey(buckets)) <= latest && Represents(old(FirstKey(buckets)))
      ensures |buckets| < |old(buckets)|
    {
      hide Recount, Occurs;
      var t := FirstKey(buckets);
      var expired := buckets[t];
      ghost var total := Bucket(requests, errors, items);
      var left := Subtract(items, expired.items);
      Popped(buckets, total, left, history, c, latest);
      buckets := buckets - {t};
      requests := requests - expired.requests;
      errors := errors - expired.errors;
      items := left;
    }

    /** Ghost step: an event at or before the cutoff changes no recount. */
    ghost method Ignore(s: Sample, width: nat)
      requires Moved(width, s.time) && s.time <= latest - width
      modifies this`history
      ensures history == old(history) + [s] && Valid(width)
    {
      LatestAppended(history, s);
      IgnoredBuckets(buckets, history, s, latest - width);
      HoldsAppended(Bucket(requests, errors, items), history, s, latest - width, latest);
      hide Recount, Occurs, Counts, Latest;
      history := history + [s];
    }
  }

  lemma MovedLatest(w: Window, width: nat, time: int)
    requires w.Moved(width, time)
    ensures w.latest == Max(Latest(w.history), time)
  {
  }

  lemma IgnoredBuckets(buckets: map<int, Bucket>, h: seq<Sample>, s: Sample, cutoff: int)
    requires BucketsMirror(buckets, h, cutoff) && s.time <= cutoff
    ensures BucketsMirror(buckets, h + [s], cutoff)
  {
    Appended(h, s);
    forall t | t in buckets ensures Holds(buckets[t], h + [s], t - 1, t) { HoldsAppended(buckets[t], h, s, t - 1, t); }
  }

  lemma LatestAppended(h: seq<Sample>, s: Sample)
    ensures Latest(h + [s]) == Max(Latest(h), s.time)
  {
    assert (h + [s])[..|h|] == h;
  }

  lemma Appended(h: seq<Sample>, s: Sample)
    ensures forall q, lo, hi :: Recount(h + [s], q, lo, hi)
                             == Recount(h, q, lo, hi) + if Hit(s, q, lo, hi) then 1 else 0
    ensures forall t :: Occurs(h + [s], t) <==> Occurs(h, t) || t == s.time
  {
    var g := h + [s];
    assert g[..|g| - 1] == h;
    assert s in g;
    assert forall x :: x in g <==> x in h || x == s;
  }

  lemma NothingAt(h: seq<Sample>, t: int)
    requires !Occurs(h, t)
    ensures Holds(Bucket(0, 0, map[]), h, t - 1, t)
  {
    RecountZero(h, Requests, t - 1, t);
    RecountZero(h, Errors, t - 1, t);
    forall p ensures Recount(h, Item(p), t - 1, t) == 0 { RecountZero(h, Item(p), t - 1, t); }
  }

  lemma BucketAppended(buckets: map<int, Bucket>, h: seq<Sample>, s: Sample, cutoff: int)
    requires BucketsMirror(buckets, h, cutoff) && cutoff < s.time
    ensures BucketsMirror(buckets[s.time := Counting(Get(buckets, s.time), s)], h + [s], cutoff)
  {
    Appended(h, s);
    if s.time !in buckets { NothingAt(h, s.time); }
    var after := buckets[s.time := Counting(Get(buckets, s.time), s)];
    forall t | t in after ensures Holds(after[t], h + [s], t - 1, t) {
      HoldsAppended(Get(buckets, t), h, s, t - 1, t);
    }
  }

  lemma Raised(b: Bucket, h: seq<Sample>, c: int, latest: int, higher: int)
    requires Holds(b, h, c, latest) && c <= latest <= higher
    requires forall s :: s in h ==> s.time <= latest
    ensures Holds(b, h, c, higher)
  {
    forall q ensures Recount(h, q, c, higher) == Recount(h, q, c, latest) {
      RecountZero(h, q, latest, higher);
      RecountSplit(h, q, c, latest, higher);
    }
  }

  lemma Fewer<V>(m: map<int, V>, t: int)
    requires t in m
    ensures |m - {t}| < |m|
  {
    assert (m - {t}).Keys == m.Keys - {t};
    assert |m.Keys| == |m| && |(m - {t}).Keys| == |m - {t}|;
  }

  lemma BucketPopped(buckets: map<int, Bucket>, h: seq<Sample>, c: int, latest: int)
    requires BucketsMirror(buckets, h, c) && buckets != map[]
    requires forall s :: s in h ==> s.time <= latest
    ensures var t := FirstKey(buckets); c < t <= latest && BucketsMirror(buckets - {t}, h, t)
    ensures forall u :: c < u && Occurs(h, u) ==> FirstKey(buckets) <= u
  {
    var t := FirstKey(buckets);
    var rest := buckets - {t};
    forall u ensures u in rest <==> t < u && Occurs(h, u) {
      assert u in rest <==> u in buckets && u != t;
    }
  }

  lemma Popped(buckets: map<int, Bucket>, total: Bucket, left: map<string, int>, h: seq<Sample>, c: int, latest: int)
    requires BucketsMirror(buckets, h, c) && buckets != map[] && Holds(total, h, c, latest)
    requires forall s :: s in h ==> s.time <= latest
    requires IsDifference(left, total.items, buckets[FirstKey(buckets)].items)
    ensures var t := FirstKey(buckets);
            && c < t <= latest && BucketsMirror(buckets - {t}, h, t)
            && Holds(Bucket(total.requests - buckets[t].requests, total.errors - buckets[t].errors, left), h, t, latest)
    ensures |buckets - {FirstKey(buckets)}| < |buckets|
  {
    var t := FirstKey(buckets);
    Fewer(buckets, t);
    BucketPopped(buckets, h, c, latest);
    HoldsPopped(total, buckets[t], Bucket(total.requests - buckets[t].requests, total.errors - buckets[t].errors, left),
                h, c, t, latest);
  }

  /** Taking one bucket's counts out of the totals leaves the recount of the rest. */
  lemma HoldsPopped(total: Bucket, part: Bucket, rest: Bucket, h: seq<Sample>, c: int, t: int, latest: int)
    requires c < t <= latest
    requires forall u :: c < u && Occurs(h, u) ==> t <= u
    requires Holds(total, h, c, latest) && Holds(part, h, t - 1, t)
    requires rest.requests == total.requests - part.requests && rest.errors == total.errors - part.errors
    requires IsDifference(rest.items, total.items, part.items)
    ensures Holds(rest, h, t, latest)
  {
    forall q {:trigger Recount(h, q, t, latest)}
      ensures Recount(h, q, c, latest) == Recount(h, q, t - 1, t) + Recount(h, q, t, latest)
    {
      forall s | s in h ensures !Hit(s, q, c, t - 1) { assert Occurs(h, s.time); }
      RecountZero(h, q, c, t - 1);
      RecountSplit(h, q, c, t - 1, latest);
      RecountSplit(h, q, t - 1, t, latest);
    }
  }

  /** With no bucket at or before `cutoff`, the cutoff may move there. */
  lemma MoveCutoff(buckets: map<int, Bucket>, total: Bucket, h: seq<Sample>, c: int, cutoff: int, latest: int)
    requires c <= cutoff <= latest
    requires BucketsMirror(buckets, h, c) && Holds(total, h, c, latest)
    requires buckets == map[] || cutoff < FirstKey(buckets)
    ensures BucketsMirror(buckets, h, cutoff) && Holds(total, h, cutoff, latest)
  {
    forall u | u in buckets ensures cutoff < u {}
    forall q ensures Recount(h, q, c, latest) == Recount(h, q, cutoff, latest) {
      forall s | s in h ensures !Hit(s, q, c, cutoff) { assert Occurs(h, s.time); }
      RecountZero(h, q, c, cutoff);
      RecountSplit(h, q, c, cutoff, latest);
    }
  }

  /** However many events arrive, a window holds at most `width` buckets, none empty. */
  lemma {:induction false} BucketBound(w: Window, width: nat)
    requires w.Valid(width)
    ensures |w.buckets| <= width
    ensures forall t :: t in w.buckets ==> w.latest - width < t <= w.latest && w.buckets[t].requests > 0
  {
    forall t | t in w.buckets
      ensures w.latest - width < t <= w.latest && w.buckets[t].requests > 0
    {
      var s :| s in w.history && s.time == t;
      RecountZero(w.history, Requests, t - 1, t);
      assert Hit(s, Requests, t - 1, t);
    }
    Pigeonhole(w.buckets.Keys, w.latest - width, w.latest);
  }

  /** Two windows fed the same events in different orders end with the same contents. */
  lemma {:induction false} OrderIndependence(v: Window, w: Window, width: nat)
    requires v.Valid(width) && w.Valid(width)
    requires multiset(v.history) == multiset(w.history)
    ensures v.latest == w.latest && v.buckets == w.buckets
    ensures v.requests == w.requests && v.errors == w.errors && v.items == w.items
  {
    hide Counts, BucketsMirror;
    var g, h := v.history, w.history;
    forall q, lo, hi ensures Recount(g, q, lo, hi) == Recount(h, q, lo, hi) { RecountPermutation(g, h, q, lo, hi); }
    SameMembers(g, h);
    LatestPermutation(g, h);
    CountsDetermined(v.items, w.items, g, h, v.latest - width, v.latest);
    BucketsDetermined(v.buckets, w.buckets, g, h, v.latest - width);
  }

  lemma BucketsDetermined(a: map<int, Bucket>, b: map<int, Bucket>, g: seq<Sample>, h: seq<Sample>, cutoff: int)
    requires BucketsMirror(a, g, cutoff) && BucketsMirror(b, h, cutoff)
    requires forall s :: s in g <==> s in h
    requires forall q, lo, hi :: Recount(g, q, lo, hi) == Recount(h, q, lo, hi)
    ensures a == b
  {
    forall t: int ensures t in a <==> t in b { assert Occurs(g, t) <==> Occurs(h, t); }
    SameElements(a.Keys, b.Keys);
    forall t | t in a ensures a[t] == b[t] { CountsDetermined(a[t].items, b[t].items, g, h, t - 1, t); }
  }

  lemma CountsDetermined(a: map<string, int>, b: map<string, int>, g: seq<Sample>, h: seq<Sample>, lo: int, hi: int)
    requires Counts(a, g, lo, hi) && Counts(b, h, lo, hi)
    requires forall q :: Recount(g, q, lo, hi) == Recount(h, q, lo, hi)
    ensures a == b
  {
    assert a.Keys == b.Keys;
  }
}
