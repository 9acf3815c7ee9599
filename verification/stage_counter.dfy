/** The per-stage event counter: redelivered ids are recognised through a bounded FIFO memory. */
module StageCounter {
  import opened Options
  import opened Collections

  datatype Key = Key(domain: string, stage: string)
  datatype Id = Id(text: string)
  datatype Arrival = Arrival(key: Key, when: string, id: Option<Id>)
  datatype Change = Change(key: Key, delta: int)

  const SEEN_EVENT_CAP: nat := 10000

  // -------------------------------------------------- what a run remembers

  /** The newest `cap` entries. */
  function LastOf(ids: seq<Id>, cap: nat): seq<Id> {
    if |ids| > cap then ids[|ids| - cap..] else ids
  }

  /** Whether an arrival is counted when `kept` are the ids entered so far. */
  predicate Accepts(kept: seq<Id>, x: Arrival, cap: nat) {
    x.id.None? || x.id.value !in LastOf(kept, cap)
  }

  function Entered(kept: seq<Id>, x: Arrival): seq<Id> {
    if x.id.Some? then kept + [x.id.value] else kept
  }

  /** Every id entered into the memory during the run, oldest first; a forgotten one enters again. */
  function Kept(run: seq<Arrival>, cap: nat): seq<Id> {
    if run == [] then []
    else
      var kept, x := Kept(run[..|run| - 1], cap), run[|run| - 1];
      if Accepts(kept, x, cap) then Entered(kept, x) else kept
  }

  /** Whether the i-th arrival is counted. */
  predicate Counted(run: seq<Arrival>, i: nat, cap: nat)
    requires i < |run|
  {
    Accepts(Kept(run[..i], cap), run[i], cap)
  }

  function Count(run: seq<Arrival>, key: Key, cap: nat): nat {
    if run == [] then 0
    else
      var n := |run| - 1;
      Count(run[..n], key, cap) + if run[n].key == key && Counted(run, n, cap) then 1 else 0
  }

  function LastEventAt(run: seq<Arrival>, key: Key, cap: nat): Option<string> {
    if run == [] then None
    else
      var n := |run| - 1;
      if run[n].key == key && run[n].when != "" && Counted(run, n, cap) then Some(run[n].when)
      else LastEventAt(run[..n], key, cap)
  }

  ghost predicate Dated(run: seq<Arrival>, key: Key, cap: nat, i: nat)
    requires i < |run|
  {
    run[i].key == key && run[i].when != "" && Counted(run, i, cap)
  }

  lemma DatedBefore(run: seq<Arrival>, key: Key, cap: nat, n: nat, i: nat)
    requires i < n <= |run|
    ensures Dated(run[..n], key, cap, i) <==> Dated(run, key, cap, i)
  {
    assert run[..n][..i] == run[..i];
  }

  /** The time shown for a key is that of its last counted arrival that has one. */
  lemma {:induction false} LastEventAtExactly(run: seq<Arrival>, key: Key, cap: nat)
    ensures match LastEventAt(run, key, cap)
            case None => forall i :: 0 <= i < |run| ==> !Dated(run, key, cap, i)
            case Some(t) =>
              exists i :: 0 <= i < |run| && Dated(run, key, cap, i) && run[i].when == t
                          && forall k :: i < k < |run| ==> !Dated(run, key, cap, k)
  {
    hide Counted;
    if run != [] {
      var n := |run| - 1;
      forall i | 0 <= i < n ensures Dated(run[..n], key, cap, i) <==> Dated(run, key, cap, i) {
        DatedBefore(run, key, cap, n, i);
      }
      if Dated(run, key, cap, n) {
        assert LastEventAt(run, key, cap) == Some(run[n].when);
      } else {
        LastEventAtExactly(run[..n], key, cap);
        assert LastEventAt(run, key, cap) == LastEventAt(run[..n], key, cap);
      }
    }
  }

  // ------------------------------------------------- what should be counted

  /** The distinct ids of a run, in order of their first arrival. */
  function FirstIds(run: seq<Arrival>): seq<Id> {
    if run == [] then []
    else
      var first, x := FirstIds(run[..|run| - 1]), run[|run| - 1];
      if Novel(first, x) then Entered(first, x) else first
  }

  predicate Novel(first: seq<Id>, x: Arrival) { x.id.None? || x.id.value !in first }

  /** Whether the i-th arrival is no redelivery. */
  predicate First(run: seq<Arrival>, i: nat)
    requires i < |run|
  {
    Novel(FirstIds(run[..i]), run[i])
  }

  function FirstCount(run: seq<Arrival>, key: Key): nat {
    if run == [] then 0
    else
      var n := |run| - 1;
      FirstCount(run[..n], key) + if run[n].key == key && First(run, n) then 1 else 0
  }

  /** How many further new ids arrived since the first arrival of `id`. */
  function FurtherNew(run: seq<Arrival>, id: Id): nat {
    if run == [] then 0
    else
      var first, x := FirstIds(run[..|run| - 1]), run[|run| - 1];
      FurtherNew(run[..|run| - 1], id)
        + if id in first && x.id.Some? && x.id.value !in first then 1 else 0
  }

  /** Every redelivery comes before `cap` further new ids. */
  ghost predicate Timely(run: seq<Arrival>, cap: nat) {
    forall i :: 0 <= i < |run| && !First(run, i) ==> FurtherNew(run[..i], run[i].id.value) < cap
  }

  // ------------------------------------------------------------ the theorem

  lemma {:induction false} FirstIdsAre(run: seq<Arrival>)
    ensures Unique(FirstIds(run))
    ensures forall id :: id in FirstIds(run) <==> exists i :: 0 <= i < |run| && run[i].id == Some(id)
  {
    if run != [] {
      var n := |run| - 1;
      var rest := FirstIds(run[..n]);
      FirstIdsAre(run[..n]);
      forall id ensures id in FirstIds(run) <==> exists i :: 0 <= i < |run| && run[i].id == Some(id) {
        assert forall i :: 0 <= i < n ==> run[..n][i] == run[i];
      }
    }
  }

  /** Where an id stands among the distinct ids, counted from the newest. */
  lemma {:induction false} PlaceOf(run: seq<Arrival>, id: Id)
    requires id in FirstIds(run)
    ensures FurtherNew(run, id) < |FirstIds(run)|
    ensures FirstIds(run)[|FirstIds(run)| - 1 - FurtherNew(run, id)] == id
  {
    var n := |run| - 1;
    if id in FirstIds(run[..n]) { PlaceOf(run[..n], id); } else { NotYet(run[..n], id); }
  }

  lemma {:induction false} NotYet(run: seq<Arrival>, id: Id)
    requires id !in FirstIds(run)
    ensures FurtherNew(run, id) == 0
  {
    if run != [] { NotYet(run[..|run| - 1], id); }
  }

  lemma {:induction false} AmongLast(run: seq<Arrival>, id: Id, cap: nat)
    requires id in FirstIds(run)
    ensures id in LastOf(FirstIds(run), cap) <==> FurtherNew(run, id) < cap
  {
    hide FirstIds, FurtherNew;
    var ids := FirstIds(run);
    PlaceOf(run, id);
    FirstIdsAre(run);
    var place := |ids| - 1 - FurtherNew(run, id);
    if id in LastOf(ids, cap) && |ids| > cap {
      var k :| 0 <= k < cap && LastOf(ids, cap)[k] == id;
      assert ids[|ids| - cap + k] == id;
    }
    if place >= |ids| - cap && |ids| > cap {
      assert LastOf(ids, cap)[place - (|ids| - cap)] == id;
    }
  }

  ghost predicate AgreeUpTo(run: seq<Arrival>, n: nat, cap: nat)
    requires n <= |run|
  {
    forall i :: 0 <= i < n ==> (Counted(run, i, cap) <==> First(run, i))
  }

  /** As long as only first arrivals were counted, the memory holds the newest distinct ids. */
  lemma {:induction false} SameMemory(run: seq<Arrival>, n: nat, cap: nat)
    requires n <= |run| && AgreeUpTo(run, n, cap)
    ensures Kept(run[..n], cap) == FirstIds(run[..n])
  {
    if n > 0 {
      SameMemory(run, n - 1, cap);
      assert run[..n][..n - 1] == run[..n - 1];
      assert Counted(run, n - 1, cap) <==> First(run, n - 1);
    }
  }

  /** While that holds, an arrival is treated rightly exactly when it is new or comes in time. */
  lemma NextAgrees(run: seq<Arrival>, i: nat, cap: nat)
    requires i < |run| && AgreeUpTo(run, i, cap)
    ensures First(run, i) ==> Counted(run, i, cap)
    ensures (Counted(run, i, cap) <==> First(run, i))
        <==> (!First(run, i) ==> FurtherNew(run[..i], run[i].id.value) < cap)
  {
    hide Kept, FirstIds, FurtherNew, LastOf;
    SameMemory(run, i, cap);
    var ids := FirstIds(run[..i]);
    if First(run, i) {
      if run[i].id.Some? && run[i].id.value in LastOf(ids, cap) { LastOfMember(ids, cap, run[i].id.value); }
    } else {
      AmongLast(run[..i], run[i].id.value, cap);
    }
  }

  lemma LastOfMember(ids: seq<Id>, cap: nat, id: Id)
    requires id in LastOf(ids, cap)
    ensures id in ids
  {
  }

  /** Exactly the first arrivals are counted if and only if every redelivery is timely. */
  lemma AgreeExactly(run: seq<Arrival>, cap: nat)
    ensures AgreeUpTo(run, |run|, cap) <==> Timely(run, cap)
  {
    hide Counted, FurtherNew;
    if AgreeUpTo(run, |run|, cap) {
      forall i | 0 <= i < |run| && !First(run, i) ensures FurtherNew(run[..i], run[i].id.value) < cap {
        NextAgrees(run, i, cap);
      }
    }
    if Timely(run, cap) { TimelyAgrees(run, |run|, cap); }
  }

  lemma {:induction false} TimelyAgrees(run: seq<Arrival>, n: nat, cap: nat)
    requires n <= |run| && Timely(run, cap)
    ensures AgreeUpTo(run, n, cap)
  {
    hide Counted, First, FurtherNew;
    if n > 0 {
      TimelyAgrees(run, n - 1, cap);
      NextAgrees(run, n - 1, cap);
    }
  }

  lemma {:induction false} KeptAreIds(run: seq<Arrival>, cap: nat)
    ensures forall id :: id in Kept(run, cap) ==> id in FirstIds(run)
  {
    if run != [] { KeptAreIds(run[..|run| - 1], cap); }
  }

  /** A first arrival is never lost, whatever the memory forgot. */
  lemma {:induction false} FirstIsCounted(run: seq<Arrival>, i: nat, cap: nat)
    requires i < |run| && First(run, i)
    ensures Counted(run, i, cap)
  {
    hide Kept, FirstIds, LastOf;
    KeptAreIds(run[..i], cap);
    if run[i].id.Some? && run[i].id.value in LastOf(Kept(run[..i], cap), cap) {
      LastOfMember(Kept(run[..i], cap), cap, run[i].id.value);
    }
  }

  lemma PrefixSame(run: seq<Arrival>, n: nat, i: nat, cap: nat)
    requires i < n <= |run|
    ensures Counted(run[..n], i, cap) == Counted(run, i, cap) && First(run[..n], i) == First(run, i)
  {
    assert run[..n][..i] == run[..i];
  }

  /** No count is ever too low; it is too high exactly by the redeliveries counted for the key. */
  lemma {:induction false} CountAtLeast(run: seq<Arrival>, key: Key, cap: nat)
    ensures Count(run, key, cap) >= FirstCount(run, key)
    ensures Count(run, key, cap) == FirstCount(run, key)
        <==> forall i :: 0 <= i < |run| && run[i].key == key && Counted(run, i, cap) ==> First(run, i)
  {
    hide Counted, First;
    if run != [] {
      var n := |run| - 1;
      CountAtLeast(run[..n], key, cap);
      if First(run, n) { FirstIsCounted(run, n, cap); }
      forall i | 0 <= i < n
        ensures Counted(run[..n], i, cap) == Counted(run, i, cap) && First(run[..n], i) == First(run, i)
                && run[..n][i] == run[i]
      {
        PrefixSame(run, n, i, cap);
      }
    }
  }

  ghost predicate ExactFor(run: seq<Arrival>, key: Key, cap: nat) {
    Count(run, key, cap) == FirstCount(run, key)
  }

  /** All counts are exact if and only if every redelivery comes before `cap` further new ids. */
  lemma {:induction false} CountsExactly(run: seq<Arrival>, cap: nat)
    ensures (forall key :: ExactFor(run, key, cap)) <==> Timely(run, cap)
  {
    hide Counted, First, Timely, Count, FirstCount;
    AgreeExactly(run, cap);
    if Timely(run, cap) {
      forall key ensures ExactFor(run, key, cap) { CountAtLeast(run, key, cap); }
    }
    if forall key :: ExactFor(run, key, cap) {
      forall i | 0 <= i < |run| ensures Counted(run, i, cap) <==> First(run, i) {
        CountAtLeast(run, run[i].key, cap);
        assert ExactFor(run, run[i].key, cap);
        if First(run, i) { FirstIsCounted(run, i, cap); }
      }
    }
  }

  // ----------------------------------------------- counting ids as a set

  function IdsUnder(run: seq<Arrival>, key: Key): set<Id> {
    set x | x in run && x.key == key && x.id.Some? :: x.id.value
  }

  function Anonymous(run: seq<Arrival>, key: Key): nat {
    if run == [] then 0
    else
      var x := run[|run| - 1];
      Anonymous(run[..|run| - 1], key) + if x.key == key && x.id.None? then 1 else 0
  }

  /** An event carries the same domain and stage each time it is delivered. */
  ghost predicate OneKeyPerId(run: seq<Arrival>) {
    forall x, y :: x in run && y in run && x.id.Some? && x.id == y.id ==> x.key == y.key
  }

  lemma {:induction false} IdsUnderAre(run: seq<Arrival>, key: Key)
    requires OneKeyPerId(run)
    ensures forall x :: x in run && x.key == key && x.id.Some? ==>
              (x.id.value in IdsUnder(run[..|run| - 1], key) <==> x.id.value in FirstIds(run[..|run| - 1]))
  {
    hide FirstIds;
    if run != [] {
      var n := |run| - 1;
      FirstIdsAre(run[..n]);
      forall x | x in run && x.key == key && x.id.Some?
        ensures x.id.value in IdsUnder(run[..n], key) <==> x.id.value in FirstIds(run[..n])
      {
        if i :| 0 <= i < n && run[..n][i].id == x.id { assert run[..n][i] in run; }
      }
    }
  }

  lemma IdsUnderGrow(run: seq<Arrival>, x: Arrival, key: Key)
    ensures IdsUnder(run + [x], key)
         == IdsUnder(run, key) + if x.key == key && x.id.Some? then {x.id.value} else {}
  {
  }

  /** First arrivals are the distinct ids recorded for the key, plus the events without an id. */
  lemma {:induction false} FirstCountIsDistinct(run: seq<Arrival>, key: Key)
    requires OneKeyPerId(run)
    ensures FirstCount(run, key) == |IdsUnder(run, key)| + Anonymous(run, key)
  {
    hide FirstIds, IdsUnder;
    if run == [] {
      NoIds(key);
    } else {
      var n := |run| - 1;
      var x := run[n];
      FirstCountIsDistinct(run[..n], key);
      IdsUnderAre(run, key);
      IdsUnderGrow(run[..n], x, key);
      assert run == run[..n] + [x];
      if x.key == key && x.id.Some? && !First(run, n) {
        assert IdsUnder(run, key) == IdsUnder(run[..n], key);
      }
    }
  }

  lemma NoIds(key: Key)
    ensures IdsUnder([], key) == {}
  {
  }

  // ------------------------------------------------------------- an example

  /** Arrivals of `n` different events for one key. */
  function Different(key: Key, n: nat): seq<Arrival> {
    if n == 0 then [] else Different(key, n - 1) + [Arrival(key, "", Some(Nth(n - 1)))]
  }

  function Nth(n: nat): Id { Id(seq(n, i => 'x')) }

  lemma NthDiffer(m: nat, n: nat)
    requires m != n
    ensures Nth(m) != Nth(n)
  {
    assert |Nth(m).text| == m && |Nth(n).text| == n;
  }

  ghost predicate AllNth(ids: seq<Id>, n: nat) { |ids| == n && forall i :: 0 <= i < n ==> ids[i] == Nth(i) }

  /** An arrival that is new to the run and to the memory. */
  lemma NewArrival(run: seq<Arrival>, x: Arrival, cap: nat)
    requires Novel(FirstIds(run), x) && Accepts(Kept(run, cap), x, cap)
    ensures var all := run + [x];
            && Kept(all, cap) == Entered(Kept(run, cap), x) && FirstIds(all) == Entered(FirstIds(run), x)
            && Count(all, x.key, cap) == Count(run, x.key, cap) + 1
            && FirstCount(all, x.key) == FirstCount(run, x.key) + 1
  {
    assert (run + [x])[..|run|] == run;
  }

  lemma NextNth(ids: seq<Id>, n: nat, cap: nat)
    requires AllNth(ids, n)
    ensures Nth(n) !in ids && Nth(n) !in LastOf(ids, cap) && AllNth(ids + [Nth(n)], n + 1)
  {
    hide Nth;
    forall i | 0 <= i < n ensures ids[i] != Nth(n) { NthDiffer(i, n); }
  }

  lemma {:induction false} DifferentIds(key: Key, n: nat, cap: nat)
    ensures |Different(key, n)| == n && Count(Different(key, n), key, cap) == n == FirstCount(Different(key, n), key)
    ensures Kept(Different(key, n), cap) == FirstIds(Different(key, n)) && AllNth(FirstIds(Different(key, n)), n)
  {
    if n > 0 {
      hide Nth, AllNth, LastOf, Kept, FirstIds, Count, FirstCount;
      var before, x := Different(key, n - 1), Arrival(key, "", Some(Nth(n - 1)));
      DifferentIds(key, n - 1, cap);
      NextNth(FirstIds(before), n - 1, cap);
      NewArrival(before, x, cap);
    }
  }

  /** A redelivery after a full memory of further new ids is counted again. */
  lemma {:induction false} CountedAgain(key: Key)
    ensures var run := Different(key, 10_001) + [Arrival(key, "", Some(Nth(0)))];
            Count(run, key, SEEN_EVENT_CAP) == 10_002 && FirstCount(run, key) == 10_001
  {
    hide Different, Nth;
    var n := SEEN_EVENT_CAP + 1;
    var before := Different(key, n);
    var run := before + [Arrival(key, "", Some(Nth(0)))];
    DifferentIds(key, n, SEEN_EVENT_CAP);
    assert run[..n] == before;
    var ids := FirstIds(before);
    assert ids[0] == Nth(0);
    var last := LastOf(ids, SEEN_EVENT_CAP);
    forall i | 0 <= i < |last| ensures last[i] != Nth(0) { NthDiffer(i + 1, 0); }
  }

  // ----------------------------------------------------------- the counter

  /** The sum of what a list of changes reports for a key. */
  function Emitted(changes: seq<Change>, key: Key): int {
    if changes == [] then 0
    else
      var n := |changes| - 1;
      Emitted(changes[..n], key) + if changes[n].key == key then changes[n].delta else 0
  }

  lemma EmittedSnoc(changes: seq<Change>, c: Change)
    ensures forall key :: Emitted(changes + [c], key) == Emitted(changes, key) + if c.key == key then c.delta else 0
  {
    assert (changes + [c])[..|changes|] == changes;
  }

  lemma {:induction false} EmittedConcat(a: seq<Change>, b: seq<Change>, key: Key)
    ensures Emitted(a + b, key) == Emitted(a, key) + Emitted(b, key)
  {
    if b == [] {
      assert a + b == a;
    } else {
      var n := |b| - 1;
      assert (a + b)[..|a + b| - 1] == a + b[..n];
      EmittedConcat(a, b[..n], key);
    }
  }

  /** The FIFO memory after entering one more id. */
  lemma LastOfStep(kept: seq<Id>, id: Id, cap: nat)
    ensures var grown := LastOf(kept, cap) + [id];
            LastOf(kept + [id], cap) == if |grown| > cap then grown[1..] else grown
  {
  }

  function At(m: map<Key, int>, key: Key): int { if key in m then m[key] else 0 }

  /** Every counter agrees with the run so far. */
  ghost predicate Tallies(counts: map<Key, int>, run: seq<Arrival>) {
    forall key :: At(counts, key) == Count(run, key, SEEN_EVENT_CAP)
  }

  ghost predicate Dates(lastEventAt: map<Key, string>, run: seq<Arrival>) {
    forall key :: LastEventAt(run, key, SEEN_EVENT_CAP)
               == if key in lastEventAt then Some(lastEventAt[key]) else None
  }

  ghost predicate Published(published: map<Key, int>, drained: seq<Change>) {
    forall key :: At(published, key) == Emitted(drained, key)
  }

  ghost predicate Remembers(seen: seq<Id>, run: seq<Arrival>) {
    seen == LastOf(Kept(run, SEEN_EVENT_CAP), SEEN_EVENT_CAP)
  }

  /** What one more arrival does to the tallies. */
  lemma TalliesStep(counts: map<Key, int>, lastEventAt: map<Key, string>, run: seq<Arrival>, x: Arrival)
    requires Tallies(counts, run) && Dates(lastEventAt, run)
    ensures var all := run + [x];
            if Counted(all, |run|, SEEN_EVENT_CAP) then
              && Tallies(counts[x.key := At(counts, x.key) + 1], all)
              && Dates(if x.when == "" then lastEventAt else lastEventAt[x.key := x.when], all)
            else Tallies(counts, all) && Dates(lastEventAt, all)
  {
    hide Counted;
    var all := run + [x];
    assert all[..|run|] == run;
    forall key ensures Count(all, key, SEEN_EVENT_CAP)
      == At(counts, key) + if x.key == key && Counted(all, |run|, SEEN_EVENT_CAP) then 1 else 0
    {
      assert At(counts, key) == Count(run, key, SEEN_EVENT_CAP);
    }
  }

  lemma MemoryStep(seen: seq<Id>, run: seq<Arrival>, x: Arrival)
    requires Remembers(seen, run)
    ensures var all := run + [x]; var novel := x.id.None? || x.id.value !in seen;
            && novel == Counted(all, |run|, SEEN_EVENT_CAP)
            && Remembers(if !novel || x.id.None? then seen
                         else if |seen + [x.id.value]| > SEEN_EVENT_CAP then (seen + [x.id.value])[1..]
                         else seen + [x.id.value], all)
  {
    hide LastOf;
    assert (run + [x])[..|run|] == run;
    if x.id.Some? { LastOfStep(Kept(run, SEEN_EVENT_CAP), x.id.value, SEEN_EVENT_CAP); }
  }

  class PipelineState {
    var counts: map<Key, int>
    var lastEventAt: map<Key, string>
    var published: map<Key, int>
    /** An OrderedDict used as a queue: the ids entered last. */
    var seen: seq<Id>
    /** All arrivals so far, and all changes emitted so far. */
    ghost var run: seq<Arrival>
    ghost var drained: seq<Change>

    constructor ()
      ensures Valid() && run == [] && drained == []
    {
      counts, lastEventAt, published, seen, run, drained := map[], map[], map[], [], [], [];
    }

    ghost predicate Valid()
      reads this
    {
      && Remembers(seen, run) && Tallies(counts, run) && Dates(lastEventAt, run)
      && Published(published, drained)
      && forall key :: 0 <= Emitted(drained, key) <= Count(run, key, SEEN_EVENT_CAP)
    }

    method Record(key: Key, when: string, id: Option<Id>) returns (counted: bool)
      requires Valid()
      modifies this`counts, this`lastEventAt, this`seen, this`run
      ensures Valid() && run == old(run) + [Arrival(key, when, id)]
      ensures counted == Counted(run, |old(run)|, SEEN_EVENT_CAP)
    {
      hide Remembers, Tallies, Dates, Published, Count, Counted, Emitted;
      ghost var x := Arrival(key, when, id);
      MemoryStep(seen, run, x);
      TalliesStep(counts, lastEventAt, run, x);
      CountGrows(run, x);
      run := run + [x];
      if id.Some? {
        if id.value in seen { return false; }
        seen := seen + [id.value];
        if |seen| > SEEN_EVENT_CAP { seen := seen[1..]; }
      }
      counts := counts[key := (if key in counts then counts[key] else 0) + 1];
      if when != "" { lastEventAt := lastEventAt[key := when]; }
      return true;
    }

    /** Emits every positive change since the last drain; afterwards nothing is pending. */
    method DrainChanges() returns (changes: seq<Change>)
      requires Valid()
      modifies this`published, this`drained
      ensures Valid() && drained == old(drained) + changes
      ensures forall i :: 0 <= i < |changes| ==> changes[i].delta > 0
      ensures forall i, j :: 0 <= i < j < |changes| ==> changes[i].key != changes[j].key
      ensures forall key :: Emitted(drained, key) == Count(run, key, SEEN_EVENT_CAP)
    {
      hide Remembers, Tallies, Dates, Published, Count, Emitted;
      changes := [];
      var rest := counts.Keys;
      ghost var before := published;
      EmittedNone();
      while rest != {}
        invariant rest <= counts.Keys && drained == old(drained)
        invariant forall i :: 0 <= i < |changes| ==> changes[i].delta > 0 && changes[i].key !in rest
        invariant forall i, j :: 0 <= i < j < |changes| ==> changes[i].key != changes[j].key
        invariant forall key :: At(published, key) == At(before, key) + Emitted(changes, key)
        invariant forall key :: key in rest ==> At(published, key) == At(before, key)
        invariant forall key :: key in counts && key !in rest ==> At(published, key) >= counts[key]
        invariant forall key :: At(before, key) <= At(published, key) <= Bigger(At(before, key), At(counts, key))
        decreases |rest|
      {
        var key :| key in rest;
        rest := rest - {key};
        var delta := counts[key] - At(published, key);
        if delta > 0 {
          EmittedSnoc(changes, Change(key, delta));
          changes := changes + [Change(key, delta)];
          published := published[key := counts[key]];
        }
      }
      Settled(counts, before, published, run, drained, changes);
      drained := drained + changes;
    }
  }

  function Bigger(a: int, b: int): int { if a < b then b else a }

  lemma EmittedNone()
    ensures forall key :: Emitted([], key) == 0
  {
  }

  lemma CountGrows(run: seq<Arrival>, x: Arrival)
    ensures forall key :: Count(run, key, SEEN_EVENT_CAP) <= Count(run + [x], key, SEEN_EVENT_CAP)
  {
    assert (run + [x])[..|run|] == run;
  }

  lemma Settled(counts: map<Key, int>, before: map<Key, int>, after: map<Key, int>,
                run: seq<Arrival>, drained: seq<Change>, changes: seq<Change>)
    requires Tallies(counts, run) && Published(before, drained)
    requires forall key :: 0 <= Emitted(drained, key) <= Count(run, key, SEEN_EVENT_CAP)
    requires forall key :: At(after, key) == At(before, key) + Emitted(changes, key)
    requires forall key :: key in counts ==> At(after, key) >= counts[key]
    requires forall key :: At(before, key) <= At(after, key) <= Bigger(At(before, key), At(counts, key))
    ensures Published(after, drained + changes)
    ensures forall key :: Emitted(drained + changes, key) == Count(run, key, SEEN_EVENT_CAP)
  {
    hide Emitted, Count;
    forall key ensures Emitted(drained + changes, key) == At(after, key) == At(counts, key) {
      EmittedConcat(drained, changes, key);
      assert At(before, key) == Emitted(drained, key);
      assert At(counts, key) == Count(run, key, SEEN_EVENT_CAP);
    }
  }
}
