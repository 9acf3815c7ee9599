/**
 From the rule store to the detectors: requests change the stored document and publish it
 under one lock, a producer queue delivers or loses snapshots, any process may crash and
 restart, foreign records may appear on the topic, and an engine replays the topic.
 */
module RuleProtocol {
  import opened Options
  import opened Rules

  /** What is fixed in a run: which patterns compile, and the rules shipped with the program. */
  datatype Setup = Setup(compiles: Compiles, defaults: Document)

  /** A published document; its version, a history variable, counts the documents stored before it. */
  datatype Snapshot = Snapshot(version: nat, doc: Document)

  /** The key of every published record. */
  const ACTIVE := "active"

  /** A record of the topic; a foreign one has any key and need not even be readable. */
  datatype Record = Published(snapshot: Snapshot) | Foreign(key: string, value: Option<Document>)

  function KeyOf(r: Record): string { if r.Published? then ACTIVE else r.key }

  datatype Fate = Waiting | Kept | Lost

  /** What the holder of the lock is doing. */
  datatype Phase = Idle | Holding | Publishing(fate: Fate)

  /** `synced`: the last publication succeeded, and nothing was stored since. */
  datatype Server = Down | Up(current: Document, phase: Phase, booting: bool, synced: bool)

  datatype Engine = Engine(rules: Document, position: nat, end: nat, caughtUp: bool)

  /** `stores` and `requests` are history variables: all documents stored, and what changed them. */
  datatype World = World(
    disk: Option<Document>, stores: seq<Document>, requests: seq<Request>, server: Server,
    queue: seq<Snapshot>, topic: seq<Record>, engine: Engine)

  datatype Step =
    | Boot(written: bool)
    | Handle(request: Request, written: bool)
    | Send
    | Deliver
    | Discard(index: nat)
    | Resolve(ok: bool)
    | Crash
    | Noise(key: string, value: Option<Document>)
    | Listen
    | Read
    | Latch

  function Value(r: Record): Option<Document> {
    match r
    case Published(s) => Some(s.doc)
    case Foreign(_, v) => v
  }

  predicate Acceptable(r: Record, compiles: Compiles) {
    Value(r).Some? && ValidDocument(Value(r).value, compiles)
  }

  function EnabledOnly(doc: Document): Document {
    if doc == [] then []
    else EnabledOnly(doc[..|doc| - 1]) + if doc[|doc| - 1].enabled then [doc[|doc| - 1]] else []
  }

  lemma {:induction false} EnabledAre(doc: Document)
    ensures forall r :: r in EnabledOnly(doc) <==> r in doc && r.enabled
    ensures UniqueIds(doc) ==> UniqueIds(EnabledOnly(doc))
  {
    if doc != [] {
      var n := |doc| - 1;
      EnabledAre(doc[..n]);
      assert forall r :: r in doc <==> r in doc[..n] || r == doc[n];
      if UniqueIds(doc) && doc[n].enabled {
        var rest := EnabledOnly(doc[..n]);
        forall i | 0 <= i < |rest| ensures rest[i].id != doc[n].id {
          assert rest[i] in doc[..n];
          var k :| 0 <= k < n && doc[..n][k] == rest[i];
        }
      }
    }
  }

  /** ... in the order of the document. */
  lemma {:induction false} EnabledInOrder(a: Document, b: Document)
    ensures EnabledOnly(a + b) == EnabledOnly(a) + EnabledOnly(b)
  {
    if b == [] {
      assert a + b == a;
    } else {
      var n := |b| - 1;
      EnabledInOrder(a, b[..n]);
      assert (a + b)[..|a + b| - 1] == a + b[..n];
    }
  }

  /** The engine keeps its rules when a record is rejected. */
  function Swapped(rules: Document, r: Record, compiles: Compiles): Document {
    if Acceptable(r, compiles) then EnabledOnly(Value(r).value) else rules
  }

  function Replayed(rules: Document, records: seq<Record>, compiles: Compiles): Document {
    if records == [] then rules
    else Swapped(Replayed(rules, records[..|records| - 1], compiles), records[|records| - 1], compiles)
  }

  predicate Enabled(w: World, s: Step, setup: Setup) {
    match s
    case Boot(_) => w.server.Down?
    case Handle(_, _) => w.server.Up? && w.server.phase.Idle? && !w.server.booting
    case Send => w.server.Up? && w.server.phase.Holding?
    case Deliver => w.server.Up? && w.queue != []
    case Discard(i) => w.server.Up? && i < |w.queue|
    case Resolve(ok) => w.server.Up? && w.server.phase.Publishing? && (ok ==> w.server.phase.fate.Kept?)
    case Crash => true
    case Noise(k, v) => !Acceptable(Foreign(k, v), setup.compiles)
    case Listen => true
    case Read => w.engine.position < |w.topic|
    case Latch => w.engine.position >= w.engine.end
  }

  function Version(w: World): nat { if w.stores == [] then 0 else |w.stores| - 1 }

  function Stored(w: World, next: Document): World { w.(disk := Some(next), stores := w.stores + [next]) }

  function Own(w: World, index: nat, fate: Fate): Server
    requires w.server.Up?
  {
    if w.server.phase == Publishing(Waiting) && index == |w.queue| - 1
    then w.server.(phase := Publishing(fate)) else w.server
  }

  function Apply(w: World, s: Step, setup: Setup): World
    requires Enabled(w, s, setup)
  {
    match s
    case Boot(written) => (
      match w.disk
      case Some(doc) => w.(server := Up(doc, Holding, true, false))
      case None =>
        if written then Stored(w, setup.defaults).(server := Up(setup.defaults, Holding, true, false)) else w)
    case Handle(request, written) => (
      match Requested(w.server.current, request, setup.compiles)
      case Err(_) => w
      case Ok(next) =>
        if written then Stored(w, next).(requests := w.requests + [request], server := Up(next, Holding, false, false))
        else w)
    case Send =>
      w.(queue := w.queue + [Snapshot(Version(w), w.server.current)],
         server := w.server.(phase := Publishing(Waiting)))
    case Deliver =>
      w.(topic := w.topic + [Published(w.queue[0])], queue := w.queue[1..], server := Own(w, 0, Kept))
    case Discard(i) => w.(queue := w.queue[..i] + w.queue[i + 1..], server := Own(w, i, Lost))
    case Resolve(ok) =>
      if ok then w.(server := Up(w.server.current, Idle, false, true))
      else if w.server.booting then w.(server := Down, queue := [])
      else w.(server := Up(w.server.current, Idle, false, false))
    case Crash => w.(server := Down, queue := [])
    case Noise(k, v) => w.(topic := w.topic + [Foreign(k, v)])
    case Listen => w.(engine := Engine(EnabledOnly(setup.defaults), 0, |w.topic|, false))
    case Read =>
      w.(engine := w.engine.(rules := Swapped(w.engine.rules, w.topic[w.engine.position], setup.compiles),
                             position := w.engine.position + 1))
    case Latch => w.(engine := w.engine.(caughtUp := true))
  }

  function Initial(setup: Setup): World {
    World(None, [], [], Down, [], [], Engine(EnabledOnly(setup.defaults), 0, 0, false))
  }

  /** The world after a run of steps, or None when some step was not possible. */
  function Exec(w: World, steps: seq<Step>, setup: Setup): Option<World> {
    if steps == [] then Some(w)
    else
      var before := Exec(w, steps[..|steps| - 1], setup);
      if before.Some? && Enabled(before.value, steps[|steps| - 1], setup)
      then Some(Apply(before.value, steps[|steps| - 1], setup))
      else None
  }

  // --------------------------------------------------------------- invariant

  function Snapshots(topic: seq<Record>): seq<Snapshot> {
    if topic == [] then []
    else
      var r := topic[|topic| - 1];
      Snapshots(topic[..|topic| - 1]) + if r.Published? then [r.snapshot] else []
  }

  ghost predicate InOrder(s: seq<Snapshot>) {
    |s| > 1 ==> InOrder(s[..|s| - 1]) && s[|s| - 2].version <= s[|s| - 1].version
  }

  ghost predicate Genuine(s: seq<Snapshot>, stores: seq<Document>) {
    forall i :: 0 <= i < |s| ==> s[i].version < |stores| && s[i].doc == stores[s[i].version]
  }

  /** Every stored document is valid, and each comes from the one before by one accepted request. */
  ghost predicate History(w: World, setup: Setup) {
    && (forall i :: 0 <= i < |w.stores| ==> ValidDocument(w.stores[i], setup.compiles))
    && (if w.stores == [] then w.disk.None? && w.requests == []
        else w.disk == Some(w.stores[|w.stores| - 1]) && |w.requests| == |w.stores| - 1)
    && forall i :: 0 <= i < |w.requests| && i + 1 < |w.stores| ==>
         Requested(w.stores[i], w.requests[i], setup.compiles) == Ok(w.stores[i + 1])
  }

  ghost predicate Topical(w: World) {
    InOrder(Snapshots(w.topic) + w.queue) && Genuine(Snapshots(w.topic) + w.queue, w.stores)
  }

  function Newest(w: World): Snapshot
    requires w.server.Up?
  {
    Snapshot(Version(w), w.server.current)
  }

  ghost predicate Serving(w: World) {
    if w.server.Down? then w.queue == []
    else
      && w.disk == Some(w.server.current)
      && (w.server.synced ==> w.server.phase.Idle?)
      && (w.server.phase == Publishing(Waiting) ==> w.queue != [] && w.queue[|w.queue| - 1] == Newest(w))
      && (w.server.synced || w.server.phase == Publishing(Kept) ==> w.queue == [] && TopicEndsWith(w.topic, Newest(w)))
  }

  ghost predicate TopicEndsWith(topic: seq<Record>, s: Snapshot) {
    Snapshots(topic) != [] && Snapshots(topic)[|Snapshots(topic)| - 1] == s
  }

  ghost predicate Heard(w: World, setup: Setup) {
    && w.engine.position <= |w.topic| && w.engine.end <= |w.topic|
    && w.engine.rules == Replayed(EnabledOnly(setup.defaults), w.topic[..w.engine.position], setup.compiles)
    && (w.engine.caughtUp ==> w.engine.position >= w.engine.end)
    && (forall i :: 0 <= i < |w.topic| && w.topic[i].Foreign? ==> !Acceptable(w.topic[i], setup.compiles))
  }

  ghost predicate Inv(w: World, setup: Setup) {
    History(w, setup) && Topical(w) && Serving(w) && Heard(w, setup)
  }

  // -------------------------------------------------------------- preservation

  lemma SnapshotsSnoc(topic: seq<Record>, r: Record)
    ensures Snapshots(topic + [r]) == Snapshots(topic) + if r.Published? then [r.snapshot] else []
  {
    assert (topic + [r])[..|topic|] == topic;
  }

  lemma ReplayedSnoc(rules: Document, topic: seq<Record>, r: Record, compiles: Compiles)
    ensures Replayed(rules, topic + [r], compiles) == Swapped(Replayed(rules, topic, compiles), r, compiles)
  {
    assert (topic + [r])[..|topic|] == topic;
  }

  lemma InOrderSnoc(s: seq<Snapshot>, x: Snapshot)
    requires InOrder(s) && forall i :: 0 <= i < |s| ==> s[i].version <= x.version
    ensures InOrder(s + [x])
  {
    assert (s + [x])[..|s|] == s;
  }

  /** Losing a snapshot, or the tail of the queue, keeps the order of the rest. */
  lemma {:induction false} InOrderLess(s: seq<Snapshot>, i: nat)
    requires InOrder(s) && i < |s|
    ensures InOrder(s[..i] + s[i + 1..])
  {
    var n := |s| - 1;
    var less := s[..i] + s[i + 1..];
    if i == n {
      assert less == s[..n];
    } else {
      var rest := s[..n][..i] + s[..n][i + 1..];
      InOrderLess(s[..n], i);
      assert less == rest + [s[n]];
      if rest != [] { assert rest[|rest| - 1].version <= s[n].version by { BeforeLast(s, i); } }
      InOrderNext(rest, s[n]);
    }
  }

  /** The snapshot before the last one, when `i` is left out. */
  lemma BeforeLast(s: seq<Snapshot>, i: nat)
    requires InOrder(s) && i + 1 < |s| && |s| > 2
    ensures var rest := s[..|s| - 1][..i] + s[..|s| - 1][i + 1..]; rest[|rest| - 1].version <= s[|s| - 1].version
  {
    OrderedPair(s, |s| - 3, |s| - 1);
    OrderedPair(s, |s| - 2, |s| - 1);
  }

  lemma InOrderNext(s: seq<Snapshot>, x: Snapshot)
    requires InOrder(s) && (s != [] ==> s[|s| - 1].version <= x.version)
    ensures InOrder(s + [x])
  {
    assert (s + [x])[..|s|] == s;
  }

  lemma {:induction false} InOrderPrefix(s: seq<Snapshot>, n: nat)
    requires InOrder(s) && n <= |s|
    ensures InOrder(s[..n])
  {
    if n < |s| {
      assert s[..|s| - 1][..n] == s[..n];
      if |s| > 1 { InOrderPrefix(s[..|s| - 1], n); }
    } else {
      assert s[..n] == s;
    }
  }

  lemma {:induction false} OrderedPair(s: seq<Snapshot>, i: nat, j: nat)
    requires InOrder(s) && i <= j < |s|
    ensures s[i].version <= s[j].version
  {
    if i < j {
      InOrderPrefix(s, j);
      InOrderPrefix(s, j + 1);
      assert s[..j + 1][..j] == s[..j];
      OrderedPair(s, i, j - 1);
    }
  }

  lemma HistoryKept(w: World, s: Step, setup: Setup)
    requires Inv(w, setup) && Enabled(w, s, setup) && ValidDocument(setup.defaults, setup.compiles)
    ensures History(Apply(w, s, setup), setup)
  {
    hide ValidDocument, Requested, Topical, Heard, Snapshots;
    if s.Handle? && Requested(w.server.current, s.request, setup.compiles).Ok? {
      RequestedIsValid(w.server.current, s.request, setup.compiles);
    }
  }

  lemma RequestedIsValid(doc: Document, request: Request, compiles: Compiles)
    requires Requested(doc, request, compiles).Ok?
    ensures ValidDocument(Requested(doc, request, compiles).value, compiles)
  {
  }

  lemma GenuineGrows(s: seq<Snapshot>, stores: seq<Document>, next: Document)
    requires Genuine(s, stores)
    ensures Genuine(s, stores + [next])
  {
  }

  lemma SentIsInOrder(s: seq<Snapshot>, stores: seq<Document>)
    requires InOrder(s) && Genuine(s, stores) && stores != []
    ensures var x := Snapshot(|stores| - 1, stores[|stores| - 1]); InOrder(s + [x]) && Genuine(s + [x], stores)
  {
    hide InOrder;
    InOrderSnoc(s, Snapshot(|stores| - 1, stores[|stores| - 1]));
  }

  lemma LessOne(t: seq<Snapshot>, q: seq<Snapshot>, i: nat)
    requires i < |q|
    ensures t + (q[..i] + q[i + 1..]) == (t + q)[..|t| + i] + (t + q)[|t| + i + 1..]
  {
    assert (t + q)[..|t| + i] == t + q[..i];
    assert (t + q)[|t| + i + 1..] == q[i + 1..];
  }

  lemma GenuineLess(s: seq<Snapshot>, i: nat, stores: seq<Document>)
    requires Genuine(s, stores) && i < |s|
    ensures Genuine(s[..i] + s[i + 1..], stores)
  {
    var less := s[..i] + s[i + 1..];
    forall k | 0 <= k < |less| ensures less[k].version < |stores| && less[k].doc == stores[less[k].version] {
      assert less[k] == s[if k < i then k else k + 1];
    }
  }

  lemma SomeLost(t: seq<Snapshot>, q: seq<Snapshot>, i: nat, stores: seq<Document>)
    requires InOrder(t + q) && Genuine(t + q, stores) && i < |q|
    ensures InOrder(t + (q[..i] + q[i + 1..])) && Genuine(t + (q[..i] + q[i + 1..]), stores)
  {
    hide InOrder, Genuine;
    LessOne(t, q, i);
    InOrderLess(t + q, |t| + i);
    GenuineLess(t + q, |t| + i, stores);
  }

  lemma QueueLost(t: seq<Snapshot>, q: seq<Snapshot>, stores: seq<Document>)
    requires InOrder(t + q) && Genuine(t + q, stores)
    ensures InOrder(t + []) && Genuine(t + [], stores)
  {
    hide InOrder;
    InOrderPrefix(t + q, |t|);
    assert (t + q)[..|t|] == t + [];
    forall k | 0 <= k < |t| ensures t[k].version < |stores| && t[k].doc == stores[t[k].version] {
      assert t[k] == (t + q)[k];
    }
  }

  lemma TopicalKept(w: World, s: Step, setup: Setup)
    requires Inv(w, setup) && Enabled(w, s, setup)
    ensures Topical(Apply(w, s, setup))
  {
    hide ValidDocument, Requested, Heard, Snapshots, InOrder, Genuine, TopicEndsWith, Swapped;
    var t := Snapshots(w.topic);
    match s
    case Boot(_) => GenuineGrows(t + w.queue, w.stores, setup.defaults);
    case Handle(request, _) =>
      if Requested(w.server.current, request, setup.compiles).Ok? {
        GenuineGrows(t + w.queue, w.stores, Requested(w.server.current, request, setup.compiles).value);
      }
    case Send =>
      SentIsInOrder(t + w.queue, w.stores);
      assert t + (w.queue + [Newest(w)]) == (t + w.queue) + [Newest(w)];
    case Deliver =>
      SnapshotsSnoc(w.topic, Published(w.queue[0]));
      assert (t + [w.queue[0]]) + w.queue[1..] == t + w.queue;
    case Discard(i) => SomeLost(t, w.queue, i, w.stores);
    case Resolve(_) => QueueLost(t, w.queue, w.stores);
    case Crash => QueueLost(t, w.queue, w.stores);
    case Noise(k, v) =>
      SnapshotsSnoc(w.topic, Foreign(k, v));
      assert t + [] == t;
    case _ =>
  }

  lemma EndsAfterRecord(topic: seq<Record>, r: Record, s: Snapshot)
    ensures TopicEndsWith(topic + [r], s) <==> if r.Published? then r.snapshot == s else TopicEndsWith(topic, s)
  {
    hide Snapshots;
    SnapshotsSnoc(topic, r);
    assert Snapshots(topic) + [] == Snapshots(topic);
  }

  lemma ServingKept(w: World, s: Step, setup: Setup)
    requires Inv(w, setup) && Enabled(w, s, setup)
    ensures Serving(Apply(w, s, setup))
  {
    hide ValidDocument, Requested, Heard, Topical, Swapped, TopicEndsWith;
    match s
    case Deliver => if w.server.Up? { EndsAfterRecord(w.topic, Published(w.queue[0]), Newest(w)); }
    case Noise(k, v) => if w.server.Up? { EndsAfterRecord(w.topic, Foreign(k, v), Newest(w)); }
    case _ =>
  }

  lemma HeardKept(w: World, s: Step, setup: Setup)
    requires Inv(w, setup) && Enabled(w, s, setup)
    ensures Heard(Apply(w, s, setup), setup)
  {
    hide ValidDocument, Requested, Topical, Serving, Snapshots, Swapped, History;
    match s
    case Deliver => PrefixKept(w, Published(w.queue[0]));
    case Noise(k, v) => PrefixKept(w, Foreign(k, v));
    case Listen => assert w.topic[..0] == [];
    case Read =>
      var n := w.engine.position;
      assert w.topic[..n + 1] == w.topic[..n] + [w.topic[n]];
      ReplayedSnoc(EnabledOnly(setup.defaults), w.topic[..n], w.topic[n], setup.compiles);
    case _ =>
  }

  lemma PrefixKept(w: World, r: Record)
    requires w.engine.position <= |w.topic|
    ensures (w.topic + [r])[..w.engine.position] == w.topic[..w.engine.position]
  {
  }

  lemma {:induction false} StepKeeps(w: World, s: Step, setup: Setup)
    requires Inv(w, setup) && Enabled(w, s, setup) && ValidDocument(setup.defaults, setup.compiles)
    ensures Inv(Apply(w, s, setup), setup)
  {
    hide History, Topical, Serving, Heard, Enabled, Apply;
    HistoryKept(w, s, setup);
    TopicalKept(w, s, setup);
    ServingKept(w, s, setup);
    HeardKept(w, s, setup);
  }

  /** Every reachable world satisfies the invariant. */
  lemma {:induction false} Reachable(steps: seq<Step>, setup: Setup)
    requires ValidDocument(setup.defaults, setup.compiles)
    requires Exec(Initial(setup), steps, setup).Some?
    ensures Inv(Exec(Initial(setup), steps, setup).value, setup)
  {
    hide Enabled, Apply, ValidDocument;
    if steps != [] {
      Reachable(steps[..|steps| - 1], setup);
      StepKeeps(Exec(Initial(setup), steps[..|steps| - 1], setup).value, steps[|steps| - 1], setup);
    }
  }

  // ------------------------------------------------------------- the theorems

  /** The world a run from the start arrives in. */
  ghost predicate Arrives(steps: seq<Step>, w: World, setup: Setup) {
    ValidDocument(setup.defaults, setup.compiles) && Exec(Initial(setup), steps, setup) == Some(w)
  }

  /** Whatever happens, only non-empty valid documents with unique ids are ever stored. */
  lemma {:induction false} AlwaysValid(steps: seq<Step>, w: World, setup: Setup, i: nat)
    requires Arrives(steps, w, setup) && i < |w.stores|
    ensures ValidDocument(w.stores[i], setup.compiles)
    ensures w.disk == Some(w.stores[|w.stores| - 1])
    ensures w.server.Up? ==> w.disk == Some(w.server.current)
  {
    hide ValidDocument, Enabled, Apply;
    Reachable(steps, setup);
  }

  /** Successive documents differ by one accepted request, so a create never replaces a rule. */
  lemma {:induction false} NeverOverwrites(steps: seq<Step>, w: World, setup: Setup, i: nat)
    requires Arrives(steps, w, setup) && i < |w.requests|
    ensures i + 1 < |w.stores| && ValidDocument(w.stores[i], setup.compiles)
    ensures Requested(w.stores[i], w.requests[i], setup.compiles) == Ok(w.stores[i + 1])
    ensures w.requests[i].Create? ==>
              && (forall r :: r in w.stores[i] ==> r in w.stores[i + 1] && r.id != w.requests[i].rule.id)
              && w.requests[i].rule in w.stores[i + 1]
  {
    hide ValidDocument, Enabled, Apply, Requested;
    Reachable(steps, setup);
    assert ValidDocument(w.stores[i], setup.compiles) && w.stores[i + 1] == w.stores[i + 1];
    OneIdChanges(w.stores[i], w.requests[i], setup.compiles);
  }

  /** Published snapshots appear in the order the documents were stored. */
  lemma {:induction false} PublishedInOrder(steps: seq<Step>, w: World, setup: Setup, i: nat, j: nat)
    requires Arrives(steps, w, setup) && i <= j < |Snapshots(w.topic)|
    ensures var s := Snapshots(w.topic);
            && s[i].version <= s[j].version < |w.stores|
            && s[i].doc == w.stores[s[i].version]
  {
    hide ValidDocument, Enabled, Apply, Snapshots, InOrder;
    Reachable(steps, setup);
    var all := Snapshots(w.topic) + w.queue;
    OrderedPair(all, i, j);
    assert all[i] == Snapshots(w.topic)[i] && all[j] == Snapshots(w.topic)[j];
  }

  /** The rules of the newest acceptable record, if there is one. */
  function NewestValid(records: seq<Record>, compiles: Compiles): Option<Document> {
    if records == [] then None
    else if Acceptable(records[|records| - 1], compiles) then Value(records[|records| - 1])
    else NewestValid(records[..|records| - 1], compiles)
  }

  /** Replaying records leaves exactly the enabled rules of the newest valid one. */
  lemma {:induction false} ReplayIsNewest(rules: Document, records: seq<Record>, compiles: Compiles)
    ensures Replayed(rules, records, compiles)
         == match NewestValid(records, compiles) case Some(d) => EnabledOnly(d) case None => rules
  {
    if records != [] { ReplayIsNewest(rules, records[..|records| - 1], compiles); }
  }

  /** Foreign records are never acceptable, so the newest valid record is the newest snapshot. */
  lemma {:induction false} NewestIsSnapshot(topic: seq<Record>, compiles: Compiles)
    requires forall i :: 0 <= i < |topic| && topic[i].Foreign? ==> !Acceptable(topic[i], compiles)
    requires forall i :: 0 <= i < |Snapshots(topic)| ==> ValidDocument(Snapshots(topic)[i].doc, compiles)
    ensures NewestValid(topic, compiles)
         == if Snapshots(topic) == [] then None else Some(Snapshots(topic)[|Snapshots(topic)| - 1].doc)
  {
    hide ValidDocument;
    if topic != [] {
      var n := |topic| - 1;
      var rest := Snapshots(topic[..n]);
      if topic[n].Published? {
        assert Snapshots(topic)[|rest|] == topic[n].snapshot;
      } else {
        assert Snapshots(topic) == rest;
        NewestIsSnapshot(topic[..n], compiles);
      }
    }
  }

  lemma NewestPublished(steps: seq<Step>, w: World, setup: Setup)
    requires Arrives(steps, w, setup)
    ensures var s := Snapshots(w.topic);
            NewestValid(w.topic, setup.compiles) == if s == [] then None else Some(s[|s| - 1].doc)
  {
    hide ValidDocument, Enabled, Apply, Snapshots, InOrder, Replayed, NewestValid;
    Reachable(steps, setup);
    var s := Snapshots(w.topic);
    forall i | 0 <= i < |s| ensures ValidDocument(s[i].doc, setup.compiles) {
      assert s[i] == (s + w.queue)[i];
      AlwaysValid(steps, w, setup, s[i].version);
    }
    NewestIsSnapshot(w.topic, setup.compiles);
  }

  /** An engine holds the enabled rules of the newest valid snapshot it has read, or the shipped rules. */
  lemma {:induction false} EngineExactly(steps: seq<Step>, w: World, setup: Setup)
    requires Arrives(steps, w, setup)
    ensures w.engine.position <= |w.topic|
    ensures w.engine.rules
         == match NewestValid(w.topic[..w.engine.position], setup.compiles)
            case Some(d) => EnabledOnly(d) case None => EnabledOnly(setup.defaults)
    ensures w.engine.caughtUp ==> w.engine.position >= w.engine.end
  {
    hide ValidDocument, Enabled, Apply, Snapshots, InOrder, NewestValid, Replayed;
    Reachable(steps, setup);
    ReplayIsNewest(EnabledOnly(setup.defaults), w.topic[..w.engine.position], setup.compiles);
  }

  /** When the last publication succeeded, an engine at the end of the topic holds the stored rules. */
  lemma {:induction false} CaughtUp(steps: seq<Step>, w: World, setup: Setup)
    requires Arrives(steps, w, setup)
    requires w.server.Up? && w.server.synced && w.engine.position == |w.topic|
    ensures w.engine.rules == EnabledOnly(w.server.current) && w.disk == Some(w.server.current)
  {
    hide ValidDocument, Enabled, Apply, InOrder, NewestValid, Replayed, EnabledOnly, Snapshots;
    Reachable(steps, setup);
    EngineExactly(steps, w, setup);
    NewestPublished(steps, w, setup);
    assert w.topic[..|w.topic|] == w.topic;
  }

  /** A request that reports success has put its document last on the topic. */
  lemma {:induction false} SuccessIsPublished(steps: seq<Step>, w: World, setup: Setup)
    requires Arrives(steps, w, setup) && Enabled(w, Resolve(true), setup)
    ensures var after := Apply(w, Resolve(true), setup);
            && after.server.Up? && after.server.synced
            && TopicEndsWith(after.topic, Newest(after)) && after.queue == []
  {
    hide ValidDocument, Snapshots, InOrder, NewestValid, Replayed, EnabledOnly, Exec;
    Reachable(steps, setup);
  }
}
