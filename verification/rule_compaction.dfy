/** What log compaction of the rule topic may take from an engine that starts later. */
module RuleCompaction {
  import opened Options
  import opened Rules
  import opened RuleProtocol

  /** No record between the i-th and `to` has the key of the i-th. */
  ghost predicate LastUpTo(full: seq<Record>, i: nat, to: nat)
    requires i < |full|
  {
    forall j :: i < j < to && j < |full| ==> KeyOf(full[j]) != KeyOf(full[i])
  }

  ghost predicate LastOfKey(full: seq<Record>, i: nat)
    requires i < |full|
  {
    LastUpTo(full, i, |full|)
  }

  /**
   What the log cleaner keeps of a topic that it has cleaned up to an offset: before the offset
   the last record of each key, after it everything.
   */
  ghost predicate CleanedTo(keep: seq<bool>, full: seq<Record>, to: nat) {
    |keep| == |full| && forall i :: 0 <= i < |full| ==> (keep[i] <==> i >= to || LastUpTo(full, i, to))
  }

  /** A stage of compaction: one offset for all keys. */
  ghost predicate Compaction(keep: seq<bool>, full: seq<Record>) {
    exists to :: 0 <= to <= |full| && CleanedTo(keep, full, to)
  }

  function Kept(full: seq<Record>, keep: seq<bool>): seq<Record>
    requires |keep| == |full|
  {
    if full == [] then []
    else
      var n := |full| - 1;
      Kept(full[..n], keep[..n]) + if keep[n] then [full[n]] else []
  }

  /** Every stage of compaction gives a starting engine the same rules as the whole topic. */
  ghost predicate CompactionSafe(rules: Document, full: seq<Record>, compiles: Compiles) {
    forall keep :: Compaction(keep, full) && |keep| == |full| ==>
      Replayed(rules, Kept(full, keep), compiles) == Replayed(rules, full, compiles)
  }

  // ----------------------------------------------------- what can be exposed

  /** An acceptable record that no stage of compaction removes. */
  ghost predicate Anchored(full: seq<Record>, i: nat, compiles: Compiles)
    requires i < |full|
  {
    Acceptable(full[i], compiles) && LastOfKey(full, i)
  }

  /** A later record of the same key as the j-th, with none of the key of `q` up to there. */
  ghost predicate GoesBefore(full: seq<Record>, j: nat, q: nat)
    requires j < |full| && q < |full|
  {
    exists i :: j < i < |full| && KeyOf(full[i]) == KeyOf(full[j])
                && forall x :: q < x <= i ==> KeyOf(full[x]) != KeyOf(full[q])
  }

  /**
   A record that some stage of compaction makes the newest acceptable one: every acceptable record
   after it is superseded before it is itself.
   */
  ghost predicate Exposed(full: seq<Record>, q: nat, compiles: Compiles)
    requires q < |full|
  {
    && Acceptable(full[q], compiles)
    && forall j :: q < j < |full| && Acceptable(full[j], compiles) ==> GoesBefore(full, j, q)
  }

  /** No acceptable record must stay, so that an engine may be left with the rules it started with. */
  ghost predicate Unanchored(full: seq<Record>, compiles: Compiles) {
    forall j :: 0 <= j < |full| ==> !Anchored(full, j, compiles)
  }

  /** The newest acceptable record among those kept. */
  ghost predicate NewestKept(full: seq<Record>, keep: seq<bool>, q: nat, compiles: Compiles)
    requires |keep| == |full| && q < |full|
  {
    && keep[q] && Acceptable(full[q], compiles)
    && forall j :: q < j < |full| && keep[j] ==> !Acceptable(full[j], compiles)
  }

  lemma {:induction false} ReplayOfKept(rules: Document, full: seq<Record>, keep: seq<bool>, q: nat, compiles: Compiles)
    requires |keep| == |full| && q < |full| && NewestKept(full, keep, q, compiles)
    ensures Replayed(rules, Kept(full, keep), compiles) == EnabledOnly(Value(full[q]).value)
  {
    hide ValidDocument, EnabledOnly;
    var n := |full| - 1;
    var rest := Kept(full[..n], keep[..n]);
    if keep[n] {
      assert (rest + [full[n]])[..|rest|] == rest;
    } else {
      assert Kept(full, keep) == rest;
    }
    if q < n { ReplayOfKept(rules, full[..n], keep[..n], q, compiles); }
  }

  lemma {:induction false} ReplayOfNone(rules: Document, full: seq<Record>, keep: seq<bool>, compiles: Compiles)
    requires |keep| == |full|
    requires forall j :: 0 <= j < |full| && keep[j] ==> !Acceptable(full[j], compiles)
    ensures Replayed(rules, Kept(full, keep), compiles) == rules
  {
    hide ValidDocument, EnabledOnly;
    if full != [] {
      var n := |full| - 1;
      var rest := Kept(full[..n], keep[..n]);
      ReplayOfNone(rules, full[..n], keep[..n], compiles);
      if keep[n] {
        assert (rest + [full[n]])[..|rest|] == rest;
      } else {
        assert Kept(full, keep) == rest;
      }
    }
  }

  ghost predicate NoneKept(full: seq<Record>, keep: seq<bool>, compiles: Compiles)
    requires |keep| == |full|
  {
    forall j :: 0 <= j < |full| && keep[j] ==> !Acceptable(full[j], compiles)
  }

  lemma {:induction false} NewestKeptExists(full: seq<Record>, keep: seq<bool>, compiles: Compiles)
    requires |keep| == |full|
    ensures NoneKept(full, keep, compiles) || exists q :: 0 <= q < |full| && NewestKept(full, keep, q, compiles)
  {
    hide Acceptable;
    if full != [] {
      var n := |full| - 1;
      if keep[n] && Acceptable(full[n], compiles) {
        assert NewestKept(full, keep, n, compiles);
      } else {
        NewestKeptExists(full[..n], keep[..n], compiles);
        if q :| 0 <= q < n && NewestKept(full[..n], keep[..n], q, compiles) {
          forall j | q < j < |full| && keep[j] ensures !Acceptable(full[j], compiles) {
            if j < n { assert full[..n][j] == full[j] && keep[..n][j] == keep[j]; }
          }
          assert NewestKept(full, keep, q, compiles);
        } else {
          forall j | 0 <= j < |full| && keep[j] ensures !Acceptable(full[j], compiles) {
            if j < n { assert full[..n][j] == full[j] && keep[..n][j] == keep[j]; }
          }
        }
      }
    }
  }

  // -------------------------------------------------- exposing a record

  /** The first record after `q` with its key, or the end. */
  ghost function NextOfKey(full: seq<Record>, q: nat, from: nat): (r: nat)
    requires q < from <= |full|
    requires forall x :: q < x < from ==> KeyOf(full[x]) != KeyOf(full[q])
    ensures from <= r <= |full|
    ensures forall x :: q < x < r ==> KeyOf(full[x]) != KeyOf(full[q])
    ensures r < |full| ==> KeyOf(full[r]) == KeyOf(full[q])
    decreases |full| - from
  {
    if from == |full| || KeyOf(full[from]) == KeyOf(full[q]) then from else NextOfKey(full, q, from + 1)
  }

  ghost function Cleaned(full: seq<Record>, to: nat): seq<bool> {
    seq(|full|, i requires 0 <= i < |full| => i >= to || LastUpTo(full, i, to))
  }

  lemma CleanedIsCompaction(full: seq<Record>, to: nat)
    requires to <= |full|
    ensures CleanedTo(Cleaned(full, to), full, to) && Compaction(Cleaned(full, to), full)
  {
  }

  /** Cleaning up to the next record of the same key exposes a record. */
  lemma ExposedByCleaning(full: seq<Record>, q: nat, compiles: Compiles) returns (keep: seq<bool>)
    requires q < |full| && Exposed(full, q, compiles)
    ensures Compaction(keep, full) && |keep| == |full| && NewestKept(full, keep, q, compiles)
  {
    hide Acceptable, KeyOf;
    var to := NextOfKey(full, q, q + 1);
    keep := Cleaned(full, to);
    CleanedIsCompaction(full, to);
    forall j | q < j < |full| && Acceptable(full[j], compiles) ensures !keep[j] {
      assert GoesBefore(full, j, q);
    }
  }

  lemma NoneLeftByCleaning(full: seq<Record>, compiles: Compiles) returns (keep: seq<bool>)
    requires Unanchored(full, compiles)
    ensures Compaction(keep, full) && |keep| == |full| && NoneKept(full, keep, compiles)
  {
    hide Acceptable, KeyOf;
    keep := Cleaned(full, |full|);
    CleanedIsCompaction(full, |full|);
    forall j | 0 <= j < |full| && keep[j] ensures !Acceptable(full[j], compiles) {
      assert !Anchored(full, j, compiles);
    }
  }

  /** What is newest after a stage of compaction was exposed by it. */
  lemma NewestIsExposed(full: seq<Record>, keep: seq<bool>, q: nat, compiles: Compiles)
    requires Compaction(keep, full) && |keep| == |full| && q < |full| && NewestKept(full, keep, q, compiles)
    ensures Exposed(full, q, compiles)
  {
    hide Acceptable, KeyOf;
    var to :| 0 <= to <= |full| && CleanedTo(keep, full, to);
    forall j | q < j < |full| && Acceptable(full[j], compiles) ensures GoesBefore(full, j, q) {
      assert !keep[j] && j < to && !LastUpTo(full, j, to);
      var i :| j < i < to && i < |full| && KeyOf(full[i]) == KeyOf(full[j]);
      assert LastUpTo(full, q, to);
      forall x | q < x <= i ensures KeyOf(full[x]) != KeyOf(full[q]) {}
    }
  }

  lemma NoneIsUnanchored(full: seq<Record>, keep: seq<bool>, compiles: Compiles)
    requires Compaction(keep, full) && |keep| == |full| && NoneKept(full, keep, compiles)
    ensures Unanchored(full, compiles)
  {
    hide Acceptable, KeyOf;
    var to :| 0 <= to <= |full| && CleanedTo(keep, full, to);
    forall j | 0 <= j < |full| ensures !Anchored(full, j, compiles) {
      if Acceptable(full[j], compiles) {
        assert !keep[j];
        var i :| j < i < to && i < |full| && KeyOf(full[i]) == KeyOf(full[j]);
        assert !LastOfKey(full, j);
      }
    }
  }

  // ------------------------------------------------------------- the theorem

  /** Every record that can be exposed enables the rules that the whole topic does. */
  ghost predicate SameWhenExposed(rules: Document, full: seq<Record>, compiles: Compiles) {
    && (forall q :: 0 <= q < |full| && Exposed(full, q, compiles) ==>
          EnabledOnly(Value(full[q]).value) == Replayed(rules, full, compiles))
    && (Unanchored(full, compiles) ==> rules == Replayed(rules, full, compiles))
  }

  /** Compaction is harmless exactly when nothing it can expose differs from the newest acceptable record. */
  lemma {:induction false} CompactionSafeExactly(rules: Document, full: seq<Record>, compiles: Compiles)
    ensures CompactionSafe(rules, full, compiles) <==> SameWhenExposed(rules, full, compiles)
  {
    hide Unanchored, EnabledOnly, Replayed, Kept, NewestKept, ValidDocument, LastOfKey;
    if CompactionSafe(rules, full, compiles) {
      forall q | 0 <= q < |full| && Exposed(full, q, compiles)
        ensures EnabledOnly(Value(full[q]).value) == Replayed(rules, full, compiles)
      {
        var keep := ExposedByCleaning(full, q, compiles);
        ReplayOfKept(rules, full, keep, q, compiles);
      }
      if Unanchored(full, compiles) {
        var keep := NoneLeftByCleaning(full, compiles);
        ReplayOfNone(rules, full, keep, compiles);
      }
    }
    if SameWhenExposed(rules, full, compiles) {
      forall keep | Compaction(keep, full)
        ensures |keep| == |full| && Replayed(rules, Kept(full, keep), compiles) == Replayed(rules, full, compiles)
      {
        SafeStage(rules, full, keep, compiles);
      }
    }
  }

  lemma SafeStage(rules: Document, full: seq<Record>, keep: seq<bool>, compiles: Compiles)
    requires Compaction(keep, full)
    ensures |keep| == |full|
    ensures SameWhenExposed(rules, full, compiles) ==>
              Replayed(rules, Kept(full, keep), compiles) == Replayed(rules, full, compiles)
  {
    hide Exposed, Unanchored, EnabledOnly, Replayed, Kept, NewestKept, ValidDocument;
    NewestKeptExists(full, keep, compiles);
    if NoneKept(full, keep, compiles) {
      NoneIsUnanchored(full, keep, compiles);
      ReplayOfNone(rules, full, keep, compiles);
    } else {
      var q :| 0 <= q < |full| && NewestKept(full, keep, q, compiles);
      NewestIsExposed(full, keep, q, compiles);
      ReplayOfKept(rules, full, keep, q, compiles);
    }
  }

  // -------------------------------------------------- acceptable records of one key

  /** As on the rule topic: no other key than `key` ever has an acceptable record. */
  ghost predicate OneKey(full: seq<Record>, key: string, compiles: Compiles) {
    forall i :: 0 <= i < |full| && Acceptable(full[i], compiles) ==> KeyOf(full[i]) == key
  }

  ghost predicate SomeAnchored(full: seq<Record>, compiles: Compiles) {
    exists i :: 0 <= i < |full| && Anchored(full, i, compiles)
  }

  lemma {:induction false} NewestValidIs(full: seq<Record>, q: nat, compiles: Compiles)
    requires q < |full| && Acceptable(full[q], compiles)
    requires forall j :: q < j < |full| ==> !Acceptable(full[j], compiles)
    ensures NewestValid(full, compiles) == Value(full[q])
  {
    hide ValidDocument;
    var n := |full| - 1;
    if q < n {
      assert !Acceptable(full[n], compiles);
      NewestValidIs(full[..n], q, compiles);
    }
  }

  /**
   When only one key has acceptable records, compaction is harmless if and only if the last
   record of that key is acceptable, or there is no acceptable record, or the newest one enables
   just the rules an engine starts with. Records of other keys do no harm.
   */
  lemma {:induction false} OneKeySafeExactly(rules: Document, full: seq<Record>, key: string, compiles: Compiles)
    requires OneKey(full, key, compiles)
    ensures CompactionSafe(rules, full, compiles)
       <==> || SomeAnchored(full, compiles)
            || NewestValid(full, compiles).None?
            || EnabledOnly(NewestValid(full, compiles).value) == rules
  {
    hide ValidDocument, EnabledOnly, Replayed, NewestValid, CompactionSafe, LastOfKey, KeyOf;
    CompactionSafeExactly(rules, full, compiles);
    ReplayIsNewest(rules, full, compiles);
    forall q | 0 <= q < |full| && Exposed(full, q, compiles)
      ensures EnabledOnly(Value(full[q]).value) == Replayed(rules, full, compiles)
    {
      NewestValidIs(full, q, compiles);
    }
    if SomeAnchored(full, compiles) {
      var i :| 0 <= i < |full| && Anchored(full, i, compiles);
      assert !Unanchored(full, compiles);
    } else {
      assert Unanchored(full, compiles);
    }
  }

  // ------------------------------------------------------------ in every run

  /** The last record under the key of the snapshots is one of them. */
  ghost predicate Intact(topic: seq<Record>) {
    exists i :: 0 <= i < |topic| && topic[i].Published? && LastOfKey(topic, i)
  }

  lemma PublishedAreAcceptable(steps: seq<Step>, w: World, setup: Setup, i: nat)
    requires Arrives(steps, w, setup) && i < |w.topic|
    ensures Acceptable(w.topic[i], setup.compiles) <==> w.topic[i].Published?
  {
    hide ValidDocument, Enabled, Apply, Snapshots, InOrder;
    Reachable(steps, setup);
    if w.topic[i].Published? {
      var k := SnapshotAt(w.topic, i);
      assert Snapshots(w.topic)[k] == (Snapshots(w.topic) + w.queue)[k];
      AlwaysValid(steps, w, setup, w.topic[i].snapshot.version);
    }
  }

  lemma {:induction false} SnapshotAt(topic: seq<Record>, i: nat) returns (k: nat)
    requires i < |topic| && topic[i].Published?
    ensures k < |Snapshots(topic)| && Snapshots(topic)[k] == topic[i].snapshot
  {
    var n := |topic| - 1;
    if i < n {
      k := SnapshotAt(topic[..n], i);
    } else {
      k := |Snapshots(topic[..n])|;
    }
  }

  /** In every run: when compaction of the rule topic can leave a starting engine with other rules. */
  lemma RunSafeExactly(steps: seq<Step>, w: World, setup: Setup)
    requires Arrives(steps, w, setup)
    ensures var shipped := EnabledOnly(setup.defaults); var s := Snapshots(w.topic);
            CompactionSafe(shipped, w.topic, setup.compiles) <==>
              (Intact(w.topic) || s == [] || EnabledOnly(s[|s| - 1].doc) == shipped)
  {
    hide ValidDocument, EnabledOnly, Snapshots, NewestValid, CompactionSafe, LastOfKey, Acceptable, Arrives;
    var topic := w.topic;
    forall i | 0 <= i < |topic| ensures Acceptable(topic[i], setup.compiles) <==> topic[i].Published? {
      PublishedAreAcceptable(steps, w, setup, i);
    }
    NewestPublished(steps, w, setup);
    OneKeySafeExactly(EnabledOnly(setup.defaults), topic, ACTIVE, setup.compiles);
    if Intact(topic) {
      var i :| 0 <= i < |topic| && topic[i].Published? && LastOfKey(topic, i);
      assert Anchored(topic, i, setup.compiles);
    }
    if SomeAnchored(topic, setup.compiles) {
      var i :| 0 <= i < |topic| && Anchored(topic, i, setup.compiles);
      assert topic[i].Published? && LastOfKey(topic, i);
    }
  }

  /** So a compacted topic brings a starting engine to the stored rules, if nobody else used the key since. */
  lemma CompactedCaughtUp(steps: seq<Step>, w: World, setup: Setup, keep: seq<bool>)
    requires Arrives(steps, w, setup) && w.server.Up? && w.server.synced
    requires Intact(w.topic) && Compaction(keep, w.topic)
    ensures Replayed(EnabledOnly(setup.defaults), Kept(w.topic, keep), setup.compiles) == EnabledOnly(w.server.current)
  {
    hide ValidDocument, EnabledOnly, Snapshots, NewestValid, Replayed, Kept, LastUpTo, Intact;
    RunSafeExactly(steps, w, setup);
    SyncedNewest(steps, w, setup);
    ReplayIsNewest(EnabledOnly(setup.defaults), w.topic, setup.compiles);
  }

  lemma SyncedNewest(steps: seq<Step>, w: World, setup: Setup)
    requires Arrives(steps, w, setup) && w.server.Up? && w.server.synced
    ensures NewestValid(w.topic, setup.compiles) == Some(w.server.current)
  {
    hide ValidDocument, EnabledOnly, Snapshots, NewestValid, Enabled, Apply;
    Reachable(steps, setup);
    NewestPublished(steps, w, setup);
  }

  // ------------------------------------------------------------- an example

  /** The document once the rule is stored. */
  function AfterCreate(setup: Setup, rule: Rule): Document { Saved(setup.defaults, rule) }

  function PublishedTopic(setup: Setup, rule: Rule): seq<Record> {
    [Published(Snapshot(0, setup.defaults)), Published(Snapshot(1, AfterCreate(setup, rule)))]
  }

  function Serving(setup: Setup, doc: Document, stores: seq<Document>, requests: seq<Request>, server: Server,
                   queue: seq<Snapshot>, topic: seq<Record>): World
  {
    World(Some(doc), stores, requests, server, queue, topic, Initial(setup).engine)
  }

  lemma OneStep(setup: Setup, steps: seq<Step>, w: World, s: Step)
    requires Exec(Initial(setup), steps, setup) == Some(w) && Enabled(w, s, setup)
    ensures Exec(Initial(setup), steps + [s], setup) == Some(Apply(w, s, setup))
  {
    assert (steps + [s])[..|steps|] == steps;
  }

  lemma NoSteps(setup: Setup)
    ensures Exec(Initial(setup), [], setup) == Some(Initial(setup))
  {
  }

  lemma StartedRun(setup: Setup) returns (steps: seq<Step>, w: World)
    requires ValidDocument(setup.defaults, setup.compiles)
    ensures Exec(Initial(setup), steps, setup) == Some(w)
    ensures var d := setup.defaults;
            w == Serving(setup, d, [d], [], Up(d, Idle, false, true), [], [Published(Snapshot(0, d))])
  {
    hide Exec, ValidDocument, EnabledOnly;
    var d := setup.defaults;
    NoSteps(setup);
    OneStep(setup, [], Initial(setup), Boot(true));
    steps, w := [] + [Boot(true)], Serving(setup, d, [d], [], Up(d, Holding, true, false), [], []);
    assert [] + [d] == [d];
    OneStep(setup, steps, w, Send);
    steps := steps + [Send];
    w := Serving(setup, d, [d], [], Up(d, Publishing(Waiting), true, false), [Snapshot(0, d)], []);
    assert [] + [Snapshot(0, d)] == [Snapshot(0, d)];
    OneStep(setup, steps, w, Deliver);
    steps := steps + [Deliver];
    w := Serving(setup, d, [d], [], Up(d, Publishing(Fate.Kept), true, false), [], [Published(Snapshot(0, d))]);
    assert [] + [Published(Snapshot(0, d))] == [Published(Snapshot(0, d))];
    assert [Snapshot(0, d)][1..] == [];
    OneStep(setup, steps, w, Resolve(true));
    steps := steps + [Resolve(true)];
    w := Serving(setup, d, [d], [], Up(d, Idle, false, true), [], [Published(Snapshot(0, d))]);
  }

  lemma CreatedRun(setup: Setup, rule: Rule) returns (steps: seq<Step>, w: World)
    requires ValidDocument(setup.defaults, setup.compiles)
    requires Requested(setup.defaults, Create(rule), setup.compiles) == Ok(AfterCreate(setup, rule))
    ensures Exec(Initial(setup), steps, setup) == Some(w)
    ensures var d, e := setup.defaults, AfterCreate(setup, rule);
            w == Serving(setup, e, [d, e], [Create(rule)], Up(e, Idle, false, true), [],
                         PublishedTopic(setup, rule) + [Foreign(ACTIVE, None)])
  {
    hide Exec, ValidDocument, EnabledOnly, Requested, AfterCreate;
    var d, e, r := setup.defaults, AfterCreate(setup, rule), [Create(rule)];
    steps, w := StartedRun(setup);
    var t := w.topic;
    OneStep(setup, steps, w, Handle(Create(rule), true));
    steps := steps + [Handle(Create(rule), true)];
    w := Serving(setup, e, [d, e], r, Up(e, Holding, false, false), [], t);
    assert [d] + [e] == [d, e] && [] + [Create(rule)] == r;
    OneStep(setup, steps, w, Send);
    steps := steps + [Send];
    w := Serving(setup, e, [d, e], r, Up(e, Publishing(Waiting), false, false), [Snapshot(1, e)], t);
    assert [] + [Snapshot(1, e)] == [Snapshot(1, e)];
    OneStep(setup, steps, w, Deliver);
    steps := steps + [Deliver];
    w := Serving(setup, e, [d, e], r, Up(e, Publishing(Fate.Kept), false, false), [], PublishedTopic(setup, rule));
    assert t + [Published(Snapshot(1, e))] == PublishedTopic(setup, rule);
    assert [Snapshot(1, e)][1..] == [];
    OneStep(setup, steps, w, Resolve(true));
    steps := steps + [Resolve(true)];
    w := Serving(setup, e, [d, e], r, Up(e, Idle, false, true), [], PublishedTopic(setup, rule));
    OneStep(setup, steps, w, Noise(ACTIVE, None));
    steps := steps + [Noise(ACTIVE, None)];
    w := Serving(setup, e, [d, e], r, Up(e, Idle, false, true), [],
                 PublishedTopic(setup, rule) + [Foreign(ACTIVE, None)]);
  }

  /**
   From any shipped rules: a new rule is created and successfully published, an unreadable record
   appears, and compaction of the topic is no longer safe.
   */
  lemma {:induction false} HiddenSnapshot(setup: Setup, rule: Rule) returns (steps: seq<Step>, w: World)
    requires ValidDocument(setup.defaults, setup.compiles) && ValidRule(rule, setup.compiles) && rule.enabled
    requires forall r :: r in setup.defaults ==> r.id != rule.id
    ensures Arrives(steps, w, setup) && w.server.Up? && w.server.synced && rule in EnabledOnly(w.server.current)
    ensures !CompactionSafe(EnabledOnly(setup.defaults), w.topic, setup.compiles)
  {
    hide Exec, ValidDocument, EnabledOnly, ValidRule, CompactionSafe, LastOfKey, Saved, Snapshots;
    FindExactly(setup.defaults, rule.id);
    SavedIsValid(setup.defaults, rule, setup.compiles);
    steps, w := CreatedRun(setup, rule);
    SavedMembers(setup.defaults, rule);
    EnabledAre(AfterCreate(setup, rule));
    EnabledAre(setup.defaults);
    RunSafeExactly(steps, w, setup);
    LastSnapshot(setup, rule);
    NotIntact(setup, rule);
  }

  lemma LastSnapshot(setup: Setup, rule: Rule)
    ensures var s := Snapshots(PublishedTopic(setup, rule) + [Foreign(ACTIVE, None)]);
            s != [] && s[|s| - 1].doc == AfterCreate(setup, rule)
  {
    hide AfterCreate;
    SnapshotsSnoc([], Published(Snapshot(0, setup.defaults)));
    SnapshotsSnoc([Published(Snapshot(0, setup.defaults))], Published(Snapshot(1, AfterCreate(setup, rule))));
    SnapshotsSnoc(PublishedTopic(setup, rule), Foreign(ACTIVE, None));
    assert [] + [Published(Snapshot(0, setup.defaults))] == [Published(Snapshot(0, setup.defaults))];
    assert [Published(Snapshot(0, setup.defaults))] + [Published(Snapshot(1, AfterCreate(setup, rule)))]
        == PublishedTopic(setup, rule);
  }

  lemma NotIntact(setup: Setup, rule: Rule)
    ensures !Intact(PublishedTopic(setup, rule) + [Foreign(ACTIVE, None)])
  {
    var topic := PublishedTopic(setup, rule) + [Foreign(ACTIVE, None)];
    forall i | 0 <= i < |topic| && topic[i].Published? ensures !LastOfKey(topic, i) {
      assert KeyOf(topic[2]) == KeyOf(topic[i]);
    }
  }

  const EXAMPLE := Rule("SQLI_1", "sqli", "", true, ["query"], "union", 50, [])

  /** Such a rule exists. */
  lemma {:induction false} ExampleIsValid(compiles: Compiles)
    requires compiles(EXAMPLE.pattern)
    ensures ValidRule(EXAMPLE, compiles) && EXAMPLE.enabled
  {
    var query := "query";
    assert LowerCase(query[5..]) == "" && LowerCase(query[4..]) == "y" && LowerCase(query[3..]) == "ry";
    assert LowerCase(query[2..]) == "ery" && LowerCase(query[1..]) == "uery" && LowerCase(query) == "query";
    assert EXAMPLE.group[0] == 's' && EXAMPLE.pattern[0] == 'u';
  }
}
