/** The rule store and the rule API: each request is one locked sequence of protocol steps. */
module RuleServices {
  import opened Options
  import opened Rules
  import opened RuleProtocol

  datatype StoreFailure = Rejected(reason: Rejection) | WriteFailed

  class RuleStore {
    const compiles: Compiles
    var current: Document
    /** The rule file. */
    var disk: Option<Document>
    /** How often the rule file could not be written. */
    ghost var writeFailures: nat

    ghost predicate Valid()
      reads this
    {
      ValidDocument(current, compiles) && disk == Some(current)
    }

    /** The rules read from the rule file, or the shipped rules for a file that is still to be written. */
    constructor (compiles: Compiles, file: Option<Document>, defaults: Document)
      ensures this.compiles == compiles && disk == file
      ensures current == if file.Some? then file.value else defaults
      ensures writeFailures == 0
    {
      this.compiles := compiles;
      writeFailures := 0;
      current := if file.Some? then file.value else defaults;
      disk := file;
    }

    method FindRule(id: string) returns (r: Option<Rule>)
      ensures r == Find(current, id)
    {
      r := Find(current, id);
    }

    /** Writes the file in one move, or leaves it as it was. */
    method Persist(document: Document) returns (written: bool)
      modifies this`disk, this`writeFailures
      ensures disk == if written then Some(document) else old(disk)
      ensures writeFailures == old(writeFailures) + if written then 0 else 1
    {
      written := *;
      if written { disk := Some(document); } else { writeFailures := writeFailures + 1; }
    }

    method Replace(document: Document) returns (r: Result<Document, StoreFailure>)
      modifies this
      ensures match r
              case Ok(next) =>
                ValidDocument(document, compiles) && next == document == current && disk == Some(document)
              case Err(Rejected(reason)) => !ValidDocument(document, compiles) && reason == BadRequest
              case Err(WriteFailed) => ValidDocument(document, compiles)
      ensures r.Err? ==> current == old(current) && disk == old(disk)
      ensures writeFailures == old(writeFailures) + if r == Err(WriteFailed) then 1 else 0
    {
      hide ValidDocument;
      var ok := ValidateAll(document, compiles);
      if !ok { return Err(Rejected(BadRequest)); }
      var written := Persist(document);
      if !written { return Err(WriteFailed); }
      current := document;
      r := Ok(current);
    }

    method Save(rule: Rule) returns (r: Result<Document, StoreFailure>)
      modifies this
      ensures match r
              case Ok(next) =>
                && ValidRule(rule, compiles) && next == Saved(old(current), rule) == current
                && ValidDocument(next, compiles) && disk == Some(next)
              case Err(Rejected(reason)) =>
                && reason == BadRequest
                && !(ValidRule(rule, compiles) && ValidDocument(Saved(old(current), rule), compiles))
              case Err(WriteFailed) => ValidRule(rule, compiles) && ValidDocument(Saved(old(current), rule), compiles)
      ensures r.Err? ==> current == old(current) && disk == old(disk)
      ensures writeFailures == old(writeFailures) + if r == Err(WriteFailed) then 1 else 0
    {
      hide ValidDocument, ValidRule, Without, Sorted;
      if !ValidRule(rule, compiles) { return Err(Rejected(BadRequest)); }
      var next := Without(current, rule.id);
      next := next + [rule];
      next := Sorted(next);
      r := Replace(next);
    }

    method Delete(id: string) returns (r: Result<Document, StoreFailure>)
      modifies this
      ensures match r
              case Ok(next) =>
                && Find(old(current), id).Some? && next == Without(old(current), id) == current
                && ValidDocument(next, compiles) && disk == Some(next)
              case Err(Rejected(reason)) =>
                && reason == BadRequest
                && !(Find(old(current), id).Some? && ValidDocument(Without(old(current), id), compiles))
              case Err(WriteFailed) =>
                Find(old(current), id).Some? && ValidDocument(Without(old(current), id), compiles)
      ensures r.Err? ==> current == old(current) && disk == old(disk)
      ensures writeFailures == old(writeFailures) + if r == Err(WriteFailed) then 1 else 0
    {
      hide ValidDocument;
      var next := Without(current, id);
      NothingRemoved(current, id);
      if next == current { return Err(Rejected(BadRequest)); }
      r := Replace(next);
    }
  }

  /**
   The store opens if and only if its rules are valid and, when there was no rule file, the shipped
   rules could be written to a new one.
   */
  method OpenStore(compiles: Compiles, file: Option<Document>, defaults: Document)
    returns (store: Option<RuleStore>, written: bool)
    ensures store.Some? <==>
              ValidDocument(if file.Some? then file.value else defaults, compiles) && (file.Some? || written)
    ensures store.Some? ==>
              && fresh(store.value) && store.value.Valid() && store.value.compiles == compiles
              && store.value.current == if file.Some? then file.value else defaults
  {
    hide ValidDocument;
    var candidate := new RuleStore(compiles, file, defaults);
    written := false;
    if file.None? {
      written := candidate.Persist(defaults);
      if !written { return None, false; }
    }
    var ok := ValidateAll(candidate.current, compiles);
    store := if ok then Some(candidate) else None;
  }

  /** `removeIf` reports whether it removed anything. */
  lemma {:induction false} NothingRemoved(doc: Document, id: string)
    ensures Without(doc, id) == doc <==> Find(doc, id).None?
    ensures |Without(doc, id)| <= |doc|
  {
    if doc != [] { NothingRemoved(doc[1..], id); }
  }

  datatype Status = Done(document: Document) | Refused(reason: Rejection) | Failed | NotPublished

  class RuleApi {
    const setup: Setup
    const store: RuleStore
    /** The brokers, the producer queue and what is stored. */
    var world: World
    /** The steps of the protocol taken so far. */
    ghost const start: World
    ghost var steps: seq<Step>
    /** How often a publication failed or was not confirmed in time. */
    ghost var unconfirmed: nat

    constructor (setup: Setup, store: RuleStore, world: World)
      requires ValidDocument(setup.defaults, setup.compiles) && Inv(world, setup)
      requires store.compiles == setup.compiles
      requires world.server == Up(store.current, Holding, true, false) && world.disk == store.disk
      ensures Valid() && this.setup == setup && this.store == store && this.world == start == world
    {
      hide Inv, ValidDocument;
      this.setup, this.store, this.world, start, steps, unconfirmed := setup, store, world, world, [], 0;
    }

    ghost predicate Valid()
      reads this, store
    {
      && ValidDocument(setup.defaults, setup.compiles) && store.compiles == setup.compiles
      && Inv(world, setup) && Exec(start, steps, setup) == Some(world)
      && (world.server.Up? ==> world.server.current == store.current && world.disk == store.disk)
    }

    /** Nobody holds the lock and requests are served. */
    ghost predicate Open()
      reads this, store
    {
      Valid() && world.server.Up? && world.server.phase.Idle? && !world.server.booting
    }

    method Do(s: Step)
      requires ValidDocument(setup.defaults, setup.compiles)
      requires Inv(world, setup) && Exec(start, steps, setup) == Some(world)
      requires Enabled(world, s, setup)
      modifies this`world, this`steps
      ensures Inv(world, setup) && Exec(start, steps, setup) == Some(world)
      ensures world == Apply(old(world), s, setup) && steps == old(steps) + [s]
    {
      hide Inv, Apply, Enabled, ValidDocument;
      StepKeeps(world, s, setup);
      assert (steps + [s])[..|steps|] == steps;
      world := Apply(world, s, setup);
      steps := steps + [s];
    }

    /**
     `delivery.get`: the queue drains while the producer waits, and the document is confirmed, or its
     delivery fails or takes too long.
     */
    method AwaitDelivery() returns (confirmed: bool)
      requires Valid() && world.server.Up? && world.server.phase.Publishing?
      modifies this`world, this`steps, this`unconfirmed
      ensures Valid() && old(steps) <= steps && world.disk == old(world.disk) && world.stores == old(world.stores)
      ensures world.server.Up? && world.server.phase.Publishing?
      ensures world.server.booting == old(world.server.booting)
      ensures confirmed ==> world.server.phase.fate.Kept?
      ensures unconfirmed == old(unconfirmed) + if confirmed then 0 else 1
    {
      hide Inv, Exec, ValidDocument;
      while world.queue != []
        invariant Valid() && old(steps) <= steps && world.disk == old(world.disk) && world.stores == old(world.stores)
        invariant world.server.Up? && world.server.phase.Publishing?
        invariant world.server.booting == old(world.server.booting) && unconfirmed == old(unconfirmed)
        decreases |world.queue|
      {
        if * { break; }
        var lost, i: nat := *, *;
        if lost && i < |world.queue| { Do(Discard(i)); } else { Do(Deliver); }
      }
      confirmed := *;
      confirmed := confirmed && world.server.phase.fate.Kept?;
      if !confirmed { unconfirmed := unconfirmed + 1; }
    }

    /** `publish`: sends the document and waits for its delivery, which may fail or be reported too late. */
    method Publish() returns (ok: bool)
      requires Valid() && world.server.Up? && world.server.phase.Holding?
      modifies this`world, this`steps, this`unconfirmed
      ensures Valid() && old(steps) <= steps && world.disk == old(world.disk) && world.stores == old(world.stores)
      ensures ok ==> Open() && world.server.synced && world.queue == [] && TopicEndsWith(world.topic, Newest(world))
      ensures !ok ==> if old(world.server.booting) then world.server.Down? else Open()
      ensures unconfirmed == old(unconfirmed) + if ok then 0 else 1
    {
      hide Inv, Exec, ValidDocument, TopicEndsWith;
      Do(Send);
      ok := AwaitDelivery();
      Do(Resolve(ok));
      PublishedLast(world, setup);
    }

    /** `run`: the stored document is published before any request is served. */
    method Run() returns (ok: bool)
      requires Valid() && world.server.Up? && world.server.phase.Holding? && world.server.booting
      modifies this`world, this`steps, this`unconfirmed
      ensures Valid() && old(steps) <= steps
      ensures unconfirmed == old(unconfirmed) + if ok then 0 else 1
      ensures ok ==> Open() && world.server.synced && TopicEndsWith(world.topic, Newest(world))
      ensures !ok ==> world.server.Down?
    {
      ok := Publish();
    }

    /** The change itself, as the holder of the lock makes it. */
    method Change(request: Request) returns (r: Result<Document, StoreFailure>)
      requires ValidDocument(store.current, store.compiles)
      modifies store
      ensures match r
              case Ok(next) =>
                Requested(old(store.current), request, store.compiles) == Ok(next) && store.current == next
                && store.disk == Some(next)
              case Err(Rejected(reason)) => Requested(old(store.current), request, store.compiles) == Err(reason)
              case Err(WriteFailed) => Requested(old(store.current), request, store.compiles).Ok?
      ensures r.Err? ==> store.current == old(store.current) && store.disk == old(store.disk)
      ensures store.writeFailures == old(store.writeFailures) + if r == Err(WriteFailed) then 1 else 0
    {
      hide ValidDocument, ValidRule, Saved, Without, Find;
      match request {
        case Create(rule) =>
          var existing := store.FindRule(rule.id);
          if existing.Some? { return Err(Rejected(BadRequest)); }
          r := store.Save(rule);
        case Update(id, rule) =>
          if id != rule.id { return Err(Rejected(BadRequest)); }
          r := store.Save(rule);
        case Remove(id) =>
          var existing := store.FindRule(id);
          if existing.None? { return Err(Rejected(NotFound)); }
          r := store.Delete(id);
      }
    }

    /** `mutate`: changes the store and publishes the new document under one lock. */
    method Mutate(request: Request) returns (status: Status)
      requires Open()
      modifies this`world, this`steps, this`unconfirmed, store
      ensures store.writeFailures == old(store.writeFailures) + if status.Failed? then 1 else 0
      ensures unconfirmed == old(unconfirmed) + if status.NotPublished? then 1 else 0
      ensures Open() && old(steps) <= steps
      ensures match Requested(old(store.current), request, setup.compiles)
              case Err(reason) =>
                && status == Refused(reason)
                && store.current == old(store.current) && store.disk == old(store.disk) && world == old(world)
              case Ok(next) =>
                if status == Failed then
                  store.current == old(store.current) && store.disk == old(store.disk) && world == old(world)
                else
                  && (status == Done(next) || status == NotPublished)
                  && store.current == next && store.disk == Some(next)
                  && (status.Done? ==> world.server.synced && TopicEndsWith(world.topic, Newest(world)))
    {
      hide Inv, Exec, ValidDocument, Requested, TopicEndsWith;
      CurrentIsValid(world, setup);
      var r := Change(request);
      Do(Handle(request, r.Ok?));
      match r {
        case Ok(next) =>
          var published := Publish();
          status := if published then Done(next) else NotPublished;
        case Err(Rejected(reason)) => status := Refused(reason);
        case Err(WriteFailed) => status := Failed;
      }
    }
  }

  lemma CurrentIsValid(w: World, setup: Setup)
    requires Inv(w, setup) && w.server.Up?
    ensures ValidDocument(w.server.current, setup.compiles) && w.disk == Some(w.server.current)
  {
  }

  lemma PublishedLast(w: World, setup: Setup)
    requires Inv(w, setup)
    ensures w.server.Up? && w.server.synced ==> w.queue == [] && TopicEndsWith(w.topic, Newest(w))
  {
  }
}
