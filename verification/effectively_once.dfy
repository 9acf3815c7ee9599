/** At-least-once delivery plus derived ids: what a crashing run leaves behind is what a clean one would. */
module EffectivelyOnce {
  import opened Options
  import opened Delivery
  import opened DeliveryRuns
  import opened CleanRuns
  import opened RecordProcessing
  import opened Rules
  import opened RuleMatching

  /** A finished record has sent exactly the outputs of some processing of it. */
  ghost predicate Lawful(role: Role, rules: RuleSet, m: Input, q: seq<Output>) {
    exists o :: Possible(o, m) && q == Outputs(role, rules, m, o)
  }

  /** An attack record that some processing of `m` sends. */
  ghost predicate AttackOf(rules: RuleSet, m: Input, r: Output) {
    && r.Attack? && m.verdict.Admitted?
    && exists order :: Arranges(order, m.verdict.event.headers)
                       && r in Attacks(m.verdict.event, HitsOf(rules, m.verdict.event, order), r.now)
  }

  ghost function Contract(role: Role, rules: RuleSet): Handler<Input, Output> {
    Handler((m: Input, r: Output) => r.Attack? ==> AttackOf(rules, m, r),
            (m: Input, q: seq<Output>) => Lawful(role, rules, m, q))
  }

  ghost predicate MatchedBy(rules: RuleSet, e: Event, k: nat)
    requires k < |rules.rules|
  {
    Matches(rules.rules[k], e.Fixed(), e.headers, rules.tools)
  }

  /** The ids of a message's attacks, for whatever order of its headers. */
  ghost function AttackIds(rules: RuleSet, m: Input): set<string> {
    match m.verdict
    case Admitted(e) =>
      set k | 0 <= k < |rules.rules| && MatchedBy(rules, e, k) :: AttackId(e.eventId, rules.rules[k].id)
    case _ => {}
  }

  /** The attack of one rule: its hit under the order of the headers. */
  ghost predicate AttackBy(rules: RuleSet, e: Event, order: seq<string>, k: nat, r: Output)
    requires Arranges(order, e.headers) && k < |rules.rules|
  {
    && r.Attack? && r.id == AttackId(e.eventId, rules.rules[k].id) && r.event == e.data
    && HitUnder(rules.rules[k], e.Fixed(), e.headers, order, rules.tools) == Some(r.hit)
  }

  /** The attacks sent under an order of the headers are one for each rule that matches. */
  lemma AttacksAre(rules: RuleSet, e: Event, order: seq<string>, r: Output)
    requires Arranges(order, e.headers)
    ensures r.Attack? ==>
              (r in Attacks(e, HitsOf(rules, e, order), r.now)
               <==> exists k :: 0 <= k < |rules.rules| && AttackBy(rules, e, order, k, r))
  {
    hide Hits, FirstHit;
    if r.Attack? {
      var fields := FieldsOf(e.Fixed(), e.headers, order);
      var hits := HitsOf(rules, e, order);
      HitsExactly(rules.rules, fields, rules.tools, r.hit);
      var all := Attacks(e, hits, r.now);
      if r in all {
        var i :| 0 <= i < |all| && all[i] == r;
        assert hits[i] == r.hit && r.hit in hits;
        var k :| 0 <= k < |rules.rules| && FirstHit(rules.rules[k], fields, rules.tools) == Some(r.hit);
        HitUnderIs(rules.rules[k], e.Fixed(), e.headers, order, rules.tools);
        assert AttackBy(rules, e, order, k, r);
      }
      if k :| 0 <= k < |rules.rules| && AttackBy(rules, e, order, k, r) {
        HitUnderIs(rules.rules[k], e.Fixed(), e.headers, order, rules.tools);
        var i :| 0 <= i < |hits| && hits[i] == r.hit;
        assert all[i] == r;
      }
    }
  }

  lemma AttacksSent(rules: RuleSet, m: Input, q: seq<Output>, id: string)
    requires Lawful(Detection, rules, m, q) && id in AttackIds(rules, m)
    ensures exists r :: r in q && r.Attack? && r.id == id
  {
    hide Attacks, Arranges, HitsOf, Matches, HitUnder;
    var o :| Possible(o, m) && q == Outputs(Detection, rules, m, o);
    var e := m.verdict.event;
    var k :| 0 <= k < |rules.rules| && MatchedBy(rules, e, k) && AttackId(e.eventId, rules.rules[k].id) == id;
    HitUnderIs(rules.rules[k], e.Fixed(), e.headers, o.order, rules.tools);
    var hit := HitUnder(rules.rules[k], e.Fixed(), e.headers, o.order, rules.tools);
    var r := Attack(id, e.data, hit.value, o.now);
    assert AttackBy(rules, e, o.order, k, r);
    AttacksAre(rules, e, o.order, r);
  }

  lemma ProcessingEmits(role: Role, rules: RuleSet, m: Input, o: Opinion, r: Output)
    requires Possible(o, m) && r in Outputs(role, rules, m, o)
    ensures Contract(role, rules).emits(m, r)
  {
    hide Arranges, Hits, FieldsOf;
    if r.Attack? {
      var e := m.verdict.event;
      var hits := HitsOf(rules, e, o.order);
      assert r in Detect(e, hits, o);
      AttackAmongOutputs(e, hits, o, r);
    }
  }

  lemma AttackAmongOutputs(e: Event, hits: seq<Hit>, o: Opinion, r: Output)
    requires r.Attack? && r in Detect(e, hits, o)
    ensures r.now == o.now && r in Attacks(e, hits, o.now)
  {
  }

  /** A run of the detection role from the start, and the world it arrives in. */
  ghost predicate Ran(rules: RuleSet, steps: seq<Step<Input, Output>>, w: World<Input, Output>) {
    Exec(Contract(Detection, rules), Fresh(), steps) == Some(w)
  }

  /**
   In every run of polls, sends, deliveries, commits, crashes and restarts: the attack ids
   stored for a committed message are exactly those of its record.
   */
  lemma {:induction false} CommittedAttackIds(
    rules: RuleSet, steps: seq<Step<Input, Output>>, w: World<Input, Output>, p: Place, o: nat, id: string)
    requires Ran(rules, steps, w) && o < Offset(w.committed, p)
    ensures && o < |Log(w, p)|
            && ((exists s :: s in w.stored && s.origin == Origin(p, o) && s.record.Attack? && s.record.id == id)
                <==> id in AttackIds(rules, Log(w, p)[o]))
  {
    hide Exec, Outputs, AttackIds, AttackOf;
    var h := Contract(Detection, rules);
    AtLeastOnce(h, steps, p, o);
    var m := Log(w, p)[o];
    if id in AttackIds(rules, m) {
      var a :| a in w.settled && a.origin == Origin(p, o) && h.completes(m, a.outputs) && AllStored(a, w.stored);
      AttacksSent(rules, m, a.outputs, id);
      var r :| r in a.outputs && r.Attack? && r.id == id;
      assert Sent(a.origin, r) in w.stored;
    }
    forall s | s in w.stored && s.origin == Origin(p, o) && s.record.Attack? && s.record.id == id
      ensures id in AttackIds(rules, m)
    {
      NothingInvented(h, steps, s);
      AttackHasId(rules, m, s.record);
    }
  }

  lemma AttackHasId(rules: RuleSet, m: Input, r: Output)
    requires AttackOf(rules, m, r)
    ensures r.id in AttackIds(rules, m)
  {
    hide Attacks, Arranges, HitsOf, Matches, HitUnder;
    var e := m.verdict.event;
    var order :| Arranges(order, e.headers) && r in Attacks(e, HitsOf(rules, e, order), r.now);
    AttacksAre(rules, e, order, r);
    var k :| 0 <= k < |rules.rules| && AttackBy(rules, e, order, k, r);
    HitUnderIs(rules.rules[k], e.Fixed(), e.headers, order, rules.tools);
    assert MatchedBy(rules, e, k);
  }

  /** The attack ids stored for committed messages. */
  ghost function CommittedIds(w: World<Input, Output>): set<string> {
    set s | s in w.stored && s.record.Attack? && s.origin.offset < Offset(w.committed, s.origin.place) :: s.record.id
  }

  /**
   Two runs over the same input that have committed the same offsets have stored the same
   attack ids for them, whatever failed, crashed or was replayed in either; one of them may
   be a single pass without any failure.
   */
  lemma {:induction false} SameIdsAsAnyRun(
    rules: RuleSet, s1: seq<Step<Input, Output>>, w1: World<Input, Output>,
    s2: seq<Step<Input, Output>>, w2: World<Input, Output>)
    requires Ran(rules, s1, w1) && Ran(rules, s2, w2)
    requires (forall p :: Log(w1, p) == Log(w2, p)) && SameOffsets(w1.committed, w2.committed)
    ensures CommittedIds(w1) == CommittedIds(w2)
  {
    IdsIncluded(rules, s1, w1, s2, w2);
    IdsIncluded(rules, s2, w2, s1, w1);
  }

  lemma IdsIncluded(
    rules: RuleSet, s1: seq<Step<Input, Output>>, w1: World<Input, Output>,
    s2: seq<Step<Input, Output>>, w2: World<Input, Output>)
    requires Ran(rules, s1, w1) && Ran(rules, s2, w2)
    requires (forall p :: Log(w1, p) == Log(w2, p)) && SameOffsets(w1.committed, w2.committed)
    ensures CommittedIds(w1) <= CommittedIds(w2)
  {
    hide Ran, AttackIds;
    forall s | s in w1.stored && s.record.Attack? && s.origin.offset < Offset(w1.committed, s.origin.place)
      ensures s.record.id in CommittedIds(w2)
    {
      var p, o := s.origin.place, s.origin.offset;
      assert s.origin == Origin(p, o);
      CommittedAttackIds(rules, s1, w1, p, o, s.record.id);
      CommittedAttackIds(rules, s2, w2, p, o, s.record.id);
    }
  }

  // ---------------------------------------------------------- attack table

  /**
   A row of detection.attacks: what it takes from the event and from the hit, which includes the
   field and the text matched, and the clock reading of its envelope.
   */
  datatype Row = Row(event: string, hit: Hit, now: int)

  /** INSERT ... ON CONFLICT (event_id) DO NOTHING, over a sequence of records in the order of their inserts. */
  function Table(stored: seq<Sent<Output>>): map<string, Row> {
    if stored == [] then map[]
    else
      var t := Table(stored[..|stored| - 1]);
      var r := stored[|stored| - 1].record;
      if r.Attack? && r.id !in t then t[r.id := Row(r.event, r.hit, r.now)] else t
  }

  ghost predicate RowFrom(s: Sent<Output>, id: string, row: Row) {
    s.record.Attack? && s.record.id == id && row == Row(s.record.event, s.record.hit, s.record.now)
  }

  /** A row comes from some inserted record of that id, and every inserted attack has a row. */
  lemma {:induction false} TableRows(stored: seq<Sent<Output>>)
    ensures forall id :: id in Table(stored) ==> exists s :: s in stored && RowFrom(s, id, Table(stored)[id])
    ensures forall s :: s in stored && s.record.Attack? ==> s.record.id in Table(stored)
  {
    if stored != [] {
      var n := |stored| - 1;
      TableRows(stored[..n]);
      assert stored == stored[..n] + [stored[n]];
      forall id | id in Table(stored) ensures exists s :: s in stored && RowFrom(s, id, Table(stored)[id]) {
        if id in Table(stored[..n]) {
          var s :| s in stored[..n] && RowFrom(s, id, Table(stored[..n])[id]);
          assert s in stored;
        } else {
          assert stored[n] in stored && RowFrom(stored[n], id, Table(stored)[id]);
        }
      }
    }
  }

  /** The row of an id is that of the first attack inserted under it. */
  lemma {:induction false} FirstInsertWins(stored: seq<Sent<Output>>, i: nat)
    requires i < |stored| && stored[i].record.Attack?
    requires forall k :: 0 <= k < i && stored[k].record.Attack? ==> stored[k].record.id != stored[i].record.id
    ensures var r := stored[i].record; r.id in Table(stored) && Table(stored)[r.id] == Row(r.event, r.hit, r.now)
  {
    var n := |stored| - 1;
    if i < n {
      FirstInsertWins(stored[..n], i);
    } else {
      TableRows(stored[..n]);
    }
  }

  /**
   What the table's own consumer may have inserted: stored records only, in any order and any
   number of times, and each attack of a committed message at least once.
   */
  ghost predicate Inserted(inserts: seq<Sent<Output>>, w: World<Input, Output>) {
    && (forall s :: s in inserts ==> s in w.stored)
    && (forall s :: s in w.stored && s.record.Attack? && s.origin.offset < Offset(w.committed, s.origin.place) ==>
          s in inserts)
  }

  /** Event ids are unique in the input. */
  ghost predicate Identified(w: World<Input, Output>) {
    forall o, u :: Exists(w, o) && Exists(w, u) ==> Compatible(Message(w, o).verdict, Message(w, u).verdict)
  }

  predicate Compatible(v: Verdict, u: Verdict) {
    v.Admitted? && u.Admitted? && v.event.eventId == u.event.eventId ==> v.event == u.event
  }

  ghost predicate SettledBy(rules: RuleSet, e: Event, k: nat)
    requires k < |rules.rules|
  {
    Settled(rules.rules[k], e.Fixed(), e.headers, rules.tools)
  }

  /** No rule finds its pattern in two headers of the request, unless it does so before them. */
  ghost predicate SettledRecord(rules: RuleSet, m: Input) {
    m.verdict.Admitted? ==> forall k :: 0 <= k < |rules.rules| ==> SettledBy(rules, m.verdict.event, k)
  }

  ghost predicate SettledLog(rules: RuleSet, w: World<Input, Output>) {
    forall o :: Exists(w, o) ==> SettledRecord(rules, Message(w, o))
  }

  /** The columns of a row that no order of headers can change. */
  ghost predicate SameButField(event: string, hit: Hit, other: string, otherHit: Hit) {
    event == other && hit == otherHit.(field := hit.field, text := hit.text)
  }

  /** The id determines everything in a row but the time, the field and the text matched; those too, if settled. */
  lemma IdDeterminesRow(rules: RuleSet, w: World<Input, Output>, s: Sent<Output>, t: Sent<Output>)
    requires Usable(rules) && Identified(w) && Exists(w, s.origin) && Exists(w, t.origin)
    requires AttackOf(rules, Message(w, s.origin), s.record) && AttackOf(rules, Message(w, t.origin), t.record)
    requires s.record.id == t.record.id
    ensures SameButField(s.record.event, s.record.hit, t.record.event, t.record.hit)
    ensures SettledRecord(rules, Message(w, s.origin)) ==> s.record.hit == t.record.hit
  {
    hide Attacks, HitsOf, Arranges, HitUnder, Settled, ValidRuleId, Matches, UniqueIds, FirstHit, Hitting;
    var e, f := Message(w, s.origin).verdict.event, Message(w, t.origin).verdict.event;
    var p :| Arranges(p, e.headers) && s.record in Attacks(e, HitsOf(rules, e, p), s.record.now);
    var q :| Arranges(q, f.headers) && t.record in Attacks(f, HitsOf(rules, f, q), t.record.now);
    AttacksAre(rules, e, p, s.record);
    AttacksAre(rules, f, q, t.record);
    var k :| 0 <= k < |rules.rules| && AttackBy(rules, e, p, k, s.record);
    var l :| 0 <= l < |rules.rules| && AttackBy(rules, f, q, l, t.record);
    AttackIdInjective(e.eventId, rules.rules[k].id, f.eventId, rules.rules[l].id);
    SameIndex(rules, k, l);
    assert e == f;
    HitUnderIs(rules.rules[k], e.Fixed(), e.headers, p, rules.tools);
    HitUnderIs(rules.rules[k], e.Fixed(), e.headers, q, rules.tools);
    if SettledRecord(rules, Message(w, s.origin)) {
      assert SettledBy(rules, e, k);
      SameInAnyOrderExactly(rules.rules[k], e.Fixed(), e.headers, rules.tools);
    }
  }

  lemma SameIndex(rules: RuleSet, k: nat, l: nat)
    requires Usable(rules) && k < |rules.rules| && l < |rules.rules| && rules.rules[k].id == rules.rules[l].id
    ensures k == l
  {
  }

  /**
   Effectively once: two runs over the same uniquely identified input that have committed
   the same offsets leave attack tables that both hold every committed attack id, in whatever order
   and however often the records were inserted. The rows are the same up to the time, the field
   and the text matched, and up to the time alone if every record of the input is settled.
   */
  lemma {:induction false} SameTable(
    rules: RuleSet, s1: seq<Step<Input, Output>>, w1: World<Input, Output>, i1: seq<Sent<Output>>,
    s2: seq<Step<Input, Output>>, w2: World<Input, Output>, i2: seq<Sent<Output>>, id: string)
    requires Usable(rules) && Ran(rules, s1, w1) && Ran(rules, s2, w2)
    requires (forall p :: Log(w1, p) == Log(w2, p)) && SameOffsets(w1.committed, w2.committed)
    requires Identified(w1) && Inserted(i1, w1) && Inserted(i2, w2) && id in CommittedIds(w1)
    ensures id in Table(i1) && id in Table(i2)
    ensures SameButField(Table(i1)[id].event, Table(i1)[id].hit, Table(i2)[id].event, Table(i2)[id].hit)
    ensures SettledLog(rules, w1) ==> Table(i1)[id].hit == Table(i2)[id].hit
  {
    hide Exec, Table, Identified, AttackOf, SameButField, SettledRecord, Usable;
    var h := Contract(Detection, rules);
    SameIdsAsAnyRun(rules, s1, w1, s2, w2);
    TableRows(i1);
    TableRows(i2);
    var x :| x in i1 && RowFrom(x, id, Table(i1)[id]);
    var y :| y in i2 && RowFrom(y, id, Table(i2)[id]);
    NothingInvented(h, s1, x);
    NothingInvented(h, s2, y);
    IdDeterminesRow(rules, w1, x, y);
  }

  /** The tables that runs leave which have consumed all of an input. */
  ghost predicate Leaves(
    rules: RuleSet, arrivals: seq<Arrival<Input>>, steps: seq<Step<Input, Output>>, w: World<Input, Output>,
    inserts: seq<Sent<Output>>)
  {
    && Ran(rules, steps, w) && Inserted(inserts, w)
    && forall p :: Log(w, p) == LogOf(arrivals, p) && Offset(w.committed, p) == |Log(w, p)|
  }

  ghost predicate SameRows(a: map<string, Row>, b: map<string, Row>) {
    a.Keys == b.Keys && forall id :: id in a ==> a[id].event == b[id].event && a[id].hit == b[id].hit
  }

  ghost predicate IdentifiedInput(arrivals: seq<Arrival<Input>>) {
    forall i, j :: 0 <= i < |arrivals| && 0 <= j < |arrivals| ==>
      Compatible(arrivals[i].message.verdict, arrivals[j].message.verdict)
  }

  ghost predicate SettledInput(rules: RuleSet, arrivals: seq<Arrival<Input>>) {
    forall i :: 0 <= i < |arrivals| ==> SettledRecord(rules, arrivals[i].message)
  }

  lemma {:induction false} LogMember(arrivals: seq<Arrival<Input>>, p: Place, o: nat)
    requires o < |LogOf(arrivals, p)|
    ensures exists i :: 0 <= i < |arrivals| && arrivals[i].message == LogOf(arrivals, p)[o]
  {
    var n := |arrivals| - 1;
    if o < |LogOf(arrivals[..n], p)| {
      LogMember(arrivals[..n], p, o);
      var i :| 0 <= i < n && arrivals[..n][i].message == LogOf(arrivals[..n], p)[o];
      assert arrivals[i].message == LogOf(arrivals, p)[o];
    } else {
      assert arrivals[n].message == LogOf(arrivals, p)[o];
    }
  }

  lemma {:induction false} ArrivalInLog(arrivals: seq<Arrival<Input>>, i: nat)
    requires i < |arrivals|
    ensures exists o :: 0 <= o < |LogOf(arrivals, arrivals[i].place)|
                        && LogOf(arrivals, arrivals[i].place)[o] == arrivals[i].message
  {
    var n := |arrivals| - 1;
    var p := arrivals[i].place;
    if i < n {
      ArrivalInLog(arrivals[..n], i);
      var o :| 0 <= o < |LogOf(arrivals[..n], p)| && LogOf(arrivals[..n], p)[o] == arrivals[i].message;
      assert LogOf(arrivals, p)[o] == arrivals[i].message;
    } else {
      assert LogOf(arrivals, p)[|LogOf(arrivals[..n], p)|] == arrivals[i].message;
    }
  }

  lemma InputFacts(rules: RuleSet, arrivals: seq<Arrival<Input>>, w: World<Input, Output>)
    requires forall p :: Log(w, p) == LogOf(arrivals, p)
    ensures IdentifiedInput(arrivals) ==> Identified(w)
    ensures SettledInput(rules, arrivals) ==> SettledLog(rules, w)
  {
    hide Compatible, SettledRecord, LogOf;
    forall o: Origin | Exists(w, o) ensures exists i :: 0 <= i < |arrivals| && arrivals[i].message == Message(w, o) {
      LogMember(arrivals, o.place, o.offset);
    }
  }

  /** When everything has been consumed: the same ids, and the same rows up to the time for settled input. */
  lemma {:induction false} SameTableWhenDrained(
    rules: RuleSet, arrivals: seq<Arrival<Input>>,
    s1: seq<Step<Input, Output>>, w1: World<Input, Output>, i1: seq<Sent<Output>>,
    s2: seq<Step<Input, Output>>, w2: World<Input, Output>, i2: seq<Sent<Output>>)
    requires Usable(rules) && IdentifiedInput(arrivals)
    requires Leaves(rules, arrivals, s1, w1, i1) && Leaves(rules, arrivals, s2, w2, i2)
    ensures Table(i1).Keys == Table(i2).Keys
    ensures forall id :: id in Table(i1) ==>
              SameButField(Table(i1)[id].event, Table(i1)[id].hit, Table(i2)[id].event, Table(i2)[id].hit)
    ensures SettledInput(rules, arrivals) ==> SameRows(Table(i1), Table(i2))
  {
    hide Ran, Table, Identified, Inserted, SameButField, SettledLog, SettledInput, IdentifiedInput, Usable, LogOf;
    InputFacts(rules, arrivals, w1);
    AllCommitted(rules, s1, w1, i1);
    AllCommitted(rules, s2, w2, i2);
    SameIdsAsAnyRun(rules, s1, w1, s2, w2);
    forall id | id in Table(i1)
      ensures SameButField(Table(i1)[id].event, Table(i1)[id].hit, Table(i2)[id].event, Table(i2)[id].hit)
      ensures SettledInput(rules, arrivals) ==>
                Table(i1)[id].event == Table(i2)[id].event && Table(i1)[id].hit == Table(i2)[id].hit
    {
      SameTable(rules, s1, w1, i1, s2, w2, i2, id);
      EventOfSame(Table(i1)[id], Table(i2)[id]);
    }
  }

  lemma EventOfSame(a: Row, b: Row)
    requires SameButField(a.event, a.hit, b.event, b.hit)
    ensures a.event == b.event
  {
  }

  lemma AllCommitted(
    rules: RuleSet, steps: seq<Step<Input, Output>>, w: World<Input, Output>, inserts: seq<Sent<Output>>)
    requires Ran(rules, steps, w) && Inserted(inserts, w)
    requires forall p :: Offset(w.committed, p) == |Log(w, p)|
    ensures Table(inserts).Keys == CommittedIds(w)
  {
    hide Exec, Table;
    TableRows(inserts);
    forall s | s in w.stored ensures s.origin.offset < Offset(w.committed, s.origin.place) {
      NothingInvented(Contract(Detection, rules), steps, s);
    }
    forall id | id in Table(inserts) ensures id in CommittedIds(w) {
      var s :| s in inserts && RowFrom(s, id, Table(inserts)[id]);
    }
  }

  // ------------------------------------------------ when the rows are the same

  /** Any two runs that consume the input leave the same rows, up to the time. */
  ghost predicate AlwaysSameRows(rules: RuleSet, arrivals: seq<Arrival<Input>>) {
    forall s1, w1, i1, s2, w2, i2 :: Leaves(rules, arrivals, s1, w1, i1) && Leaves(rules, arrivals, s2, w2, i2) ==>
      SameRows(Table(i1), Table(i2))
  }

  /** Which order each message's headers are visited in, by a process that lives through a whole run. */
  ghost predicate Orders(order: Input -> seq<string>) {
    forall m: Input :: m.verdict.Admitted? ==> Arranges(order(m), m.verdict.event.headers)
  }

  ghost function OpinionOf(order: Input -> seq<string>, m: Input): Opinion { Opinion(0, false, 0, order(m)) }

  ghost function OutputsOf(rules: RuleSet, order: Input -> seq<string>): Input -> seq<Output>
    requires Orders(order)
  {
    (m: Input) => if Possible(OpinionOf(order, m), m) then Outputs(Detection, rules, m, OpinionOf(order, m)) else []
  }

  /** A run without failures in which each message's headers are visited in a given order. */
  lemma OrderedRun(rules: RuleSet, arrivals: seq<Arrival<Input>>, order: Input -> seq<string>)
    returns (steps: seq<Step<Input, Output>>, w: World<Input, Output>)
    requires Orders(order)
    ensures Leaves(rules, arrivals, steps, w, w.stored) && Faithful(w, OutputsOf(rules, order))
  {
    hide Outputs, Arranges, Exec, LogOf, Drained, AttackOf, Lawful;
    var outputs := OutputsOf(rules, order);
    forall m: Input ensures Contract(Detection, rules).completes(m, outputs(m)) {
      OrderIsLawful(rules, order, m);
    }
    forall m: Input ensures forall i :: 0 <= i < |outputs(m)| ==> Contract(Detection, rules).emits(m, outputs(m)[i]) {
      OrderEmits(rules, order, m);
    }
    steps, w := CleanRun(Contract(Detection, rules), arrivals, outputs);
    DrainedIsCommitted(w);
  }

  lemma DrainedIsCommitted(w: World<Input, Output>)
    requires Drained(w)
    ensures forall p :: Offset(w.committed, p) == |Log(w, p)|
  {
  }

  lemma OrderIsLawful(rules: RuleSet, order: Input -> seq<string>, m: Input)
    requires Orders(order)
    ensures Lawful(Detection, rules, m, OutputsOf(rules, order)(m))
  {
    hide Outputs, Arranges;
    assert Possible(OpinionOf(order, m), m);
  }

  lemma OrderEmits(rules: RuleSet, order: Input -> seq<string>, m: Input)
    requires Orders(order)
    ensures var q := OutputsOf(rules, order)(m);
            forall i :: 0 <= i < |q| ==> Contract(Detection, rules).emits(m, q[i])
  {
    hide Outputs, Arranges, AttackOf;
    var o := OpinionOf(order, m);
    assert Possible(o, m);
    var q := OutputsOf(rules, order)(m);
    forall i | 0 <= i < |q| ensures Contract(Detection, rules).emits(m, q[i]) {
      ProcessingEmits(Detection, rules, m, o, q[i]);
    }
  }

  /** The record from which the row of a committed message and a matching rule was made. */
  lemma StoredRow(rules: RuleSet, steps: seq<Step<Input, Output>>, w: World<Input, Output>, at: Origin, k: nat)
    returns (s: Sent<Output>)
    requires Ran(rules, steps, w) && Inserted(w.stored, w)
    requires Exists(w, at) && at.offset < Offset(w.committed, at.place) && Message(w, at).verdict.Admitted?
    requires k < |rules.rules| && MatchedBy(rules, Message(w, at).verdict.event, k)
    ensures var id := AttackId(Message(w, at).verdict.event.eventId, rules.rules[k].id);
            id in Table(w.stored) && s in w.stored && RowFrom(s, id, Table(w.stored)[id])
  {
    hide Table, Matches, Exec;
    var id := AttackId(Message(w, at).verdict.event.eventId, rules.rules[k].id);
    assert id in AttackIds(rules, Message(w, at));
    CommittedAttackIds(rules, steps, w, at.place, at.offset, id);
    TableRows(w.stored);
    s :| s in w.stored && RowFrom(s, id, Table(w.stored)[id]);
  }

  /** In such a run the row of an event and a rule shows the hit under the event's order. */
  lemma RowUnder(
    rules: RuleSet, order: Input -> seq<string>, steps: seq<Step<Input, Output>>, w: World<Input, Output>,
    at: Origin, k: nat)
    requires Usable(rules) && Orders(order) && Ran(rules, steps, w) && Identified(w)
    requires Faithful(w, OutputsOf(rules, order)) && Inserted(w.stored, w)
    requires Exists(w, at) && at.offset < Offset(w.committed, at.place) && Message(w, at).verdict.Admitted?
    requires forall m: Input :: m.verdict == Message(w, at).verdict ==> order(m) == order(Message(w, at))
    requires k < |rules.rules| && MatchedBy(rules, Message(w, at).verdict.event, k)
    ensures var e := Message(w, at).verdict.event;
            var id := AttackId(e.eventId, rules.rules[k].id);
            && id in Table(w.stored)
            && HitUnder(rules.rules[k], e.Fixed(), e.headers, order(Message(w, at)), rules.tools)
               == Some(Table(w.stored)[id].hit)
  {
    hide Table, HitUnder, Matches, Settled, Attacks, HitsOf, Hits, Arranges, ValidRuleId, UniqueIds, Exec;
    var e := Message(w, at).verdict.event;
    var id := AttackId(e.eventId, rules.rules[k].id);
    var s := StoredRow(rules, steps, w, at, k);
    var i :| 0 <= i < |w.stored| && w.stored[i] == s;
    var m := Message(w, s.origin);
    var o := OpinionOf(order, m);
    assert s.record in Outputs(Detection, rules, m, o);
    var l := RuleOfAttack(rules, m, o, s.record);
    var f := m.verdict.event;
    AttackIdInjective(e.eventId, rules.rules[k].id, f.eventId, rules.rules[l].id);
    SameIndex(rules, k, l);
    assert e == f;
  }

  /** The rule an attack was sent for. */
  lemma RuleOfAttack(rules: RuleSet, m: Input, o: Opinion, r: Output) returns (l: nat)
    requires Possible(o, m) && r.Attack? && r in Outputs(Detection, rules, m, o)
    ensures m.verdict.Admitted? && l < |rules.rules| && AttackBy(rules, m.verdict.event, o.order, l, r)
  {
    hide HitUnder, Attacks, HitsOf, Arranges;
    AttackAdmitted(rules, m, o, r);
    var f := m.verdict.event;
    AttackAmongOutputs(f, HitsOf(rules, f, o.order), o, r);
    AttacksAre(rules, f, o.order, r);
    l :| 0 <= l < |rules.rules| && AttackBy(rules, f, o.order, l, r);
  }

  lemma AttackAdmitted(rules: RuleSet, m: Input, o: Opinion, r: Output)
    requires Possible(o, m) && r.Attack? && r in Outputs(Detection, rules, m, o)
    ensures m.verdict.Admitted? && r in Detect(m.verdict.event, HitsOf(rules, m.verdict.event, o.order), o)
  {
    hide HitsOf, Arranges;
  }

  ghost function SomeArrangement(headers: Headers): (order: seq<string>)
    ensures Arranges(order, headers)
  {
    ArrangementExists(headers);
    var order :| Arranges(order, headers);
    order
  }

  lemma ArrangementExists(headers: Headers)
    ensures exists order :: Arranges(order, headers)
  {
    var order := SomeOrder(headers.Keys);
    assert Arranges(order, headers);
  }

  /** Visits the headers of `e` in the order `p`, and those of other events in some order. */
  ghost function Preferring(e: Event, p: seq<string>): Input -> seq<string> {
    (m: Input) =>
      if !m.verdict.Admitted? then []
      else if m.verdict.event == e then p
      else SomeArrangement(m.verdict.event.headers)
  }

  lemma PreferringOrders(e: Event, p: seq<string>)
    requires Arranges(p, e.headers)
    ensures Orders(Preferring(e, p))
  {
    hide Arranges;
  }

  /** A run that leaves the hit under `p` in the row of the i-th arrival and the k-th rule. */
  lemma RunWithRow(rules: RuleSet, arrivals: seq<Arrival<Input>>, i: nat, k: nat, p: seq<string>)
    returns (steps: seq<Step<Input, Output>>, w: World<Input, Output>)
    requires Usable(rules) && IdentifiedInput(arrivals) && i < |arrivals| && arrivals[i].message.verdict.Admitted?
    requires Arranges(p, arrivals[i].message.verdict.event.headers)
    requires k < |rules.rules| && MatchedBy(rules, arrivals[i].message.verdict.event, k)
    ensures Leaves(rules, arrivals, steps, w, w.stored)
    ensures var e := arrivals[i].message.verdict.event;
            var id := AttackId(e.eventId, rules.rules[k].id);
            && id in Table(w.stored)
            && HitUnder(rules.rules[k], e.Fixed(), e.headers, p, rules.tools) == Some(Table(w.stored)[id].hit)
  {
    hide Arranges, Table, Ran, HitUnder, Matches, IdentifiedInput, Identified, Faithful, Usable, LogOf, Compatible;
    var e := arrivals[i].message.verdict.event;
    var order := Preferring(e, p);
    PreferringOrders(e, p);
    steps, w := OrderedRun(rules, arrivals, order);
    InputFacts(rules, arrivals, w);
    ArrivalInLog(arrivals, i);
    var place := arrivals[i].place;
    var o :| 0 <= o < |LogOf(arrivals, place)| && LogOf(arrivals, place)[o] == arrivals[i].message;
    assert Log(w, place) == LogOf(arrivals, place);
    RowUnder(rules, order, steps, w, Origin(place, o), k);
  }

  /** A record that is not settled: two runs leave rows of the same id with different fields. */
  lemma UnsettledDiffers(rules: RuleSet, arrivals: seq<Arrival<Input>>, i: nat, k: nat)
    requires Usable(rules) && IdentifiedInput(arrivals) && i < |arrivals| && arrivals[i].message.verdict.Admitted?
    requires k < |rules.rules| && !SettledBy(rules, arrivals[i].message.verdict.event, k)
    ensures !AlwaysSameRows(rules, arrivals)
  {
    hide Arranges, Table, HitUnder, FirstHit, Hitting, HeaderHit, IdentifiedInput, Usable, Leaves;
    var e := arrivals[i].message.verdict.event;
    var rule := rules.rules[k];
    var a, b :| a in Hitting(rule, e.headers, rules.tools) && b in Hitting(rule, e.headers, rules.tools) && a != b;
    var p, q := OrdersDiffer(rule, e.Fixed(), e.headers, a, b, rules.tools);
    assert MatchedBy(rules, e, k);
    var s1, w1 := RunWithRow(rules, arrivals, i, k, p);
    var s2, w2 := RunWithRow(rules, arrivals, i, k, q);
    var id := AttackId(e.eventId, rule.id);
    assert Table(w1.stored)[id].hit != Table(w2.stored)[id].hit;
    assert !SameRows(Table(w1.stored), Table(w2.stored));
  }

  /**
   All runs that consume an input leave the same rows, up to the time, if and only if no rule
   finds its pattern in two headers of a request without finding it before them.
   */
  lemma {:induction false} AlwaysSameRowsExactly(rules: RuleSet, arrivals: seq<Arrival<Input>>)
    requires Usable(rules) && IdentifiedInput(arrivals)
    ensures AlwaysSameRows(rules, arrivals) <==> SettledInput(rules, arrivals)
  {
    hide Table, Leaves, Usable, IdentifiedInput, SettledBy, SameRows, SameButField;
    if SettledInput(rules, arrivals) {
      forall s1, w1, i1, s2, w2, i2 | Leaves(rules, arrivals, s1, w1, i1) && Leaves(rules, arrivals, s2, w2, i2)
        ensures SameRows(Table(i1), Table(i2))
      {
        SameTableWhenDrained(rules, arrivals, s1, w1, i1, s2, w2, i2);
      }
    } else {
      var i :| 0 <= i < |arrivals| && !SettledRecord(rules, arrivals[i].message);
      var k :| 0 <= k < |rules.rules| && !SettledBy(rules, arrivals[i].message.verdict.event, k);
      UnsettledDiffers(rules, arrivals, i, k);
    }
  }

  /** The example of two headers: runs over this one request leave rows with different fields. */
  lemma {:induction false} DifferentRows(eventId: string, data: string, place: Place)
    ensures var e := Event(eventId, data, "/", "", "", TWO_HEADERS);
            !AlwaysSameRows(RuleSet([UNION_SELECT], LIBRARY), [Arrival(place, Input(None, None, Admitted(e)))])
  {
    hide AlwaysSameRows, Settled;
    OrderMatters();
    var rules := RuleSet([UNION_SELECT], LIBRARY);
    var e := Event(eventId, data, "/", "", "", TWO_HEADERS);
    var arrivals := [Arrival(place, Input(None, None, Admitted(e)))];
    AlwaysSameRowsExactly(rules, arrivals);
    assert !SettledBy(rules, e, 0);
    assert !SettledRecord(rules, arrivals[0].message);
  }
}
