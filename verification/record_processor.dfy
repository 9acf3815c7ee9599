/** From one input record to output records, with ids derived from the input's own id. */
module RecordProcessing {
  import opened Options
  import opened Rules
  import opened RuleMatching

  const MIN_SCORE_TO_EMIT := 40

  datatype Role = Detection | Repartition | Ddos

  /** A request; `data` is everything an output takes from the event itself. */
  datatype Event = Event(
    eventId: string, data: string, path: string, query: string, body: string, headers: Headers)
  {
    function Fixed(): seq<Field> { FixedFields(path, query, body) }
  }

  /**
   What parsing, the key check, the scope check and the skew check make of a record: scope
   answers and skew verdicts are fixed.
   */
  datatype Verdict = Rejected(error: string) | OutOfScope | Admitted(event: Event)

  /** A record of the input topic, whose key and value may be missing. */
  datatype Input = Input(key: Option<string>, value: Option<string>, verdict: Verdict)

  /**
   What a replay need not repeat: the stateful detectors' opinion, the clock, and the order in which
   the process visits the headers of the request.
   */
  datatype Opinion = Opinion(score: int, alert: bool, now: int, order: seq<string>)

  ghost predicate Possible(o: Opinion, m: Input) {
    m.verdict.Admitted? ==> Arranges(o.order, m.verdict.event.headers)
  }

  /** Outputs carry the text their event_id is hashed from, and the clock reading of their envelope. */
  datatype Output =
    | Attack(id: string, event: string, hit: Hit, now: int)
    | Scored(id: string, event: string, now: int)
    | Alert(id: string, event: string, now: int)
    | Forward(value: string)
    | Dead(key: Option<string>, value: string, error: string)

  // -------------------------------------------------------------------- ids

  /** `name|discriminator`, before hashing. */
  function PreImage(name: string, discriminator: string): string { name + "|" + discriminator }

  function AttackId(eventId: string, ruleId: string): string {
    PreImage("attack.detected", eventId + "|" + ruleId)
  }

  function ScoredId(eventId: string): string { PreImage("anomaly.scored", eventId) }

  function AlertId(role: Role, eventId: string): string {
    PreImage("alert.triggered", if role == Ddos then "ddos:" + eventId else eventId)
  }

  lemma CancelPrefix(p: string, s: string, t: string)
    requires p + s == p + t
    ensures s == t
  {
    assert s == (p + s)[|p|..];
    assert t == (p + t)[|p|..];
  }

  /** The part after the last separator is unambiguous. */
  lemma LastSeparator(a: string, b: string, c: string, d: string)
    requires a + "|" + b == c + "|" + d && '|' !in b && '|' !in d
    ensures a == c && b == d
  {
    var s := a + "|" + b;
    assert s[|a|] == '|' && s[|c|] == '|';
    assert |a| == |c|;
    assert a == s[..|a|] && c == s[..|c|];
    assert b == s[|a| + 1..] && d == s[|c| + 1..];
  }

  /** Distinct (event, rule) pairs have distinct attack ids, whatever the event ids contain. */
  lemma {:induction false} AttackIdInjective(e: string, r: string, f: string, q: string)
    requires ValidRuleId(r) && ValidRuleId(q)
    ensures AttackId(e, r) == AttackId(f, q) <==> e == f && r == q
  {
    if AttackId(e, r) == AttackId(f, q) {
      CancelPrefix("attack.detected" + "|", e + "|" + r, f + "|" + q);
      LastSeparator(e, r, f, q);
    }
  }

  /** An alert of one detector shares its id with an alert of the other exactly for a "ddos:" event id. */
  lemma {:induction false} AlertIdCollision(x: string, y: string)
    ensures AlertId(Ddos, x) == AlertId(Detection, y) <==> y == "ddos:" + x
  {
    if AlertId(Ddos, x) == AlertId(Detection, y) {
      CancelPrefix("alert.triggered" + "|", "ddos:" + x, y);
    }
  }

  /** For instance: the DDoS alert of event "1" and the request alert of event "ddos:1". */
  lemma {:induction false} CollidingAlerts()
    ensures "1" != "ddos:1" && AlertId(Ddos, "1") == AlertId(Detection, "ddos:1")
  {
    AlertIdCollision("1", "ddos:1");
    assert "ddos:" + "1" == "ddos:1";
    assert |"1"| == 1 && |"ddos:1"| == 6;
  }

  lemma {:induction false} KindsDisjoint(d: string, e: string, f: string)
    ensures PreImage("attack.detected", d) != PreImage("anomaly.scored", e)
    ensures PreImage("attack.detected", d) != PreImage("alert.triggered", f)
    ensures PreImage("anomaly.scored", e) != PreImage("alert.triggered", f)
  {
    assert PreImage("attack.detected", d)[1] == 't';
    assert PreImage("anomaly.scored", e)[1] == 'n';
    assert PreImage("alert.triggered", f)[1] == 'l';
  }

  // ------------------------------------------------------------- processing

  function HitsOf(s: RuleSet, e: Event, order: seq<string>): seq<Hit>
    requires Arranges(order, e.headers)
  {
    Hits(s.rules, FieldsOf(e.Fixed(), e.headers, order), s.tools)
  }

  function Attacks(e: Event, hits: seq<Hit>, now: int): seq<Output> {
    seq(|hits|, i requires 0 <= i < |hits| => Attack(AttackId(e.eventId, hits[i].ruleId), e.data, hits[i], now))
  }

  function Detect(e: Event, hits: seq<Hit>, o: Opinion): seq<Output> {
    Attacks(e, hits, o.now)
    + (if hits != [] || o.score >= MIN_SCORE_TO_EMIT then [Scored(ScoredId(e.eventId), e.data, o.now)] else [])
    + (if o.alert then [Alert(AlertId(Detection, e.eventId), e.data, o.now)] else [])
  }

  function Outputs(role: Role, s: RuleSet, m: Input, o: Opinion): seq<Output>
    requires Possible(o, m)
  {
    match m.verdict
    case Rejected(error) => [Dead(m.key, OrEmpty(m.value), error[..if |error| < 500 then |error| else 500])]
    case OutOfScope => []
    case Admitted(e) =>
      match role
      case Detection => Detect(e, HitsOf(s, e, o.order), o)
      case Repartition => [Forward(OrEmpty(m.value))]
      case Ddos => if o.alert then [Alert(AlertId(Ddos, e.eventId), e.data, o.now)] else []
  }

  /**
   What the steps of processing give, each of which may raise an exception: parsing the record,
   its expected key, asking whether the domain is in scope, and the role's own detection.
   */
  datatype Checks = Checks(
    parsed: Result<Event, string>, expectedKey: string, inScope: Result<bool, string>, detected: Result<(), string>)

  /** The steps in order, up to the first exception. */
  function VerdictOf(role: Role, key: Option<string>, c: Checks): Verdict {
    match c.parsed
    case Err(e) => Rejected(e)
    case Ok(event) =>
      if key != Some(c.expectedKey) then Rejected("Kafka key does not match input contract")
      else
        match c.inScope
        case Err(e) => Rejected(e)
        case Ok(false) => OutOfScope
        case Ok(true) => if role != Repartition && c.detected.Err? then Rejected(c.detected.error) else Admitted(event)
  }

  /**
   Processing is total: there is a dead letter if and only if some step that is reached fails, and
   then it is the only output and carries the record's key and value. Detection fails only for
   records in scope, and forwarding runs none.
   */
  lemma {:induction false} DeadLetterExactly(
    role: Role, s: RuleSet, key: Option<string>, value: Option<string>, c: Checks, o: Opinion)
    requires Possible(o, Input(key, value, VerdictOf(role, key, c)))
    ensures var q := Outputs(role, s, Input(key, value, VerdictOf(role, key, c)), o);
            && ((exists r :: r in q && r.Dead?) <==>
                  c.parsed.Err? || key != Some(c.expectedKey) || c.inScope.Err?
                  || (c.inScope == Ok(true) && role != Repartition && c.detected.Err?))
            && ((exists r :: r in q && r.Dead?) ==> |q| == 1 && q[0].key == key && q[0].value == OrEmpty(value))
  {
    var m := Input(key, value, VerdictOf(role, key, c));
    OneDeadLetter(role, s, m, o);
    if m.verdict.Rejected? { assert Outputs(role, s, m, o)[0].Dead?; }
  }

  /** The beginning of a text, 500 characters at most. */
  predicate CutOff(shown: string, text: string) {
    shown <= text && |shown| == if |text| < 500 then |text| else 500
  }

  /** The dead letter gives the reason of the first step that failed; a record out of scope gives nothing. */
  lemma {:induction false} DeadLetterError(
    role: Role, s: RuleSet, key: Option<string>, value: Option<string>, c: Checks, o: Opinion)
    requires Possible(o, Input(key, value, VerdictOf(role, key, c)))
    ensures var q := Outputs(role, s, Input(key, value, VerdictOf(role, key, c)), o);
            match c.parsed
            case Err(reason) => |q| == 1 && q[0].Dead? && CutOff(q[0].error, reason)
            case Ok(_) =>
              if key != Some(c.expectedKey)
              then |q| == 1 && q[0].Dead? && CutOff(q[0].error, "Kafka key does not match input contract")
              else
                match c.inScope
                case Err(reason) => |q| == 1 && q[0].Dead? && CutOff(q[0].error, reason)
                case Ok(false) => q == []
                case Ok(true) =>
                  role != Repartition && c.detected.Err? ==>
                    |q| == 1 && q[0].Dead? && CutOff(q[0].error, c.detected.error)
  {
    hide Detect, HitsOf;
  }

  /** What is sent for an admitted record. */
  lemma {:induction false} AdmittedOutputs(s: RuleSet, m: Input, e: Event, o: Opinion)
    requires m.verdict == Admitted(e) && Possible(o, m)
    ensures var q := Outputs(Repartition, s, m, o);
            |q| == 1 && q[0].Forward? && (m.value.Some? ==> m.value == Some(q[0].value))
    ensures var q := Outputs(Ddos, s, m, o);
            if o.alert then |q| == 1 && AlertFor(q[0], "alert.triggered|ddos:" + e.eventId, e, o) else q == []
    ensures var q := Outputs(Detection, s, m, o);
            var hits := HitsOf(s, e, o.order);
            var scored := if hits != [] || o.score >= 40 then 1 else 0;
            && |q| == |hits| + scored + (if o.alert then 1 else 0)
            && (forall i :: 0 <= i < |hits| ==> AttackFor(q[i], hits[i], e, o))
            && (scored == 1 ==> q[|hits|] == Scored("anomaly.scored|" + e.eventId, e.data, o.now))
            && (o.alert ==> AlertFor(q[|q| - 1], "alert.triggered|" + e.eventId, e, o))
  {
    hide Hits, FieldsOf, Arranges;
    var hits := HitsOf(s, e, o.order);
    var q := Outputs(Detection, s, m, o);
    assert q == Detect(e, hits, o);
    assert "alert.triggered" + "|" + ("ddos:" + e.eventId) == "alert.triggered|ddos:" + e.eventId;
    assert "alert.triggered" + "|" == "alert.triggered|" && "anomaly.scored" + "|" == "anomaly.scored|";
    forall i | 0 <= i < |hits| ensures AttackFor(q[i], hits[i], e, o) {
      assert q[i] == Attacks(e, hits, o.now)[i];
      AttackIdText(e.eventId, hits[i].ruleId);
    }
  }

  predicate AlertFor(r: Output, id: string, e: Event, o: Opinion) {
    r.Alert? && r.id == id && r.event == e.data && r.now == o.now
  }

  predicate AttackFor(r: Output, hit: Hit, e: Event, o: Opinion) {
    && r.Attack? && r.id == "attack.detected|" + e.eventId + "|" + hit.ruleId
    && r.event == e.data && r.hit == hit && r.now == o.now
  }

  lemma AttackIdText(eventId: string, ruleId: string)
    ensures AttackId(eventId, ruleId) == "attack.detected|" + eventId + "|" + ruleId
  {
    assert "attack.detected" + "|" == "attack.detected|";
    assert "attack.detected" + "|" + (eventId + "|" + ruleId) == "attack.detected|" + eventId + "|" + ruleId;
  }

  /** Exactly one dead letter for a rejected record, and none otherwise. */
  lemma {:induction false} OneDeadLetter(role: Role, s: RuleSet, m: Input, o: Opinion)
    requires Possible(o, m)
    ensures m.verdict.Rejected? <==> exists r :: r in Outputs(role, s, m, o) && r.Dead?
    ensures m.verdict.Rejected? ==> |Outputs(role, s, m, o)| == 1
  {
    hide Hits, Arranges;
    if m.verdict.Rejected? { assert Outputs(role, s, m, o)[0].Dead?; }
  }

  /** The attack records of one event have distinct ids. */
  lemma {:induction false} AttackIdsDistinct(s: RuleSet, e: Event, order: seq<string>, i: nat, j: nat)
    requires Usable(s) && Arranges(order, e.headers) && i < j < |HitsOf(s, e, order)|
    ensures AttackId(e.eventId, HitsOf(s, e, order)[i].ruleId) != AttackId(e.eventId, HitsOf(s, e, order)[j].ruleId)
  {
    hide Hits, ValidRuleId;
    HitIdsUnique(s.rules, FieldsOf(e.Fixed(), e.headers, order), s.tools);
    var hits := HitsOf(s, e, order);
    assert HasId(s.rules, hits[i].ruleId) && HasId(s.rules, hits[j].ruleId);
    AttackIdInjective(e.eventId, hits[i].ruleId, e.eventId, hits[j].ruleId);
  }

  /** `detect` and its list of outputs. */
  method DetectRecords(e: Event, hits: seq<Hit>, o: Opinion) returns (out: seq<Output>)
    ensures out == Detect(e, hits, o)
  {
    out := [];
    var i := 0;
    while i < |hits|
      invariant 0 <= i <= |hits| && out == Attacks(e, hits, o.now)[..i]
    {
      out := out + [Attack(AttackId(e.eventId, hits[i].ruleId), e.data, hits[i], o.now)];
      i := i + 1;
    }
    if hits != [] || o.score >= MIN_SCORE_TO_EMIT {
      out := out + [Scored(ScoredId(e.eventId), e.data, o.now)];
    }
    if o.alert { out := out + [Alert(AlertId(Detection, e.eventId), e.data, o.now)]; }
  }
}
