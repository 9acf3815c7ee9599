/** The rule engine of a detector and the subscriber that feeds it. */
module RuleEngines {
  import opened Options
  import opened Rules
  import opened RuleMatching
  import opened RuleProtocol

  // -------------------------------------------------------------- the engine

  class RuleEngine {
    const compiles: Compiles
    /** The enabled rules, in document order. */
    var rules: Document

    ghost predicate Valid()
      reads this
    {
      UniqueIds(rules) && forall i :: 0 <= i < |rules| ==> ValidRule(rules[i], compiles)
    }

    constructor (compiles: Compiles, defaults: Document)
      requires ValidDocument(defaults, compiles)
      ensures this.compiles == compiles && rules == EnabledOnly(defaults) && Valid()
    {
      this.compiles, rules := compiles, EnabledOnly(defaults);
      EnabledAreValid(defaults, compiles);
    }

    /** All rules of a valid document take the place of all old ones, or nothing changes. */
    method ReplaceRules(definitions: Document) returns (replaced: bool)
      requires Valid()
      modifies this
      ensures Valid()
      ensures replaced <==> ValidDocument(definitions, compiles)
      ensures rules == if replaced then EnabledOnly(definitions) else old(rules)
    {
      hide ValidDocument, ValidRule, EnabledOnly;
      replaced := ValidateAll(definitions, compiles);
      if replaced {
        rules := EnabledOnly(definitions);
        EnabledAreValid(definitions, compiles);
      }
    }

    method Match(fields: seq<Field>, tools: Tools) returns (matches: seq<Hit>)
      ensures matches == Hits(rules, fields, tools)
    {
      hide FoundIn;
      matches := [];
      for i := 0 to |rules|
        invariant matches == Hits(rules[..i], fields, tools)
      {
        var rule := rules[i];
        assert rules[..i + 1][..i] == rules[..i];
        ghost var before := matches;
        var k := 0;
        while k < |fields|
          invariant 0 <= k <= |fields| && matches == before
          invariant FirstHit(rule, fields, tools) == FirstHit(rule, fields[k..], tools)
        {
          var found := FoundIn(rule, fields[k], tools);
          if found.Some? {
            matches := matches + [HitOf(rule, fields[k], found.value)];
            break;
          }
          k := k + 1;
        }
      }
      assert rules[..|rules|] == rules;
    }
  }

  lemma EnabledAreValid(doc: Document, compiles: Compiles)
    requires ValidDocument(doc, compiles)
    ensures var rules := EnabledOnly(doc);
            UniqueIds(rules) && forall i :: 0 <= i < |rules| ==> ValidRule(rules[i], compiles)
  {
    hide ValidRule, EnabledOnly;
    EnabledAre(doc);
    forall i | 0 <= i < |EnabledOnly(doc)| ensures ValidRule(EnabledOnly(doc)[i], compiles) {
      assert EnabledOnly(doc)[i] in doc;
    }
  }

  // ------------------------------------------------------------ the subscriber

  class RuleChangeSubscriber {
    const engine: RuleEngine
    const endOffset: nat
    var position: nat
    var caughtUp: bool

    /** Starts at the beginning of the topic, whose end is noted. */
    constructor (engine: RuleEngine, endOffset: nat)
      ensures this.engine == engine && this.endOffset == endOffset && position == 0 && !caughtUp
    {
      this.engine, this.endOffset, position, caughtUp := engine, endOffset, 0, false;
    }

    /** The engine has replayed the topic up to the position. */
    ghost predicate Follows(topic: seq<Record>, defaults: Document)
      reads this, engine
    {
      && engine.Valid() && position <= |topic|
      && engine.rules == Replayed(EnabledOnly(defaults), topic[..position], engine.compiles)
      && (caughtUp ==> position >= endOffset)
    }

    /** One poll: every record is applied or rejected; the latch falls at the noted end. */
    method Poll(topic: seq<Record>, count: nat, ghost defaults: Document)
      requires Follows(topic, defaults) && position + count <= |topic|
      modifies this`position, this`caughtUp, engine
      ensures Follows(topic, defaults) && position == old(position) + count
      ensures caughtUp <==> old(caughtUp) || position >= endOffset
    {
      hide EnabledOnly, ValidRule, ValidDocument;
      for i := 0 to count
        invariant position == old(position) + i && Follows(topic, defaults) && caughtUp == old(caughtUp)
      {
        var record := topic[position];
        assert topic[..position + 1][..position] == topic[..position];
        match Value(record) {
          case Some(document) => var _ := engine.ReplaceRules(document);
          case None =>
        }
        position := position + 1;
      }
      if !caughtUp && position >= endOffset { caughtUp := true; }
    }
  }
}
