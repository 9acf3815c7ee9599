/** Which rules match a request, where, and what of it depends on the order of its headers. */
module RuleMatching {
  import opened Options
  import opened Collections
  import opened Rules
  import HtmlEntities
  import Normalizer

  // ---------------------------------------------------------------- matching

  /** A part of a request that rules look at. */
  datatype Field = Field(name: string, value: string, plusAsSpace: bool)

  datatype Hit = Hit(ruleId: string, group: string, score: int, field: string, text: string, description: string)

  /** Library calls: the leftmost match of a pattern in a text, UTF-8 decoding, and comment removal. */
  datatype Tools = Tools(
    find: (string, string) -> Option<string>, utf8: Normalizer.Utf8, withoutComments: string -> string)

  /** The rules of an engine, with the library it uses. */
  datatype RuleSet = RuleSet(rules: Document, tools: Tools)

  /** Rule ids are unique and valid, as in every valid document. */
  ghost predicate Usable(s: RuleSet) {
    UniqueIds(s.rules) && forall k :: 0 <= k < |s.rules| ==> ValidRuleId(s.rules[k].id)
  }

  predicate ContainsIgnoreCase(values: seq<string>, expected: string) {
    exists i :: 0 <= i < |values| && LowerCase(values[i]) == expected
  }

  predicate IsHeader(name: string) { |name| >= 8 && name[..8] == "headers." }

  /** A header is a target as one of the headers, and two of them also on their own. */
  predicate Targets(targets: seq<string>, name: string) {
    if !IsHeader(name) then ContainsIgnoreCase(targets, name)
    else
      || ContainsIgnoreCase(targets, "headers")
      || (name == "headers.user-agent" && ContainsIgnoreCase(targets, "user_agent"))
      || (name == "headers.referer" && ContainsIgnoreCase(targets, "referer"))
  }

  function TextOf(f: Field, normalizers: seq<string>, tools: Tools): string {
    var decoded :=
      if ContainsIgnoreCase(normalizers, "url_decode") || ContainsIgnoreCase(normalizers, "html_decode")
      then Normalizer.Normalized(f.value, f.plusAsSpace, tools.utf8) else f.value;
    if ContainsIgnoreCase(normalizers, "sql_canonical") then tools.withoutComments(decoded) else decoded
  }

  /** What a rule finds in a field, if the field is one of its targets. */
  function FoundIn(rule: Rule, f: Field, tools: Tools): Option<string> {
    if Targets(rule.targets, f.name) then tools.find(rule.pattern, TextOf(f, rule.normalizers, tools)) else None
  }

  function HitOf(rule: Rule, f: Field, text: string): Hit {
    Hit(rule.id, rule.group, rule.score, f.name, text, rule.description)
  }

  function FirstHit(rule: Rule, fields: seq<Field>, tools: Tools): Option<Hit> {
    if fields == [] then None
    else
      match FoundIn(rule, fields[0], tools)
      case Some(text) => Some(HitOf(rule, fields[0], text))
      case None => FirstHit(rule, fields[1..], tools)
  }

  function Hits(rules: Document, fields: seq<Field>, tools: Tools): seq<Hit> {
    if rules == [] then []
    else
      var n := |rules| - 1;
      var hit := FirstHit(rules[n], fields, tools);
      Hits(rules[..n], fields, tools) + if hit.Some? then [hit.value] else []
  }

  /** A rule hits once, in its first targeted field where its pattern is found. */
  lemma {:induction false} FirstHitExactly(rule: Rule, fields: seq<Field>, tools: Tools)
    ensures FirstHit(rule, fields, tools).None?
       <==> forall i :: 0 <= i < |fields| ==> FoundIn(rule, fields[i], tools).None?
    ensures FirstHit(rule, fields, tools).Some? ==>
              exists i :: 0 <= i < |fields| && FoundIn(rule, fields[i], tools).Some?
                && FirstHit(rule, fields, tools) == Some(HitOf(rule, fields[i], FoundIn(rule, fields[i], tools).value))
                && forall k :: 0 <= k < i ==> FoundIn(rule, fields[k], tools).None?
  {
    hide FoundIn;
    if fields != [] && FoundIn(rule, fields[0], tools).None? {
      var rest := fields[1..];
      FirstHitExactly(rule, rest, tools);
      assert forall k :: 0 < k < |fields| ==> fields[k] == rest[k - 1];
      if FirstHit(rule, rest, tools).Some? {
        var i :| 0 <= i < |rest| && FoundIn(rule, rest[i], tools).Some?
                 && FirstHit(rule, rest, tools) == Some(HitOf(rule, rest[i], FoundIn(rule, rest[i], tools).value))
                 && forall k :: 0 <= k < i ==> FoundIn(rule, rest[k], tools).None?;
        assert fields[i + 1] == rest[i];
      }
    }
  }

  /** One hit for each rule that hits, in rule order. */
  lemma {:induction false} HitsInOrder(a: Document, b: Document, fields: seq<Field>, tools: Tools)
    ensures Hits(a + b, fields, tools) == Hits(a, fields, tools) + Hits(b, fields, tools)
    decreases |b|
  {
    hide FirstHit;
    if b == [] {
      assert a + b == a;
    } else {
      var n := |b| - 1;
      assert (a + b)[..|a + b| - 1] == a + b[..n];
      HitsInOrder(a, b[..n], fields, tools);
    }
  }

  lemma {:induction false} HitsExactly(rules: Document, fields: seq<Field>, tools: Tools, h: Hit)
    ensures h in Hits(rules, fields, tools)
        <==> exists i :: 0 <= i < |rules| && FirstHit(rules[i], fields, tools) == Some(h)
  {
    hide FirstHit;
    if rules != [] {
      var n := |rules| - 1;
      HitsExactly(rules[..n], fields, tools, h);
      assert forall i :: 0 <= i < n ==> rules[..n][i] == rules[i];
    }
  }

  ghost predicate HasId(rules: Document, id: string) { exists k :: 0 <= k < |rules| && rules[k].id == id }

  ghost predicate DistinctIds(hits: seq<Hit>) {
    forall i, j :: 0 <= i < j < |hits| ==> hits[i].ruleId != hits[j].ruleId
  }

  ghost predicate FromRules(hits: seq<Hit>, rules: Document) {
    forall i :: 0 <= i < |hits| ==> HasId(rules, hits[i].ruleId)
  }

  /** For unique rule ids, no event has two hits of one id. */
  lemma {:induction false} HitIdsUnique(rules: Document, fields: seq<Field>, tools: Tools)
    requires UniqueIds(rules)
    ensures DistinctIds(Hits(rules, fields, tools)) && FromRules(Hits(rules, fields, tools), rules)
  {
    hide FoundIn, FirstHit;
    if rules != [] {
      var n := |rules| - 1;
      HitIdsUnique(rules[..n], fields, tools);
      HitHasRuleId(rules[n], fields, tools);
      OneMoreHit(Hits(rules[..n], fields, tools), rules, FirstHit(rules[n], fields, tools));
    }
  }

  lemma OneMoreHit(before: seq<Hit>, rules: Document, hit: Option<Hit>)
    requires rules != [] && UniqueIds(rules) && (hit.Some? ==> hit.value.ruleId == rules[|rules| - 1].id)
    requires DistinctIds(before) && FromRules(before, rules[..|rules| - 1])
    ensures var hits := before + if hit.Some? then [hit.value] else [];
            DistinctIds(hits) && FromRules(hits, rules)
  {
    var n := |rules| - 1;
    forall i | 0 <= i < |before| ensures HasId(rules, before[i].ruleId) && before[i].ruleId != rules[n].id {
      assert HasId(rules[..n], before[i].ruleId);
      var k :| 0 <= k < n && rules[..n][k].id == before[i].ruleId;
      assert rules[k].id == before[i].ruleId;
    }
    assert HasId(rules, rules[n].id);
  }

  lemma HitHasRuleId(rule: Rule, fields: seq<Field>, tools: Tools)
    ensures FirstHit(rule, fields, tools).Some? ==> FirstHit(rule, fields, tools).value.ruleId == rule.id
  {
    FirstHitExactly(rule, fields, tools);
  }

  // ------------------------------------------------------ where a rule looks

  /** A name is listed, in any letter case. */
  predicate Lists(values: seq<string>, name: string) { exists i :: 0 <= i < |values| && Spells(values[i], name) }

  lemma ListsExactly(values: seq<string>, name: string)
    requires forall i :: 0 <= i < |name| ==> !('A' <= name[i] <= 'Z')
    ensures ContainsIgnoreCase(values, name) <==> Lists(values, name)
  {
    hide LowerCase, Spells;
    forall i | 0 <= i < |values| ensures LowerCase(values[i]) == name <==> Spells(values[i], name) {
      LowerCaseExactly(values[i], name);
    }
  }

  /** Which target names select a field of each kind. */
  lemma {:induction false} TargetsExactly(targets: seq<string>, header: string)
    ensures Targets(targets, "url") <==> Lists(targets, "url")
    ensures Targets(targets, "query") <==> Lists(targets, "query")
    ensures Targets(targets, "body") <==> Lists(targets, "body")
    ensures Targets(targets, "headers." + header) <==> HeaderListed(targets, header)
  {
    hide ContainsIgnoreCase, Lists;
    ListsExactly(targets, "url");
    ListsExactly(targets, "query");
    ListsExactly(targets, "body");
    ListsExactly(targets, "headers");
    ListsExactly(targets, "user_agent");
    ListsExactly(targets, "referer");
    var name := "headers." + header;
    assert name[..8] == "headers." && name[8..] == header;
    assert "headers.user-agent"[8..] == "user-agent" && "headers.referer"[8..] == "referer";
    assert header == "user-agent" ==> name == "headers.user-agent";
    assert header == "referer" ==> name == "headers.referer";
  }

  /** All headers as `headers`, and two of them by a name of their own. */
  predicate HeaderListed(targets: seq<string>, header: string) {
    || Lists(targets, "headers")
    || (header == "user-agent" && Lists(targets, "user_agent"))
    || (header == "referer" && Lists(targets, "referer"))
  }

  function WithoutCommentsIf(listed: bool, text: string, tools: Tools): string {
    if listed then tools.withoutComments(text) else text
  }

  /**
   What a rule that decodes finds in a request that was encoded twice: what its pattern finds in the
   text itself, its entities decoded once, cut, and its comments removed if the rule says so.
   */
  lemma {:induction false} FindsDecoded(
    rule: Rule, name: string, text: string, once: string, s: string, plusAsSpace: bool, tools: Tools)
    requires Normalizer.IsUtf8(tools.utf8) && Normalizer.Ascii(once) && Normalizer.Ascii(s) && '&' !in once
    requires Normalizer.Encodes(text, once, plusAsSpace) && Normalizer.Encodes(once, s, plusAsSpace)
    requires Lists(rule.normalizers, "url_decode") || Lists(rule.normalizers, "html_decode")
    ensures var seen := Normalizer.Cut(HtmlEntities.DecodeHtml(s));
            FoundIn(rule, Field(name, text, plusAsSpace), tools)
            == if Targets(rule.targets, name)
               then tools.find(rule.pattern, WithoutCommentsIf(Lists(rule.normalizers, "sql_canonical"), seen, tools))
               else None
  {
    hide Targets, ContainsIgnoreCase, Lists, Normalizer.Normalized, Normalizer.Encodes;
    ListsExactly(rule.normalizers, "url_decode");
    ListsExactly(rule.normalizers, "html_decode");
    ListsExactly(rule.normalizers, "sql_canonical");
    Normalizer.TwiceEncoded(text, once, s, plusAsSpace, tools.utf8);
  }

  /** What a rule that does not decode finds: what its pattern finds in the value as it is. */
  lemma {:induction false} FindsRaw(rule: Rule, f: Field, tools: Tools)
    requires !Lists(rule.normalizers, "url_decode") && !Lists(rule.normalizers, "html_decode")
    ensures FoundIn(rule, f, tools)
         == if Targets(rule.targets, f.name)
            then tools.find(rule.pattern, WithoutCommentsIf(Lists(rule.normalizers, "sql_canonical"), f.value, tools))
            else None
  {
    hide Targets, ContainsIgnoreCase, Lists;
    ListsExactly(rule.normalizers, "url_decode");
    ListsExactly(rule.normalizers, "html_decode");
    ListsExactly(rule.normalizers, "sql_canonical");
  }

  // ---------------------------------------------------- the order of headers

  /** The headers of a request: an immutable map, whose iteration order is unspecified. */
  type Headers = map<string, string>

  /** Some order in which the headers may be visited. */
  ghost predicate Arranges(order: seq<string>, headers: Headers) {
    Unique(order) && Elements(order) == headers.Keys
  }

  function HeaderField(headers: Headers, name: string): Field
    requires name in headers
  {
    Field("headers." + name, headers[name], false)
  }

  function HeaderFields(headers: Headers, order: seq<string>): seq<Field>
    requires Elements(order) <= headers.Keys
  {
    if order == [] then []
    else
      assert order[0] in Elements(order) && Elements(order[1..]) <= Elements(order);
      [HeaderField(headers, order[0])] + HeaderFields(headers, order[1..])
  }

  /** The fields that every request has. */
  function FixedFields(path: string, query: string, body: string): seq<Field> {
    [Field("url", path, false), Field("query", query, true), Field("body", body, true)]
  }

  /** `fieldsOf`: URL, query and body, then the headers. */
  function FieldsOf(fixed: seq<Field>, headers: Headers, order: seq<string>): seq<Field>
    requires Elements(order) <= headers.Keys
  {
    fixed + HeaderFields(headers, order)
  }

  /** The headers in which a rule finds its pattern. */
  function Hitting(rule: Rule, headers: Headers, tools: Tools): (names: set<string>)
    ensures names <= headers.Keys
  {
    set name | name in headers && FoundIn(rule, HeaderField(headers, name), tools).Some?
  }

  function HeaderHit(rule: Rule, headers: Headers, name: string, tools: Tools): Hit
    requires name in Hitting(rule, headers, tools)
  {
    var f := HeaderField(headers, name);
    HitOf(rule, f, FoundIn(rule, f, tools).value)
  }

  lemma {:induction false} FirstHitConcat(rule: Rule, a: seq<Field>, b: seq<Field>, tools: Tools)
    ensures FirstHit(rule, a + b, tools) == if FirstHit(rule, a, tools).Some? then FirstHit(rule, a, tools)
                                            else FirstHit(rule, b, tools)
  {
    hide FoundIn;
    if a == [] {
      assert a + b == b;
    } else {
      FirstHitConcat(rule, a[1..], b, tools);
      assert (a + b)[1..] == a[1..] + b;
    }
  }

  /** Among headers, the first of the order that hits is found. */
  lemma {:induction false} FirstHeader(rule: Rule, headers: Headers, order: seq<string>, tools: Tools)
    requires Elements(order) <= headers.Keys
    ensures var hit := FirstHit(rule, HeaderFields(headers, order), tools);
            var names := Hitting(rule, headers, tools);
            && (hit.None? <==> forall i :: 0 <= i < |order| ==> order[i] !in names)
            && (hit.Some? ==> exists i :: 0 <= i < |order| && order[i] in names
                                && hit.value == HeaderHit(rule, headers, order[i], tools))
            && (order != [] && order[0] in names ==> hit == Some(HeaderHit(rule, headers, order[0], tools)))
  {
    hide FoundIn;
    if order != [] {
      var rest := order[1..];
      assert order[0] in Elements(order) && Elements(rest) <= Elements(order);
      FirstHeader(rule, headers, rest, tools);
      assert HeaderFields(headers, order)[1..] == HeaderFields(headers, rest);
      assert forall i :: 0 < i < |order| ==> order[i] == rest[i - 1];
      assert forall i :: 0 <= i < |rest| ==> rest[i] == order[i + 1];
    }
  }

  /** The hit of a rule under some order of the headers. */
  ghost function HitUnder(
    rule: Rule, fixed: seq<Field>, headers: Headers, order: seq<string>, tools: Tools): Option<Hit>
    requires Arranges(order, headers)
  {
    FirstHit(rule, FieldsOf(fixed, headers, order), tools)
  }

  /** A rule's pattern is in a value, read with or without `+` as a space. */
  predicate Reads(rule: Rule, value: string, plusAsSpace: bool, tools: Tools) {
    tools.find(rule.pattern, TextOf(Field("", value, plusAsSpace), rule.normalizers, tools)).Some?
  }

  /** A rule matches a request exactly if its pattern is in a part of it that one of its targets names. */
  lemma {:induction false} MatchesExactly(
    rule: Rule, path: string, query: string, body: string, headers: Headers, tools: Tools)
    ensures Matches(rule, FixedFields(path, query, body), headers, tools) <==>
              || (Lists(rule.targets, "url") && Reads(rule, path, false, tools))
              || (Lists(rule.targets, "query") && Reads(rule, query, true, tools))
              || (Lists(rule.targets, "body") && Reads(rule, body, true, tools))
              || exists h :: h in headers && HeaderListed(rule.targets, h) && Reads(rule, headers[h], false, tools)
  {
    hide Targets, Lists, HeaderListed, TextOf;
    var fixed := FixedFields(path, query, body);
    FirstHitExactly(rule, fixed, tools);
    TargetsExactly(rule.targets, "");
    SameText(rule, fixed[0], tools);
    SameText(rule, fixed[1], tools);
    SameText(rule, fixed[2], tools);
    forall h | h in headers
      ensures h in Hitting(rule, headers, tools)
         <==> HeaderListed(rule.targets, h) && Reads(rule, headers[h], false, tools)
    {
      TargetsExactly(rule.targets, h);
      SameText(rule, HeaderField(headers, h), tools);
    }
  }

  /** The name of a field plays no part in its text. */
  lemma SameText(rule: Rule, f: Field, tools: Tools)
    ensures FoundIn(rule, f, tools).Some? <==>
              Targets(rule.targets, f.name) && Reads(rule, f.value, f.plusAsSpace, tools)
  {
    hide Targets;
  }

  /** Whether the rule matches the request at all: no order enters this. */
  ghost predicate Matches(rule: Rule, fixed: seq<Field>, headers: Headers, tools: Tools) {
    FirstHit(rule, fixed, tools).Some? || Hitting(rule, headers, tools) != {}
  }

  /** The hit is in a fixed field, or at most one header can give it. */
  ghost predicate Settled(rule: Rule, fixed: seq<Field>, headers: Headers, tools: Tools) {
    || FirstHit(rule, fixed, tools).Some?
    || forall a, b :: a in Hitting(rule, headers, tools) && b in Hitting(rule, headers, tools) ==> a == b
  }

  /** What every order agrees on. */
  lemma HitUnderIs(rule: Rule, fixed: seq<Field>, headers: Headers, order: seq<string>, tools: Tools)
    requires Arranges(order, headers)
    ensures var hit := HitUnder(rule, fixed, headers, order, tools);
            && (hit.Some? <==> Matches(rule, fixed, headers, tools))
            && (hit.Some? ==> hit.value.ruleId == rule.id && hit.value.group == rule.group
                              && hit.value.score == rule.score && hit.value.description == rule.description)
            && (FirstHit(rule, fixed, tools).Some? ==> hit == FirstHit(rule, fixed, tools))
            && (hit.Some? && FirstHit(rule, fixed, tools).None? ==>
                  exists n :: n in Hitting(rule, headers, tools) && hit.value == HeaderHit(rule, headers, n, tools))
  {
    hide FoundIn;
    var fields := FieldsOf(fixed, headers, order);
    FirstHitConcat(rule, fixed, HeaderFields(headers, order), tools);
    FirstHeader(rule, headers, order, tools);
    FirstHitExactly(rule, fields, tools);
    if n :| n in Hitting(rule, headers, tools) {
      assert n in Elements(order);
      var i :| 0 <= i < |order| && order[i] == n;
    }
  }

  lemma {:induction false} SomeOrder(names: set<string>) returns (order: seq<string>)
    ensures Unique(order) && Elements(order) == names
  {
    order := [];
    if names != {} {
      var x :| x in names;
      var rest := SomeOrder(names - {x});
      order := rest + [x];
      ElementsAppend(rest, x);
      UniqueAppend(rest, x);
    }
  }

  /** Any header can be visited first. */
  lemma OrderFrom(headers: Headers, first: string) returns (order: seq<string>)
    requires first in headers
    ensures Arranges(order, headers) && order != [] && order[0] == first
  {
    var rest := SomeOrder(headers.Keys - {first});
    order := [first] + rest;
    assert forall i :: 0 <= i < |rest| ==> rest[i] in Elements(rest);
    assert forall x :: x in order <==> x == first || x in rest;
    assert forall x :: x in rest <==> x in Elements(rest);
  }

  /** All orders of the headers give a rule the same hit. */
  ghost predicate SameInAnyOrder(rule: Rule, fixed: seq<Field>, headers: Headers, tools: Tools) {
    forall p, q :: Arranges(p, headers) && Arranges(q, headers) ==>
      HitUnder(rule, fixed, headers, p, tools) == HitUnder(rule, fixed, headers, q, tools)
  }

  /** A hit does not depend on the order of the headers if and only if it is settled. */
  lemma {:induction false} SameInAnyOrderExactly(rule: Rule, fixed: seq<Field>, headers: Headers, tools: Tools)
    ensures SameInAnyOrder(rule, fixed, headers, tools) <==> Settled(rule, fixed, headers, tools)
  {
    hide FoundIn, Arranges, HitUnder, FirstHit, HeaderHit, Hitting;
    if Settled(rule, fixed, headers, tools) {
      forall p, q | Arranges(p, headers) && Arranges(q, headers)
        ensures HitUnder(rule, fixed, headers, p, tools) == HitUnder(rule, fixed, headers, q, tools)
      {
        HitUnderIs(rule, fixed, headers, p, tools);
        HitUnderIs(rule, fixed, headers, q, tools);
      }
    } else {
      var a, b :| a in Hitting(rule, headers, tools) && b in Hitting(rule, headers, tools) && a != b;
      var p, q := OrdersDiffer(rule, fixed, headers, a, b, tools);
    }
  }

  /** Two hitting headers: visiting the one or the other first gives hits of different fields. */
  lemma OrdersDiffer(rule: Rule, fixed: seq<Field>, headers: Headers, a: string, b: string, tools: Tools)
    returns (p: seq<string>, q: seq<string>)
    requires a in headers && b in headers && a != b
    ensures Arranges(p, headers) && Arranges(q, headers)
    ensures FirstHit(rule, fixed, tools).None?
            && a in Hitting(rule, headers, tools) && b in Hitting(rule, headers, tools) ==>
              && HitUnder(rule, fixed, headers, p, tools) == Some(HeaderHit(rule, headers, a, tools))
              && HitUnder(rule, fixed, headers, q, tools) == Some(HeaderHit(rule, headers, b, tools))
              && HeaderHit(rule, headers, a, tools).field != HeaderHit(rule, headers, b, tools).field
  {
    hide FoundIn;
    p := OrderFrom(headers, a);
    q := OrderFrom(headers, b);
    FirstHitConcat(rule, fixed, HeaderFields(headers, p), tools);
    FirstHitConcat(rule, fixed, HeaderFields(headers, q), tools);
    FirstHeader(rule, headers, p, tools);
    FirstHeader(rule, headers, q, tools);
    assert ("headers." + a)[8..] == a && ("headers." + b)[8..] == b;
  }

  // ------------------------------------------------------------- an example

  const UNION_SELECT := Rule(
    "SQLI_UNION_SELECT", "sql_injection", "SQL Injection UNION SELECT", true, ["url", "query", "headers"],
    "(?i)union[\\s/*]+(?:all[\\s/*]+)?select\\b", 95, ["url_decode", "html_decode", "sql_canonical"])

  /** A library that finds what the pattern describes at the beginning of a text, and leaves texts without comments. */
  const LIBRARY := Tools(
    (pattern: string, text: string) =>
      if |text| >= 12 && text[..12] == "union select" then Some("union select") else None,
    Normalizer.AsciiOnly,
    (text: string) => text)

  const REQUEST := FixedFields("/", "", "")

  const TWO_HEADERS: Headers := map["user-agent" := "union select 1", "referer" := "union select 2"]

  lemma {:induction false} LowerStays(s: string)
    requires forall i :: 0 <= i < |s| ==> !('A' <= s[i] <= 'Z')
    ensures LowerCase(s) == s
  {
    if s != "" {
      LowerStays(s[1..]);
      assert s == [s[0]] + s[1..];
    }
  }

  lemma PlainText(f: Field, normalizers: seq<string>)
    requires '%' !in f.value && '+' !in f.value && '&' !in f.value && |f.value| <= Normalizer.MAX_LENGTH
    ensures TextOf(f, normalizers, LIBRARY) == f.value
  {
    hide Normalizer.Normalized, ContainsIgnoreCase;
    Normalizer.PlainIsNormal(f.value, f.plusAsSpace, LIBRARY.utf8);
  }

  lemma HeaderIsTarget(name: string)
    ensures Targets(UNION_SELECT.targets, "headers." + name)
  {
    hide LowerCase;
    LowerStays("headers");
    assert LowerCase(UNION_SELECT.targets[2]) == "headers";
    assert ("headers." + name)[..8] == "headers.";
  }

  /** The same request gives one rule hits of different fields, one for each of two headers that may come first. */
  lemma {:induction false} OrderMatters()
    ensures !Settled(UNION_SELECT, REQUEST, TWO_HEADERS, LIBRARY)
    ensures exists p, q :: Arranges(p, TWO_HEADERS) && Arranges(q, TWO_HEADERS)
              && HitUnder(UNION_SELECT, REQUEST, TWO_HEADERS, p, LIBRARY)
                 == Some(HitOf(UNION_SELECT, Field("headers.user-agent", "union select 1", false), "union select"))
              && HitUnder(UNION_SELECT, REQUEST, TWO_HEADERS, q, LIBRARY)
                 == Some(HitOf(UNION_SELECT, Field("headers.referer", "union select 2", false), "union select"))
  {
    hide Targets, TextOf, FirstHit, HitUnder, Arranges;
    HeaderFound("user-agent");
    HeaderFound("referer");
    NothingFixed();
    var names := Hitting(UNION_SELECT, TWO_HEADERS, LIBRARY);
    assert "user-agent" in names && "referer" in names && "user-agent" != "referer" by {
      assert "user-agent"[0] != "referer"[0];
    }
    assert "headers." + "user-agent" == "headers.user-agent" && "headers." + "referer" == "headers.referer";
    var p, q := OrdersDiffer(UNION_SELECT, REQUEST, TWO_HEADERS, "user-agent", "referer", LIBRARY);
  }

  lemma HeaderFound(name: string)
    requires name in TWO_HEADERS
    ensures FoundIn(UNION_SELECT, HeaderField(TWO_HEADERS, name), LIBRARY) == Some("union select")
  {
    hide Targets, TextOf;
    HeaderIsTarget(name);
    PlainText(HeaderField(TWO_HEADERS, name), UNION_SELECT.normalizers);
  }

  lemma NothingFixed()
    ensures FirstHit(UNION_SELECT, REQUEST, LIBRARY).None?
  {
    hide Targets, TextOf;
    FirstHitExactly(UNION_SELECT, REQUEST, LIBRARY);
    forall i | 0 <= i < |REQUEST| ensures FoundIn(UNION_SELECT, REQUEST[i], LIBRARY).None? {
      PlainText(REQUEST[i], UNION_SELECT.normalizers);
    }
  }

  const NO_HEADERS: Headers := map[]

  /** A request with an encoded query: the rule reads the plus sign as a space and matches there. */
  lemma {:induction false} EncodedQueryHits(order: seq<string>)
    requires Arranges(order, NO_HEADERS)
    ensures HitUnder(UNION_SELECT, FixedFields("/", "union+select 1", ""), NO_HEADERS, order, LIBRARY)
         == Some(Hit("SQLI_UNION_SELECT", "sql_injection", 95, "query", "union select", "SQL Injection UNION SELECT"))
  {
    hide Targets, TextOf;
    var fixed := FixedFields("/", "union+select 1", "");
    PlainText(fixed[0], UNION_SELECT.normalizers);
    QueryFound();
    assert FirstHit(UNION_SELECT, fixed[1..], LIBRARY) == Some(HitOf(UNION_SELECT, fixed[1], "union select"));
    FirstHitConcat(UNION_SELECT, fixed, HeaderFields(NO_HEADERS, order), LIBRARY);
  }

  lemma QueryIsTarget()
    ensures Targets(UNION_SELECT.targets, "query") && Lists(UNION_SELECT.normalizers, "url_decode")
  {
    hide Targets;
    TargetsExactly(UNION_SELECT.targets, "");
    assert Spells(UNION_SELECT.targets[1], "query");
    assert Spells(UNION_SELECT.normalizers[0], "url_decode");
  }

  lemma PlusEncodes()
    ensures Normalizer.Encodes("union+select 1", "union select 1", true)
    ensures Normalizer.Encodes("union select 1", "union select 1", true)
  {
    hide Normalizer.Encodes;
    Normalizer.PlainEncodes("union+select 1", "union select 1", true);
    Normalizer.PlainEncodes("union select 1", "union select 1", true);
  }

  lemma QueryFound()
    ensures FoundIn(UNION_SELECT, Field("query", "union+select 1", true), LIBRARY) == Some("union select")
  {
    hide Targets, Lists, FoundIn, Normalizer.Encodes, Normalizer.IsUtf8, HtmlEntities.DecodeHtml;
    var text := "union select 1";
    QueryIsTarget();
    Normalizer.AsciiOnlyIsUtf8();
    PlusEncodes();
    HtmlEntities.NoAmpersand(text);
    FindsDecoded(UNION_SELECT, "query", "union+select 1", text, text, true, LIBRARY);
    assert LIBRARY.find(UNION_SELECT.pattern, text) == Some("union select");
  }
}
