/** Rules, their validation, and the operations on a rule document. */
module Rules {
  import opened Options
  import opened Lexicographic

  datatype Rule = Rule(
    id: string, group: string, description: string, enabled: bool,
    targets: seq<string>, pattern: string, score: int, normalizers: seq<string>)

  type Document = seq<Rule>

  /** Whether a text compiles as a regular expression. */
  type Compiles = string -> bool

  // -------------------------------------------------------------- validation

  const TARGETS := {"url", "query", "body", "headers", "user_agent", "referer"}
  const NORMALIZERS := {"url_decode", "html_decode", "sql_canonical"}
  const MAX_PATTERN := 2_000

  function LowerCase(s: string): string {
    if s == "" then ""
    else [if 'A' <= s[0] <= 'Z' then (s[0] as int + 32) as char else s[0]] + LowerCase(s[1..])
  }

  /** `Character.isWhitespace`, which unlike `\s` leaves out the no-break spaces. */
  predicate IsWhitespace(c: char) {
    || '\t' <= c <= '\r' || '\U{1c}' <= c <= ' ' || c == '\U{1680}'
    || ('\U{2000}' <= c <= '\U{200a}' && c != '\U{2007}') || c == '\U{2028}' || c == '\U{2029}'
    || c == '\U{205f}' || c == '\U{3000}'
  }

  lemma WhitespaceExactly(c: char)
    ensures IsWhitespace(c) <==>
              c as int in [0x09, 0x0a, 0x0b, 0x0c, 0x0d, 0x1c, 0x1d, 0x1e, 0x1f, 0x20, 0x1680,
                           0x2000, 0x2001, 0x2002, 0x2003, 0x2004, 0x2005, 0x2006, 0x2008, 0x2009, 0x200a,
                           0x2028, 0x2029, 0x205f, 0x3000]
  {
  }

  predicate Blank(s: string) { forall i :: 0 <= i < |s| ==> IsWhitespace(s[i]) }

  /** Rule ids match [A-Z0-9_]{3,80}. */
  predicate ValidRuleId(id: string) {
    && 3 <= |id| <= 80
    && forall i :: 0 <= i < |id| ==> 'A' <= id[i] <= 'Z' || '0' <= id[i] <= '9' || id[i] == '_'
  }

  predicate ValidRule(rule: Rule, compiles: Compiles) {
    && ValidRuleId(rule.id)
    && !Blank(rule.group)
    && 1 <= rule.score <= 100
    && rule.targets != []
    && (forall i :: 0 <= i < |rule.targets| ==> LowerCase(rule.targets[i]) in TARGETS)
    && (forall i :: 0 <= i < |rule.normalizers| ==> LowerCase(rule.normalizers[i]) in NORMALIZERS)
    && !Blank(rule.pattern) && |rule.pattern| <= MAX_PATTERN
    && compiles(rule.pattern)
  }

  /** `s` is a lower-case name in any letter case. */
  predicate Spells(s: string, name: string) {
    && |s| == |name|
    && forall i :: 0 <= i < |name| ==>
         s[i] == name[i] || ('a' <= name[i] <= 'z' && s[i] as int == name[i] as int - 'a' as int + 'A' as int)
  }

  lemma {:induction false} LowerCaseExactly(s: string, name: string)
    requires forall i :: 0 <= i < |name| ==> !('A' <= name[i] <= 'Z')
    ensures LowerCase(s) == name <==> Spells(s, name)
  {
    LowerCaseAt(s);
  }

  lemma {:induction false} LowerCaseAt(s: string)
    ensures |LowerCase(s)| == |s|
    ensures forall i :: 0 <= i < |s| ==>
              LowerCase(s)[i] as int
              == if 'A' <= s[i] <= 'Z' then s[i] as int - 'A' as int + 'a' as int else s[i] as int
  {
    if s != "" {
      LowerCaseAt(s[1..]);
      forall i | 0 < i < |s| ensures LowerCase(s)[i] == LowerCase(s[1..])[i - 1] && s[i] == s[1..][i - 1] {}
    }
  }

  /** One of some names, in any letter case. */
  predicate OneOf(s: string, names: seq<string>) { exists k :: 0 <= k < |names| && Spells(s, names[k]) }

  lemma TargetNames(s: string)
    ensures LowerCase(s) in TARGETS <==> OneOf(s, ["url", "query", "body", "headers", "user_agent", "referer"])
  {
    var names := ["url", "query", "body", "headers", "user_agent", "referer"];
    hide LowerCase, Spells;
    forall k | 0 <= k < |names| ensures LowerCase(s) == names[k] <==> Spells(s, names[k]) {
      LowerCaseExactly(s, names[k]);
    }
    assert forall name :: name in TARGETS <==> name in names;
  }

  lemma NormalizerNames(s: string)
    ensures LowerCase(s) in NORMALIZERS <==> OneOf(s, ["url_decode", "html_decode", "sql_canonical"])
  {
    var names := ["url_decode", "html_decode", "sql_canonical"];
    hide LowerCase, Spells;
    forall k | 0 <= k < |names| ensures LowerCase(s) == names[k] <==> Spells(s, names[k]) {
      LowerCaseExactly(s, names[k]);
    }
    assert forall name :: name in NORMALIZERS <==> name in names;
  }

  const ID_CHARACTERS := "ABCDEFGHIJKLMNOPQRSTUVWXYZ0123456789_"

  /** Exactly which rules are valid. */
  lemma {:induction false} ValidRuleExactly(rule: Rule, compiles: Compiles)
    ensures ValidRule(rule, compiles) <==>
              && 3 <= |rule.id| <= 80 && (forall c :: c in rule.id ==> c in ID_CHARACTERS)
              && (exists c :: c in rule.group && !IsWhitespace(c))
              && 1 <= rule.score <= 100
              && rule.targets != []
              && (forall t :: t in rule.targets ==>
                    OneOf(t, ["url", "query", "body", "headers", "user_agent", "referer"]))
              && (forall n :: n in rule.normalizers ==> OneOf(n, ["url_decode", "html_decode", "sql_canonical"]))
              && (exists c :: c in rule.pattern && !IsWhitespace(c))
              && |rule.pattern| <= 2000 && compiles(rule.pattern)
  {
    hide LowerCase, OneOf, Blank, ValidRuleId, ID_CHARACTERS, IsWhitespace, TARGETS, NORMALIZERS;
    IdExactly(rule.id);
    BlankExactly(rule.group);
    BlankExactly(rule.pattern);
    forall t
      ensures LowerCase(t) in TARGETS <==> OneOf(t, ["url", "query", "body", "headers", "user_agent", "referer"])
    {
      TargetNames(t);
    }
    forall n ensures LowerCase(n) in NORMALIZERS <==> OneOf(n, ["url_decode", "html_decode", "sql_canonical"]) {
      NormalizerNames(n);
    }
    assert forall i :: 0 <= i < |rule.targets| ==> rule.targets[i] in rule.targets;
    assert forall i :: 0 <= i < |rule.normalizers| ==> rule.normalizers[i] in rule.normalizers;
  }

  lemma BlankExactly(s: string)
    ensures Blank(s) <==> !exists c :: c in s && !IsWhitespace(c)
  {
    hide IsWhitespace;
    assert forall i :: 0 <= i < |s| ==> s[i] in s;
  }

  lemma IdExactly(id: string)
    ensures ValidRuleId(id) <==> 3 <= |id| <= 80 && forall c :: c in id ==> c in ID_CHARACTERS
  {
    hide ID_CHARACTERS;
    forall c: char ensures c in ID_CHARACTERS <==> 'A' <= c <= 'Z' || '0' <= c <= '9' || c == '_' { IdCharacter(c); }
    assert forall i :: 0 <= i < |id| ==> id[i] in id;
  }

  lemma IdCharacter(c: char)
    ensures c in ID_CHARACTERS <==> 'A' <= c <= 'Z' || '0' <= c <= '9' || c == '_'
  {
    assert forall i :: 0 <= i < |ID_CHARACTERS| ==>
      ID_CHARACTERS[i] as int == if i < 26 then 'A' as int + i else if i < 36 then '0' as int + i - 26 else '_' as int;
    if 'A' <= c <= 'Z' { assert c == ID_CHARACTERS[c as int - 'A' as int]; }
    if '0' <= c <= '9' { assert c == ID_CHARACTERS[c as int - '0' as int + 26]; }
    if c == '_' { assert c == ID_CHARACTERS[36]; }
  }

  predicate UniqueIds(doc: Document) {
    forall i, j :: 0 <= i < j < |doc| ==> doc[i].id != doc[j].id
  }

  predicate ValidDocument(doc: Document, compiles: Compiles) {
    && doc != [] && UniqueIds(doc)
    && forall i :: 0 <= i < |doc| ==> ValidRule(doc[i], compiles)
  }

  /** `validateAll`: every rule is valid, and no id is seen twice. */
  method ValidateAll(doc: Document, compiles: Compiles) returns (ok: bool)
    ensures ok <==> ValidDocument(doc, compiles)
  {
    hide ValidRule;
    if doc == [] { return false; }
    var ids: set<string> := {};
    for i := 0 to |doc|
      invariant forall k :: 0 <= k < i ==> ValidRule(doc[k], compiles)
      invariant forall x :: x in ids <==> exists k :: 0 <= k < i && doc[k].id == x
      invariant UniqueIds(doc[..i])
    {
      if !ValidRule(doc[i], compiles) { return false; }
      if doc[i].id in ids { return false; }
      ids := ids + {doc[i].id};
    }
    assert doc[..|doc|] == doc;
    return true;
  }

  // ------------------------------------------------------------ the document

  function Find(doc: Document, id: string): Option<Rule> {
    if doc == [] then None
    else if doc[0].id == id then Some(doc[0])
    else Find(doc[1..], id)
  }

  lemma {:induction false} FindExactly(doc: Document, id: string)
    ensures Find(doc, id).None? <==> forall i :: 0 <= i < |doc| ==> doc[i].id != id
    ensures Find(doc, id).Some? ==> Find(doc, id).value in doc && Find(doc, id).value.id == id
    ensures UniqueIds(doc) ==> forall r :: r in doc && r.id == id ==> Find(doc, id) == Some(r)
  {
    if doc != [] {
      FindExactly(doc[1..], id);
      forall r | r in doc && r.id == id && UniqueIds(doc) ensures Find(doc, id) == Some(r) {
        var i :| 0 <= i < |doc| && doc[i] == r;
      }
    }
  }

  /** `removeIf`: the document without the rules of one id. */
  function Without(doc: Document, id: string): Document {
    if doc == [] then []
    else if doc[0].id == id then Without(doc[1..], id)
    else [doc[0]] + Without(doc[1..], id)
  }

  lemma {:induction false} WithoutMembers(doc: Document, id: string)
    ensures forall r :: r in Without(doc, id) <==> r in doc && r.id != id
    ensures UniqueIds(doc) ==> UniqueIds(Without(doc, id))
  {
    if doc != [] {
      WithoutMembers(doc[1..], id);
      assert forall r :: r in doc <==> r == doc[0] || r in doc[1..];
      if UniqueIds(doc) && doc[0].id != id { HeadStaysUnique(doc[0], doc[1..], Without(doc[1..], id)); }
    }
  }

  lemma HeadStaysUnique(r: Rule, all: Document, some: Document)
    requires UniqueIds([r] + all) && UniqueIds(some) && forall x :: x in some ==> x in all
    ensures UniqueIds([r] + some)
  {
    forall i | 0 <= i < |some| ensures some[i].id != r.id {
      assert some[i] in all;
      var k :| 0 <= k < |all| && all[k] == some[i];
      assert ([r] + all)[k + 1].id != ([r] + all)[0].id;
    }
  }

  ghost predicate SortedById(doc: Document) {
    forall i, j :: 0 <= i < j < |doc| ==> !Less(doc[j].id, doc[i].id)
  }

  function Inserted(doc: Document, rule: Rule): Document {
    if doc == [] || Less(rule.id, doc[0].id) then [rule] + doc
    else [doc[0]] + Inserted(doc[1..], rule)
  }

  /** The list sort, which is stable. */
  function Sorted(doc: Document): Document {
    if doc == [] then [] else Inserted(Sorted(doc[..|doc| - 1]), doc[|doc| - 1])
  }

  lemma {:induction false} InsertedFacts(doc: Document, rule: Rule)
    ensures multiset(Inserted(doc, rule)) == multiset(doc) + multiset{rule}
    ensures SortedById(doc) ==> SortedById(Inserted(doc, rule))
  {
    if doc != [] && !Less(rule.id, doc[0].id) {
      InsertedFacts(doc[1..], rule);
      assert doc == [doc[0]] + doc[1..];
      if SortedById(doc) { InsertedAfter(doc, rule); }
    } else if doc != [] && SortedById(doc) {
      InsertedFirst(doc, rule);
    }
  }

  lemma InsertedFirst(doc: Document, rule: Rule)
    requires doc != [] && SortedById(doc) && Less(rule.id, doc[0].id)
    ensures SortedById([rule] + doc)
  {
    forall i | 0 <= i < |doc| ensures !Less(doc[i].id, rule.id) {
      if Less(doc[i].id, rule.id) {
        Transitive(doc[i].id, rule.id, doc[0].id);
        if i == 0 { Irreflexive(doc[0].id); }
      }
    }
  }

  lemma InsertedAfter(doc: Document, rule: Rule)
    requires doc != [] && SortedById(doc) && !Less(rule.id, doc[0].id)
    requires SortedById(Inserted(doc[1..], rule))
    requires multiset(Inserted(doc[1..], rule)) == multiset(doc[1..]) + multiset{rule}
    ensures SortedById([doc[0]] + Inserted(doc[1..], rule))
  {
    var rest := Inserted(doc[1..], rule);
    forall i | 0 <= i < |rest| ensures !Less(rest[i].id, doc[0].id) {
      assert rest[i] in multiset(rest);
      if rest[i] != rule {
        assert rest[i] in multiset(doc[1..]);
        var k :| 0 <= k < |doc[1..]| && doc[1..][k] == rest[i];
      }
    }
  }

  lemma {:induction false} SortedFacts(doc: Document)
    ensures multiset(Sorted(doc)) == multiset(doc) && SortedById(Sorted(doc))
  {
    if doc != [] {
      var n := |doc| - 1;
      SortedFacts(doc[..n]);
      InsertedFacts(Sorted(doc[..n]), doc[n]);
      assert doc == doc[..n] + [doc[n]];
    }
  }

  function Saved(doc: Document, rule: Rule): Document { Sorted(Without(doc, rule.id) + [rule]) }

  lemma {:induction false} UniqueUnderSort(a: Document, b: Document)
    requires UniqueIds(a) && multiset(a) == multiset(b)
    ensures UniqueIds(b)
  {
    if i, j :| 0 <= i < j < |b| && b[i].id == b[j].id {
      assert b[i] in multiset(a) && b[j] in multiset(a);
      var k :| 0 <= k < |a| && a[k] == b[i];
      var l :| 0 <= l < |a| && a[l] == b[j];
      if k == l {
        assert b[i] == b[j];
        TwiceIn(b, i, j);
        OnceIn(a, k);
      }
    }
  }

  lemma TwiceIn(b: Document, i: nat, j: nat)
    requires i < j < |b| && b[i] == b[j]
    ensures multiset(b)[b[i]] >= 2
  {
    assert b == b[..j] + [b[j]] + b[j + 1..];
    assert b[i] in b[..j];
  }

  lemma OnceIn(a: Document, k: nat)
    requires UniqueIds(a) && k < |a|
    ensures multiset(a)[a[k]] == 1
  {
    assert a == a[..k] + [a[k]] + a[k + 1..];
    assert a[k] !in a[..k] && a[k] !in a[k + 1..];
  }

  lemma {:induction false} SavedMembers(doc: Document, rule: Rule)
    ensures forall r :: r in Saved(doc, rule) <==> r == rule || (r in doc && r.id != rule.id)
    ensures UniqueIds(doc) ==> UniqueIds(Saved(doc, rule))
    ensures SortedById(Saved(doc, rule)) && Saved(doc, rule) != []
  {
    var next := Without(doc, rule.id) + [rule];
    WithoutMembers(doc, rule.id);
    SortedFacts(next);
    forall r ensures r in Saved(doc, rule) <==> r in next {
      assert r in Saved(doc, rule) <==> r in multiset(Saved(doc, rule));
      assert r in next <==> r in multiset(next);
    }
    if UniqueIds(doc) {
      assert UniqueIds(next);
      UniqueUnderSort(next, Saved(doc, rule));
    }
  }

  // -------------------------------------------------------------- requests

  datatype Request = Create(rule: Rule) | Update(id: string, rule: Rule) | Remove(id: string)

  datatype Rejection = BadRequest | NotFound

  function Checked(next: Document, compiles: Compiles): Result<Document, Rejection> {
    if ValidDocument(next, compiles) then Ok(next) else Err(BadRequest)
  }

  /** What a request makes of the stored document, before it is written. */
  function Requested(doc: Document, request: Request, compiles: Compiles): Result<Document, Rejection> {
    match request
    case Create(rule) =>
      if Find(doc, rule.id).Some? || !ValidRule(rule, compiles) then Err(BadRequest)
      else Checked(Saved(doc, rule), compiles)
    case Update(id, rule) =>
      if id != rule.id || !ValidRule(rule, compiles) then Err(BadRequest)
      else Checked(Saved(doc, rule), compiles)
    case Remove(id) =>
      if Find(doc, id).None? then Err(NotFound)
      else Checked(Without(doc, id), compiles)
  }

  /** Saving a valid rule into a valid document never fails validation. */
  lemma {:induction false} SavedIsValid(doc: Document, rule: Rule, compiles: Compiles)
    requires ValidDocument(doc, compiles) && ValidRule(rule, compiles)
    ensures ValidDocument(Saved(doc, rule), compiles)
  {
    hide ValidRule, Saved;
    SavedMembers(doc, rule);
    forall i | 0 <= i < |Saved(doc, rule)| ensures ValidRule(Saved(doc, rule)[i], compiles) {
      assert Saved(doc, rule)[i] in Saved(doc, rule);
    }
  }

  lemma {:induction false} WithoutIsValid(doc: Document, id: string, compiles: Compiles)
    requires ValidDocument(doc, compiles)
    ensures ValidDocument(Without(doc, id), compiles) <==> exists r :: r in doc && r.id != id
  {
    hide ValidRule, Without;
    var next := Without(doc, id);
    WithoutMembers(doc, id);
    forall i | 0 <= i < |next| ensures ValidRule(next[i], compiles) { assert next[i] in next; }
    if next != [] { assert next[0] in next; }
  }

  /** Exactly when each request is accepted. */
  lemma {:induction false} AcceptedExactly(doc: Document, request: Request, compiles: Compiles)
    requires ValidDocument(doc, compiles)
    ensures Requested(doc, request, compiles).Ok? <==>
              match request
              case Create(rule) => ValidRule(rule, compiles) && forall r :: r in doc ==> r.id != rule.id
              case Update(id, rule) => ValidRule(rule, compiles) && id == rule.id
              case Remove(id) => (exists r :: r in doc && r.id == id) && exists r :: r in doc && r.id != id
  {
    hide ValidRule, Saved, Without, ValidDocument;
    match request
    case Create(rule) =>
      FindExactly(doc, rule.id);
      if ValidRule(rule, compiles) { SavedIsValid(doc, rule, compiles); }
    case Update(id, rule) =>
      if ValidRule(rule, compiles) { SavedIsValid(doc, rule, compiles); }
    case Remove(id) =>
      FindExactly(doc, id);
      WithoutIsValid(doc, id, compiles);
  }

  /** Why a request is refused: a removal of an unknown id is told apart from everything else. */
  lemma RefusedExactly(doc: Document, request: Request, compiles: Compiles)
    ensures Requested(doc, request, compiles) == Err(NotFound)
       <==> request.Remove? && forall r :: r in doc ==> r.id != request.id
  {
    hide ValidRule, Saved, Without, ValidDocument;
    if request.Remove? { FindExactly(doc, request.id); }
  }

  /** What an accepted request does: one id changes, and every other rule stays as it was. */
  lemma {:induction false} OneIdChanges(doc: Document, request: Request, compiles: Compiles)
    requires ValidDocument(doc, compiles) && Requested(doc, request, compiles).Ok?
    ensures var next := Requested(doc, request, compiles).value;
            && ValidDocument(next, compiles)
            && match request
               case Create(rule) =>
                 (forall r :: r in next <==> r == rule || r in doc) && forall r :: r in doc ==> r.id != rule.id
               case Update(id, rule) => forall r :: r in next <==> r == rule || (r in doc && r.id != id)
               case Remove(id) => forall r :: r in next <==> r in doc && r.id != id
  {
    hide ValidRule, Saved, Without;
    match request
    case Create(rule) =>
      FindExactly(doc, rule.id);
      SavedMembers(doc, rule);
    case Update(id, rule) => SavedMembers(doc, rule);
    case Remove(id) => WithoutMembers(doc, id);
  }

  // --------------------------------------------------------------- inverses

  /** A sorted document is determined by its rules. */
  lemma {:induction false} SortedUnique(a: Document, b: Document)
    requires SortedById(a) && SortedById(b) && UniqueIds(a) && UniqueIds(b)
    requires forall r :: r in a <==> r in b
    ensures a == b
    decreases |a|
  {
    assert b != [] ==> b[0] in b;
    if a != [] {
      assert a[0] in a && a[0] in b;
      assert b[0] in a;
      FirstIsLeast(a, b[0]);
      FirstIsLeast(b, a[0]);
      Total(a[0].id, b[0].id);
      SameRule(a, a[0], b[0]);
      TailMembers(a);
      TailMembers(b);
      SortedUnique(a[1..], b[1..]);
    }
  }

  lemma FirstIsLeast(a: Document, r: Rule)
    requires SortedById(a) && r in a
    ensures !Less(r.id, a[0].id)
  {
    Irreflexive(r.id);
  }

  lemma SameRule(a: Document, r: Rule, s: Rule)
    requires UniqueIds(a) && r in a && s in a && r.id == s.id
    ensures r == s
  {
  }

  lemma TailMembers(a: Document)
    requires UniqueIds(a) && a != []
    ensures forall r :: r in a[1..] <==> r in a && r != a[0]
  {
    forall r | r in a && r != a[0] ensures r in a[1..] {
      var i :| 0 <= i < |a| && a[i] == r;
      assert a[1..][i - 1] == r;
    }
  }

  /** Creating a rule and removing it again gives back the document, once it is sorted. */
  lemma {:induction false} CreateThenRemove(doc: Document, rule: Rule)
    requires UniqueIds(doc) && SortedById(doc) && Find(doc, rule.id).None?
    ensures Without(Saved(doc, rule), rule.id) == doc
  {
    hide Saved, Without;
    var saved := Saved(doc, rule);
    SavedMembers(doc, rule);
    WithoutMembers(saved, rule.id);
    WithoutSorted(saved, rule.id);
    FindExactly(doc, rule.id);
    SortedUnique(Without(saved, rule.id), doc);
  }

  lemma {:induction false} WithoutSorted(doc: Document, id: string)
    requires SortedById(doc)
    ensures SortedById(Without(doc, id))
  {
    if doc != [] {
      WithoutSorted(doc[1..], id);
      WithoutMembers(doc[1..], id);
      var rest := Without(doc[1..], id);
      forall i | 0 <= i < |rest| ensures !Less(rest[i].id, doc[0].id) {
        assert rest[i] in doc[1..];
        var k :| 0 <= k < |doc[1..]| && doc[1..][k] == rest[i];
      }
    }
  }

  /** Saving the same rule twice is saving it once, and the last of two saves of an id wins. */
  lemma {:induction false} LastSaveWins(doc: Document, first: Rule, second: Rule)
    requires UniqueIds(doc) && first.id == second.id
    ensures Saved(Saved(doc, first), second) == Saved(doc, second)
  {
    hide Saved;
    SavedMembers(doc, first);
    SavedMembers(Saved(doc, first), second);
    SavedMembers(doc, second);
    SortedUnique(Saved(Saved(doc, first), second), Saved(doc, second));
  }
}
