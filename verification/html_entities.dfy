/** Decoding the HTML entities of a request: sequential replacement passes, and one pass over all. */
module HtmlEntities {
  import opened Options

  /** A case-insensitive name, written in lower case, and what replaces it. */
  datatype Entity = Entity(name: string, to: char)

  const LT := Entity("&lt;", '<')
  const GT := Entity("&gt;", '>')
  const QUOT := Entity("&quot;", '"')
  const APOS := Entity("&#39;", '\'')
  const APOS_HEX := Entity("&#x27;", '\'')
  const AMP := Entity("&amp;", '&')

  function Lower(c: char): char {
    if 'A' <= c <= 'Z' then (c as int + 32) as char else c
  }

  /** Whether `s` begins with `name`, ignoring case. */
  predicate Begins(name: string, s: string) {
    name == "" || (s != "" && Lower(s[0]) == name[0] && Begins(name[1..], s[1..]))
  }

  lemma {:induction false} BeginsLength(name: string, s: string)
    requires Begins(name, s)
    ensures |name| <= |s|
  {
    if name != "" { BeginsLength(name[1..], s[1..]); }
  }

  /** The first entity of the table that `s` begins with. */
  function Found(table: seq<Entity>, s: string): (r: Option<Entity>)
    ensures r.Some? ==> r.value in table && Begins(r.value.name, s)
    ensures r.None? ==> forall e :: e in table ==> !Begins(e.name, s)
  {
    if table == [] then None
    else if Begins(table[0].name, s) then Some(table[0])
    else Found(table[1..], s)
  }

  ghost predicate Named(table: seq<Entity>) {
    forall e :: e in table ==> WellNamed(e.name)
  }

  predicate WellNamed(name: string) {
    |name| > 1 && name[0] == '&' && '&' !in name[1..]
  }

  /** One left-to-right pass that replaces every entity of the table. */
  function Pass(table: seq<Entity>, s: string): string
    decreases |s|
  {
    if s == "" then ""
    else
      var e := Found(table, s);
      if e.Some? && 0 < |e.value.name| <= |s| then [e.value.to] + Pass(table, s[|e.value.name|..])
      else [s[0]] + Pass(table, s[1..])
  }

  /** The five replacements one after the other. */
  function DecodeHtml(s: string): string {
    Pass([AMP], Pass([APOS, APOS_HEX], Pass([QUOT], Pass([GT], Pass([LT], s)))))
  }

  const ENTITIES: seq<Entity> := [LT, GT, QUOT, APOS, APOS_HEX, AMP]

  // ------------------------------------------------ sequential is simultaneous

  /** No replacement of `a` can become part of a name. */
  ghost predicate Inert(a: seq<Entity>, name: string) {
    forall e :: e in a ==> Lower(e.to) !in name
  }

  /** What follows an ampersand is a name after a pass exactly when it was one before. */
  lemma {:induction false} NameSurvives(a: seq<Entity>, name: string, s: string)
    requires Named(a) && '&' !in name && Inert(a, name)
    ensures Begins(name, s) <==> Begins(name, Pass(a, s))
    ensures Begins(name, s) ==> |name| <= |s| && |name| <= |Pass(a, s)|
                                && Pass(a, s)[|name|..] == Pass(a, s[|name|..])
    decreases |name|
  {
    if name != "" && s != "" {
      var e := Found(a, s);
      if e.Some? {
        BeginsLength(e.value.name, s);
        assert Lower(s[0]) == '&' && name[0] in name;
      } else {
        NameSurvives(a, name[1..], s[1..]);
      }
    }
  }

  /** So a pass neither makes nor breaks an entity that begins where nothing was replaced. */
  lemma EntitySurvives(a: seq<Entity>, e: Entity, s: string)
    requires Named(a) && WellNamed(e.name) && Inert(a, e.name)
    requires s != "" && Found(a, s).None?
    ensures Begins(e.name, s) <==> Begins(e.name, Pass(a, s))
    ensures Begins(e.name, s) ==> |e.name| <= |s| && |e.name| <= |Pass(a, s)|
                                  && Pass(a, s)[|e.name|..] == Pass(a, s[|e.name|..])
  {
    NameSurvives(a, e.name[1..], s[1..]);
  }

  lemma {:induction false} FoundSurvives(a: seq<Entity>, b: seq<Entity>, s: string)
    requires Named(a) && Named(b) && (forall e :: e in b ==> Inert(a, e.name))
    requires s != "" && Found(a, s).None?
    ensures Found(b, Pass(a, s)) == Found(b, s)
  {
    if b != [] {
      EntitySurvives(a, b[0], s);
      FoundSurvives(a, b[1..], s);
    }
  }

  lemma {:induction false} FoundInEither(a: seq<Entity>, b: seq<Entity>, s: string)
    ensures Found(a + b, s) == if Found(a, s).Some? then Found(a, s) else Found(b, s)
  {
    if a == [] {
      assert a + b == b;
    } else {
      assert (a + b)[1..] == a[1..] + b;
      FoundInEither(a[1..], b, s);
    }
  }

  /** Where the first pass replaces, the second finds nothing. */
  lemma ReplacedIsLeft(b: seq<Entity>, c: char, rest: string)
    requires Named(b) && Lower(c) != '&'
    ensures Pass(b, [c] + rest) == [c] + Pass(b, rest)
  {
    assert ([c] + rest)[1..] == rest;
  }

  /** Two passes, one after the other, are one pass over both tables. */
  lemma {:induction false} PassesJoin(a: seq<Entity>, b: seq<Entity>, s: string)
    requires Named(a) && Named(b) && (forall e :: e in b ==> Inert(a, e.name))
    requires forall e :: e in a ==> Lower(e.to) != '&'
    ensures Pass(b, Pass(a, s)) == Pass(a + b, s)
    decreases |s|
  {
    if s != "" {
      FoundInEither(a, b, s);
      var inA, inB := Found(a, s), Found(b, s);
      if inA.Some? {
        BeginsLength(inA.value.name, s);
        PassesJoin(a, b, s[|inA.value.name|..]);
        ReplacedIsLeft(b, inA.value.to, Pass(a, s[|inA.value.name|..]));
      } else {
        FoundSurvives(a, b, s);
        if inB.Some? {
          EntitySurvives(a, inB.value, s);
          PassesJoin(a, b, s[|inB.value.name|..]);
        } else {
          PassesJoin(a, b, s[1..]);
          assert Pass(a, s)[1..] == Pass(a, s[1..]);
        }
      }
    }
  }

  lemma NameFacts(e: Entity)
    requires e in ENTITIES
    ensures WellNamed(e.name)
  {
  }

  lemma ReplacementFacts(e: Entity, f: Entity)
    requires e in ENTITIES && f in ENTITIES && e != AMP
    ensures Lower(e.to) != '&' && Lower(e.to) !in f.name
  {
    assert Lower(e.to) in ['<', '>', '"', '\''];
  }

  /** Tables of known entities can be joined as long as no ampersand is made before the last pass. */
  lemma Joined(a: seq<Entity>, b: seq<Entity>, s: string)
    requires forall e :: e in a + b ==> e in ENTITIES
    requires AMP !in a
    ensures Pass(b, Pass(a, s)) == Pass(a + b, s)
  {
    hide Pass, Found, WellNamed, Lower;
    forall e | e in a ensures e in a + b {}
    forall e | e in b ensures e in a + b {}
    forall e | e in a || e in b ensures WellNamed(e.name) && e in ENTITIES { NameFacts(e); }
    forall e | e in a ensures Lower(e.to) != '&' { ReplacementFacts(e, e); }
    forall e, f | e in a && f in b ensures Lower(e.to) !in f.name { ReplacementFacts(e, f); }
    PassesJoin(a, b, s);
  }

  /** The five passes equal one pass: nothing an earlier replacement created is ever decoded. */
  lemma {:induction false} OnePass(s: string)
    ensures DecodeHtml(s) == Pass(ENTITIES, s)
  {
    hide Pass, Found, WellNamed, Lower, Begins;
    Joined([LT], [GT], s);
    Joined([LT, GT], [QUOT], s);
    Joined([LT, GT, QUOT], [APOS, APOS_HEX], s);
    Joined([LT, GT, QUOT, APOS, APOS_HEX], [AMP], s);
    assert [LT] + [GT] == [LT, GT];
    assert [LT, GT] + [QUOT] == [LT, GT, QUOT];
    assert [LT, GT, QUOT] + [APOS, APOS_HEX] == [LT, GT, QUOT, APOS, APOS_HEX];
    assert [LT, GT, QUOT, APOS, APOS_HEX] + [AMP] == ENTITIES;
  }

  lemma EntitiesNamed()
    ensures Named(ENTITIES)
  {
    hide WellNamed;
    forall e | e in ENTITIES ensures WellNamed(e.name) { NameFacts(e); }
  }

  // ------------------------------------------------------------- its length

  lemma {:induction false} PassShortens(table: seq<Entity>, s: string)
    requires Named(table)
    ensures |Pass(table, s)| <= |s|
    ensures |Pass(table, s)| == |s| ==> Pass(table, s) == s
    decreases |s|
  {
    if s != "" {
      var e := Found(table, s);
      if e.Some? {
        BeginsLength(e.value.name, s);
        PassShortens(table, s[|e.value.name|..]);
      } else {
        PassShortens(table, s[1..]);
      }
    }
  }

  /** Decoding shortens every string it changes. */
  lemma {:induction false} HtmlShortens(s: string)
    ensures |DecodeHtml(s)| <= |s|
    ensures |DecodeHtml(s)| == |s| ==> DecodeHtml(s) == s
  {
    hide Named, DecodeHtml;
    OnePass(s);
    EntitiesNamed();
    PassShortens(ENTITIES, s);
  }

  lemma NoAmpersand(s: string)
    requires '&' !in s
    ensures DecodeHtml(s) == s
  {
    hide Named, DecodeHtml;
    OnePass(s);
    EntitiesNamed();
    PassNothing(ENTITIES, s);
  }

  lemma {:induction false} PassNothing(table: seq<Entity>, s: string)
    requires Named(table) && '&' !in s
    ensures Pass(table, s) == s
    decreases |s|
  {
    if s != "" {
      assert s[0] in s;
      ReplacedIsLeft(table, s[0], s[1..]);
      assert [s[0]] + s[1..] == s;
      PassNothing(table, s[1..]);
    }
  }

  // --------------------------------------------------------------- encoding

  function Escaped(c: char): string {
    if c == '&' then AMP.name
    else if c == '<' then LT.name
    else if c == '>' then GT.name
    else if c == '"' then QUOT.name
    else if c == '\'' then APOS.name
    else [c]
  }

  function EncodeHtml(s: string): string {
    if s == "" then "" else Escaped(s[0]) + EncodeHtml(s[1..])
  }

  /** Decoding undoes one encoding, and never more than one. */
  lemma {:induction false} HtmlRoundTrip(s: string)
    ensures DecodeHtml(EncodeHtml(s)) == s
  {
    OnePass(EncodeHtml(s));
    PassOfEncoded(s);
  }

  lemma {:induction false} PassOfEncoded(s: string)
    ensures Pass(ENTITIES, EncodeHtml(s)) == s
  {
    if s != "" {
      PassOfEncoded(s[1..]);
      EscapedIsFound(s[0], EncodeHtml(s[1..]));
    }
  }

  function EntityFor(c: char): Entity {
    if c == '&' then AMP else if c == '<' then LT else if c == '>' then GT
    else if c == '"' then QUOT else APOS
  }

  lemma {:induction false} BeginsPointwise(name: string, s: string)
    ensures Begins(name, s) <==> |name| <= |s| && forall i :: 0 <= i < |name| ==> Lower(s[i]) == name[i]
  {
    if name != "" && s != "" {
      BeginsPointwise(name[1..], s[1..]);
      forall i | 0 < i < |name| && i < |s|
        ensures Lower(s[i]) == name[i] <==> Lower(s[1..][i - 1]) == name[1..][i - 1] {}
    }
  }

  /** `s` begins with the name of an entity, in any letter case. */
  predicate Spelled(name: string, s: string) {
    && |name| <= |s|
    && forall i :: 0 <= i < |name| ==>
         s[i] == name[i] || ('a' <= name[i] <= 'z' && s[i] as int == name[i] as int - 'a' as int + 'A' as int)
  }

  lemma BeginsSpelled(e: Entity, s: string)
    requires e in ENTITIES
    ensures Begins(e.name, s) <==> Spelled(e.name, s)
  {
    hide Begins;
    BeginsPointwise(e.name, s);
    assert forall i :: 0 <= i < |e.name| ==> !('A' <= e.name[i] <= 'Z');
    forall i | 0 <= i < |e.name| && i < |s|
      ensures Lower(s[i]) == e.name[i]
         <==> s[i] == e.name[i]
              || ('a' <= e.name[i] <= 'z' && s[i] as int == e.name[i] as int - 'a' as int + 'A' as int) {}
  }

  lemma OnlyOneName(e: Entity, f: Entity, s: string)
    requires e in ENTITIES && f in ENTITIES && Begins(e.name, s) && Begins(f.name, s)
    ensures e == f
  {
    hide Begins;
    BeginsPointwise(e.name, s);
    BeginsPointwise(f.name, s);
    assert |e.name| >= 4 && |f.name| >= 4;
    assert e.name[1] == f.name[1] && e.name[2] == f.name[2];
  }

  /** What a text decodes to when it begins with the name of an entity. */
  predicate ReadAs(name: string, c: char, s: string) {
    Spelled(name, s) ==> DecodeHtml(s) == [c] + DecodeHtml(s[|name|..])
  }

  /** The six names, in any letter case, and nothing else. */
  lemma {:induction false} DecodesExactly(s: string)
    ensures ReadAs("&lt;", '<', s) && ReadAs("&gt;", '>', s) && ReadAs("&quot;", '"', s)
    ensures ReadAs("&#39;", '\'', s) && ReadAs("&#x27;", '\'', s) && ReadAs("&amp;", '&', s)
    ensures s != ""
            && !Spelled("&lt;", s) && !Spelled("&gt;", s) && !Spelled("&quot;", s)
            && !Spelled("&#39;", s) && !Spelled("&#x27;", s) && !Spelled("&amp;", s)
            ==> DecodeHtml(s) == [s[0]] + DecodeHtml(s[1..])
  {
    hide Begins, Spelled, DecodeHtml;
    forall e | e in ENTITIES ensures ReadAs(e.name, e.to, s) {
      BeginsSpelled(e, s);
      if Spelled(e.name, s) { EntityRead(e, s); }
    }
    assert LT in ENTITIES && GT in ENTITIES && QUOT in ENTITIES;
    assert APOS in ENTITIES && APOS_HEX in ENTITIES && AMP in ENTITIES;
    if s != "" {
      OnePass(s);
      OnePass(s[1..]);
      if Found(ENTITIES, s).Some? { BeginsSpelled(Found(ENTITIES, s).value, s); }
    }
  }

  lemma EntityRead(e: Entity, s: string)
    requires e in ENTITIES && Begins(e.name, s)
    ensures |e.name| <= |s| && DecodeHtml(s) == [e.to] + DecodeHtml(s[|e.name|..])
  {
    hide Begins, DecodeHtml;
    BeginsLength(e.name, s);
    OnlyOneName(Found(ENTITIES, s).value, e, s);
    NameFacts(e);
    OnePass(s);
    OnePass(s[|e.name|..]);
  }

  lemma OwnEntity(c: char, rest: string, e: Entity)
    requires Escaped(c) != [c] && e in ENTITIES
    ensures Begins(e.name, Escaped(c) + rest) <==> e == EntityFor(c)
  {
    hide Begins;
    var s := Escaped(c) + rest;
    BeginsPointwise(e.name, s);
    if e == EntityFor(c) {
      assert s[..|e.name|] == e.name;
    } else {
      assert s[1] == Escaped(c)[1] && s[2] == Escaped(c)[2];
      assert Lower(s[1]) != e.name[1] || Lower(s[2]) != e.name[2];
    }
  }

  /** An escaped character begins with its own entity and no other. */
  lemma FoundEscaped(c: char, rest: string)
    requires Escaped(c) != [c]
    ensures Found(ENTITIES, Escaped(c) + rest) == Some(EntityFor(c)) && EntityFor(c).name == Escaped(c)
    ensures EntityFor(c).to == c
  {
    hide Begins;
    var s := Escaped(c) + rest;
    forall e | e in ENTITIES ensures Begins(e.name, s) <==> e == EntityFor(c) { OwnEntity(c, rest, e); }
  }

  lemma EscapedIsFound(c: char, rest: string)
    ensures Pass(ENTITIES, Escaped(c) + rest) == [c] + Pass(ENTITIES, rest)
  {
    if Escaped(c) == [c] {
      EntitiesNamed();
      ReplacedIsLeft(ENTITIES, c, rest);
    } else {
      FoundEscaped(c, rest);
      assert (Escaped(c) + rest)[|Escaped(c)|..] == rest;
    }
  }
}
