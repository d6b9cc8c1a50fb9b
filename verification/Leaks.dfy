/** Inputs on which the compiled grammar and RFC 8259 part, by example. */
module Leaks {
  import opened Prelude
  import opened Languages
  import opened Json
  import opened JsonLaws
  import opened Spellings
  import opened Composing
  import opened Lexing
  import opened Escapes
  import opened Levels
  import opened Flaws
  import opened Dialects
  import opened Values
  import Texts

  lemma NotValid(sc: Schema, w: string)
    requires Spoils(FRESH, w)
    ensures w !in Instances(sc, RFC)
  {
    ValidIs();
    hide RFC, Instances, Takes, Valid;
    ValidTakes(sc, true);
    NotSpoilt(Instances(sc, RFC), FRESH, VALUE, Out(false, false));
  }

  lemma NumberLeak()
    ensures "1.2.3" in Instances(Schema.Number, COMPILED) && "1.2.3" !in Instances(Schema.Number, RFC)
  {
    hide RFC, COMPILED, Instances, Spoils;
    WideLeaves();
    SpoilingTexts();
    LeafInstances(COMPILED);
    NotValid(Schema.Number, "1.2.3");
  }

  lemma StringLeak()
    ensures "\"\\u1\"" in Instances(Schema.String, COMPILED) && "\"\\u1\"" !in Instances(Schema.String, RFC)
  {
    hide RFC, COMPILED, Instances, Spoils;
    WideLeaves();
    SpoilingTexts();
    LeafInstances(COMPILED);
    NotValid(Schema.String, "\"\\u1\"");
  }

  lemma ArrayLeak()
    ensures "[null,,null]" in Instances(Schema.Array(Schema.Null), COMPILED)
    ensures "[null,,null]" !in Instances(Schema.Array(Schema.Null), RFC)
  {
    hide RFC, COMPILED, Instances, Spoils, Takes, ArrayOf;
    WordTakes("null");
    LeafInstances(COMPILED);
    var x := "null";
    WideArray(Schema.Null, x);
    NotValid(Schema.Array(Schema.Null), "[" + x + ",," + x + "]");
    NullsText(x);
  }

  lemma NullsText(x: string)
    requires x == "null"
    ensures "[" + x + ",," + x + "]" == "[null,,null]"
  {
  }

  // ---- objects ----

  /** An object with a single member. */
  lemma OneMember(properties: seq<(string, Schema)>, required: seq<string>, i: nat, k: string, v: string, d: Dialect)
    requires i < |properties| && Picks([i], |properties|, ChoiceOf(properties, required, d.byName))
    requires k in d.key(properties[i].0) && v in Instances(properties[i].1, d)
    ensures "{" + (k + ":" + v) + "}" in Instances(Schema.Object(properties, required), d)
  {
    hide Instances, Member, ObjectOf, Picks, Cat;
    var ms := MembersOf(properties, d);
    MemberIn(d.key(properties[i].0), k, Instances(properties[i].1, d), v);
    FirstMember(ms, i, []);
    assert [i] + [] == [i];
    assert Members(ms, [], false) == EPSILON;
    CatEpsilon(ms[i]);
    BracedIn(ms, ChoiceOf(properties, required, d.byName), [i], k + ":" + v);
    ObjectInstances(properties, required, d);
  }

  lemma Alone(properties: seq<(string, Schema)>, d: Dialect)
    requires |properties| == 1
    ensures Picks([0], 1, ChoiceOf(properties, [], d.byName))
  {
    assert RequiredSet(properties, []) == {};
  }

  const LINE_FEED: seq<(string, Schema)> := [("\n", Schema.Null)]

  /** A property named by a line feed is written with the line feed as it is. */
  lemma NameLeak()
    ensures var sc := Schema.Object([("\n", Schema.Null)], []);
            "{\"\n\":null}" in Instances(sc, COMPILED) && "{\"\n\":null}" !in Instances(sc, RFC)
  {
    hide RFC, COMPILED, Instances, Spoils, Takes;
    var k := "\"\n\"";
    LineFeedWritten();
    CompiledTexts();
    LeafInstances(COMPILED);
    Alone(LINE_FEED, COMPILED);
    OneMember(LINE_FEED, [], 0, k, "null", COMPILED);
    assert !PrintableChar("\n"[0], false);
    RawControlSpoils("\n", false);
    ValidBrackets();
    SpoilsAmid(FRESH, "{", FRESH, k, ":null}");
    NotValid(Schema.Object(LINE_FEED, []), "{" + k + ":null}");
    LineFeedText(k);
  }

  lemma LineFeedWritten()
    ensures Written("\n", false) == "\"\n\""
  {
    assert WrittenBody("\n", false) == [] + WrittenChar('\n', false);
    assert "\"" + "\n" + "\"" == "\"\n\"";
  }

  lemma LineFeedText(k: string)
    requires k == "\"\n\""
    ensures "{" + (k + ":" + "null") + "}" == "{\"\n\":null}" == "{" + k + ":null}"
  {
  }

  /** A float that is no number is written as the word it prints as. */
  lemma NotANumberLeak()
    ensures "NaN" in Instances(Schema.Enum([Float(NaN)]), COMPILED) && "NaN" !in Instances(Schema.Enum([Float(NaN)]), RFC)
  {
    hide RFC, COMPILED, Instances, Spoils;
    CompiledTexts();
    EnumInstances([Float(NaN)], COMPILED);
    assert LitText([Float(NaN)][0]) == "NaN";
    assert "NaN" in COMPILED.lit([Float(NaN)][0]);
    SpoilingTexts();
    NotValid(Schema.Enum([Float(NaN)]), "NaN");
  }

  lemma ASpelled()
    ensures Coded("a") == "\"\\u0061\"" && Written("a", false) == "\"a\"" == Written("a", true)
    ensures "\"a\"" in Quoted("a") && "\"a\"" in STRING && Coded("a") in Quoted("a")
  {
    hide STRING, Quoted;
    CodedQuoted("a");
    WrittenValid("a", false);
    assert PrintableChar("a"[0], false);
    assert "a"[..0] == [];
    assert WrittenBody("a", true) == [] + WrittenChar('a', true) && WrittenBody("a", false) == [] + WrittenChar('a', false);
    assert CodedBody("a") == [] + CodedChar('a');
    assert CodedChar('a') == UnitText(0x61) == ['\\', 'u', '0', '0', '6', '1'];
  }

  const ONE_A: seq<(string, Schema)> := [("a", Schema.Null)]

  /** A valid object whose name is spelled with an escape is refused. */
  lemma EscapedName()
    ensures var sc := Schema.Object([("a", Schema.Null)], []);
            "{\"\\u0061\":null}" in Instances(sc, RFC) && "{\"\\u0061\":null}" !in Instances(sc, COMPILED)
  {
    hide RFC, COMPILED, Instances, Spoils, Takes, Quoted, Coded, STRING, AWAY;
    var sc, k := Schema.Object(ONE_A, []), Coded("a");
    ASpelled();
    NameIs("a");
    LeafInstances(RFC);
    Alone(ONE_A, RFC);
    OneMember(ONE_A, [], 0, k, "null", RFC);
    var p := AWAY(None, "{");
    AwayBrackets(None, []);
    assert [] + "{" == "{";
    PlaceName("a", None, "{");
    SpoilsAmid(AWAY(None, []), "{", p, k + ":", "null}");
    CompiledTakes(sc, None);
    assert Away(None, [], false) in AWAY(None, []) by { AwayIn(); }
    assert Bad !in AWAY(None, []) by { AwayIn(); }
    NotSpoilt(Instances(sc, COMPILED), AWAY(None, []), AWAY(None, []), Away(None, [], false));
    EscapedText(k);
  }

  lemma AwayIn()
    ensures Away(None, [], false) in AWAY(None, []) && Bad !in AWAY(None, [])
  {
  }

  lemma EscapedText(k: string)
    requires k == "\"\\u0061\""
    ensures "{" + (k + ":" + "null") + "}" == "{\"\\u0061\":null}" == "{" + (k + ":") + "null}"
  {
  }

  // ---- a name listed twice ----

  const TWICE: seq<(string, Schema)> := [("a", Schema.Null), ("a", Schema.Boolean)]

  /** With a name listed twice the compiled object takes both entries. */
  lemma RepeatedLeak()
    ensures var sc := Schema.Object([("a", Schema.Null), ("a", Schema.Boolean)], []);
            "{\"a\":null,\"a\":true}" in Instances(sc, COMPILED) && "{\"a\":null,\"a\":true}" !in Instances(sc, RFC)
  {
    hide RFC, COMPILED, Instances, Spoils, Takes, Quoted, Coded, Written, STRING, LEVEL, LEVELS, ObjectOf, Member, Members;
    var sc, k, ms := Schema.Object(TWICE, []), "\"a\"", MembersOf(TWICE, COMPILED);
    ASpelled();
    CompiledTexts();
    LeafInstances(COMPILED);
    MemberIn(COMPILED.key("a"), k, Instances(Schema.Null, COMPILED), "null");
    MemberIn(COMPILED.key("a"), k, Instances(Schema.Boolean, COMPILED), "true");
    NoMore(ms);
    TwoMembers(ms, 0, 1, [], k + ":" + "null", k + ":" + "true", []);
    assert [0, 1] + [] == [0, 1];
    assert RequiredSet(TWICE, []) == {};
    BracedIn(ms, ChoiceOf(TWICE, [], false), [0, 1], k + ":" + "null" + ("," + (k + ":" + "true") + []));
    ObjectInstances(TWICE, [], COMPILED);
    forall seen ensures Takes(LEVEL(seen), iset{"null"}, LEVEL(seen)) { WordLevel(seen); }
    TwiceRead(k, "null", "true}");
    NoRepeats(sc, []);
    LevelKept(Instances(sc, RFC), "{" + (k + ":" + "null" + "," + k + ":" + "true}"));
    RepeatedText(k);
  }

  lemma NoMore(ms: seq<Lang>)
    ensures [] in Members(ms, [], false)
  {
  }

  lemma RepeatedText(k: string)
    requires k == "\"a\""
    ensures "{" + (k + ":" + "null" + ("," + (k + ":" + "true") + [])) + "}" == "{\"a\":null,\"a\":true}"
    ensures "{" + (k + ":" + "null" + "," + k + ":" + "true}") == "{\"a\":null,\"a\":true}"
  {
  }

  /** A required name is asked for with its first entry only. */
  lemma ShadowedEntry()
    ensures var sc := Schema.Object([("a", Schema.Null), ("a", Schema.Boolean)], ["a"]);
            && "{\"a\":true}" in Instances(sc, RFC) && "{\"a\":true}" in Instances(sc, CANON)
            && "{\"a\":true}" !in Instances(sc, COMPILED)
  {
    hide RFC, CANON, COMPILED, Instances, Quoted, Coded, Written, STRING;
    var sc, k := Schema.Object(TWICE, ["a"]), "\"a\"";
    ASpelled();
    CanonName("a");
    LeafInstances(CANON);
    SecondPicked(["a"]);
    OneMember(TWICE, ["a"], 1, k, "true", CANON);
    CanonValid(sc);
    ShadowedRefused(sc);
    TrueText(k);
  }

  lemma CanonName(name: string)
    ensures CANON.key(name) == iset{Written(name, false)} * Quoted(name) && CANON.byName
  {
  }

  lemma SecondPicked(required: seq<string>)
    requires required == ["a"]
    ensures Picks([1], 2, ChoiceOf(TWICE, required, true))
  {
    var names := NamesOf(TWICE);
    assert names == ["a", "a"];
    assert names[[1][0]] == "a";
    assert Bears([1], names, "a");
  }

  lemma TrueText(k: string)
    requires k == "\"a\""
    ensures "{" + (k + ":" + "true") + "}" == "{\"a\":true}"
  {
  }

  predicate Holds(w: string, c: char) {
    exists i :: 0 <= i < |w| && w[i] == c
  }

  lemma HoldsConcat(u: string, v: string, c: char)
    ensures Holds(u + v, c) <==> Holds(u, c) || Holds(v, c)
  {
    if i :| 0 <= i < |u + v| && (u + v)[i] == c {
      if i < |u| { assert u[i] == c; } else { assert v[i - |u|] == c; }
    }
    if i :| 0 <= i < |u| && u[i] == c { assert (u + v)[i] == c; }
    if i :| 0 <= i < |v| && v[i] == c { assert (u + v)[|u| + i] == c; }
  }

  /** A character in every text of a member is in every text of the members. */
  lemma {:induction false} MembersHold(members: seq<Lang>, js: seq<nat>, first: bool, w: string, p: nat, c: char)
    requires (forall i :: 0 <= i < |js| ==> js[i] < |members|) && w in Members(members, js, first)
    requires p in js && forall m :: m in members[p] ==> Holds(m, c)
    ensures Holds(w, c)
    decreases |js|
  {
    hide SEPARATOR, Cat, Holds;
    var u, v := CatSplit(if first then members[js[0]] else Cat(SEPARATOR, members[js[0]]), Members(members, js[1..], false), w);
    HoldsConcat(u, v, c);
    if js[0] == p {
      if !first {
        var a, b := CatSplit(SEPARATOR, members[p], u);
        HoldsConcat(a, b, c);
      }
    } else {
      MembersHold(members, js[1..], false, v, p, c);
    }
  }

  lemma NullHolds(key: Lang, m: string)
    requires m in Member(key, iset{"null"})
    ensures Holds(m, 'n')
  {
    hide COLON;
    var u, v := CatSplit(Cat(key, COLON), iset{"null"}, m);
    assert "null"[0] == 'n';
    HoldsConcat(u, v, 'n');
  }

  lemma ShadowedRefused(sc: Schema)
    requires sc == Schema.Object(TWICE, ["a"])
    ensures "{\"a\":true}" !in Instances(sc, COMPILED)
  {
    hide COMPILED, Instances, Member, Members, Cat, ObjectOf, WS;
    var ms, w := MembersOf(TWICE, COMPILED), "{\"a\":true}";
    CompiledTexts();
    LeafInstances(COMPILED);
    ObjectInstances(TWICE, ["a"], COMPILED);
    if w in Instances(sc, COMPILED) {
      var js := ObjectPicks(ms, ChoiceOf(TWICE, ["a"], false), w);
      assert ["a"][0] == TWICE[0].0;
      assert 0 == PositionOf(TWICE, ["a"][0]) && 0 in RequiredSet(TWICE, ["a"]);
      var u, r := CatSplit(Cat(Chr('{'), WS), Cat(Members(ms, js, true), Cat(WS, Chr('}'))), w);
      var b, c := CatSplit(Members(ms, js, true), Cat(WS, Chr('}')), r);
      forall m | m in ms[0] ensures Holds(m, 'n') { NullHolds(COMPILED.key("a"), m); }
      MembersHold(ms, js, true, b, 0, 'n');
      HoldsConcat(b, c, 'n');
      HoldsConcat(u, r, 'n');
      NoN();
      assert false;
    }
  }

  lemma NoN()
    ensures !Holds("{\"a\":true}", 'n')
  {
  }

  const SAME: seq<(string, Schema)> := [("a", Schema.Null), ("a", Schema.Null)]

  /** A second entry does no harm when the first one has its texts as well. */
  lemma ShadowHarmless()
    ensures var sc := Schema.Object([("a", Schema.Null), ("a", Schema.Null)], ["a"]);
            Reached(sc, {ShadowedName}, false) && Instances(sc, CANON) <= Instances(sc, COMPILED)
  {
    hide CANON, COMPILED, Instances, Member, Members, ObjectOf, Written, Quoted, Cat, WS;
    var sc, cs, ms := Schema.Object(SAME, ["a"]), MembersOf(SAME, CANON), MembersOf(SAME, COMPILED);
    SameShadows();
    CanonName("a");
    CompiledTexts();
    LeafInstances(CANON);
    LeafInstances(COMPILED);
    ObjectInstances(SAME, ["a"], CANON);
    ObjectInstances(SAME, ["a"], COMPILED);
    MemberMono(CANON.key("a"), Instances(Schema.Null, CANON), COMPILED.key("a"), Instances(Schema.Null, COMPILED));
    forall w | w in Instances(sc, CANON) ensures w in Instances(sc, COMPILED) {
      var js := ObjectPicks(cs, ChoiceOf(SAME, ["a"], true), w);
      SinglePick(js);
      FirstMember(cs, js[0], []);
      FirstMember(ms, 0, []);
      assert [0] + [] == [0] && [js[0]] + [] == js;
      CatMono(cs[js[0]], Members(cs, [], false), ms[0], Members(ms, [], false)) by { NoMembersAtAll(cs, ms); }
      FirstPicked();
      ObjectMoved(cs, js, ms, [0], ChoiceOf(SAME, ["a"], false), w);
    }
  }

  lemma NoMembersAtAll(cs: seq<Lang>, ms: seq<Lang>)
    ensures Members(cs, [], false) <= Members(ms, [], false)
  {
  }

  lemma SameShadows()
    ensures Reached(Schema.Object(SAME, ["a"]), {ShadowedName}, false)
  {
    assert ["a"][0] == SAME[0].0 == SAME[1].0;
    assert PositionOf(SAME, ["a"][0]) == 0;
    assert Inhabited(SAME[0].1, false) && Inhabited(SAME[1].1, false);
    assert Shadows(SAME, ["a"], false);
  }

  lemma SinglePick(js: seq<nat>)
    requires Picks(js, 2, ChoiceOf(SAME, ["a"], true))
    ensures |js| == 1 && js[0] < 2
  {
    var names := NamesOf(SAME);
    assert names == ["a", "a"];
    assert Bears(js, names, ["a"][0]);
    if |js| > 1 {
      Alike(js, names);
      assert false;
    }
  }

  lemma Alike(js: seq<nat>, names: seq<string>)
    requires |js| > 1 && names == ["a", "a"] && forall i :: 0 <= i < |js| ==> js[i] < 2
    ensures exists i, j :: 0 <= i < j < |js| && names[js[i]] == names[js[j]]
  {
    assert names[js[0]] == "a" == names[js[1]];
  }

  lemma FirstPicked()
    ensures Picks([0], 2, ChoiceOf(SAME, ["a"], false))
  {
    forall r | 0 <= r < 1 ensures PositionOf(SAME, ["a"][r]) == 0 { assert ["a"][r] == SAME[0].0; }
  }

  lemma ObjectMoved(cs: seq<Lang>, js: seq<nat>, ms: seq<Lang>, ks: seq<nat>, c: Choice, w: string)
    requires (forall i :: 0 <= i < |js| ==> js[i] < |cs|) && (forall i :: 0 <= i < |ks| ==> ks[i] < |ms|) && Picks(ks, |ms|, c)
    requires Members(cs, js, true) <= Members(ms, ks, true)
    requires w in Cat(Cat(Chr('{'), WS), Cat(Members(cs, js, true), Cat(WS, Chr('}'))))
    ensures w in ObjectOf(ms, c)
  {
    hide Cat, Members, WS;
    var open, close := Cat(Chr('{'), WS), Cat(WS, Chr('}'));
    CatMono(Members(cs, js, true), close, Members(ms, ks, true), close);
    CatMono(open, Cat(Members(cs, js, true), close), open, Cat(Members(ms, ks, true), close));
  }

  const EMPTY_FIRST: seq<(string, Schema)> := [("a", Schema.Enum([])), ("a", Schema.Null)]

  /** An entry without instances in front of a required name leaves nothing to accept. */
  lemma EmptyFirst()
    ensures var sc := Schema.Object([("a", Schema.Enum([])), ("a", Schema.Null)], ["a"]);
            Instances(sc, COMPILED) == iset{} && Populated(Instances(sc, RFC))
  {
    hide RFC, COMPILED, Instances, Inhabited;
    var sc := Schema.Object(EMPTY_FIRST, ["a"]);
    InhabitedIff(sc);
    FirstIsEmpty(sc);
  }

  lemma FirstIsEmpty(sc: Schema)
    requires sc == Schema.Object(EMPTY_FIRST, ["a"])
    ensures !Inhabited(sc, true) && Inhabited(sc, false)
  {
    assert ["a"][0] == EMPTY_FIRST[0].0 == EMPTY_FIRST[1].0;
    assert PositionOf(EMPTY_FIRST, ["a"][0]) == 0 && !Inhabited(EMPTY_FIRST[0].1, true);
    assert Inhabited(EMPTY_FIRST[1].1, false);
  }

  // ---- with a String at the place of a literal, what else stands there decides ----

  const A_LIT: Schema := Schema.Enum([Str("a")])
  const STRINGS: Schema := Schema.Array(Schema.String)

  lemma LitInstances(d: Dialect)
    ensures Instances(A_LIT, d) == d.lit(Str("a"))
  {
    hide Instances;
    EnumInstances([Str("a")], d);
    assert [Str("a")][0] == Str("a");
  }

  lemma EitherInstances(a: Schema, b: Schema, d: Dialect)
    ensures Instances(Schema.AnyOf([a, b]), d) == Instances(a, d) + Instances(b, d)
  {
    hide Instances;
    AnyOfInstances([a, b], d);
    assert [a, b][0] == a && [a, b][1] == b;
  }

  lemma StringLeaf()
    ensures RFC.text == STRING && RFC.separator == SEPARATOR
  {
  }

  /** Arrays of the literal are arrays of strings: no spelling is refused. */
  lemma ArrayStandsIn()
    ensures var sc := Schema.AnyOf([Schema.Array(A_LIT), STRINGS]);
            && Reached(sc, NARROWER, false) && CodedPlaces(sc) <= StringPlaces(sc)
            && Instances(sc, RFC) <= Instances(sc, COMPILED)
  {
    hide COMPILED, RFC, Instances, Quoted, STRING, ArrayOf;
    StandInPlaces();
    LitInstances(RFC);
    EitherInstances(Schema.Array(A_LIT), STRINGS, RFC);
    EitherInstances(Schema.Array(A_LIT), STRINGS, COMPILED);
    LeafInstances(RFC);
    LeafInstances(COMPILED);
    ValidLitIs(Str("a"));
    QuotedString("a");
    StringLeaf();
    LeavesWider();
    ArrayMono(Instances(A_LIT, RFC), SEPARATOR, COMPILED.text, COMPILED.separator);
    ArrayMono(STRING, SEPARATOR, COMPILED.text, COMPILED.separator);
  }

  lemma StandInPlaces()
    ensures var sc := Schema.AnyOf([Schema.Array(A_LIT), STRINGS]);
            Reached(sc, NARROWER, false) && CodedPlaces(sc) <= StringPlaces(sc)
  {
    var sc := Schema.AnyOf([Schema.Array(A_LIT), STRINGS]);
    assert LitFlaw(A_LIT.lits[0], NARROWER);
    assert !StringBeside(sc) by { assert !StringBeside(sc.schemas[0]) && !StringBeside(sc.schemas[1]); }
    assert Meets(A_LIT, NARROWER, false, false);
    assert Meets(sc.schemas[0], NARROWER, false, false);
    assert "[" + [] in StringPlaces(STRINGS);
    assert sc.schemas[1] == STRINGS;
  }

  const MIXED: Schema := Schema.Array(Schema.AnyOf([A_LIT, Schema.Null]))

  /** Arrays of the literal and null are not: a spelling is refused. */
  lemma ArrayStandsApart()
    ensures var sc := Schema.AnyOf([MIXED, STRINGS]);
            CodedPlaces(sc) <= StringPlaces(sc) && !(Instances(sc, RFC) <= Instances(sc, COMPILED))
  {
    hide COMPILED, RFC, Instances, Quoted, STRING, ArrayOf, Coded, Written;
    var w := "[" + "null," + Coded("a") + "]";
    ApartPlaces();
    MixedValid();
    MixedRefused();
    EitherInstances(MIXED, STRINGS, RFC);
    EitherInstances(MIXED, STRINGS, COMPILED);
    LeafInstances(COMPILED);
    forall m | m in COMPILED.text ensures m != [] && m[0] == '\"' { TextOpens(m); }
    NullFirst(COMPILED.text, w);
    assert w in Instances(Schema.AnyOf([MIXED, STRINGS]), RFC);
  }

  lemma ApartPlaces()
    ensures var sc := Schema.AnyOf([MIXED, STRINGS]); CodedPlaces(sc) <= StringPlaces(sc)
  {
    var sc, items := Schema.AnyOf([MIXED, STRINGS]), Schema.AnyOf([A_LIT, Schema.Null]);
    assert "[" + [] in StringPlaces(STRINGS);
    assert sc.schemas[1] == STRINGS && sc.schemas[0] == MIXED && MIXED.items == items;
    assert CodedPlaces(A_LIT) <= {[]} && CodedPlaces(Schema.Null) == {} == CodedPlaces(STRINGS);
    assert items.schemas[0] == A_LIT && items.schemas[1] == Schema.Null;
    forall at | at in CodedPlaces(items) ensures at == [] {
      var i :| 0 <= i < 2 && at in CodedPlaces(items.schemas[i]);
    }
    forall at | at in CodedPlaces(sc) ensures at in StringPlaces(sc) {
      var i :| 0 <= i < 2 && at in CodedPlaces(sc.schemas[i]);
      assert i == 0;
      var rest :| rest in CodedPlaces(items) && at == "[" + rest;
    }
  }

  lemma MixedValid()
    ensures "[" + "null," + Coded("a") + "]" in Instances(MIXED, RFC)
  {
    hide RFC, Instances, Quoted, Coded, Written, STRING, Cat, Star, SEPARATOR;
    var item := Instances(Schema.AnyOf([A_LIT, Schema.Null]), RFC);
    ASpelled();
    ValidLitIs(Str("a"));
    LitInstances(RFC);
    LeafInstances(RFC);
    StringLeaf();
    EitherInstances(A_LIT, Schema.Null, RFC);
    CommaAlone();
    CatIn(SEPARATOR, item, ",", Coded("a"));
    StarOne(Cat(SEPARATOR, item), "," + Coded("a"));
    CatIn(item, Star(Cat(SEPARATOR, item)), "null", "," + Coded("a"));
    BracketedIn(item, SEPARATOR, "null" + ("," + Coded("a")));
    assert "[" + ("null" + ("," + Coded("a"))) + "]" == "[" + "null," + Coded("a") + "]";
  }

  lemma MixedRefused()
    ensures "[" + "null," + Coded("a") + "]" !in Instances(MIXED, COMPILED)
  {
    hide COMPILED, Instances, Coded, Run, Takes;
    var at := Some("[");
    assert StringPlaces(MIXED) == {} by { assert StringPlaces(A_LIT) == {} == StringPlaces(Schema.Null); }
    CompiledTakes(MIXED, at);
    var st := Away(at, [], false);
    var c := "null," + Coded("a");
    RunConcat(st, "[" + c, "]");
    RunConcat(st, "[", c);
    CharRun(st, '[');
    assert [] + ['['] == "[";
    RunConcat(Away(at, "[", false), "null,", Coded("a"));
    assert Bare("null,");
    BareRun(Away(at, "[", false), "null,");
    var x := Run(Away(at, "[", false), "null,");
    CodedEnds("a", x.at, x.open, x.coded);
    BadStays("]");
    assert "[" + c + "]" == "[" + "null," + Coded("a") + "]";
    if "[" + c + "]" in Instances(MIXED, COMPILED) {
      TakesAt(AWAY(at, []), Instances(MIXED, COMPILED), AWAY(at, []), st, "[" + c + "]");
    }
  }

  lemma TakesAt(p: iset<State>, l: Lang, q: iset<State>, st: State, w: string)
    requires Takes(p, l, q) && st in p && w in l
    ensures Run(st, w) in q
  {
  }

  lemma TextOpens(m: string)
    requires m in COMPILED.text
    ensures m != [] && m[0] == '\"'
  {
    assert Texts.TextScan().Run(Texts.OPEN, m);
  }

  /** No array whose elements start with a quote starts with null. */
  lemma NullFirst(item: Lang, w: string)
    requires forall m :: m in item ==> m != [] && m[0] == '\"'
    requires |w| > 1 && w[1] == 'n'
    ensures w !in ArrayOf(item, COMPILED.separator)
  {
    hide Star, Cat, WS, COMPILED;
    if w in ArrayOf(item, COMPILED.separator) {
      var many := Cat(item, Star(Cat(COMPILED.separator, item)));
      var u, v := CatSplit(Cat(Chr('['), WS), Cat(Opt(many), Cat(WS, Chr(']'))), w);
      var a, b := CatSplit(Chr('['), WS, u);
      var x, y := CatSplit(Opt(many), Cat(WS, Chr(']')), v);
      var e, f := CatSplit(WS, Chr(']'), y);
      BlankFirst(b);
      BlankFirst(e);
      if x != [] { QuoteFirst(item, Star(Cat(COMPILED.separator, item)), x); }
      SecondChar(b, x, e, f, w);
      assert false;
    }
  }

  lemma QuoteFirst(item: Lang, more: Lang, x: string)
    requires (forall m :: m in item ==> m != [] && m[0] == '\"') && x in Opt(Cat(item, more)) && x != []
    ensures x[0] == '\"'
  {
    hide Cat;
    var g, h := CatSplit(item, more, x);
  }

  lemma SecondChar(b: string, x: string, e: string, f: string, w: string)
    requires w == ("[" + b) + (x + (e + f)) && f != []
    ensures w[1] == if b != [] then b[0] else if x != [] then x[0] else if e != [] then e[0] else f[0]
  {
    assert w == "[" + (b + (x + (e + f)));
  }

  lemma BlankFirst(b: string)
    requires b in WS
    ensures b != [] ==> IsWs(b[0])
  {
    if b != [] { var u, v := StarSplit(One(IsWs), b); }
  }
}
