/** The compiled grammar against RFC 8259: where it is sound and where it is complete. */
module Dialects {
  import opened Prelude
  import opened Languages
  import opened Json
  import opened JsonLaws
  import opened Spellings
  import opened Composing
  import opened Lexing
  import opened Escapes
  import opened Levels
  import opened Flaws
  import opened Values
  import NumberLaws
  import TextLaws
  import ArrayLaws
  import Arrays

  // ---- the readings and what they have in common ----

  lemma LeavesWider()
    ensures RFC.number <= COMPILED.number && RFC.text <= COMPILED.text && RFC.separator <= COMPILED.separator
  {
    forall w | w in NUMBER ensures w in COMPILED.number { NumberLaws.NumberWide(w); }
    forall w | w in STRING ensures w in COMPILED.text { TextLaws.TextWide(w); }
    ArrayLaws.SeparatorWide();
  }

  /** The compiled dialect in full, without any automaton: numbers with any row of fractions and exponents, strings whose `\u`
      takes one digit, items with blanks and commas between them, names and literals as the compiler writes them, and members
      told apart by place. */
  lemma CompiledDialect()
    ensures COMPILED.number == NumberLaws.WIDE && COMPILED.text == TextLaws.WIDE
    ensures COMPILED.separator == Star(One((c: char) => IsWs(c) || c == ','))
    ensures forall name, w :: w in COMPILED.key(name) <==> QuotedBack(w, name, false)
    ensures forall l, w :: w in COMPILED.lit(l) <==> StandsFor(w, l)
    ensures !COMPILED.byName
  {
    forall w ensures w in COMPILED.number <==> w in NumberLaws.WIDE { NumberLaws.NumberForm(w); }
    forall w ensures w in COMPILED.text <==> w in TextLaws.WIDE { TextLaws.TextForm(w); }
    var p := (c: char) => IsWs(c) || c == ',';
    assert One(p) == One(Arrays.WsOrComma);
    hide Written, LitText, QuotedBack, StandsFor, COMPILED;
    CompiledTexts();
    forall name, w ensures w in COMPILED.key(name) <==> QuotedBack(w, name, false) { WrittenBack(w, name, false); }
    forall l, w ensures w in COMPILED.lit(l) <==> StandsFor(w, l) { LitRead(l); }
  }

  /** The canonical reading is within the valid one. */
  lemma CanonValid(sc: Schema)
    ensures Instances(sc, CANON) <= Instances(sc, RFC)
  {
    assert Narrower(CANON, RFC) by { hide NUMBER, STRING, SEPARATOR, Written, Quoted, LitText, LitTexts; }
    hide RFC, CANON, Instances;
    InstancesMono(sc, CANON, RFC);
  }

  lemma LeavesPopulated()
    ensures Populated(RFC.number) && Populated(RFC.text) && Populated(COMPILED.number) && Populated(COMPILED.text)
  {
    hide NUMBER, STRING, COMPILED;
    LeavesWider();
    ZeroNumber();
    EmptyString();
    assert "0" in COMPILED.number && "\"\"" in COMPILED.text;
  }

  lemma BothSpeak()
    ensures Speaks(COMPILED, true) && Speaks(RFC, false)
  {
    hide COMPILED, NUMBER, STRING, SEPARATOR, Quoted, Written, LitTexts, LitText;
    LeavesPopulated();
    CompiledTexts();
    forall name ensures Populated(COMPILED.key(name)) && Populated(RFC.key(name)) {
      CodedQuoted(name);
      assert Written(name, false) in COMPILED.key(name);
    }
    forall l ensures Populated(COMPILED.lit(l)) && (Populated(RFC.lit(l)) <==> Proper(l)) {
      assert LitText(l) in COMPILED.lit(l);
      ValidLitIff(l);
    }
  }

  lemma ValidLitIff(l: JsonLit)
    ensures Populated(LitTexts(l)) <==> Proper(l)
  {
    LitRead(l);
    if l.Str? {
      CodedQuoted(l.s);
      assert Coded(l.s) in LitTexts(l);
    } else if Proper(l) {
      hide LitTexts;
      assert LitText(l) in LitTexts(l);
    }
  }

  /** A schema has a valid instance exactly when it is inhabited by proper literals and any entry of each required name, and an
      accepted text exactly when it is inhabited by any literals and the first entry of each required name. */
  lemma InhabitedIff(sc: Schema)
    ensures Populated(Instances(sc, RFC)) <==> Inhabited(sc, false)
    ensures Populated(Instances(sc, COMPILED)) <==> Inhabited(sc, true)
  {
    hide RFC, COMPILED, Instances, Inhabited, Speaks;
    BothSpeak();
    InhabitedHas(sc, RFC, false);
    InhabitedHas(sc, COMPILED, true);
  }

  lemma AllSilent()
    ensures Silent(COMPILED, true) && Silent(RFC, false) && Silent(CANON, false)
  {
    hide COMPILED, RFC, CANON, Instances, Inhabited;
    forall sc
      ensures !Inhabited(sc, true) ==> Instances(sc, COMPILED) == iset{}
      ensures !Inhabited(sc, false) ==> Instances(sc, RFC) == iset{} && Instances(sc, CANON) == iset{}
    {
      InhabitedIff(sc);
      CanonValid(sc);
    }
  }

  lemma CanonCovered()
    ensures Covers(CANON, COMPILED, {ShadowedName})
  {
    hide NUMBER, STRING, SEPARATOR, COMPILED, Written, Quoted, LitText;
    LeavesWider();
    CompiledTexts();
  }

  /** Every valid instance text in the compiler's own spelling of names and literals is accepted, for every schema in which no
      instance takes a required name from an entry behind the first one of that name. */
  lemma ValidIsCompiled(sc: Schema)
    ensures Instances(sc, CANON) <= Instances(sc, RFC)
    ensures !Reached(sc, {ShadowedName}, false) ==>
              Instances(sc, CANON) <= Instances(sc, COMPILED) && Padded(sc, CANON) <= Padded(sc, COMPILED)
  {
    CanonValid(sc);
    CanonCovered();
    hide RFC, CANON, COMPILED, Instances, Cat, WS, Silent, Covers, Meets;
    AllSilent();
    if !Reached(sc, {ShadowedName}, false) {
      Unmet(sc, CANON, COMPILED, {ShadowedName}, false, false);
      CatMono(Instances(sc, CANON), WS, Instances(sc, COMPILED), WS);
    }
  }

  // ---- soundness: whatever is accepted is valid ----

  /** The canonical spelling with members told apart by place. */
  ghost const PLACED: Dialect := CANON.(byName := false)

  lemma CompiledCovered()
    ensures Covers(COMPILED, CANON, WIDER) && Covers(COMPILED, PLACED, LEXICAL)
  {
    hide NUMBER, STRING, SEPARATOR, Written, Quoted, LitText, LitTexts;
    CompiledTexts();
    forall name | !NameFlaw(name, LEXICAL) ensures COMPILED.key(name) <= CANON.key(name) { WrittenValid(name, false); }
    forall l | !LitFlaw(l, LEXICAL) ensures COMPILED.lit(l) <= CANON.lit(l) { LitValid(l); }
    forall name ensures NameFlaw(name, WIDER) == NameFlaw(name, LEXICAL) {}
    forall l ensures LitFlaw(l, WIDER) == LitFlaw(l, LEXICAL) {}
  }

  /** A literal without a flaw is written validly. */
  lemma LitValid(l: JsonLit)
    requires !LitFlaw(l, LEXICAL)
    ensures LitText(l) in LitTexts(l)
  {
    LitRead(l);
    hide Quoted;
    if l.Str? { WrittenValid(l.s, true); }
  }

  /** Dots, escapes, raw control characters and infinities break the first lexer. */
  lemma SpoilingTexts()
    ensures Spoils(FRESH, "1.2.3") && Spoils(FRESH, "\"\\u1\"")
    ensures Spoils(FRESH, "NaN") && Spoils(FRESH, "inf") && Spoils(FRESH, "-inf")
  {
    forall st | st in FRESH
      ensures Run(st, "1.2.3") == Bad == Run(st, "\"\\u1\"") && Run(st, "NaN") == Bad == Run(st, "inf") && Run(st, "-inf") == Bad
    {
      SpoilingRuns(st.comma);
      assert st == Out(st.comma, false);
    }
  }

  lemma SpoilingRuns(c: bool)
    ensures Run(Out(c, false), "1.2.3") == Bad == Run(Out(c, false), "\"\\u1\"")
    ensures Run(Out(c, false), "NaN") == Bad == Run(Out(c, false), "inf") && Run(Out(c, false), "-inf") == Bad
  {
    SecondDot(c);
    ShortEscape(c);
    BadStays("aN");
    BadStays("nf");
    assert "NaN"[1..] == "aN" && "inf"[1..] == "nf" && "-inf"[1..] == "inf";
  }

  lemma SecondDot(c: bool)
    ensures Run(Out(c, false), "1.2.3") == Bad
  {
    hide Run;
    BadStays("3");
    TwoChars(Out(c, false), '1', '.');
    TwoChars(Out(false, true), '2', '.');
    RunConcat(Out(c, false), "1.", "2.3");
    RunConcat(Out(false, true), "2.", "3");
    assert "1." == ['1', '.'] && "2." == ['2', '.'] && "1." + "2.3" == "1.2.3" && "2." + "3" == "2.3";
  }

  lemma ShortEscape(c: bool)
    ensures Run(Out(c, false), "\"\\u1\"") == Bad
  {
    hide Run;
    TwoChars(Out(c, false), '\"', '\\');
    TwoChars(Esc, 'u', '1');
    RunConcat(Out(c, false), ['\"', '\\'], ['u', '1'] + "\"");
    RunConcat(Esc, ['u', '1'], "\"");
    CharRun(Uni(3), '\"');
    assert ['\"', '\\'] + (['u', '1'] + "\"") == "\"\\u1\"";
  }

  /** A raw control character breaks the first lexer. */
  lemma RawControlSpoils(s: string, lit: bool)
    requires !Printable(s, lit)
    ensures Spoils(FRESH, Written(s, lit))
  {
    hide Run, WrittenBody;
    forall st | st in FRESH ensures Run(st, Written(s, lit)) == Bad {
      WrittenRun(s, lit);
      QuoteRun(st, WrittenBody(s, lit));
    }
  }

  lemma CompiledLitSpoilt(l: JsonLit)
    requires LitFlaw(l, LEXICAL)
    ensures Spoils(FRESH, LitText(l))
  {
    hide Spoils, Written;
    SpoilingTexts();
    if l.Str? { RawControlSpoils(l.s, true); }
  }

  lemma CompiledNameTold(name: string)
    ensures NameTold(COMPILED, FRESH, LEXICAL, name)
  {
    var k := Written(name, false);
    hide Spoils, Run, Printable, Takes, Quoted, Written;
    CompiledTexts();
    if Printable(name, false) {
      NameTakes(name, k);
    } else {
      RawControlSpoils(name, false);
      SpoilsFirst(FRESH, k, ":");
    }
    assert NameTells(COMPILED, FRESH, LEXICAL, name, k);
  }

  /** A valid name and its colon make room for a value. */
  lemma NameTakes(name: string, k: string)
    requires Printable(name, false) && k == Written(name, false)
    ensures Takes(FRESH, iset{k + ":"}, FRESH)
  {
    hide STRING, Quoted, Written, Printable;
    WrittenValid(name, false);
    StringTakes();
    TakesChr(VALUE, ':', FRESH);
    forall st | st in FRESH ensures Run(st, k + ":") in FRESH {
      RunConcat(st, k, ":");
      assert Run(st, k) in VALUE;
    }
  }

  lemma CompiledTells()
    ensures Tells(COMPILED, FRESH, LEXICAL, true)
  {
    hide Speaks, Takes, Spoils, COMPILED, LitFlaw, NameFlaw, NameTold, LitText;
    BothSpeak();
    CompiledTexts();
    ValidBrackets();
    SpoilingTexts();
    WideLeaves();
    forall l | LitFlaw(l, LEXICAL) ensures Spoilt(COMPILED.lit(l), FRESH) {
      CompiledLitSpoilt(l);
      assert LitText(l) in COMPILED.lit(l);
    }
    forall name ensures NameTold(COMPILED, FRESH, LEXICAL, name) { CompiledNameTold(name); }
  }

  lemma WideLeaves()
    ensures "1.2.3" in COMPILED.number && "\"\\u1\"" in COMPILED.text
  {
    NumberLaws.SharedDigitLeaks();
    TextLaws.SharedHexLeaks();
  }

  lemma CompiledArrays()
    ensures Composites(COMPILED, FRESH, LEXICAL, {}, true)
  {
    hide COMPILED, RFC, CANON, PLACED, Instances, Takes, Spoils, Covers, Silent, Meets, FRESH, VALUE, Inhabited;
    AllSilent();
    CompiledCovered();
    assert LEXICAL + {} == LEXICAL;
    forall items | Inhabited(items, true) && !Reached(items, LEXICAL, true)
      ensures Spoilt(Instances(Schema.Array(items), COMPILED), FRESH)
    {
      InhabitedIff(items);
      var x :| x in Instances(items, COMPILED);
      Unmet(items, COMPILED, PLACED, LEXICAL, true, false);
      PlacedTakes(items);
      TakesWithin(FRESH, Instances(items, PLACED), iset{x}, VALUE);
      WideArray(items, x);
    }
  }

  lemma PlacedTakes(sc: Schema)
    ensures Takes(FRESH, Instances(sc, PLACED), VALUE)
  {
    assert Narrower(PLACED, Valid(false)) by { hide NUMBER, STRING, SEPARATOR, Written, Quoted, LitText, LitTexts; }
    hide PLACED, Instances, Valid, Takes;
    InstancesMono(sc, PLACED, Valid(false));
    ValidTakes(sc, false);
    TakesWithin(FRESH, Instances(sc, Valid(false)), Instances(sc, PLACED), VALUE);
  }

  lemma ValidIs()
    ensures Valid(true) == RFC
  {
  }

  /** A flaw of spelling yields an accepted text that breaks the first lexer. */
  lemma LexicalText(sc: Schema) returns (w: string)
    requires Reached(sc, LEXICAL, true)
    ensures w in Instances(sc, COMPILED) && w in Padded(sc, COMPILED)
    ensures w !in Instances(sc, RFC) && w !in Padded(sc, RFC)
  {
    ValidIs();
    hide COMPILED, RFC, Instances, Takes, Spoils, Tells, Composites, Meets, WS, Valid;
    CompiledTells();
    CompiledArrays();
    MeetsNone(sc, true, false);
    Breaks(sc, COMPILED, FRESH, LEXICAL, {}, true, false);
    w :| w in Instances(sc, COMPILED) && Spoils(FRESH, w);
    PaddedAlone(sc, COMPILED, w);
    ValidTakes(sc, true);
    PaddedTakes(sc, RFC, FRESH, VALUE);
    NotSpoilt(Instances(sc, RFC), FRESH, VALUE, Out(false, false));
    NotSpoilt(Padded(sc, RFC), FRESH, VALUE, Out(false, false));
  }

  lemma PaddedAlone(sc: Schema, d: Dialect, w: string)
    requires w in Instances(sc, d)
    ensures w in Padded(sc, d)
  {
    hide Instances, WS;
    CommaAlone();
    CatIn(Instances(sc, d), WS, w, []);
    assert w + [] == w;
  }

  lemma PaddedTakes(sc: Schema, d: Dialect, p: iset<State>, q: iset<State>)
    requires Takes(p, Instances(sc, d), q)
    requires forall st, c :: st in q && IsWs(c) ==> Step(st, c) in q
    ensures Takes(p, Padded(sc, d), q)
  {
    hide Instances, Takes;
    BlanksTake(q);
    TakesCat(p, Instances(sc, d), q, WS, q);
  }

  // ---- soundness: one name on two members ----

  /** Anywhere outside a string for the third lexer. */
  ghost const LEVELS: iset<State> := iset st: State | st.Level? || st.Bad?

  lemma LevelName(name: string)
    ensures NameTold(COMPILED, LEVELS, {RepeatedName}, name)
  {
    hide Run, Written, LEVELS;
    CompiledTexts();
    NameKeepsLevels(name);
    assert NameTells(COMPILED, LEVELS, {RepeatedName}, name, Written(name, false));
  }

  lemma NameKeepsLevels(name: string)
    ensures Takes(LEVELS, iset{Written(name, false) + ":"}, LEVELS)
  {
    hide Run, WrittenBody;
    var k := Written(name, false);
    forall st | st in LEVELS ensures Run(st, k + ":") in LEVELS {
      RunConcat(st, k, ":");
      QuoteRun(st, WrittenBody(name, false));
      WrittenRun(name, false);
      BadStays(WrittenBody(name, false));
      CharRun(Run(st, k), ':');
    }
  }

  lemma LevelTells()
    ensures Tells(COMPILED, LEVELS, {RepeatedName}, true)
  {
    LevelBrackets();
    hide COMPILED, Speaks, Takes, NameTold, LEVELS;
    BothSpeak();
    forall name ensures NameTold(COMPILED, LEVELS, {RepeatedName}, name) { LevelName(name); }
  }

  lemma LevelBrackets()
    ensures Takes(LEVELS, Chr('['), LEVELS) && Takes(LEVELS, Chr('{'), LEVELS)
  {
    hide Takes;
    TakesChr(LEVELS, '[', LEVELS);
    TakesChr(LEVELS, '{', LEVELS);
  }

  /** Reading a name, a value that keeps the level, and the name again breaks the third lexer. */
  lemma TwiceRead(k: string, v: string, rest: string)
    requires k in STRING && forall seen :: Takes(LEVEL(seen), iset{v}, LEVEL(seen))
    ensures Spoils(LEVELS, "{" + (k + ":" + v + "," + k + ":" + rest))
  {
    hide STRING, Run;
    var u, x := k + ":" + v + ",", k + ":" + rest;
    forall st | st in LEVELS ensures Run(st, "{" + (k + ":" + v + "," + k + ":" + rest)) == Bad {
      BadStays("{" + (k + ":" + v + "," + k + ":" + rest));
      if st.Level? {
        var inner := st.seen + [{k}];
        RunConcat(st, "{", u + x);
        assert "{" + (u + x) == "{" + (k + ":" + v + "," + k + ":" + rest);
        CharRun(st, '{');
        FirstName(st.seen, st.last, k);
        RunConcat(Level(st.seen + [{}], st.last), k + ":", v + "," + x);
        assert (k + ":") + (v + "," + x) == u + x;
        RunConcat(Level(inner, k), v, "," + x);
        assert v + ("," + x) == v + "," + x;
        assert Run(Level(inner, k), v) in LEVEL(inner);
        SecondName(inner, Run(Level(inner, k), v).last, k, rest);
      }
    }
  }

  lemma FirstName(outer: seq<set<string>>, last: string, k: string)
    requires k in STRING
    ensures Run(Level(outer + [{}], last), k + ":") == Level(outer + [{k}], k)
  {
    hide STRING, Run;
    StringRead(k, outer + [{}], last);
    RunConcat(Level(outer + [{}], last), k, ":");
    CharRun(Level(outer + [{}], k), ':');
    assert {} + {k} == {k};
  }

  lemma SecondName(seen: seq<set<string>>, last: string, k: string, rest: string)
    requires k in STRING && seen != [] && k in seen[|seen| - 1]
    ensures Run(Level(seen, last), "," + (k + ":" + rest)) == Bad
  {
    hide STRING, Run;
    RunConcat(Level(seen, last), ",", k + ":" + rest);
    CharRun(Level(seen, last), ',');
    StringRead(k, seen, last);
    RunConcat(Level(seen, last), k, ":" + rest);
    assert k + (":" + rest) == k + ":" + rest;
    RunConcat(Level(seen, k), ":", rest);
    CharRun(Level(seen, k), ':');
    BadStays(rest);
  }

  /** A text of an object with one name on its first two members. */
  lemma TwiceIn(properties: seq<(string, Schema)>, required: seq<string>, i: nat, j: nat, k: string, v: string, x: string)
    returns (rest: string)
    requires Inhabited(Schema.Object(properties, required), true) && i < j < |properties|
    requires k in COMPILED.key(properties[i].0) && properties[i].0 == properties[j].0
    requires v in Instances(properties[i].1, COMPILED) && x in Instances(properties[j].1, COMPILED)
    ensures "{" + (k + ":" + v + "," + k + ":" + rest) in Instances(Schema.Object(properties, required), COMPILED)
  {
    hide COMPILED, Instances, ObjectOf, Members, Member, Inhabited, Speaks, SEPARATOR, Cat, Picks;
    BothSpeak();
    CompiledTexts();
    var ms := MembersOf(properties, COMPILED);
    var js, more := OtherMembers(properties, required, COMPILED, true, [i, j]);
    MemberIn(COMPILED.key(properties[i].0), k, Instances(properties[i].1, COMPILED), v);
    MemberIn(COMPILED.key(properties[j].0), k, Instances(properties[j].1, COMPILED), x);
    var m, n := k + ":" + v, k + ":" + x;
    TwoMembers(ms, i, j, js, m, n, more);
    BracedIn(ms, ChoiceOf(properties, required, false), [i, j] + js, m + ("," + n + more));
    ObjectInstances(properties, required, COMPILED);
    rest := x + more + "}";
    Rebraced(m, k, x, more);
  }

  lemma TwoMembers(ms: seq<Lang>, i: nat, j: nat, js: seq<nat>, m: string, n: string, more: string)
    requires i < |ms| && j < |ms| && forall h :: 0 <= h < |js| ==> js[h] < |ms|
    requires m in ms[i] && n in ms[j] && more in Members(ms, js, false)
    ensures m + ("," + n + more) in Members(ms, [i, j] + js, true)
  {
    hide Members, SEPARATOR, Cat;
    CommaAlone();
    CatIn(SEPARATOR, ms[j], ",", n);
    CatIn(Cat(SEPARATOR, ms[j]), Members(ms, js, false), "," + n, more);
    CatIn(ms[i], Cat(Cat(SEPARATOR, ms[j]), Members(ms, js, false)), m, "," + n + more);
    FirstTwo(ms, i, j, js);
  }

  lemma Rebraced(m: string, k: string, x: string, more: string)
    ensures "{" + (m + ("," + (k + ":" + x) + more)) + "}" == "{" + (m + "," + k + ":" + (x + more + "}"))
  {
    var a, b := m + ("," + (k + ":" + x) + more) + "}", m + "," + k + ":" + (x + more + "}");
    assert a == b;
    assert "{" + (m + ("," + (k + ":" + x) + more)) + "}" == "{" + a;
  }

  lemma FirstTwo(ms: seq<Lang>, i: nat, j: nat, js: seq<nat>)
    requires i < |ms| && j < |ms| && forall n :: 0 <= n < |js| ==> js[n] < |ms|
    ensures Members(ms, [i, j] + js, true) == Cat(ms[i], Cat(Cat(SEPARATOR, ms[j]), Members(ms, js, false)))
  {
    hide Cat, SEPARATOR;
    assert ([i, j] + js)[1..] == [j] + js && ([j] + js)[1..] == js;
  }

  lemma DoubledSpoilt(properties: seq<(string, Schema)>, required: seq<string>)
    requires Doubled(properties, required, WIDER, true)
    ensures Spoilt(Instances(Schema.Object(properties, required), COMPILED), LEVELS)
  {
    hide COMPILED, RFC, CANON, Instances, Takes, Spoils, Covers, Silent, Meets, Inhabited, LEVELS, STRING, Quoted, Written;
    var i, j :| 0 <= i < j < |properties| && properties[i].0 == properties[j].0 &&
                Inhabited(properties[i].1, true) && Inhabited(properties[j].1, true);
    var (name, value) := properties[i];
    var k := Written(name, false);
    WrittenValid(name, false);
    CompiledTexts();
    InhabitedIff(value);
    InhabitedIff(properties[j].1);
    var v :| v in Instances(value, COMPILED);
    var x :| x in Instances(properties[j].1, COMPILED);
    AllSilent();
    CompiledCovered();
    Unmet(value, COMPILED, CANON, WIDER, true, false);
    CanonValid(value);
    forall seen ensures Takes(LEVEL(seen), iset{v}, LEVEL(seen)) {
      NoRepeats(value, seen);
      TakesWithin(LEVEL(seen), Instances(value, RFC), iset{v}, LEVEL(seen));
    }
    var rest := TwiceIn(properties, required, i, j, k, v, x);
    TwiceRead(k, v, rest);
  }

  /** One name on two members yields an accepted text that breaks the third lexer. */
  lemma RepeatedText(sc: Schema) returns (w: string)
    requires Reached(sc, {RepeatedName}, true) && !Reached(sc, LEXICAL, true)
    ensures w in Instances(sc, COMPILED) && w in Padded(sc, COMPILED)
    ensures w !in Instances(sc, RFC) && w !in Padded(sc, RFC)
  {
    hide COMPILED, RFC, Instances, Takes, Spoils, Tells, Meets, WS, LEVELS, LEVEL, Doubled;
    LevelTells();
    assert {RepeatedName} + LEXICAL == WIDER;
    forall properties, required | Doubled(properties, required, WIDER, true)
      ensures Spoilt(Instances(Schema.Object(properties, required), COMPILED), LEVELS)
    {
      DoubledSpoilt(properties, required);
    }
    Breaks(sc, COMPILED, LEVELS, {RepeatedName}, LEXICAL, true, false);
    w :| w in Instances(sc, COMPILED) && Spoils(LEVELS, w);
    PaddedAlone(sc, COMPILED, w);
    NoRepeats(sc, []);
    LevelPadded(sc);
    LevelKept(Instances(sc, RFC), w);
    LevelKept(Padded(sc, RFC), w);
  }

  lemma LevelPadded(sc: Schema)
    requires Takes(LEVEL([]), Instances(sc, RFC), LEVEL([]))
    ensures Takes(LEVEL([]), Padded(sc, RFC), LEVEL([]))
  {
    hide Instances, Takes;
    PaddedTakes(sc, RFC, LEVEL([]), LEVEL([]));
  }

  lemma LevelKept(l: Lang, w: string)
    requires Takes(LEVEL([]), l, LEVEL([])) && Spoils(LEVELS, w)
    ensures w !in l
  {
    assert Level([], []) in LEVEL([]) && Level([], []) in LEVELS;
  }

  /** A reachable flaw yields an accepted text that no valid instance can be, alone or padded. */
  lemma WideText(sc: Schema) returns (w: string)
    requires Reached(sc, WIDER, true)
    ensures w in Instances(sc, COMPILED) && w in Padded(sc, COMPILED)
    ensures w !in Instances(sc, RFC) && w !in Padded(sc, RFC)
  {
    hide COMPILED, RFC, Instances, Meets, WS, Cat;
    if Reached(sc, LEXICAL, true) {
      w := LexicalText(sc);
    } else {
      MeetsUnion(sc, LEXICAL, {RepeatedName}, true, false);
      assert LEXICAL + {RepeatedName} == WIDER;
      w := RepeatedText(sc);
    }
  }

  /** Whatever the compiled grammar accepts is a valid instance if and only if no instance passes through a number, a string,
      an array with elements, a name or literal string with a raw control character, a float that is no number, or an object
      with one name on two members. Then everything accepted is in the canonical spelling, and nothing canonical is missing
      unless a required name has entries behind its first one. */
  lemma ExactIff(sc: Schema)
    ensures Instances(sc, COMPILED) <= Instances(sc, RFC) <==> !Reached(sc, WIDER, true)
    ensures Padded(sc, COMPILED) <= Padded(sc, RFC) <==> !Reached(sc, WIDER, true)
    ensures Instances(sc, COMPILED) <= Instances(sc, CANON) <==> !Reached(sc, WIDER, true)
    ensures Padded(sc, COMPILED) <= Padded(sc, CANON) <==> !Reached(sc, WIDER, true)
    ensures !Reached(sc, {ShadowedName}, false) ==>
              && (Instances(sc, COMPILED) == Instances(sc, CANON) <==> !Reached(sc, WIDER, true))
              && (Padded(sc, COMPILED) == Padded(sc, CANON) <==> !Reached(sc, WIDER, true))
  {
    hide COMPILED, RFC, CANON, Instances, Covers, WS, Cat, Meets, Silent;
    ValidIsCompiled(sc);
    CatMono(Instances(sc, CANON), WS, Instances(sc, RFC), WS);
    if Reached(sc, WIDER, true) {
      var w := WideText(sc);
    } else {
      AllSilent();
      CompiledCovered();
      Unmet(sc, COMPILED, CANON, WIDER, true, false);
      CatMono(Instances(sc, COMPILED), WS, Instances(sc, CANON), WS);
    }
  }

  /** For schemas whose objects list distinct names both grammars have the canonical texts in common. */
  lemma DistinctExact(sc: Schema)
    requires DistinctNames(sc)
    ensures Instances(sc, CANON) <= Instances(sc, COMPILED)
    ensures Instances(sc, COMPILED) == Instances(sc, CANON) <==> !Reached(sc, LEXICAL, true)
    ensures Instances(sc, COMPILED) <= Instances(sc, RFC) <==> !Reached(sc, LEXICAL, true)
  {
    hide COMPILED, RFC, CANON, Instances, Meets;
    DistinctMeets(sc, true, false);
    DistinctMeets(sc, false, false);
    MeetsUnion(sc, {RepeatedName}, {ShadowedName}, true, false);
    MeetsUnion(sc, {RepeatedName}, {ShadowedName}, false, false);
    assert {RepeatedName} + {ShadowedName} == {RepeatedName, ShadowedName};
    MeetsUnion(sc, LEXICAL, {RepeatedName}, true, false);
    assert LEXICAL + {RepeatedName} == WIDER;
    ExactIff(sc);
    ValidIsCompiled(sc);
  }

  /** The schema mentions no number, string or array. */
  predicate NoWideLeaf(sc: Schema)
    decreases sc
  {
    match sc
    case Number => false
    case String => false
    case Array(_) => false
    case AnyOf(schemas) => forall i :: 0 <= i < |schemas| ==> NoWideLeaf(schemas[i])
    case Object(properties, _) => forall i :: 0 <= i < |properties| ==> NoWideLeaf(properties[i].1)
    case _ => true
  }

  /** What is left of the flaws without them. */
  const WRITTEN: set<Flaw> := {RawControl, NotANumber, RepeatedName}

  lemma {:induction false} OnlyLeaves(sc: Schema, beside: bool)
    requires NoWideLeaf(sc)
    ensures Meets(sc, WIDER, true, beside) == Meets(sc, WRITTEN, true, beside)
    decreases sc
  {
    match sc
    case Enum(lits) =>
      forall i | 0 <= i < |lits|
        ensures LitFlaw(lits[i], if beside then WIDER - {CodedLit} else WIDER)
             == LitFlaw(lits[i], if beside then WRITTEN - {CodedLit} else WRITTEN)
      {
      }
    case AnyOf(schemas) =>
      hide StringBeside;
      forall i | 0 <= i < |schemas|
        ensures Meets(schemas[i], WIDER, true, beside || StringBeside(sc)) == Meets(schemas[i], WRITTEN, true, beside || StringBeside(sc))
      {
        OnlyLeaves(schemas[i], beside || StringBeside(sc));
      }
    case Object(properties, _) =>
      hide Inhabited, Repeats, Shadows;
      forall i | 0 <= i < |properties|
        ensures NameFlaw(properties[i].0, WIDER) == NameFlaw(properties[i].0, WRITTEN)
        ensures Meets(properties[i].1, WIDER, true, false) == Meets(properties[i].1, WRITTEN, true, false)
      {
        OnlyLeaves(properties[i].1, false);
      }
    case _ =>
  }

  /** For a schema built from null, boolean, integer, enum, any-of and object, listing distinct names, acceptance is an
      equivalence exactly when every name and literal in reach is written validly. */
  lemma ExactWithoutWideLeaf(sc: Schema)
    requires NoWideLeaf(sc)
    ensures Padded(sc, COMPILED) <= Padded(sc, CANON) <==> !Reached(sc, WRITTEN, true)
    ensures DistinctNames(sc) ==> (Padded(sc, COMPILED) == Padded(sc, CANON) <==> !Reached(sc, {RawControl, NotANumber}, true))
  {
    hide COMPILED, CANON, Padded, Meets, NoWideLeaf, DistinctNames;
    ExactIff(sc);
    OnlyLeaves(sc, false);
    if DistinctNames(sc) {
      DistinctMeets(sc, true, false);
      DistinctMeets(sc, false, false);
      assert {RepeatedName} + {ShadowedName} == {RepeatedName, ShadowedName};
      MeetsUnion(sc, {RepeatedName}, {ShadowedName}, true, false);
      MeetsUnion(sc, {RepeatedName}, {ShadowedName}, false, false);
      assert {RawControl, NotANumber} + {RepeatedName} == WRITTEN;
      MeetsUnion(sc, {RawControl, NotANumber}, {RepeatedName}, true, false);
    }
  }

  // ---- completeness: every valid spelling is accepted ----

  lemma ValidCovered()
    ensures Covers(RFC, COMPILED, NARROWER)
  {
    hide NUMBER, STRING, SEPARATOR, COMPILED, Written, Quoted, LitTexts;
    LeavesWider();
    CompiledTexts();
    EmptyQuoted();
    EmptyWritten();
    assert CodedName in NARROWER && CodedLit in NARROWER;
    forall l | !LitFlaw(l, NARROWER) ensures RFC.lit(l) <= COMPILED.lit(l) {
      if l.Str? {
        assert l.s == [];
        StrTexts(l.s);
      } else {
        LitRead(l);
      }
    }
    forall s ensures RFC.lit(Str(s)) <= COMPILED.text {
      StrTexts(s);
      QuotedString(s);
    }
  }

  lemma StrTexts(s: string)
    ensures LitTexts(Str(s)) == Quoted(s) && LitText(Str(s)) == Written(s, true)
  {
  }

  lemma EmptyWritten()
    ensures forall lit :: Written([], lit) == "\"\""
  {
    assert "\"" + [] + "\"" == "\"\"";
  }

  /** What the second lexer makes of a string of escapes and a colon behind it. */
  lemma CodedEnds(s: string, at: Option<string>, open: string, coded: bool)
    requires s != []
    ensures Run(Away(at, open, coded), Coded(s) + ":") == Bad
    ensures at == Some(open) ==> Run(Away(at, open, coded), Coded(s)) == Bad
  {
    hide Run, CodedBody;
    var st := Away(at, open, coded);
    CodedRun(s, Within(at, open, false));
    QuoteRun(st, CodedBody(s));
    RunConcat(st, Coded(s), ":");
    CharRun(Run(st, Coded(s)), ':');
  }

  lemma EmptyEnds(at: Option<string>, open: string, coded: bool)
    ensures Run(Away(at, open, coded), Coded([]) + ":") == Away(at, open, false)
  {
    var st := Away(at, open, coded);
    QuoteRun(st, []);
    RunConcat(st, Coded([]), ":");
    CharRun(Run(st, Coded([])), ':');
  }

  /** Outside a string for the second lexer, looking for no place. */
  ghost const AWAY_ALL: iset<State> := iset st: State | st.Away? && st.at.None?

  lemma ValidNameTold(name: string)
    ensures NameTold(RFC, AWAY_ALL, {CodedName}, name)
  {
    hide Spoils, Run, Takes, Quoted, Coded;
    CodedQuoted(name);
    if name == [] {
      assert Takes(AWAY_ALL, iset{Coded(name) + ":"}, AWAY_ALL) by { EmptyNameTakes(); }
    } else {
      assert Spoils(AWAY_ALL, Coded(name) + ":") by { CodedNameSpoils(name); }
    }
    assert NameTells(RFC, AWAY_ALL, {CodedName}, name, Coded(name));
  }

  lemma EmptyNameTakes()
    ensures Takes(AWAY_ALL, iset{Coded([]) + ":"}, AWAY_ALL)
  {
    hide Coded, Run;
    forall st | st in AWAY_ALL ensures Run(st, Coded([]) + ":") in AWAY_ALL { EmptyEnds(st.at, st.open, st.coded); }
  }

  lemma CodedNameSpoils(name: string)
    requires name != []
    ensures Spoils(AWAY_ALL, Coded(name) + ":")
  {
    hide Coded, Run;
    forall st | st in AWAY_ALL ensures Run(st, Coded(name) + ":") == Bad { CodedEnds(name, st.at, st.open, st.coded); }
  }

  lemma ValidTells()
    ensures Tells(RFC, AWAY_ALL, {CodedName}, false)
  {
    hide Speaks, Takes, RFC, NameTold;
    BothSpeak();
    AllBrackets();
    forall name ensures NameTold(RFC, AWAY_ALL, {CodedName}, name) { ValidNameTold(name); }
  }

  lemma AllBrackets()
    ensures Takes(AWAY_ALL, Chr('['), AWAY_ALL) && Takes(AWAY_ALL, Chr('{'), AWAY_ALL)
  {
    hide Takes;
    TakesChr(AWAY_ALL, '[', AWAY_ALL);
    TakesChr(AWAY_ALL, '{', AWAY_ALL);
  }

  lemma ValidLitIs(l: JsonLit)
    requires l.Str?
    ensures RFC.lit(l) == Quoted(l.s)
  {
  }

  /** A text the second lexer breaks on, looking for the place or for none, is not accepted. */
  lemma NotTaken(sc: Schema, at: Option<string>, w: string)
    requires at.None? || at.value !in StringPlaces(sc)
    requires w in Instances(sc, RFC) && Spoils(AWAY(at, []), w)
    ensures !(Instances(sc, RFC) <= Instances(sc, COMPILED)) && !(Padded(sc, RFC) <= Padded(sc, COMPILED))
  {
    hide COMPILED, RFC, Instances, Takes, Spoils, WS, StringPlaces;
    PaddedAlone(sc, RFC, w);
    CompiledTakes(sc, at);
    PaddedTakes(sc, COMPILED, AWAY(at, []), AWAY(at, []));
    NotSpoilt(Instances(sc, COMPILED), AWAY(at, []), AWAY(at, []), Away(at, [], false));
    NotSpoilt(Padded(sc, COMPILED), AWAY(at, []), AWAY(at, []), Away(at, [], false));
  }

  /** A reachable non-empty name has a spelling that is refused. */
  lemma RefusedName(sc: Schema)
    requires Reached(sc, {CodedName}, false)
    ensures !(Instances(sc, RFC) <= Instances(sc, COMPILED)) && !(Padded(sc, RFC) <= Padded(sc, COMPILED))
  {
    hide COMPILED, RFC, Instances, Takes, Spoils, Tells, Meets, Padded, StringPlaces;
    ValidTells();
    MeetsNone(sc, false, false);
    assert Composites(RFC, AWAY_ALL, {CodedName}, {}, false);
    Breaks(sc, RFC, AWAY_ALL, {CodedName}, {}, false, false);
    var w :| w in Instances(sc, RFC) && Spoils(AWAY_ALL, w);
    assert Spoils(AWAY(None, []), w) by { SpoilsLess(w); }
    NotTaken(sc, None, w);
  }

  lemma SpoilsLess(w: string)
    requires Spoils(AWAY_ALL, w)
    ensures Spoils(AWAY(None, []), w)
  {
  }

  /** A literal at a place has a spelling that the second lexer breaks on when it looks for that place. */
  lemma {:induction false} PlaceBreaks(sc: Schema, more: string, open: string)
    requires more in CodedPlaces(sc)
    ensures Spoilt(Instances(sc, RFC), AWAY(Some(open + more), open))
    decreases sc
  {
    hide RFC, Instances, Spoilt, AWAY, Inhabited;
    match sc
    case Enum(lits) => LitBreaks(lits, open);
    case AnyOf(schemas) =>
      var i :| 0 <= i < |schemas| && more in CodedPlaces(schemas[i]);
      PlaceBreaks(schemas[i], more, open);
      PlaceEither(schemas, i, AWAY(Some(open + more), open));
    case Array(items) =>
      var rest :| rest in CodedPlaces(items) && more == "[" + rest;
      PlaceBreaks(items, rest, open + "[");
      assert open + "[" + rest == open + more;
      PlaceItem(items, Some(open + more), open);
    case Object(properties, required) =>
      var i, rest :| 0 <= i < |properties| && Inhabited(properties[i].1, false) && rest in CodedPlaces(properties[i].1) && more == "{" + rest;
      PlaceBreaks(properties[i].1, rest, open + "{");
      assert open + "{" + rest == open + more;
      PlaceMember(properties, required, i, Some(open + more), open);
  }

  lemma PlaceEither(schemas: seq<Schema>, i: nat, p: iset<State>)
    requires i < |schemas| && Spoilt(Instances(schemas[i], RFC), p)
    ensures Spoilt(Instances(Schema.AnyOf(schemas), RFC), p)
  {
    hide RFC, Instances, Spoils;
    AnyOfInstances(schemas, RFC);
  }

  lemma PlaceItem(items: Schema, at: Option<string>, open: string)
    requires Spoilt(Instances(items, RFC), AWAY(at, open + "["))
    ensures Spoilt(Instances(Schema.Array(items), RFC), AWAY(at, open))
  {
    hide RFC, Instances, Takes, AWAY;
    AwayBrackets(at, open);
    ArraySpoilt(items, RFC, AWAY(at, open), AWAY(at, open + "["));
  }

  lemma LitBreaks(lits: seq<JsonLit>, open: string)
    requires AnyCoded(lits)
    ensures Spoilt(Instances(Schema.Enum(lits), RFC), AWAY(Some(open + []), open))
  {
    hide RFC, Instances, Run, Coded;
    EnumInstances(lits, RFC);
    var i :| 0 <= i < |lits| && lits[i].Str? && lits[i].s != [];
    var s := lits[i].s;
    CodedQuoted(s);
    ValidLitIs(lits[i]);
    assert open + [] == open;
    forall st | st in AWAY(Some(open), open) ensures Run(st, Coded(s)) == Bad { CodedEnds(s, st.at, st.open, st.coded); }
    assert Coded(s) in Instances(Schema.Enum(lits), RFC) && Spoils(AWAY(Some(open), open), Coded(s));
  }

  lemma PlaceMember(properties: seq<(string, Schema)>, required: seq<string>, i: nat, at: Option<string>, open: string)
    requires Inhabited(Schema.Object(properties, required), false) && i < |properties|
    requires Spoilt(Instances(properties[i].1, RFC), AWAY(at, open + "{"))
    ensures Spoilt(Instances(Schema.Object(properties, required), RFC), AWAY(at, open))
  {
    hide RFC, Instances, Takes, Spoils, AWAY, Inhabited, Coded, Quoted;
    var name, p := properties[i].0, AWAY(at, open + "{");
    var v :| v in Instances(properties[i].1, RFC) && Spoils(p, v);
    CodedQuoted(name);
    NameIs(name);
    BothSpeak();
    AwayBrackets(at, open);
    PlaceName(name, at, open + "{");
    ObjectSpoilt(properties, required, RFC, false, AWAY(at, open), p, i, Coded(name), v);
  }

  lemma PlaceName(name: string, at: Option<string>, open: string)
    ensures name != [] ==> Spoils(AWAY(at, open), Coded(name) + ":")
    ensures name == [] ==> Takes(AWAY(at, open), iset{Coded(name) + ":"}, AWAY(at, open))
  {
    hide Run, Coded;
    forall st | st in AWAY(at, open)
      ensures if name != [] then Run(st, Coded(name) + ":") == Bad else Run(st, Coded(name) + ":") in AWAY(at, open)
    {
      if name != [] { CodedEnds(name, st.at, st.open, st.coded); } else { EmptyEnds(st.at, st.open, st.coded); }
    }
  }

  lemma NameIs(name: string)
    ensures RFC.key(name) == Quoted(name)
  {
  }

  /** Every valid instance text, whatever its spelling, is accepted when no instance passes through a non-empty name, a
      non-empty literal string without a String beside it, or a required name with entries behind its first one. A spelling is
      refused when one passes through a non-empty name, or through a non-empty literal string at a place no String has. */
  lemma CompleteIff(sc: Schema)
    ensures !Reached(sc, NARROWER, false) ==> Instances(sc, RFC) <= Instances(sc, COMPILED) && Padded(sc, RFC) <= Padded(sc, COMPILED)
    ensures Reached(sc, {CodedName}, false) || !(CodedPlaces(sc) <= StringPlaces(sc)) ==>
              !(Instances(sc, RFC) <= Instances(sc, COMPILED)) && !(Padded(sc, RFC) <= Padded(sc, COMPILED))
  {
    hide COMPILED, RFC, Instances, Covers, WS, Cat, StringPlaces, CodedPlaces, Meets, Silent;
    if !Reached(sc, NARROWER, false) {
      AllSilent();
      ValidCovered();
      Unmet(sc, RFC, COMPILED, NARROWER, false, false);
      CatMono(Instances(sc, RFC), WS, Instances(sc, COMPILED), WS);
    }
    if Reached(sc, {CodedName}, false) { RefusedName(sc); }
    if at :| at in CodedPlaces(sc) && at !in StringPlaces(sc) {
      PlaceBreaks(sc, at, []);
      assert [] + at == at;
      var w :| w in Instances(sc, RFC) && Spoils(AWAY(Some(at), []), w);
      NotTaken(sc, Some(at), w);
    }
  }
}
