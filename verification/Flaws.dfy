/** Where two readings of the grammar part: what a schema can reach, and texts that show it. */
module Flaws {
  import opened Languages
  import opened Json
  import opened JsonLaws
  import opened Composing
  import opened Lexing
  import opened Values
  import Arrays
  import ArrayLaws

  /** A wide number, string or array; an unprintable name or literal string; a float that is no number; one name on two
      members; a name or a literal string that has other spellings than the compiler's; and a required name with a second
      entry in the list of properties. */
  datatype Flaw = WideLeaf | RawControl | NotANumber | RepeatedName | CodedName | CodedLit | ShadowedName

  /** What makes the compiled grammar accept texts that break the first lexer. */
  const LEXICAL: set<Flaw> := {WideLeaf, RawControl, NotANumber}

  /** What makes the compiled grammar accept more than RFC 8259. */
  const WIDER: set<Flaw> := {WideLeaf, RawControl, NotANumber, RepeatedName}

  /** What makes it accept less. */
  const NARROWER: set<Flaw> := {CodedName, CodedLit, ShadowedName}

  predicate LitFlaw(l: JsonLit, fs: set<Flaw>) {
    || (RawControl in fs && l.Str? && !Printable(l.s, true))
    || (NotANumber in fs && !Proper(l))
    || (CodedLit in fs && l.Str? && l.s != [])
  }

  predicate NameFlaw(name: string, fs: set<Flaw>) {
    (RawControl in fs && !Printable(name, false)) || (CodedName in fs && name != [])
  }

  /** Two entries of one name, both with instances. */
  predicate Repeats(properties: seq<(string, Schema)>, all: bool) {
    exists i, j :: 0 <= i < j < |properties| && properties[i].0 == properties[j].0 &&
                   Inhabited(properties[i].1, all) && Inhabited(properties[j].1, all)
  }

  /** A required name with an entry behind its first one that has instances. */
  predicate Shadows(properties: seq<(string, Schema)>, required: seq<string>, all: bool) {
    exists r, j :: 0 <= r < |required| && PositionOf(properties, required[r]) < j < |properties| &&
                   properties[j].0 == required[r] && Inhabited(properties[j].1, all)
  }

  /** A String is one of the alternatives. */
  predicate StringBeside(sc: Schema)
    decreases sc
  {
    match sc
    case String => true
    case AnyOf(schemas) => exists i :: 0 <= i < |schemas| && StringBeside(schemas[i])
    case _ => false
  }

  /** Some instance passes through one of the flaws; `beside` says that a String is an alternative to the schema, so that the
      spellings of its literals do not matter. */
  predicate Meets(sc: Schema, fs: set<Flaw>, all: bool, beside: bool)
    decreases sc
  {
    match sc
    case Number => WideLeaf in fs
    case String => WideLeaf in fs
    case Enum(lits) => exists i :: 0 <= i < |lits| && LitFlaw(lits[i], if beside then fs - {CodedLit} else fs)
    case AnyOf(schemas) => exists i :: 0 <= i < |schemas| && Meets(schemas[i], fs, all, beside || StringBeside(sc))
    case Array(items) => (WideLeaf in fs && Inhabited(items, all)) || Meets(items, fs, all, false)
    case Object(properties, required) =>
      Inhabited(sc, all) &&
      (|| (RepeatedName in fs && Repeats(properties, all))
       || (ShadowedName in fs && Shadows(properties, required, all))
       || exists i :: 0 <= i < |properties| && Inhabited(properties[i].1, all) &&
                      (NameFlaw(properties[i].0, fs) || Meets(properties[i].1, fs, all, false)))
    case _ => false
  }

  predicate Reached(sc: Schema, fs: set<Flaw>, all: bool) {
    Meets(sc, fs, all, false)
  }

  /** Flaws are met one by one. */
  lemma {:induction false} MeetsUnion(sc: Schema, fs: set<Flaw>, gs: set<Flaw>, all: bool, beside: bool)
    ensures Meets(sc, fs + gs, all, beside) <==> Meets(sc, fs, all, beside) || Meets(sc, gs, all, beside)
    decreases sc
  {
    match sc
    case Enum(lits) =>
      assert fs + gs - {CodedLit} == (fs - {CodedLit}) + (gs - {CodedLit});
    case AnyOf(schemas) =>
      hide StringBeside;
      forall i | 0 <= i < |schemas|
        ensures var b := beside || StringBeside(sc);
                Meets(schemas[i], fs + gs, all, b) <==> Meets(schemas[i], fs, all, b) || Meets(schemas[i], gs, all, b)
      {
        MeetsUnion(schemas[i], fs, gs, all, beside || StringBeside(sc));
      }
    case Array(items) => MeetsUnion(items, fs, gs, all, false);
    case Object(properties, required) =>
      hide Inhabited, Repeats, Shadows;
      forall i | 0 <= i < |properties|
        ensures NameFlaw(properties[i].0, fs + gs) <==> NameFlaw(properties[i].0, fs) || NameFlaw(properties[i].0, gs)
        ensures Meets(properties[i].1, fs + gs, all, false) <==> Meets(properties[i].1, fs, all, false) || Meets(properties[i].1, gs, all, false)
      {
        MeetsUnion(properties[i].1, fs, gs, all, false);
      }
    case _ =>
  }

  // ---- nothing reached: one reading is within the other ----

  /** Away from the flaws, `e` reads whatever `d` does. */
  ghost predicate Covers(d: Dialect, e: Dialect, fs: set<Flaw>) {
    && (WideLeaf !in fs ==> d.number <= e.number && d.text <= e.text && d.separator <= e.separator)
    && (forall name :: !NameFlaw(name, fs) ==> d.key(name) <= e.key(name))
    && (forall l :: !LitFlaw(l, fs) ==> d.lit(l) <= e.lit(l))
    && (CodedLit in fs ==> forall s :: d.lit(Str(s)) <= e.text)
    && (d.byName != e.byName ==> (if d.byName then ShadowedName else RepeatedName) in fs)
  }

  /** A schema that is not inhabited has no instance in the dialect. */
  ghost predicate Silent(d: Dialect, all: bool) {
    forall sc :: !Inhabited(sc, all) ==> Instances(sc, d) == iset{}
  }

  ghost function Slack(e: Dialect, beside: bool): Lang {
    if beside then e.text else iset{}
  }

  /** A schema that meets no flaw has the instances of the first reading in the second. */
  lemma {:induction false} Unmet(sc: Schema, d: Dialect, e: Dialect, fs: set<Flaw>, all: bool, beside: bool)
    requires Covers(d, e, fs) && Silent(d, all) && !Meets(sc, fs, all, beside)
    ensures Instances(sc, d) <= Instances(sc, e) + Slack(e, beside)
    decreases sc, 1
  {
    hide NUMBER, STRING, INTEGER, ArrayOf, ObjectOf, Instances, Member, NameFlaw, StringBeside;
    LeafInstances(d);
    LeafInstances(e);
    match sc
    case Boolean => BooleanInstances(d, e);
    case Enum(lits) =>
      EnumInstances(lits, d);
      EnumInstances(lits, e);
      forall i | 0 <= i < |lits| ensures d.lit(lits[i]) <= e.lit(lits[i]) + Slack(e, beside) {
        LitCovered(lits[i], d, e, fs, beside);
      }
    case AnyOf(schemas) =>
      AnyOfInstances(schemas, d);
      AnyOfInstances(schemas, e);
      if StringBeside(sc) { BesideText(sc, e); }
      forall i | 0 <= i < |schemas| ensures Instances(schemas[i], d) <= Instances(schemas[i], e) + Slack(e, beside || StringBeside(sc)) {
        Unmet(schemas[i], d, e, fs, all, beside || StringBeside(sc));
      }
    case Array(items) => ArrayUnmet(items, d, e, fs, all);
    case Object(properties, required) => ObjectUnmet(sc, d, e, fs, all);
    case _ =>
  }

  lemma LitCovered(l: JsonLit, d: Dialect, e: Dialect, fs: set<Flaw>, beside: bool)
    requires Covers(d, e, fs) && !LitFlaw(l, if beside then fs - {CodedLit} else fs)
    ensures d.lit(l) <= e.lit(l) + Slack(e, beside)
  {
    if LitFlaw(l, fs) {
      assert l == Str(l.s);
    }
  }

  lemma {:induction false} BesideText(sc: Schema, e: Dialect)
    requires StringBeside(sc)
    ensures e.text <= Instances(sc, e)
    decreases sc
  {
    if sc.AnyOf? {
      hide Instances;
      var i :| 0 <= i < |sc.schemas| && StringBeside(sc.schemas[i]);
      BesideText(sc.schemas[i], e);
      AnyOfInstances(sc.schemas, e);
    }
  }

  lemma {:induction false} ArrayUnmet(items: Schema, d: Dialect, e: Dialect, fs: set<Flaw>, all: bool)
    requires Covers(d, e, fs) && Silent(d, all) && !Meets(Schema.Array(items), fs, all, false)
    ensures Instances(Schema.Array(items), d) <= Instances(Schema.Array(items), e)
    decreases items, 2
  {
    hide ArrayOf, Instances, Inhabited, NameFlaw, LitFlaw;
    LeafInstances(d);
    LeafInstances(e);
    if WideLeaf in fs {
      assert Instances(items, d) == iset{};
      NoItems(d.separator, e.separator);
      ArrayMono(iset{}, e.separator, Instances(items, e), e.separator);
    } else {
      Unmet(items, d, e, fs, all, false);
      ArrayMono(Instances(items, d), d.separator, Instances(items, e), e.separator);
    }
  }

  lemma {:induction false} ObjectUnmet(sc: Schema, d: Dialect, e: Dialect, fs: set<Flaw>, all: bool)
    requires sc.Object? && Covers(d, e, fs) && Silent(d, all) && !Meets(sc, fs, all, false)
    ensures Instances(sc, d) <= Instances(sc, e)
    decreases sc, 0
  {
    var (properties, required) := (sc.properties, sc.required);
    var ds, es := MembersOf(properties, d), MembersOf(properties, e);
    if Inhabited(sc, all) {
      var (c, k) := (ChoiceOf(properties, required, d.byName), ChoiceOf(properties, required, e.byName));
      ObjectInstances(properties, required, d);
      ObjectInstances(properties, required, e);
      forall i | 0 <= i < |properties| ensures ds[i] <= es[i] && (Populated(ds[i]) ==> Inhabited(properties[i].1, all)) {
        MemberUnmet(sc, d, e, fs, all, i);
      }
      hide Instances, Member, ObjectOf, Members, Inhabited, NameFlaw, LitFlaw;
      forall w | w in ObjectOf(ds, c) ensures w in ObjectOf(es, k) {
        var js := ObjectPicks(ds, c, w);
        OtherChoice(properties, required, all, d.byName, e.byName, js);
        MembersMono(ds, es, js, true);
        ObjectWithin(ds, es, k, js, w);
      }
    }
  }

  /** A text whose members widen and whose positions are picked stays an object text. */
  lemma ObjectWithin(ls: seq<Lang>, ms: seq<Lang>, c: Choice, js: seq<nat>, w: string)
    requires |ls| == |ms| && Picks(js, |ms|, c) && (forall i :: 0 <= i < |js| ==> js[i] < |ls|)
    requires Members(ls, js, true) <= Members(ms, js, true)
    requires w in Cat(Cat(Chr('{'), WS), Cat(Members(ls, js, true), Cat(WS, Chr('}'))))
    ensures w in ObjectOf(ms, c)
  {
    hide Cat, Members, WS;
    var open, close := Cat(Chr('{'), WS), Cat(WS, Chr('}'));
    CatMono(Members(ls, js, true), close, Members(ms, js, true), close);
    CatMono(open, Cat(Members(ls, js, true), close), open, Cat(Members(ms, js, true), close));
  }

  lemma {:induction false} MemberUnmet(sc: Schema, d: Dialect, e: Dialect, fs: set<Flaw>, all: bool, i: nat)
    requires sc.Object? && i < |sc.properties| && Inhabited(sc, all)
    requires Covers(d, e, fs) && Silent(d, all) && !Meets(sc, fs, all, false)
    ensures var ds, es := MembersOf(sc.properties, d), MembersOf(sc.properties, e);
            ds[i] <= es[i] && (Populated(ds[i]) ==> Inhabited(sc.properties[i].1, all))
    decreases sc.properties[i].1, 3
  {
    hide Instances, Member, NameFlaw, LitFlaw, Inhabited;
    var (name, value) := sc.properties[i];
    if Inhabited(value, all) {
      Unmet(value, d, e, fs, all, false);
      MemberMono(d.key(name), Instances(value, d), e.key(name), Instances(value, e));
    } else {
      assert Instances(value, d) == iset{};
      NoValue(d.key(name));
    }
  }

  lemma NoValue(key: Lang)
    ensures Member(key, iset{}) == iset{}
  {
  }

  /** Without the flaw that tells the two choices apart, inhabited members picked one way are picked the other way. */
  lemma OtherChoice(properties: seq<(string, Schema)>, required: seq<string>, all: bool, byName: bool, other: bool, js: seq<nat>)
    requires Picks(js, |properties|, ChoiceOf(properties, required, byName))
    requires forall i :: 0 <= i < |js| ==> js[i] < |properties| && Inhabited(properties[js[i]].1, all)
    requires byName && !other ==> !Shadows(properties, required, all)
    requires !byName && other ==> !Repeats(properties, all)
    ensures Picks(js, |properties|, ChoiceOf(properties, required, other))
  {
    hide Inhabited;
    var names := NamesOf(properties);
    if byName && !other {
      forall p | p in RequiredSet(properties, required) ensures p in js {
        var r :| 0 <= r < |required| && PositionOf(properties, required[r]) == p;
        assert Bears(js, names, required[r]);
        var i :| 0 <= i < |js| && js[i] < |names| && names[js[i]] == required[r];
        assert properties[js[i]].0 == required[r];
      }
    } else if !byName && other {
      forall i, j | 0 <= i < j < |js| ensures names[js[i]] != names[js[j]] {
        var a, b := if js[i] < js[j] then js[i] else js[j], if js[i] < js[j] then js[j] else js[i];
        assert properties[a].0 != properties[b].0;
      }
      forall r | 0 <= r < |required| ensures Bears(js, names, required[r]) {
        var p := PositionOf(properties, required[r]);
        assert p in RequiredSet(properties, required);
        var i :| 0 <= i < |js| && js[i] == p;
        assert names[js[i]] == required[r];
      }
    }
  }

  lemma BooleanInstances(d: Dialect, e: Dialect)
    ensures Instances(Schema.Boolean, d) == Instances(Schema.Boolean, e)
  {
  }

  // ---- something reached: a text that breaks a lexer ----

  /** A text that breaks the lexer wherever a value may start. */
  ghost predicate Spoils(p: iset<State>, w: string) {
    forall st :: st in p ==> Run(st, w) == Bad
  }

  ghost predicate Spoilt(l: Lang, p: iset<State>) {
    exists w :: w in l && Spoils(p, w)
  }

  /** What follows a broken text does not mend it, and a clean prefix does not either. */
  lemma SpoilsAmid(p0: iset<State>, u: string, p: iset<State>, w: string, v: string)
    requires Takes(p0, iset{u}, p) && Spoils(p, w)
    ensures Spoils(p0, u + w + v)
  {
    forall st | st in p0 ensures Run(st, u + w + v) == Bad {
      RunConcat(st, u + w, v);
      RunConcat(st, u, w);
      assert Run(st, u) in p;
      BadStays(v);
    }
  }

  lemma SpoilsFirst(p: iset<State>, w: string, v: string)
    requires Spoils(p, w)
    ensures Spoils(p, w + v)
  {
    forall st | st in p ensures Run(st, w + v) == Bad {
      RunConcat(st, w, v);
      BadStays(v);
    }
  }

  /** A lexer that takes a whole language finds no broken text in it. */
  lemma NotSpoilt(l: Lang, p: iset<State>, q: iset<State>, st: State)
    requires Takes(p, l, q) && Bad !in q && st in p
    ensures !Spoilt(l, p)
  {
  }

  /** An array around a broken element; `p` stands within the bracket. */
  lemma ArraySpoilt(items: Schema, d: Dialect, p0: iset<State>, p: iset<State>)
    requires Spoilt(Instances(items, d), p) && Takes(p0, Chr('['), p)
    ensures Spoilt(Instances(Schema.Array(items), d), p0)
  {
    hide Instances, ArrayOf, Takes, Spoils;
    var v :| v in Instances(items, d) && Spoils(p, v);
    OneElement(Instances(items, d), d.separator, v);
    LeafInstances(d);
    SpoilsAmid(p0, "[", p, v, "]");
  }

  /** An object whose first member has a broken name or a broken value. */
  lemma ObjectSpoilt(properties: seq<(string, Schema)>, required: seq<string>, d: Dialect, all: bool, p0: iset<State>, p: iset<State>,
                     i: nat, k: string, v: string)
    requires Speaks(d, all) && Inhabited(Schema.Object(properties, required), all) && i < |properties|
    requires k in d.key(properties[i].0) && v in Instances(properties[i].1, d)
    requires Takes(p0, Chr('{'), p) && (Spoils(p, k + ":") || (Takes(p, iset{k + ":"}, p) && Spoils(p, v)))
    ensures Spoilt(Instances(Schema.Object(properties, required), d), p0)
  {
    hide Instances, ObjectOf, Members, Member, Inhabited, Takes, Spoils, Picks;
    var ms := MembersOf(properties, d);
    var js, rest := OtherMembers(properties, required, d, all, [i]);
    MemberIn(d.key(properties[i].0), k, Instances(properties[i].1, d), v);
    CatIn(ms[i], Members(ms, js, false), k + ":" + v, rest);
    FirstMember(ms, i, js);
    var body := k + ":" + v + rest;
    BracedIn(ms, ChoiceOf(properties, required, d.byName), [i] + js, body);
    ObjectInstances(properties, required, d);
    if Spoils(p, k + ":") {
      SpoilsFirst(p, k + ":", v);
    } else {
      SpoilsAmid(p, k + ":", p, v, []);
      assert k + ":" + v + [] == k + ":" + v;
    }
    SpoilsAmid(p0, "{", p, k + ":" + v, rest + "}");
    assert "{" + (k + ":" + v) + (rest + "}") == "{" + body + "}";
  }

  /** Two commas break the first lexer. */
  lemma TwoCommas(x: string)
    requires Takes(FRESH, iset{x}, VALUE)
    ensures Spoils(FRESH, "[" + x + ",," + x + "]")
  {
    forall st | st in FRESH ensures Run(st, x + ",,") == Bad {
      RunConcat(st, x, ",,");
      assert x in iset{x};
      TwoChars(Run(st, x), ',', ',');
      assert ",," == [',', ','];
    }
    TakesChr(FRESH, '[', FRESH);
    SpoilsAmid(FRESH, "[", FRESH, x + ",,", x + "]");
    assert "[" + (x + ",,") + (x + "]") == "[" + x + ",," + x + "]";
  }

  lemma WideArray(items: Schema, x: string)
    requires x in Instances(items, COMPILED) && Takes(FRESH, iset{x}, VALUE)
    ensures "[" + x + ",," + x + "]" in Instances(Schema.Array(items), COMPILED) && Spoils(FRESH, "[" + x + ",," + x + "]")
  {
    TwoCommas(x);
    hide Instances, ArrayOf, Takes, Spoils, Arrays.LOOSE;
    ArrayLaws.SharedBlanksLeak();
    TwoElements(Instances(items, COMPILED), COMPILED.separator, x, ",,");
    LeafInstances(COMPILED);
  }

  /** A text of the name that breaks the lexer at the colon, or passes it when the name has no flaw. */
  ghost predicate NameTells(d: Dialect, p: iset<State>, fs: set<Flaw>, name: string, k: string) {
    k in d.key(name) && if NameFlaw(name, fs) then Spoils(p, k + ":") else Takes(p, iset{k + ":"}, p)
  }

  ghost predicate NameTold(d: Dialect, p: iset<State>, fs: set<Flaw>, name: string) {
    exists k :: NameTells(d, p, fs, name, k)
  }

  /** Each flaw breaks the lexer where it occurs. */
  ghost predicate Tells(d: Dialect, p: iset<State>, fs: set<Flaw>, all: bool) {
    && Speaks(d, all) && Takes(p, Chr('['), p) && Takes(p, Chr('{'), p)
    && (forall l :: LitFlaw(l, fs) ==> Spoilt(d.lit(l), p))
    && (forall name :: NameTold(d, p, fs, name))
    && (WideLeaf in fs ==> Spoilt(d.number, p) && Spoilt(d.text, p))
  }

  /** A flawless array that can have elements is itself broken when arrays are wide, and so is a flawless object with a name
      on two members when those are told apart by place. `gs` are flaws known not to be met. */
  ghost predicate Composites(d: Dialect, p: iset<State>, fs: set<Flaw>, gs: set<Flaw>, all: bool) {
    && (WideLeaf in fs ==> forall items :: Inhabited(items, all) && !Reached(items, fs + gs, all) ==>
          Spoilt(Instances(Schema.Array(items), d), p))
    && (RepeatedName in fs ==> forall properties, required :: Doubled(properties, required, fs + gs, all) ==>
          Spoilt(Instances(Schema.Object(properties, required), d), p))
    && ShadowedName !in fs && CodedLit !in fs
  }

  /** An object with a name on two members, and no flaw inside its members. */
  predicate Doubled(properties: seq<(string, Schema)>, required: seq<string>, fs: set<Flaw>, all: bool) {
    && Inhabited(Schema.Object(properties, required), all) && Repeats(properties, all)
    && forall i :: 0 <= i < |properties| && Inhabited(properties[i].1, all) ==>
         !NameFlaw(properties[i].0, fs) && !Reached(properties[i].1, fs, all)
  }

  lemma MemberBreaks(properties: seq<(string, Schema)>, required: seq<string>, d: Dialect, p: iset<State>, fs: set<Flaw>, all: bool, i: nat)
    requires Tells(d, p, fs, all) && Inhabited(Schema.Object(properties, required), all)
    requires i < |properties| && Inhabited(properties[i].1, all)
    requires NameFlaw(properties[i].0, fs) || Spoilt(Instances(properties[i].1, d), p)
    ensures Spoilt(Instances(Schema.Object(properties, required), d), p)
  {
    hide Instances, Speaks, Takes, Spoils, Inhabited, NameFlaw;
    var (name, value) := properties[i];
    assert NameTold(d, p, fs, name);
    var k :| NameTells(d, p, fs, name, k);
    InhabitedHas(value, d, all);
    var v :| v in Instances(value, d);
    if !NameFlaw(name, fs) {
      v :| v in Instances(value, d) && Spoils(p, v);
    }
    ObjectSpoilt(properties, required, d, all, p, p, i, k, v);
  }

  /** Whatever reaches a flaw has an instance that breaks the lexer. */
  lemma {:induction false} Breaks(sc: Schema, d: Dialect, p: iset<State>, fs: set<Flaw>, gs: set<Flaw>, all: bool, beside: bool)
    requires Tells(d, p, fs, all) && Composites(d, p, fs, gs, all) && Meets(sc, fs, all, beside) && !Meets(sc, gs, all, beside)
    requires CodedLit !in gs
    ensures Spoilt(Instances(sc, d), p)
    decreases sc, 1
  {
    hide Instances, Speaks, Takes, Spoils, Inhabited, LitFlaw, NameFlaw, StringBeside;
    LeafInstances(d);
    match sc
    case Enum(lits) =>
      EnumInstances(lits, d);
      assert fs - {CodedLit} == fs;
      var i :| 0 <= i < |lits| && LitFlaw(lits[i], fs);
      assert Spoilt(d.lit(lits[i]), p);
    case AnyOf(schemas) =>
      AnyOfInstances(schemas, d);
      var i :| 0 <= i < |schemas| && Meets(schemas[i], fs, all, beside || StringBeside(sc));
      Breaks(schemas[i], d, p, fs, gs, all, beside || StringBeside(sc));
    case Array(items) =>
      if Meets(items, fs, all, false) {
        Breaks(items, d, p, fs, gs, all, false);
        ArraySpoilt(items, d, p, p);
      } else {
        MeetsUnion(items, fs, gs, all, false);
      }
    case Object(properties, required) => ObjectBreaks(sc, d, p, fs, gs, all, beside);
    case _ =>
  }

  lemma {:induction false} ObjectBreaks(sc: Schema, d: Dialect, p: iset<State>, fs: set<Flaw>, gs: set<Flaw>, all: bool, beside: bool)
    requires sc.Object? && Tells(d, p, fs, all) && Composites(d, p, fs, gs, all) && CodedLit !in gs
    requires Meets(sc, fs, all, beside) && !Meets(sc, gs, all, beside)
    ensures Spoilt(Instances(sc, d), p)
    decreases sc, 0
  {
    hide Instances, Speaks, Takes, Spoils, LitFlaw, NameFlaw, Repeats, Inhabited;
    var (properties, required) := (sc.properties, sc.required);
    if i :| 0 <= i < |properties| && Inhabited(properties[i].1, all) && (NameFlaw(properties[i].0, fs) || Meets(properties[i].1, fs, all, false)) {
      if Meets(properties[i].1, fs, all, false) { Breaks(properties[i].1, d, p, fs, gs, all, false); }
      MemberBreaks(properties, required, d, p, fs, all, i);
    } else {
      forall i | 0 <= i < |properties| && Inhabited(properties[i].1, all)
        ensures !NameFlaw(properties[i].0, fs + gs) && !Reached(properties[i].1, fs + gs, all)
      {
        MeetsUnion(properties[i].1, fs, gs, all, false);
        NameUnion(properties[i].0, fs, gs);
      }
      assert Doubled(properties, required, fs + gs, all);
    }
  }

  lemma NameUnion(name: string, fs: set<Flaw>, gs: set<Flaw>)
    ensures NameFlaw(name, fs + gs) <==> NameFlaw(name, fs) || NameFlaw(name, gs)
  {
  }

  lemma {:induction false} MeetsNone(sc: Schema, all: bool, beside: bool)
    ensures !Meets(sc, {}, all, beside)
    decreases sc
  {
    match sc
    case AnyOf(schemas) =>
      forall i | 0 <= i < |schemas| ensures !Meets(schemas[i], {}, all, beside || StringBeside(sc)) {
        MeetsNone(schemas[i], all, beside || StringBeside(sc));
      }
    case Array(items) => MeetsNone(items, all, false);
    case Object(properties, required) =>
      forall i | 0 <= i < |properties| ensures !Meets(properties[i].1, {}, all, false) { MeetsNone(properties[i].1, all, false); }
    case _ =>
  }

  // ---- schemas whose objects list distinct names ----

  /** No object of the schema lists a name twice. */
  predicate DistinctNames(sc: Schema)
    decreases sc
  {
    match sc
    case AnyOf(schemas) => forall i :: 0 <= i < |schemas| ==> DistinctNames(schemas[i])
    case Array(items) => DistinctNames(items)
    case Object(properties, _) =>
      && (forall i, j :: 0 <= i < j < |properties| ==> properties[i].0 != properties[j].0)
      && forall i :: 0 <= i < |properties| ==> DistinctNames(properties[i].1)
    case _ => true
  }

  /** Then neither flaw about names listed twice is met. */
  lemma {:induction false} DistinctMeets(sc: Schema, all: bool, beside: bool)
    requires DistinctNames(sc)
    ensures !Meets(sc, {RepeatedName, ShadowedName}, all, beside)
    decreases sc
  {
    match sc
    case AnyOf(schemas) =>
      forall i | 0 <= i < |schemas| ensures !Meets(schemas[i], {RepeatedName, ShadowedName}, all, beside || StringBeside(sc)) {
        DistinctMeets(schemas[i], all, beside || StringBeside(sc));
      }
    case Array(items) => DistinctMeets(items, all, false);
    case Object(properties, required) =>
      forall i | 0 <= i < |properties| ensures !Meets(properties[i].1, {RepeatedName, ShadowedName}, all, false) {
        DistinctMeets(properties[i].1, all, false);
      }
    case _ =>
  }

  // ---- the places of spelled literals ----

  predicate AnyCoded(lits: seq<JsonLit>) {
    exists i :: 0 <= i < |lits| && lits[i].Str? && lits[i].s != []
  }

  /** The places, given by their open brackets, at which some valid instance has a non-empty literal string. */
  function CodedPlaces(sc: Schema): set<string>
    decreases sc
  {
    match sc
    case Enum(lits) => if AnyCoded(lits) then {[]} else {}
    case AnyOf(schemas) => set i, at | 0 <= i < |schemas| && at in CodedPlaces(schemas[i]) :: at
    case Array(items) => set at | at in CodedPlaces(items) :: "[" + at
    case Object(properties, _) =>
      if Inhabited(sc, false) then
        set i, at | 0 <= i < |properties| && Inhabited(properties[i].1, false) && at in CodedPlaces(properties[i].1) :: "{" + at
      else {}
    case _ => {}
  }
}
