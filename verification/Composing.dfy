/** Instance texts put together from the texts of their parts, and which schemas have any. */
module Composing {
  import opened Languages
  import opened Json
  import opened JsonLaws

  ghost predicate Populated(l: Lang) {
    exists w :: w in l
  }

  lemma CommaAlone()
    ensures "," in SEPARATOR && ":" in COLON && [] in WS
  {
    assert InStar(One(IsWs), []);
    CatIn(WS, Chr(','), [], ",");
    CatIn(Cat(WS, Chr(',')), WS, [] + ",", []);
    CatIn(WS, Chr(':'), [], ":");
    CatIn(Cat(WS, Chr(':')), WS, [] + ":", []);
    assert ([] + ",") + [] == "," && ([] + ":") + [] == ":";
  }

  // ---- objects ----

  /** An object text from the texts of its members. */
  lemma BracedIn(members: seq<Lang>, c: Choice, js: seq<nat>, body: string)
    requires Picks(js, |members|, c) && body in Members(members, js, true)
    ensures "{" + body + "}" in ObjectOf(members, c)
  {
    hide Cat, Members;
    var open, close := Cat(Chr('{'), WS), Cat(WS, Chr('}'));
    CommaAlone();
    CatIn(Chr('{'), WS, "{", []);
    CatIn(WS, Chr('}'), [], "}");
    CatIn(Members(members, js, true), close, body, [] + "}");
    CatIn(open, Cat(Members(members, js, true), close), "{" + [], body + ([] + "}"));
    assert ("{" + []) + (body + ([] + "}")) == "{" + body + "}";
  }

  lemma MemberIn(key: Lang, k: string, value: Lang, v: string)
    requires k in key && v in value
    ensures k + ":" + v in Member(key, value)
  {
    hide COLON, Cat;
    CommaAlone();
    CatIn(key, COLON, k, ":");
    CatIn(Cat(key, COLON), value, k + ":", v);
  }

  /** The elements of a finite set as a list without repetition. */
  lemma {:induction false} Listing(s: set<nat>) returns (js: seq<nat>)
    ensures forall x :: x in js <==> x in s
    ensures forall i, j :: 0 <= i < j < |js| ==> js[i] != js[j]
    decreases s
  {
    if s == {} {
      js := [];
    } else {
      var x :| x in s;
      var rest := Listing(s - {x});
      js := [x] + rest;
    }
  }

  /** Texts of all members at the given positions, one after the other. */
  lemma {:induction false} MembersText(members: seq<Lang>, js: seq<nat>, first: bool) returns (w: string)
    requires forall i :: 0 <= i < |js| ==> js[i] < |members| && Populated(members[js[i]])
    ensures w in Members(members, js, first)
    decreases |js|
  {
    if js == [] {
      w := [];
    } else {
      hide SEPARATOR, Cat;
      var m :| m in members[js[0]];
      forall i | 0 <= i < |js| - 1 ensures js[1..][i] < |members| && Populated(members[js[1..][i]]) {
        assert js[1..][i] == js[i + 1];
      }
      var rest := MembersText(members, js[1..], false);
      CommaAlone();
      CatIn(SEPARATOR, members[js[0]], ",", m);
      w := (if first then m else "," + m) + rest;
      CatIn(if first then members[js[0]] else Cat(SEPARATOR, members[js[0]]), Members(members, js[1..], false),
            if first then m else "," + m, rest);
    }
  }

  lemma FirstMember(ms: seq<Lang>, p: nat, js: seq<nat>)
    requires p < |ms| && forall i :: 0 <= i < |js| ==> js[i] < |ms|
    ensures Members(ms, [p] + js, true) == Cat(ms[p], Members(ms, js, false))
  {
    hide Cat;
    assert ([p] + js)[1..] == js;
  }

  lemma ObjectInstances(properties: seq<(string, Schema)>, required: seq<string>, d: Dialect)
    ensures Instances(Schema.Object(properties, required), d) == ObjectOf(MembersOf(properties, d), ChoiceOf(properties, required, d.byName))
  {
  }

  /** The members of an object text all have texts. */
  lemma {:induction false} MembersPopulated(members: seq<Lang>, js: seq<nat>, first: bool, w: string)
    requires (forall i :: 0 <= i < |js| ==> js[i] < |members|) && w in Members(members, js, first)
    ensures forall i :: 0 <= i < |js| ==> Populated(members[js[i]])
    decreases |js|
  {
    if js != [] {
      hide SEPARATOR, Cat;
      var u, v := CatSplit(if first then members[js[0]] else Cat(SEPARATOR, members[js[0]]), Members(members, js[1..], false), w);
      if !first { var a, b := CatSplit(SEPARATOR, members[js[0]], u); }
      MembersPopulated(members, js[1..], false, v);
      forall i | 0 <= i < |js| ensures Populated(members[js[i]]) {
        if i > 0 { assert js[1..][i - 1] == js[i]; }
      }
    }
  }

  /** The positions an object text takes. */
  lemma ObjectPicks(members: seq<Lang>, c: Choice, w: string) returns (js: seq<nat>)
    requires w in ObjectOf(members, c)
    ensures Picks(js, |members|, c) && forall i :: 0 <= i < |js| ==> js[i] < |members| && Populated(members[js[i]])
    ensures w in Cat(Cat(Chr('{'), WS), Cat(Members(members, js, true), Cat(WS, Chr('}'))))
  {
    hide Cat, Members;
    js :| Picks(js, |members|, c) && w in Cat(Cat(Chr('{'), WS), Cat(Members(members, js, true), Cat(WS, Chr('}'))));
    var u, v := CatSplit(Cat(Chr('{'), WS), Cat(Members(members, js, true), Cat(WS, Chr('}'))), w);
    var a, b := CatSplit(Members(members, js, true), Cat(WS, Chr('}')), v);
    MembersPopulated(members, js, true, a);
  }

  // ---- arrays ----

  lemma BracketedIn(item: Lang, separator: Lang, list: string)
    requires list in Opt(Cat(item, Star(Cat(separator, item))))
    ensures "[" + list + "]" in ArrayOf(item, separator)
  {
    hide Cat, Star;
    CommaAlone();
    var many := Opt(Cat(item, Star(Cat(separator, item))));
    CatIn(Chr('['), WS, "[", []);
    CatIn(WS, Chr(']'), [], "]");
    CatIn(many, Cat(WS, Chr(']')), list, [] + "]");
    CatIn(Cat(Chr('['), WS), Cat(many, Cat(WS, Chr(']'))), "[" + [], list + ([] + "]"));
    assert ("[" + []) + (list + ([] + "]")) == "[" + list + "]";
  }

  lemma EmptyArray(item: Lang, separator: Lang)
    ensures "[]" in ArrayOf(item, separator)
  {
    hide ArrayOf, Cat, Star;
    BracketedIn(item, separator, []);
    assert "[" + [] + "]" == "[]";
  }

  lemma OneElement(item: Lang, separator: Lang, x: string)
    requires x in item
    ensures "[" + x + "]" in ArrayOf(item, separator)
  {
    assert InStar(Cat(separator, item), []);
    hide Cat, Star;
    CatIn(item, Star(Cat(separator, item)), x, []);
    assert x + [] == x;
    BracketedIn(item, separator, x);
  }

  lemma TwoElements(item: Lang, separator: Lang, x: string, s: string)
    requires x in item && s in separator
    ensures "[" + x + s + x + "]" in ArrayOf(item, separator)
  {
    hide Cat, Star;
    CatIn(separator, item, s, x);
    StarOne(Cat(separator, item), s + x);
    CatIn(item, Star(Cat(separator, item)), x, s + x);
    BracketedIn(item, separator, x + (s + x));
    assert "[" + (x + (s + x)) + "]" == "[" + x + s + x + "]";
  }

  lemma NoItems(a: Lang, b: Lang)
    ensures ArrayOf(iset{}, a) == ArrayOf(iset{}, b)
  {
    assert Cat(iset{}, Star(Cat(a, iset{}))) == iset{} == Cat(iset{}, Star(Cat(b, iset{})));
  }

  // ---- leaves and alternatives ----

  lemma ZeroInt()
    ensures "0" in INT
  {
  }

  lemma ZeroInteger()
    ensures "0" in INTEGER
  {
    hide INT, Cat;
    ZeroInt();
    CatIn(Opt(Chr('-')), INT, [], "0");
    assert [] + "0" == "0";
  }

  lemma ZeroNumber()
    ensures "0" in NUMBER
  {
    hide INT, FRAC, EXP, Cat;
    ZeroInt();
    CatIn(Opt(FRAC), Opt(EXP), [], []);
    CatIn(INT, Cat(Opt(FRAC), Opt(EXP)), "0", [] + []);
    CatIn(Opt(Chr('-')), Cat(INT, Cat(Opt(FRAC), Opt(EXP))), [], "0" + ([] + []));
    assert [] + ("0" + ([] + [])) == "0";
  }

  lemma EmptyString()
    ensures "\"\"" in STRING
  {
    hide ESCAPE, Cat;
    assert InStar(One(Plain) + ESCAPE, []);
    CatIn(Star(One(Plain) + ESCAPE), Chr('\"'), [], "\"");
    CatIn(Chr('\"'), Cat(Star(One(Plain) + ESCAPE), Chr('\"')), "\"", [] + "\"");
    assert "\"" + ([] + "\"") == "\"\"";
  }

  lemma LeafInstances(d: Dialect)
    ensures Instances(Schema.Null, d) == iset{"null"} && "true" in Instances(Schema.Boolean, d)
    ensures Instances(Schema.Integer, d) == INTEGER
    ensures Instances(Schema.Number, d) == d.number && Instances(Schema.String, d) == d.text
    ensures forall items :: Instances(Schema.Array(items), d) == ArrayOf(Instances(items, d), d.separator)
  {
  }

  lemma EnumInstances(lits: seq<JsonLit>, d: Dialect)
    ensures forall w :: w in Instances(Schema.Enum(lits), d) <==> exists i :: 0 <= i < |lits| && w in d.lit(lits[i])
  {
    var ls := seq(|lits|, i requires 0 <= i < |lits| => d.lit(lits[i]));
    forall w ensures w in Instances(Schema.Enum(lits), d) <==> exists i :: 0 <= i < |lits| && w in d.lit(lits[i]) {
      if w in AnyIn(ls) {
        var i :| InNth(ls, i, w);
        assert w in d.lit(lits[i]);
      }
      if i :| 0 <= i < |lits| && w in d.lit(lits[i]) {
        assert InNth(ls, i, w);
      }
    }
  }

  lemma AnyOfInstances(schemas: seq<Schema>, d: Dialect)
    ensures forall w :: w in Instances(Schema.AnyOf(schemas), d) <==> exists i :: 0 <= i < |schemas| && w in Instances(schemas[i], d)
  {
    var ls := seq(|schemas|, i requires 0 <= i < |schemas| => Instances(schemas[i], d));
    forall w ensures w in Instances(Schema.AnyOf(schemas), d) <==> exists i :: 0 <= i < |schemas| && w in Instances(schemas[i], d) {
      if w in AnyIn(ls) {
        var i :| InNth(ls, i, w);
        assert w in Instances(schemas[i], d);
      }
      if i :| 0 <= i < |schemas| && w in Instances(schemas[i], d) {
        assert InNth(ls, i, w);
      }
    }
  }

  // ---- which schemas have an instance ----

  predicate Proper(l: JsonLit) {
    l.Float? ==> l.x.Finite?
  }

  /** Some instance exists. With `all` as the compiler reads the schema: every literal counts, and a required name asks for the
      first entry of that name. Otherwise as RFC 8259 does: a float has to be a number, and any entry of the name will do. */
  predicate Inhabited(sc: Schema, all: bool)
    decreases sc
  {
    match sc
    case Enum(lits) => exists i :: 0 <= i < |lits| && (all || Proper(lits[i]))
    case AnyOf(schemas) => exists i :: 0 <= i < |schemas| && Inhabited(schemas[i], all)
    case Object(properties, required) =>
      forall r :: 0 <= r < |required| ==>
        if all then var p := PositionOf(properties, required[r]); p < |properties| && Inhabited(properties[p].1, all)
        else exists p :: 0 <= p < |properties| && properties[p].0 == required[r] && Inhabited(properties[p].1, all)
    case _ => true
  }

  /** The dialect has a text for every leaf, name and literal that is to have one. */
  ghost predicate Speaks(d: Dialect, all: bool) {
    && d.byName == !all && Populated(d.number) && Populated(d.text)
    && (forall name :: Populated(d.key(name))) && forall l :: Populated(d.lit(l)) <==> all || Proper(l)
  }

  /** Positions that complete an object: every required member not there yet gets an inhabited one. */
  lemma Completed(properties: seq<(string, Schema)>, required: seq<string>, all: bool, start: seq<nat>) returns (js: seq<nat>)
    requires Inhabited(Schema.Object(properties, required), all)
    requires forall i :: 0 <= i < |start| ==> start[i] < |properties|
    requires forall i, j :: 0 <= i < j < |start| ==>
               if all then start[i] != start[j] else properties[start[i]].0 != properties[start[j]].0
    ensures Picks(start + js, |properties|, ChoiceOf(properties, required, !all))
    ensures forall i :: 0 <= i < |js| ==> js[i] < |properties| && Inhabited(properties[js[i]].1, all)
  {
    if all {
      var needed := RequiredSet(properties, required);
      js := Listing(needed - set p | p in start);
      forall i | 0 <= i < |js| ensures js[i] < |properties| && Inhabited(properties[js[i]].1, true) && js[i] !in start {
        assert js[i] in needed - set p | p in start;
        var r :| 0 <= r < |required| && PositionOf(properties, required[r]) == js[i];
      }
      hide PositionOf;
      assert Chooses(start + js, |properties|, needed);
    } else {
      js := Named(properties, required, |required|, start);
    }
  }

  /** One inhabited entry for each of the first `n` required names that `start` does not bear. */
  lemma {:induction false} Named(properties: seq<(string, Schema)>, required: seq<string>, n: nat, start: seq<nat>) returns (js: seq<nat>)
    requires n <= |required| && Inhabited(Schema.Object(properties, required), false)
    requires ChoosesNames(start, NamesOf(properties), [])
    ensures ChoosesNames(start + js, NamesOf(properties), required[..n])
    ensures forall i :: 0 <= i < |js| ==> js[i] < |properties| && Inhabited(properties[js[i]].1, false)
  {
    var names := NamesOf(properties);
    if n == 0 {
      js := [];
      assert start + [] == start;
    } else {
      js := Named(properties, required, n - 1, start);
      var before := start + js;
      if !Bears(before, names, required[n - 1]) {
        var p :| 0 <= p < |properties| && properties[p].0 == required[n - 1] && Inhabited(properties[p].1, false);
        js := js + [p];
        assert start + js == before + [p];
        assert forall i :: 0 <= i < |before| ==> names[before[i]] != names[p];
        assert names[(before + [p])[|before|]] == required[n - 1];
      }
      forall r | 0 <= r < n ensures Bears(start + js, names, required[r]) {
        if r < n - 1 {
          assert Bears(before, names, required[..n - 1][r]);
          var i :| 0 <= i < |before| && before[i] < |names| && names[before[i]] == required[r];
          assert (start + js)[i] == before[i];
        }
      }
    }
  }

  lemma MemberPopulated(properties: seq<(string, Schema)>, d: Dialect, all: bool, i: nat)
    requires i < |properties| && Speaks(d, all)
    ensures Populated(MembersOf(properties, d)[i]) <==> Populated(Instances(properties[i].1, d))
    ensures !Populated(MembersOf(properties, d)[i]) ==> MembersOf(properties, d)[i] == iset{}
  {
    var key, value := d.key(properties[i].0), Instances(properties[i].1, d);
    hide COLON, Instances;
    assert MembersOf(properties, d)[i] == Member(key, value);
    if v :| v in value {
      hide Member;
      var k :| k in key;
      MemberIn(key, k, value, v);
    }
  }

  /** A schema has an instance in a dialect exactly when it is inhabited. */
  lemma {:induction false} InhabitedHas(sc: Schema, d: Dialect, all: bool)
    requires Speaks(d, all)
    ensures Populated(Instances(sc, d)) <==> Inhabited(sc, all)
    decreases sc
  {
    hide NUMBER, STRING, INTEGER, ArrayOf, ObjectOf, Instances;
    LeafInstances(d);
    match sc
    case Integer => ZeroInteger();
    case Enum(lits) => EnumHas(lits, d, all);
    case AnyOf(schemas) =>
      AnyOfInstances(schemas, d);
      forall i | 0 <= i < |schemas| ensures Populated(Instances(schemas[i], d)) <==> Inhabited(schemas[i], all) {
        InhabitedHas(schemas[i], d, all);
      }
      if w :| w in Instances(sc, d) {
        var i :| 0 <= i < |schemas| && w in Instances(schemas[i], d);
        assert Inhabited(schemas[i], all);
      }
      if i :| 0 <= i < |schemas| && Inhabited(schemas[i], all) {
        var w :| w in Instances(schemas[i], d);
        assert w in Instances(sc, d);
      }
    case Array(items) => EmptyArray(Instances(items, d), d.separator);
    case Object(properties, required) =>
      forall i | 0 <= i < |properties| ensures Populated(MembersOf(properties, d)[i]) <==> Inhabited(properties[i].1, all) {
        InhabitedHas(properties[i].1, d, all);
        MemberPopulated(properties, d, all, i);
      }
      ObjectHas(properties, required, d, all);
    case _ =>
  }

  lemma EnumHas(lits: seq<JsonLit>, d: Dialect, all: bool)
    requires Speaks(d, all)
    ensures Populated(Instances(Schema.Enum(lits), d)) <==> Inhabited(Schema.Enum(lits), all)
  {
    hide Instances;
    EnumInstances(lits, d);
    assert forall i :: 0 <= i < |lits| ==> (Populated(d.lit(lits[i])) <==> all || Proper(lits[i]));
    if Populated(Instances(Schema.Enum(lits), d)) {
      var w :| w in Instances(Schema.Enum(lits), d);
      var i :| 0 <= i < |lits| && w in d.lit(lits[i]);
      assert Populated(d.lit(lits[i]));
    }
    if Inhabited(Schema.Enum(lits), all) {
      var i :| 0 <= i < |lits| && (all || Proper(lits[i]));
      var w :| w in d.lit(lits[i]);
      assert w in Instances(Schema.Enum(lits), d);
    }
  }

  lemma ObjectHas(properties: seq<(string, Schema)>, required: seq<string>, d: Dialect, all: bool)
    requires Speaks(d, all)
    requires forall i :: 0 <= i < |properties| ==> (Populated(MembersOf(properties, d)[i]) <==> Inhabited(properties[i].1, all))
    ensures var sc := Schema.Object(properties, required); Populated(Instances(sc, d)) <==> Inhabited(sc, all)
  {
    var sc, ms, c := Schema.Object(properties, required), MembersOf(properties, d), ChoiceOf(properties, required, d.byName);
    ObjectInstances(properties, required, d);
    if Inhabited(sc, all) {
      hide Instances, ObjectOf, Members, Member, Inhabited;
      var js := Completed(properties, required, all, []);
      assert [] + js == js;
      var body := MembersText(ms, js, true);
      BracedIn(ms, c, js, body);
    }
    if w :| w in Instances(sc, d) {
      hide Instances, ObjectOf, Members, Member;
      var js := ObjectPicks(ms, c, w);
      PicksInhabit(properties, required, all, js);
    }
  }

  /** Positions that pick a whole object out of inhabited members show that the object is inhabited. */
  lemma PicksInhabit(properties: seq<(string, Schema)>, required: seq<string>, all: bool, js: seq<nat>)
    requires Picks(js, |properties|, ChoiceOf(properties, required, !all))
    requires forall i :: 0 <= i < |js| ==> js[i] < |properties| && Inhabited(properties[js[i]].1, all)
    ensures Inhabited(Schema.Object(properties, required), all)
  {
    forall r | 0 <= r < |required|
      ensures if all then var p := PositionOf(properties, required[r]); p < |properties| && Inhabited(properties[p].1, all)
              else exists p :: 0 <= p < |properties| && properties[p].0 == required[r] && Inhabited(properties[p].1, all)
    {
      if all {
        assert PositionOf(properties, required[r]) in RequiredSet(properties, required);
        assert PositionOf(properties, required[r]) in js;
      } else {
        assert Bears(js, NamesOf(properties), required[r]);
        var i :| 0 <= i < |js| && js[i] < |properties| && NamesOf(properties)[js[i]] == required[r];
        assert properties[js[i]].0 == required[r];
      }
    }
  }

  /** Texts for the members that complete an object. */
  lemma OtherMembers(properties: seq<(string, Schema)>, required: seq<string>, d: Dialect, all: bool, start: seq<nat>)
    returns (js: seq<nat>, rest: string)
    requires Speaks(d, all) && Inhabited(Schema.Object(properties, required), all)
    requires forall i :: 0 <= i < |start| ==> start[i] < |properties|
    requires forall i, j :: 0 <= i < j < |start| ==>
               if all then start[i] != start[j] else properties[start[i]].0 != properties[start[j]].0
    ensures Picks(start + js, |properties|, ChoiceOf(properties, required, d.byName))
    ensures forall i :: 0 <= i < |js| ==> js[i] < |properties|
    ensures rest in Members(MembersOf(properties, d), js, false)
  {
    hide Instances, Members, Member, Inhabited;
    var ms := MembersOf(properties, d);
    js := Completed(properties, required, all, start);
    forall i | 0 <= i < |js| ensures js[i] < |ms| && Populated(ms[js[i]]) {
      InhabitedHas(properties[js[i]].1, d, all);
      MemberPopulated(properties, d, all, js[i]);
    }
    rest := MembersText(ms, js, false);
  }
}
