/** The third lexer on the valid instances: no object text reads one name twice. */
module Levels {
  import opened Languages
  import opened Json
  import opened JsonLaws
  import opened Spellings
  import opened Lexing
  import opened Escapes
  import Numbers
  import NumberLaws

  /** Outside a string, with the names read so far in every open object. */
  ghost function LEVEL(seen: seq<set<string>>): iset<State> {
    iset st: State | st.Level? && st.seen == seen
  }

  // ---- strings are read character by character ----

  predicate Flat(w: string) {
    forall i :: 0 <= i < |w| ==> w[i] != '\"' && w[i] != '\\'
  }

  lemma {:induction false} FlatRun(w: string, seen: seq<set<string>>, text: string)
    requires Flat(w)
    ensures Run(Reading(seen, text), w) == Reading(seen, text + w)
    decreases |w|
  {
    if w == [] {
      assert text + w == text;
    } else {
      FlatRun(w[1..], seen, text + [w[0]]);
      assert text + [w[0]] + w[1..] == text + w;
    }
  }

  lemma HexFlat(w: string)
    requires w in HEX4
    ensures Flat(w)
  {
    var a, r := CatSplit(One(Hex), Cat(One(Hex), Cat(One(Hex), One(Hex))), w);
    var b, s := CatSplit(One(Hex), Cat(One(Hex), One(Hex)), r);
    var c, d := CatSplit(One(Hex), One(Hex), s);
    assert w == a + (b + (c + d));
  }

  /** An escape is a backslash, a character, and possibly hexadecimal digits. */
  lemma EscapeParts(w: string) returns (c: char, h: string)
    requires w in ESCAPE
    ensures w == ['\\', c] + h && Flat(h)
  {
    hide HEX4;
    var a, r := CatSplit(Chr('\\'), One(Simple) + Cat(Chr('u'), HEX4), w);
    if r in One(Simple) {
      c, h := r[0], [];
      assert w == ['\\', c] + [];
    } else {
      var u, x := CatSplit(Chr('u'), HEX4, r);
      HexFlat(x);
      c, h := 'u', x;
    }
  }

  lemma EscapeRead(w: string, seen: seq<set<string>>, text: string)
    requires w in ESCAPE
    ensures Run(Reading(seen, text), w) == Reading(seen, text + w)
  {
    hide ESCAPE, Run;
    var c, h := EscapeParts(w);
    RunConcat(Reading(seen, text), ['\\', c], h);
    TwoChars(Reading(seen, text), '\\', c);
    FlatRun(h, seen, text + ['\\'] + [c]);
    assert text + ['\\'] + [c] + h == text + w;
  }

  lemma {:induction false} CharsRead(w: string, seen: seq<set<string>>, text: string)
    requires w in CHARS
    ensures Run(Reading(seen, text), w) == Reading(seen, text + w)
    decreases |w|
  {
    hide ESCAPE, Run;
    if w == [] {
      assert text + w == text;
      assert Run(Reading(seen, text), []) == Reading(seen, text) by { RunNone(Reading(seen, text)); }
    } else {
      var u, v := StarSplit(One(Plain) + ESCAPE, w);
      if u in ESCAPE {
        EscapeRead(u, seen, text);
      } else {
        FlatRun(u, seen, text);
      }
      CharsRead(v, seen, text + u);
      RunConcat(Reading(seen, text), u, v);
      assert text + u + v == text + w;
    }
  }

  lemma RunNone(st: State)
    ensures Run(st, []) == st
  {
  }

  /** Behind a string the lexer holds its text. */
  lemma StringRead(w: string, seen: seq<set<string>>, last: string)
    requires w in STRING
    ensures Run(Level(seen, last), w) == Level(seen, w)
  {
    hide CHARS, Cat, Run;
    StringIs();
    var q, r := CatSplit(Chr('\"'), Cat(CHARS, Chr('\"')), w);
    var body, e := CatSplit(CHARS, Chr('\"'), r);
    CharsRead(body, seen, "\"");
    QuoteRun(Level(seen, last), body);
    assert w == "\"" + body + "\"";
  }

  // ---- everything else but names leaves the level as it is ----

  lemma {:induction false} BareLevel(w: string, seen: seq<set<string>>, last: string)
    requires Bare(w)
    ensures Run(Level(seen, last), w) == Level(seen, last)
    decreases |w|
  {
    if w != [] {
      assert BareChar(w[0]);
      BareLevel(w[1..], seen, last);
    }
  }

  lemma BareTakesLevel(l: Lang, seen: seq<set<string>>)
    requires forall w :: w in l ==> Bare(w)
    ensures Takes(LEVEL(seen), l, LEVEL(seen))
  {
    forall st, w | st in LEVEL(seen) && w in l ensures Run(st, w) in LEVEL(seen) { BareLevel(w, seen, st.last); }
  }

  lemma StringsTakeLevel(l: Lang, seen: seq<set<string>>)
    requires l <= STRING
    ensures Takes(LEVEL(seen), l, LEVEL(seen))
  {
    hide STRING, Run;
    forall st, w | st in LEVEL(seen) && w in l ensures Run(st, w) in LEVEL(seen) { StringRead(w, seen, st.last); }
  }

  lemma LitTakesLevel(l: JsonLit, seen: seq<set<string>>)
    ensures Takes(LEVEL(seen), LitTexts(l), LEVEL(seen))
  {
    hide STRING, Quoted, LitText, Takes;
    if l.Str? {
      QuotedString(l.s);
      StringsTakeLevel(LitTexts(l), seen);
    } else {
      LitBare(l);
      LitPlain(l);
      BareTakesLevel(LitTexts(l), seen);
    }
  }

  lemma LitPlain(l: JsonLit)
    requires !l.Str?
    ensures LitTexts(l) <= iset{LitText(l)}
  {
    LitRead(l);
  }

  lemma NumbersTakeLevel(seen: seq<set<string>>)
    ensures Takes(LEVEL(seen), NUMBER, LEVEL(seen)) && Takes(LEVEL(seen), INTEGER, LEVEL(seen))
  {
    hide NUMBER, INTEGER, Takes;
    forall w | w in NUMBER ensures Bare(w) {
      NumberLaws.NumberWide(w);
      NumberBare(true, Numbers.NUM, w);
    }
    forall w | w in INTEGER ensures Bare(w) { IntegerBare(w); }
    BareTakesLevel(NUMBER, seen);
    BareTakesLevel(INTEGER, seen);
  }

  lemma BlanksTakeLevel(seen: seq<set<string>>)
    ensures Takes(LEVEL(seen), WS, LEVEL(seen)) && Takes(LEVEL(seen), SEPARATOR, LEVEL(seen))
  {
    BlanksTake(LEVEL(seen));
    MarkTakes(LEVEL(seen), ',', LEVEL(seen));
  }

  lemma BracketsTakeLevel(seen: seq<set<string>>)
    ensures Takes(LEVEL(seen), Chr('['), LEVEL(seen)) && Takes(LEVEL(seen), Chr(']'), LEVEL(seen))
  {
    hide Takes;
    TakesChr(LEVEL(seen), '[', LEVEL(seen));
    TakesChr(LEVEL(seen), ']', LEVEL(seen));
  }

  // ---- objects ----

  /** In an object all of whose names read so far decode to one of the given ones. */
  ghost function SEEN(outer: seq<set<string>>, names: set<string>): iset<State> {
    iset st: State | st.Level? && |st.seen| == |outer| + 1 && st.seen[..|outer|] == outer && Decode(st.seen[|outer|], names)
  }

  ghost predicate Decode(texts: set<string>, names: set<string>) {
    forall k :: k in texts ==> exists n :: n in names && k in Quoted(n)
  }

  lemma BlanksTakeSeen(outer: seq<set<string>>, names: set<string>)
    ensures Takes(SEEN(outer, names), WS, SEEN(outer, names)) && Takes(SEEN(outer, names), SEPARATOR, SEEN(outer, names))
  {
    hide Decode;
    var p := SEEN(outer, names);
    BlanksTake(p);
    MarkTakes(p, ',', p);
  }

  /** The blanks around the colon of a member read its name. */
  lemma ColonRun(w: string, outer: seq<set<string>>, seen: set<string>, k: string)
    requires w in COLON && k !in seen
    ensures Run(Level(outer + [seen], k), w) == Level(outer + [seen + {k}], k)
  {
    hide WS;
    var p, q := iset{Level(outer + [seen], k)}, iset{Level(outer + [seen + {k}], k)};
    assert (outer + [seen])[..|outer|] == outer;
    MarkTakes(p, ':', q);
  }

  /** One more member with a name not read yet. */
  lemma MemberSeen(outer: seq<set<string>>, names: set<string>, name: string, value: Lang)
    requires name !in names && forall seen :: Takes(LEVEL(seen), value, LEVEL(seen))
    ensures Takes(SEEN(outer, names), Member(Quoted(name), value), SEEN(outer, names + {name}))
  {
    hide Quoted, COLON, STRING, Cat, Run;
    QuotedString(name);
    forall st, w | st in SEEN(outer, names) && w in Member(Quoted(name), value) ensures Run(st, w) in SEEN(outer, names + {name}) {
      var u, v := CatSplit(Cat(Quoted(name), COLON), value, w);
      var k, c := CatSplit(Quoted(name), COLON, u);
      var seen := st.seen[|outer|];
      assert st == Level(outer + [seen], st.last);
      if k in seen {
        var n :| n in names && k in Quoted(n);
        QuotedUnique(n, name, k);
      }
      RunConcat(st, u, v);
      RunConcat(st, k, c);
      StringRead(k, outer + [seen], st.last);
      ColonRun(c, outer, seen, k);
      var inner := outer + [seen + {k}];
      assert Takes(LEVEL(inner), value, LEVEL(inner));
      assert Run(Level(inner, k), v) in LEVEL(inner);
      assert Decode(seen + {k}, names + {name});
    }
  }

  /** The names at the given positions. */
  ghost function NamesAt(names: seq<string>, js: seq<nat>): set<string>
    requires forall i :: 0 <= i < |js| ==> js[i] < |names|
  {
    set i | 0 <= i < |js| :: names[js[i]]
  }

  /** Every member reads its own name and leaves the outer levels alone. */
  ghost predicate OwnNames(members: seq<Lang>, names: seq<string>) {
    |members| == |names| &&
    forall j, outer, done :: 0 <= j < |names| && names[j] !in done ==> Takes(SEEN(outer, done), members[j], SEEN(outer, done + {names[j]}))
  }

  lemma {:induction false} MembersSeen(members: seq<Lang>, names: seq<string>, js: seq<nat>, outer: seq<set<string>>, done: set<string>,
                                       first: bool)
    requires OwnNames(members, names) && ChoosesNames(js, names, [])
    requires forall i :: 0 <= i < |js| ==> names[js[i]] !in done
    ensures Takes(SEEN(outer, done), Members(members, js, first), SEEN(outer, done + NamesAt(names, js)))
    decreases |js|
  {
    hide SEPARATOR, Cat, Takes;
    if js == [] {
      NoMembersSeen(members, outer, done, first);
      assert done + NamesAt(names, js) == done;
    } else {
      var j, rest := js[0], js[1..];
      assert forall i :: 0 <= i < |rest| ==> rest[i] == js[i + 1];
      MembersSeen(members, names, rest, outer, done + {names[j]}, false);
      BlanksTakeSeen(outer, done);
      TakesCat(SEEN(outer, done), SEPARATOR, SEEN(outer, done), members[j], SEEN(outer, done + {names[j]}));
      var head := if first then members[j] else Cat(SEPARATOR, members[j]);
      TakesCat(SEEN(outer, done), head, SEEN(outer, done + {names[j]}), Members(members, rest, false),
               SEEN(outer, done + {names[j]} + NamesAt(names, rest)));
      assert NamesAt(names, js) == {names[j]} + NamesAt(names, rest);
      assert done + {names[j]} + NamesAt(names, rest) == done + NamesAt(names, js);
    }
  }

  lemma NoMembersSeen(members: seq<Lang>, outer: seq<set<string>>, done: set<string>, first: bool)
    ensures Takes(SEEN(outer, done), Members(members, [], first), SEEN(outer, done))
  {
  }

  /** An object chosen by names closes at the level it was opened on. */
  lemma ObjectTakesLevel(members: seq<Lang>, names: seq<string>, required: seq<string>, outer: seq<set<string>>)
    requires OwnNames(members, names)
    ensures Takes(LEVEL(outer), ObjectOf(members, ByName(names, required)), LEVEL(outer))
  {
    var open, close := Cat(Chr('{'), WS), Cat(WS, Chr('}'));
    OpenSeen(outer);
    hide Cat, Members, WS, OwnNames, Run;
    forall st, w | st in LEVEL(outer) && w in ObjectOf(members, ByName(names, required)) ensures Run(st, w) in LEVEL(outer) {
      var js :| Picks(js, |members|, ByName(names, required)) && w in Cat(open, Cat(Members(members, js, true), close));
      MembersSeen(members, names, js, outer, {}, true);
      var all := {} + NamesAt(names, js);
      CloseSeen(outer, all);
      TakesCat(SEEN(outer, {}), Members(members, js, true), SEEN(outer, all), close, LEVEL(outer));
      TakesCat(LEVEL(outer), open, SEEN(outer, {}), Cat(Members(members, js, true), close), LEVEL(outer));
    }
  }

  lemma OpenSeen(outer: seq<set<string>>)
    ensures Takes(LEVEL(outer), Cat(Chr('{'), WS), SEEN(outer, {}))
  {
    TakesChr(LEVEL(outer), '{', SEEN(outer, {}));
    BlanksTakeSeen(outer, {});
    TakesCat(LEVEL(outer), Chr('{'), SEEN(outer, {}), WS, SEEN(outer, {}));
  }

  lemma CloseSeen(outer: seq<set<string>>, names: set<string>)
    ensures Takes(SEEN(outer, names), Cat(WS, Chr('}')), LEVEL(outer))
  {
    TakesChr(SEEN(outer, names), '}', LEVEL(outer));
    BlanksTakeSeen(outer, names);
    TakesCat(SEEN(outer, names), WS, SEEN(outer, names), Chr('}'), LEVEL(outer));
  }

  // ---- every valid instance text ----

  /** Every valid instance text leaves the names read so far as they are: no name is read twice. */
  lemma {:induction false} NoRepeats(sc: Schema, seen: seq<set<string>>)
    ensures Takes(LEVEL(seen), Instances(sc, RFC), LEVEL(seen))
    decreases sc
  {
    hide NUMBER, STRING, INTEGER, SEPARATOR, WS, ArrayOf, ObjectOf, Member, Takes, Quoted, LitTexts, LEVEL;
    match sc
    case Null => WordLevel(seen);
    case Boolean =>
      WordLevel(seen);
      TakesEither(LEVEL(seen), iset{"true"}, iset{"false"}, LEVEL(seen));
      assert iset{"true"} + iset{"false"} == iset{"true", "false"};
    case Integer => NumbersTakeLevel(seen);
    case Number => NumbersTakeLevel(seen);
    case String => StringsTakeLevel(STRING, seen);
    case Enum(lits) =>
      var ls := seq(|lits|, i requires 0 <= i < |lits| => RFC.lit(lits[i]));
      forall i | 0 <= i < |ls| ensures Takes(LEVEL(seen), ls[i], LEVEL(seen)) { LitTakesLevel(lits[i], seen); }
      AnyTakes(LEVEL(seen), ls, LEVEL(seen));
    case AnyOf(schemas) =>
      var ls := seq(|schemas|, i requires 0 <= i < |schemas| => Instances(schemas[i], RFC));
      forall i | 0 <= i < |ls| ensures Takes(LEVEL(seen), ls[i], LEVEL(seen)) { NoRepeats(schemas[i], seen); }
      AnyTakes(LEVEL(seen), ls, LEVEL(seen));
    case Array(items) =>
      NoRepeats(items, seen);
      BlanksTakeLevel(seen);
      BracketsTakeLevel(seen);
      ArrayTakes(Instances(items, RFC), SEPARATOR, LEVEL(seen), LEVEL(seen), LEVEL(seen), LEVEL(seen), LEVEL(seen));
    case Object(properties, required) => ObjectNoRepeats(sc, seen);
  }

  lemma WordLevel(seen: seq<set<string>>)
    ensures Takes(LEVEL(seen), iset{"null"}, LEVEL(seen)) && Takes(LEVEL(seen), iset{"true"}, LEVEL(seen))
    ensures Takes(LEVEL(seen), iset{"false"}, LEVEL(seen))
  {
    hide Takes;
    assert Bare("null") && Bare("true") && Bare("false");
    BareTakesLevel(iset{"null"}, seen);
    BareTakesLevel(iset{"true"}, seen);
    BareTakesLevel(iset{"false"}, seen);
  }

  lemma {:induction false} ObjectNoRepeats(sc: Schema, seen: seq<set<string>>)
    requires sc.Object?
    ensures Takes(LEVEL(seen), Instances(sc, RFC), LEVEL(seen))
    decreases sc, 0
  {
    hide ObjectOf, Member, Takes, Quoted, LEVEL, SEEN;
    var (properties, names) := (sc.properties, NamesOf(sc.properties));
    var ms := MembersOf(properties, RFC);
    forall j, outer, done | 0 <= j < |names| && names[j] !in done
      ensures Takes(SEEN(outer, done), ms[j], SEEN(outer, done + {names[j]}))
    {
      forall inner ensures Takes(LEVEL(inner), Instances(properties[j].1, RFC), LEVEL(inner)) { NoRepeats(properties[j].1, inner); }
      MemberSeen(outer, done, names[j], Instances(properties[j].1, RFC));
    }
    ObjectTakesLevel(ms, names, sc.required, seen);
  }
}
