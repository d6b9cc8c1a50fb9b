/** Laws of the instance texts: monotone in the dialect, never empty. */
module JsonLaws {
  import opened Languages
  import opened Json

  ghost predicate Narrower(d: Dialect, e: Dialect) {
    && d.byName == e.byName && d.number <= e.number && d.text <= e.text && d.separator <= e.separator
    && (forall name :: d.key(name) <= e.key(name)) && forall l :: d.lit(l) <= e.lit(l)
  }

  ghost function MembersOf(properties: seq<(string, Schema)>, d: Dialect): seq<Lang> {
    seq(|properties|, i requires 0 <= i < |properties| => Member(d.key(properties[i].0), Instances(properties[i].1, d)))
  }

  lemma AnyInMono(ls: seq<Lang>, ms: seq<Lang>)
    requires |ls| == |ms| && forall i :: 0 <= i < |ls| ==> ls[i] <= ms[i]
    ensures AnyIn(ls) <= AnyIn(ms)
  {
    forall w | w in AnyIn(ls) ensures w in AnyIn(ms) {
      var i :| InNth(ls, i, w);
      assert InNth(ms, i, w);
    }
  }

  lemma ArrayMono(item: Lang, sep: Lang, item2: Lang, sep2: Lang)
    requires item <= item2 && sep <= sep2
    ensures ArrayOf(item, sep) <= ArrayOf(item2, sep2)
  {
    var tail := Cat(WS, Chr(']'));
    var more, more2 := Cat(sep, item), Cat(sep2, item2);
    CatMono(sep, item, sep2, item2);
    forall w | w in Star(more) ensures w in Star(more2) {
      StarMono(more, more2, w);
    }
    CatMono(item, Star(more), item2, Star(more2));
    CatMono(Opt(Cat(item, Star(more))), tail, Opt(Cat(item2, Star(more2))), tail);
    CatMono(Cat(Chr('['), WS), Cat(Opt(Cat(item, Star(more))), tail), Cat(Chr('['), WS), Cat(Opt(Cat(item2, Star(more2))), tail));
  }

  lemma {:induction false} MembersMono(ls: seq<Lang>, ms: seq<Lang>, js: seq<nat>, first: bool)
    requires |ls| == |ms| && forall i :: 0 <= i < |ls| ==> ls[i] <= ms[i]
    requires forall i :: 0 <= i < |js| ==> js[i] < |ls|
    ensures Members(ls, js, first) <= Members(ms, js, first)
    decreases |js|
  {
    if js != [] {
      MembersMono(ls, ms, js[1..], false);
      var a, b := ls[js[0]], ms[js[0]];
      CatMono(SEPARATOR, a, SEPARATOR, b);
      CatMono(if first then a else Cat(SEPARATOR, a), Members(ls, js[1..], false),
              if first then b else Cat(SEPARATOR, b), Members(ms, js[1..], false));
    }
  }

  lemma ObjectMono(ls: seq<Lang>, ms: seq<Lang>, c: Choice)
    requires |ls| == |ms| && forall i :: 0 <= i < |ls| ==> ls[i] <= ms[i]
    ensures ObjectOf(ls, c) <= ObjectOf(ms, c)
  {
    hide Cat, Members;
    var open, close := Cat(Chr('{'), WS), Cat(WS, Chr('}'));
    forall w | w in ObjectOf(ls, c) ensures w in ObjectOf(ms, c) {
      var js :| Picks(js, |ls|, c) && w in Cat(open, Cat(Members(ls, js, true), close));
      MembersMono(ls, ms, js, true);
      CatMono(Members(ls, js, true), close, Members(ms, js, true), close);
      CatMono(open, Cat(Members(ls, js, true), close), open, Cat(Members(ms, js, true), close));
      assert Picks(js, |ms|, c);
    }
  }

  lemma MemberMono(key: Lang, value: Lang, key2: Lang, value2: Lang)
    requires key <= key2 && value <= value2
    ensures Member(key, value) <= Member(key2, value2)
  {
    CatMono(key, COLON, key2, COLON);
    CatMono(Cat(key, COLON), value, Cat(key2, COLON), value2);
  }

  /** A wider dialect has more instance texts; every schema, every depth. */
  lemma {:induction false} InstancesMono(sc: Schema, d: Dialect, e: Dialect)
    requires Narrower(d, e)
    ensures Instances(sc, d) <= Instances(sc, e)
    decreases sc
  {
    match sc
    case Enum(lits) =>
      AnyInMono(seq(|lits|, i requires 0 <= i < |lits| => d.lit(lits[i])), seq(|lits|, i requires 0 <= i < |lits| => e.lit(lits[i])));
    case AnyOf(schemas) =>
      forall i | 0 <= i < |schemas| ensures Instances(schemas[i], d) <= Instances(schemas[i], e) {
        InstancesMono(schemas[i], d, e);
      }
      AnyInMono(seq(|schemas|, i requires 0 <= i < |schemas| => Instances(schemas[i], d)),
                seq(|schemas|, i requires 0 <= i < |schemas| => Instances(schemas[i], e)));
    case Array(items) =>
      InstancesMono(items, d, e);
      ArrayMono(Instances(items, d), d.separator, Instances(items, e), e.separator);
    case Object(properties, required) =>
      hide Member;
      forall i | 0 <= i < |properties| ensures MembersOf(properties, d)[i] <= MembersOf(properties, e)[i] {
        InstancesMono(properties[i].1, d, e);
        MemberMono(d.key(properties[i].0), Instances(properties[i].1, d), e.key(properties[i].0), Instances(properties[i].1, e));
      }
      ObjectMono(MembersOf(properties, d), MembersOf(properties, e), ChoiceOf(properties, required, d.byName));
    case _ =>
  }

  // ---- no instance is the empty text ----

  lemma CatNonEmpty(a: Lang, b: Lang)
    requires [] !in a || [] !in b
    ensures [] !in Cat(a, b)
  {
    if [] in Cat(a, b) {
      var u, v := CatSplit(a, b, []);
    }
  }

  lemma NatTextNonEmpty(n: nat)
    ensures NatText(n) != []
  {
  }

  /** No literal is written as the empty text. */
  lemma LitTextNonEmpty(l: JsonLit)
    ensures LitText(l) != []
  {
    match l
    case Int(i) => NatTextNonEmpty(if i < 0 then -i else i);
    case Float(x) => if x.Finite? { NatTextNonEmpty(x.whole); }
    case _ =>
  }

  lemma IntNonEmpty()
    ensures [] !in INT && [] !in INTEGER
  {
    CatNonEmpty(One(Nonzero), DIGITS0);
    CatNonEmpty(Opt(Chr('-')), INT);
  }

  /** No instance text is empty. */
  lemma {:induction false} InstancesNonEmpty(sc: Schema, d: Dialect)
    requires [] !in d.number && [] !in d.text && forall l :: [] !in d.lit(l)
    ensures [] !in Instances(sc, d)
    decreases sc
  {
    hide Cat, ArrayOf, INTEGER;
    match sc
    case Integer => IntNonEmpty();
    case AnyOf(schemas) =>
      forall i | 0 <= i < |schemas| ensures [] !in Instances(schemas[i], d) { InstancesNonEmpty(schemas[i], d); }
    case Array(items) => ArrayNonEmpty(Instances(items, d), d.separator);
    case Object(properties, required) => ObjectNonEmpty(MembersOf(properties, d), ChoiceOf(properties, required, d.byName));
    case _ =>
  }

  lemma ArrayNonEmpty(item: Lang, separator: Lang)
    ensures [] !in ArrayOf(item, separator)
  {
    hide Cat;
    CatNonEmpty(Chr('['), WS);
    CatNonEmpty(Cat(Chr('['), WS), Cat(Opt(Cat(item, Star(Cat(separator, item)))), Cat(WS, Chr(']'))));
  }

  lemma ObjectNonEmpty(members: seq<Lang>, c: Choice)
    ensures [] !in ObjectOf(members, c)
  {
    hide Cat, Members;
    CatNonEmpty(Chr('{'), WS);
    if [] in ObjectOf(members, c) {
      var js :| Picks(js, |members|, c) &&
                [] in Cat(Cat(Chr('{'), WS), Cat(Members(members, js, true), Cat(WS, Chr('}'))));
      CatNonEmpty(Cat(Chr('{'), WS), Cat(Members(members, js, true), Cat(WS, Chr('}'))));
    }
  }
}
