/** `compile_value` and `compile_object`: every schema becomes one fresh fragment whose language is exactly its instances. */
module Values {
  import opened Prelude
  import opened Languages
  import opened Nfas
  import opened Fragments
  import opened NfaBuilders
  import opened Bits
  import opened Objects
  import opened Json
  import opened Spellings
  import Numbers
  import Texts
  import Arrays

  const MAX_DEPTH: nat := 24
  const MAX_NFA_STATES: nat := 400000
  const MAX_PROPERTIES: nat := 10

  datatype Reason = ControlChar | UnknownRequired | InvariantsViolated | NoInstance | MinimizationRejected

  datatype SchemaError =
    | TooDeep(depth: nat, max: nat)
    | NfaTooLarge(n: nat, max: nat)
    | TooManyStates(n: nat, max: nat)
    | TooManyProperties(n: nat, max: nat)
    | InvalidSchema(reason: Reason)

  /** The dialect the compiler reads: the three shared fragments widen it. */
  ghost const COMPILED: Dialect :=
    Dialect(Numbers.NumberScan(true).Texts(Numbers.NUM), Texts.TextScan().Texts(Texts.OPEN), Arrays.LOOSE,
            (name: string) => iset{Written(name, false)}, (l: JsonLit) => iset{LitText(l)}, false)

  lemma CompiledTexts()
    ensures forall name :: COMPILED.key(name) == iset{Written(name, false)}
    ensures forall l :: COMPILED.lit(l) == iset{LitText(l)}
    ensures !COMPILED.byName
  {
  }

  predicate PrintableLit(l: JsonLit) {
    l.Str? ==> Printable(l.s, true)
  }

  /** Everything the compiler refuses a schema for, apart from the size of the automaton. */
  predicate WithinBounds(sc: Schema, depth: nat)
    decreases sc
  {
    depth <= MAX_DEPTH &&
    match sc
    case Enum(lits) => forall i :: 0 <= i < |lits| ==> PrintableLit(lits[i])
    case AnyOf(schemas) => forall i :: 0 <= i < |schemas| ==> WithinBounds(schemas[i], depth + 1)
    case Array(items) => WithinBounds(items, depth + 1)
    case Object(properties, required) =>
      && |properties| <= MAX_PROPERTIES
      && (forall i :: 0 <= i < |required| ==> PositionOf(properties, required[i]) < |properties|)
      && forall i :: 0 <= i < |properties| ==> WithinBounds(properties[i].1, depth + 1)
    case _ => true
  }

  /** What a refusal says about the schema. */
  ghost predicate Refusal(e: SchemaError, sc: Schema, depth: nat) {
    match e
    case NfaTooLarge(n, max) => n > max == MAX_NFA_STATES
    case TooDeep(d, max) => d > max == MAX_DEPTH && !WithinBounds(sc, depth)
    case TooManyProperties(n, max) => n > max == MAX_PROPERTIES && !WithinBounds(sc, depth)
    case InvalidSchema(reason) => (reason == ControlChar || reason == UnknownRequired) && !WithinBounds(sc, depth)
    case _ => false
  }

  /** A builder call made the fresh part `x` and nothing else. */
  ghost predicate Made(before: set<Edge>, lo: nat, after: set<Edge>, hi: nat, frag: (nat, nat), x: Part) {
    x.Valid() && x.lo == lo && x.hi == hi && frag == (x.s, x.f) && after == before + x.es
  }

  // ---- texts of literals and keys ----

  method KeyOf(name: string) returns (s: string)
    ensures s == Written(name, false) && QuotedBack(s, name, false)
  {
    hide QuotedBack;
    WrittenBack(Written(name, false), name, false);
    s := "\"";
    for k := 0 to |name|
      invariant s == "\"" + WrittenBody(name[..k], false)
    {
      assert name[..k + 1][..k] == name[..k];
      s := s + WrittenChar(name[k], false);
    }
    assert name[..|name|] == name;
    s := s + "\"";
  }

  method EnumTextOf(t: string) returns (r: Result<string, SchemaError>)
    ensures r.Ok? <==> Printable(t, true)
    ensures r.Ok? ==> r.value == "\"" + WrittenBody(t, true) + "\""
    ensures r.Err? ==> r.error == InvalidSchema(ControlChar)
  {
    hide WrittenBody;
    WrittenNone();
    var s := "\"";
    for k := 0 to |t|
      invariant s == "\"" + WrittenBody(t[..k], true) && Printable(t[..k], true)
    {
      var c := t[k];
      if c < ' ' && c != '\n' && c != '\r' && c != '\t' {
        return Err(InvalidSchema(ControlChar));
      }
      WrittenStep(t, k);
      s := s + WrittenChar(c, true);
    }
    assert t[..|t|] == t;
    return Ok(s + "\"");
  }

  lemma WrittenNone()
    ensures WrittenBody([], true) == []
  {
  }

  lemma WrittenStep(t: string, k: nat)
    requires k < |t|
    ensures WrittenBody(t[..k + 1], true) == WrittenBody(t[..k], true) + WrittenChar(t[k], true)
  {
    assert t[..k + 1][..k] == t[..k];
  }

  method TextOf(l: JsonLit) returns (r: Result<string, SchemaError>)
    ensures r.Ok? <==> PrintableLit(l)
    ensures r.Ok? ==> r.value == LitText(l)
    ensures r.Ok? ==> StandsFor(r.value, l)
    ensures r.Err? ==> r.error == InvalidSchema(ControlChar)
  {
    hide StandsFor, IntText, FloatText;
    LitRead(l);
    if l.Str? {
      r := EnumTextOf(l.s);
    } else {
      r := Ok(LitText(l));
    }
  }

  // ---- small fixed parts ----

  /** `ws c ws` */
  function Surrounded(lo: nat, c: char): Part {
    Sequence(Sequence(Arrays.WsPart(lo), Symbol(lo + 12, Ch(c))), Arrays.WsPart(lo + 14))
  }

  lemma SurroundedExact(lo: nat, c: char)
    ensures var x := Surrounded(lo, c);
            && x.Valid() && x.lo == lo && x.hi == lo + 26 && x.Accepted() == Cat(Cat(WS, Chr(c)), WS)
  {
    hide Arrays.WsPart, Part.Accepted, Cat, One, WS;
    Arrays.WsEnds(lo);
    Arrays.WsEnds(lo + 14);
    Arrays.WsExact(lo);
    Arrays.WsExact(lo + 14);
    SymbolExact(lo + 12, Ch(c));
    OneChr(c);
    SequenceExact(Arrays.WsPart(lo), Symbol(lo + 12, Ch(c)));
    SequenceExact(Sequence(Arrays.WsPart(lo), Symbol(lo + 12, Ch(c))), Arrays.WsPart(lo + 14));
  }

  method Surround(b: NfaBuilder, c: char) returns (frag: (nat, nat), ghost x: Part)
    modifies b
    ensures Made(old(b.Set()), old(b.states), b.Set(), b.states, frag, x) && x.Accepted() == Cat(Cat(WS, Chr(c)), WS)
    ensures x == Surrounded(old(b.states), c)
  {
    hide Arrays.WsPart, Part.Accepted, Cat, Links, NfaBuilder.Set;
    x := Surrounded(b.states, c);
    SurroundedExact(b.states, c);
    Arrays.WsEnds(b.states);
    Arrays.WsEnds(b.states + 14);
    var ws0 := Arrays.Ws(b);
    var sym := b.Char(c);
    var ws1 := Arrays.Ws(b);
    LinksThree(ws0, sym, ws1);
    frag := b.Seq([ws0, sym, ws1]);
  }

  /** `{ ws` */
  function OpenPart(lo: nat): Part {
    Sequence(Symbol(lo, Ch('{')), Arrays.WsPart(lo + 2))
  }

  /** `ws }`, the brace on the lower states. */
  function ClosePart(lo: nat): Part {
    Sequence(Arrays.WsPart(lo + 2), Symbol(lo, Ch('}')))
  }

  method OpenBrace(b: NfaBuilder) returns (frag: (nat, nat), ghost x: Part)
    modifies b
    ensures Made(old(b.Set()), old(b.states), b.Set(), b.states, frag, x) && x.Accepted() == OPEN
    ensures x == OpenPart(old(b.states))
  {
    hide Arrays.WsPart, Part.Accepted, Cat, Links, NfaBuilder.Set;
    ghost var lo := b.states;
    x := OpenPart(lo);
    Arrays.WsEnds(lo + 2);
    Arrays.WsExact(lo + 2);
    SymbolExact(lo, Ch('{'));
    OneChr('{');
    SequenceExact(Symbol(lo, Ch('{')), Arrays.WsPart(lo + 2));
    var brace := b.Char('{');
    var ws := Arrays.Ws(b);
    LinksTwo(brace, ws);
    frag := b.Seq([brace, ws]);
  }

  method CloseBrace(b: NfaBuilder) returns (frag: (nat, nat), ghost x: Part)
    modifies b
    ensures Made(old(b.Set()), old(b.states), b.Set(), b.states, frag, x) && x.Accepted() == CLOSE
    ensures x == ClosePart(old(b.states))
  {
    hide Arrays.WsPart, Part.Accepted, Cat, Links, NfaBuilder.Set;
    ghost var lo := b.states;
    x := ClosePart(lo);
    Arrays.WsEnds(lo + 2);
    Arrays.WsExact(lo + 2);
    SymbolExact(lo, Ch('}'));
    OneChr('}');
    SequenceExact(Arrays.WsPart(lo + 2), Symbol(lo, Ch('}')));
    var brace := b.Char('}');
    var ws := Arrays.Ws(b);
    LinksTwo(ws, brace);
    frag := b.Seq([ws, brace]);
  }

  method LiteralMade(b: NfaBuilder, text: string) returns (frag: (nat, nat), ghost x: Part)
    modifies b
    ensures Made(old(b.Set()), old(b.states), b.Set(), b.states, frag, x) && x.Accepted() == iset{text}
    ensures x == Literal(text, old(b.states))
  {
    hide Literal, Part.Accepted, NfaBuilder.Set;
    x := Literal(text, b.states);
    LiteralExact(text, b.states);
    frag := b.Lit(text);
  }

  /** Links two parts made one after the other. */
  lemma MadeSequence(s0: set<Edge>, lo: nat, s1: set<Edge>, mid: nat, s2: set<Edge>, hi: nat, f: (nat, nat), g: (nat, nat),
                     x: Part, y: Part)
    requires Made(s0, lo, s1, mid, f, x) && Made(s1, mid, s2, hi, g, y)
    ensures Made(s0, lo, s2 + {Edge(f.1, Eps, g.0)}, hi, (f.0, g.1), Sequence(x, y))
    ensures Sequence(x, y).Accepted() == Cat(x.Accepted(), y.Accepted())
  {
    hide Part.Accepted, Cat;
    SequenceExact(x, y);
  }

  // ---- alternations under construction ----

  /** The fragments collected so far, one part each. */
  ghost predicate Collected(before: set<Edge>, lo: nat, after: set<Edge>, hi: nat, frags: seq<(nat, nat)>, xs: seq<Part>) {
    lo <= hi && Apart(xs, lo, hi) && Ends(xs) == frags && after == before + AllEdges(xs)
  }

  lemma CollectNone(before: set<Edge>, lo: nat)
    ensures Collected(before, lo, before, lo, [], [])
  {
  }

  lemma CollectOne(before: set<Edge>, lo: nat, s1: set<Edge>, mid: nat, frags: seq<(nat, nat)>, xs: seq<Part>,
                   s2: set<Edge>, hi: nat, f: (nat, nat), x: Part)
    requires Collected(before, lo, s1, mid, frags, xs) && Made(s1, mid, s2, hi, f, x)
    ensures Collected(before, lo, s2, hi, frags + [f], xs + [x])
  {
    assert (xs + [x])[..|xs|] == xs;
    assert Ends(xs + [x]) == Ends(xs) + [f];
  }

  /** Closing an alternation over the collected parts. */
  lemma CollectedAlt(before: set<Edge>, lo: nat, s1: set<Edge>, mid: nat, frags: seq<(nat, nat)>, xs: seq<Part>)
    requires Collected(before, lo, s1, mid, frags, xs)
    ensures var x := Alternation(xs, lo, mid);
            Made(before, lo, s1 + Branches(frags, mid), mid + 2, (mid, mid + 1), x) && x.Accepted() == AnyIn(AcceptedBy(xs))
  {
    hide Part.Accepted, AllEdges, Branches;
    AlternationExact(xs, lo, mid);
  }

  // ---- the required members ----

  /** The bit mask of the first `n` required names. */
  function BitsOf(properties: seq<(string, Schema)>, required: seq<string>, n: nat): nat
    requires n <= |required|
  {
    if n == 0 then 0 else SetBit(BitsOf(properties, required, n - 1), PositionOf(properties, required[n - 1]))
  }

  method RequiredBits(properties: seq<(string, Schema)>, required: seq<string>) returns (r: Result<nat, SchemaError>)
    ensures r.Ok? <==> forall i :: 0 <= i < |required| ==> PositionOf(properties, required[i]) < |properties|
    ensures r.Ok? ==> r.value < Pow2(|properties|) && MaskSet(r.value, |properties|) == RequiredSet(properties, required)
    ensures r.Ok? ==> r.value == BitsOf(properties, required, |required|)
    ensures r.Err? ==> r.error == InvalidSchema(UnknownRequired)
  {
    hide SetBit, PositionOf, MaskSet;
    var k := |properties|;
    var bits: nat := 0;
    MaskEmpty(0, k);
    for i := 0 to |required|
      invariant bits < Pow2(k) && MaskSet(bits, k) == RequiredSet(properties, required[..i])
      invariant forall h :: 0 <= h < i ==> PositionOf(properties, required[h]) < k
      invariant bits == BitsOf(properties, required, i)
    {
      var idx := Position(properties, required[i]);
      if idx == k {
        return Err(InvalidSchema(UnknownRequired));
      }
      SetBitBelow(bits, idx, k);
      SetBitSet(bits, idx, k);
      RequiredExtend(properties, required, i);
      bits := SetBit(bits, idx);
    }
    assert required[..|required|] == required;
    return Ok(bits);
  }

  lemma RequiredExtend(properties: seq<(string, Schema)>, required: seq<string>, i: nat)
    requires i < |required|
    ensures RequiredSet(properties, required[..i + 1]) == RequiredSet(properties, required[..i]) + {PositionOf(properties, required[i])}
  {
    hide PositionOf;
    var a, b := required[..i + 1], required[..i];
    forall x | x in RequiredSet(properties, a) ensures x in RequiredSet(properties, b) + {PositionOf(properties, required[i])} {
      var h :| 0 <= h < |a| && PositionOf(properties, a[h]) == x;
      if h < i { assert b[h] == a[h]; }
    }
    forall x | x in RequiredSet(properties, b) ensures x in RequiredSet(properties, a) {
      var h :| 0 <= h < |b| && PositionOf(properties, b[h]) == x;
      assert a[h] == b[h];
    }
    assert a[i] == required[i];
  }

  /** The first property of that name, by linear search. */
  method Position(properties: seq<(string, Schema)>, name: string) returns (idx: nat)
    ensures idx == PositionOf(properties, name)
  {
    idx := 0;
    while idx < |properties| && properties[idx].0 != name
      invariant idx <= |properties| && forall i :: 0 <= i < idx ==> properties[i].0 != name
    {
      idx := idx + 1;
    }
    PositionUnique(properties, name, idx);
  }

  lemma PositionUnique(properties: seq<(string, Schema)>, name: string, idx: nat)
    requires idx <= |properties| && (idx < |properties| ==> properties[idx].0 == name)
    requires forall i :: 0 <= i < idx ==> properties[i].0 != name
    ensures idx == PositionOf(properties, name)
  {
  }

  // ---- objects ----

  ghost function ShapeOf(properties: seq<(string, Schema)>, required: seq<string>): Shape {
    Shape(seq(|properties|, i requires 0 <= i < |properties| => Member(COMPILED.key(properties[i].0), Instances(properties[i].1, COMPILED))),
          RequiredSet(properties, required))
  }

  /** The edges added so far, and what every state can read. */
  datatype Work = Work(es: set<Edge>, r: nat -> Lang)

  /** The construction so far: labelled, with the opening in place. */
  ghost predicate Going(f: Frame, w: Work, hi: nat, s: nat) {
    && f.Valid() && f.Labelled(w.es, hi, w.r) && f.lo <= s < hi && w.r(s) == Cat(OPEN, Rest(f.o, {}))
    && Reaches(w.es, s, OPEN, f.lo)
  }

  lemma GoingParts(f: Frame, w: Work, hi: nat, s: nat)
    requires Going(f, w, hi, s)
    ensures f.Valid() && f.Labelled(w.es, hi, w.r) && f.lo <= s < hi && f.Fin() < hi
  {
  }

  lemma MadeParts(before: set<Edge>, lo: nat, after: set<Edge>, hi: nat, frag: (nat, nat), x: Part)
    requires Made(before, lo, after, hi, frag, x)
    ensures x.Valid() && x.lo == lo < x.hi == hi && frag == (x.s, x.f) && after == before + x.es
    ensures lo <= frag.0 < hi && lo <= frag.1 < hi
  {
  }

  lemma ExtendBelow(r: nat -> Lang, x: Part, k: Lang, p: nat)
    requires p < x.lo
    ensures Extend(r, x, k)(p) == r(p)
  {
  }

  lemma OpenMade(f: Frame, s0: set<Edge>, after: set<Edge>, hi: nat, open: (nat, nat), x: Part) returns (w: Work)
    requires f.Valid() && Made(s0, f.Fin() + 1, after, hi, open, x) && x.Accepted() == OPEN
    ensures Going(f, w, hi, open.0) && after + {Edge(open.1, Eps, f.lo)} == s0 + w.es
    ensures w.es == x.es + {Edge(x.f, Eps, f.lo)}
  {
    hide Frame.Labelled, Reaches, Cat, Rest, Extend, Part.Accepted;
    MadeParts(s0, f.Fin() + 1, after, hi, open, x);
    OpenAdded(f, x);
    w := Work(x.es + {Edge(x.f, Eps, f.lo)}, Extend(StartLabel(f), x, Rest(f.o, {})));
  }

  lemma SeparatorMade(f: Frame, w: Work, hi: nat, s: nat, mask: nat, s0: set<Edge>, before: set<Edge>, after: set<Edge>, hi2: nat,
                      sep: (nat, nat), x: Part) returns (w2: Work)
    requires Going(f, w, hi, s) && 0 < mask < Pow2(f.k) && before == s0 + w.es
    requires Made(before, hi, after, hi2, sep, x) && x.Accepted() == SEPARATOR
    ensures Going(f, w2, hi2, s) && f.EntryOf(w2.es, w2.r, mask, sep.1) && f.lo <= sep.1 < hi2
    ensures after + {Edge(f.lo + mask, Eps, sep.0)} == s0 + w2.es && w.es <= w2.es
    ensures w2.es == w.es + x.es + {Edge(f.lo + mask, Eps, x.s)}
  {
    hide Frame.Labelled, Reaches, Cat, Rest, Extend, Part.Accepted, Frame.EntryOf, Next, SEPARATOR, MaskSet;
    MadeParts(before, hi, after, hi2, sep, x);
    GoingParts(f, w, hi, s);
    SeparatorAdded(f, w.es, hi, w.r, mask, x);
    w2 := Work(w.es + x.es + {Edge(f.lo + mask, Eps, x.s)}, Extend(w.r, x, Next(f.o, f.Done(mask))));
    ExtendBelow(w.r, x, Next(f.o, f.Done(mask)), s);
    ReachesMono(w.es, w2.es, s, OPEN, f.lo);
  }

  lemma MemberMade(f: Frame, w: Work, hi: nat, s: nat, mask: nat, j: nat, entry: nat, s0: set<Edge>, before: set<Edge>,
                   after: set<Edge>, hi2: nat, chain: (nat, nat), x: Part) returns (w2: Work)
    requires Going(f, w, hi, s) && mask < Pow2(f.k) && j < f.k && !Bit(mask, j) && before == s0 + w.es
    requires f.EntryOf(w.es, w.r, mask, entry) && f.lo <= entry < hi
    requires Made(before, hi, after, hi2, chain, x) && x.Accepted() == f.o.members[j]
    ensures Going(f, w2, hi2, s) && f.EntryOf(w2.es, w2.r, mask, entry) && f.lo <= entry < hi2
    ensures f.Chained(w2.es, mask, j) && w.es <= w2.es
    ensures after + {Edge(entry, Eps, chain.0)} + {Edge(chain.1, Eps, f.lo + SetBit(mask, j))} == s0 + w2.es
    ensures w2.es == w.es + x.es + {Edge(entry, Eps, x.s)} + {Edge(x.f, Eps, f.lo + SetBit(mask, j))}
  {
    hide Frame.Labelled, Reaches, Cat, Rest, Extend, Part.Accepted, Frame.EntryOf, Frame.Chained, SEPARATOR, MaskSet, SetBit, Bit;
    MadeParts(before, hi, after, hi2, chain, x);
    GoingParts(f, w, hi, s);
    MemberAdded(f, w.es, hi, w.r, mask, j, entry, x);
    w2 := Work(w.es + x.es + {Edge(entry, Eps, x.s)} + {Edge(x.f, Eps, f.lo + SetBit(mask, j))},
               Extend(w.r, x, Rest(f.o, f.Done(mask) + {j})));
    ExtendBelow(w.r, x, Rest(f.o, f.Done(mask) + {j}), s);
    ReachesMono(w.es, w2.es, s, OPEN, f.lo);
  }

  lemma CloseMade(f: Frame, w: Work, hi: nat, s: nat, s0: set<Edge>, before: set<Edge>, after: set<Edge>, hi2: nat,
                  close: (nat, nat), x: Part) returns (w2: Work)
    requires Going(f, w, hi, s) && before == s0 + w.es && Made(before, hi, after, hi2, close, x) && x.Accepted() == CLOSE
    ensures Going(f, w2, hi2, s) && f.lo <= close.0 < hi2 && w2.r(close.0) == CLOSE && Reaches(w2.es, close.0, CLOSE, f.Fin())
    ensures after + {Edge(close.1, Eps, f.Fin())} == s0 + w2.es && w.es <= w2.es
    ensures w2.es == w.es + x.es + {Edge(x.f, Eps, f.Fin())}
  {
    hide Frame.Labelled, Reaches, Cat, Rest, Extend, Part.Accepted;
    MadeParts(before, hi, after, hi2, close, x);
    GoingParts(f, w, hi, s);
    CloseAdded(f, w.es, hi, w.r, x);
    w2 := Work(w.es + x.es + {Edge(x.f, Eps, f.Fin())}, Extend(w.r, x, EPSILON));
    ExtendBelow(w.r, x, EPSILON, s);
    ReachesMono(w.es, w2.es, s, OPEN, f.lo);
  }

  lemma ClosingMade(f: Frame, w: Work, hi: nat, s: nat, mask: nat, close: nat) returns (w2: Work)
    requires Going(f, w, hi, s) && mask < Pow2(f.k) && f.o.required <= f.Done(mask)
    requires f.lo <= close < hi && w.r(close) == CLOSE && Reaches(w.es, close, CLOSE, f.Fin())
    ensures Going(f, w2, hi, s) && w2.r(close) == CLOSE && Reaches(w2.es, close, CLOSE, f.Fin()) && f.ClosesFrom(w2.es, mask)
    ensures w2.es == w.es + {Edge(f.lo + mask, Eps, close)}
  {
    hide Frame.Labelled, Reaches, Cat, Rest, Extend, Frame.ClosesFrom, MaskSet;
    GoingParts(f, w, hi, s);
    CloseLinked(f, w.es, hi, w.r, mask, close);
    w2 := Work(w.es + {Edge(f.lo + mask, Eps, close)}, w.r);
    ReachesMono(w.es, w2.es, s, OPEN, f.lo);
  }

  /** The finished object is one fresh part. */
  lemma ObjectMade(f: Frame, w: Work, hi: nat, s: nat) returns (x: Part)
    requires Going(f, w, hi, s)
    requires forall n: nat :: n < Pow2(f.k) ==> f.MaskDone(w.es, n) && f.ClosesFrom(w.es, n)
    ensures x == Part(w.es, f.lo, hi, s, f.Fin()) && x.Valid() && x.Accepted() == ObjectOf(f.o.members, ByPlace(f.o.required))
  {
    hide Frame.MaskDone, Frame.ClosesFrom, Cat, Rest, ObjectOf, Reaches;
    ObjectExact(f, w.es, hi, w.r, s);
    x := Part(w.es, f.lo, hi, s, f.Fin());
  }
}
