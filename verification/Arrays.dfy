/** Whitespace and arrays. The whitespace between comma and item is one shared fragment, so the separator is wider. */
module Arrays {
  import opened Languages
  import opened Nfas
  import opened Fragments
  import opened NfaBuilders
  import Texts
  import J = Json

  // ---- whitespace ----

  const BLANKS: string := " \t\n\r"

  function SymbolParts(text: string, lo: nat): seq<Part> {
    seq(|text|, i requires 0 <= i < |text| => Symbol(lo + 2 * i, Ch(text[i])))
  }

  lemma {:induction false} SymbolPartsEdges(text: string, lo: nat)
    ensures AllEdges(SymbolParts(text, lo)) == CharEdges(text, lo)
    ensures Ends(SymbolParts(text, lo)) == CharEnds(|text|, lo)
  {
    if text != [] {
      SymbolPartsEdges(text[..|text| - 1], lo);
      assert SymbolParts(text, lo)[..|text| - 1] == SymbolParts(text[..|text| - 1], lo);
    }
  }

  lemma SymbolPartsExact(text: string, lo: nat)
    ensures Apart(SymbolParts(text, lo), lo, lo + 2 * |text|)
    ensures AnyIn(AcceptedBy(SymbolParts(text, lo))) == One((c: char) => c in text)
  {
    hide Part.Accepted, One;
    var xs := SymbolParts(text, lo);
    forall i | 0 <= i < |xs| ensures xs[i].Valid() && xs[i].Accepted() == iset{[text[i]]} {
      SymbolExact(lo + 2 * i, Ch(text[i]));
      OneChr(text[i]);
    }
    assert AcceptedBy(xs) == seq(|text|, i requires 0 <= i < |text| => iset{[text[i]]});
    OneOf(text);
  }

  lemma OneOf(text: string)
    ensures AnyIn(seq(|text|, i requires 0 <= i < |text| => iset{[text[i]]})) == One((c: char) => c in text)
  {
    var ls := seq(|text|, i requires 0 <= i < |text| => iset{[text[i]]});
    var l := One((c: char) => c in text);
    forall w | w in l ensures w in AnyIn(ls) {
      var i :| 0 <= i < |text| && text[i] == w[0];
      assert w == [text[i]];
      assert InNth(ls, i, w);
    }
    forall w | w in AnyIn(ls) ensures w in l {
      var i :| InNth(ls, i, w);
    }
  }

  /** `ws`: a star over the four whitespace characters. */
  function WsPart(lo: nat): Part {
    Repeat(Alternation(SymbolParts(BLANKS, lo), lo, lo + 8), lo + 10)
  }

  lemma WsEnds(lo: nat)
    ensures var x := WsPart(lo); x.lo == lo && x.hi == lo + 12 && x.s == lo + 10 && x.f == lo + 11
  {
  }

  lemma WsExact(lo: nat)
    ensures WsPart(lo).Valid() && WsPart(lo).Accepted() == J.WS
  {
    hide Part.Accepted, Star, AllEdges, Branches;
    SymbolPartsExact(BLANKS, lo);
    AlternationExact(SymbolParts(BLANKS, lo), lo, lo + 8);
    RepeatExact(Alternation(SymbolParts(BLANKS, lo), lo, lo + 8), lo + 10);
    BlanksAre();
  }

  lemma BlanksAre()
    ensures One((c: char) => c in BLANKS) == One(J.IsWs)
  {
    var l := One((c: char) => c in BLANKS);
    forall w: string ensures w in l <==> w in One(J.IsWs) {
    }
  }

  method Ws(b: NfaBuilder) returns (frag: (nat, nat))
    modifies b
    ensures var x := WsPart(old(b.states));
            b.Set() == old(b.Set()) + x.es && frag == (x.s, x.f) && b.states == x.hi
  {
    hide NfaBuilder.Set, Branches, CharEdges, AllEdges;
    ghost var lo := b.states;
    SymbolPartsEdges(BLANKS, lo);
    var arms := Texts.Symbols(b, BLANKS);
    var alt := b.Alt(arms);
    frag := b.Star(alt);
  }

  // ---- arrays ----

  /** The compiled separator: whitespace and commas in any number and order. */
  predicate WsOrComma(c: char) { J.IsWs(c) || c == ',' }

  ghost const LOOSE: Lang := Star(One(WsOrComma))

  /** The moves and symbols an array adds around its item and its three whitespace parts, from `n` on. */
  function ArrayGlue(item: Part, n: nat): set<Edge> {
    ArrayFrame(item, n) + ArrayLoop(item, n)
  }

  /** Brackets, whitespace and the optional list. */
  function ArrayFrame(item: Part, n: nat): set<Edge> {
    {Edge(n, Ch('['), n + 1), Edge(n + 1, Eps, n + 12), Edge(n + 13, Eps, n + 30), Edge(n + 30, Eps, item.s),
     Edge(n + 29, Eps, n + 31), Edge(n + 30, Eps, n + 31), Edge(n + 31, Eps, n + 42), Edge(n + 43, Eps, n + 44),
     Edge(n + 44, Ch(']'), n + 45)}
  }

  /** Separator and repetition. */
  function ArrayLoop(item: Part, n: nat): set<Edge> {
    {Edge(n + 14, Ch(','), n + 15), Edge(n + 27, Eps, n + 14), Edge(n + 15, Eps, n + 26), Edge(n + 27, Eps, item.s),
     Edge(n + 28, Eps, n + 26), Edge(item.f, Eps, n + 29), Edge(item.f, Eps, n + 26), Edge(n + 28, Eps, n + 29),
     Edge(item.f, Eps, n + 28)}
  }

  function ArrayPart(item: Part): Part {
    var n := item.hi;
    Part(item.es + WsPart(n + 2).es + WsPart(n + 16).es + WsPart(n + 32).es + ArrayGlue(item, n), item.lo, n + 46, n, n + 45)
  }

  /** Separator, repetition and list: `item (ws , ws item)*`, with one `ws` fragment on both sides of the comma. */
  method ListFrag(b: NfaBuilder, ghost x: Part, item: (nat, nat)) returns (list: (nat, nat))
    requires item == (x.s, x.f) && b.states == x.hi + 14
    modifies b
    ensures b.Set() == old(b.Set()) + WsPart(x.hi + 16).es + ArrayLoop(x, x.hi)
    ensures list == (x.s, x.hi + 29) && b.states == x.hi + 30
  {
    hide NfaBuilder.Set, WsPart, Links;
    ghost var n := x.hi;
    WsEnds(n + 16);
    var comma := b.Char(',');
    var ws1 := Ws(b);
    LinksFour(ws1, comma, ws1, item);
    var commaItem := b.Seq([ws1, comma, ws1, item]);
    var commaStar := b.Star(commaItem);
    LinksTwo(item, commaStar);
    list := b.Seq([item, commaStar]);
  }

  /** The part of `compile_value` for arrays, after the item. */
  method ArrayFrag(b: NfaBuilder, ghost x: Part, item: (nat, nat)) returns (frag: (nat, nat))
    requires item == (x.s, x.f) && x.hi == b.states
    modifies b
    ensures old(b.Set()) <= b.Set() && b.Set() + x.es == old(b.Set()) + ArrayPart(x).es && frag == (ArrayPart(x).s, ArrayPart(x).f) && b.states == ArrayPart(x).hi
  {
    hide NfaBuilder.Set, WsPart, Links, ArrayLoop;
    ghost var n := b.states;
    WsEnds(n + 2);
    WsEnds(n + 32);
    var open := b.Char('[');
    var ws0 := Ws(b);
    var list := ListFrag(b, x, item);
    var listOpt := b.Opt(list);
    var ws2 := Ws(b);
    var close := b.Char(']');
    LinksFive(open, ws0, listOpt, ws2, close);
    frag := b.Seq([open, ws0, listOpt, ws2, close]);
  }

  // ---- the languages met along an array ----

  ghost function TailOf(): Lang { Cat(J.WS, Chr(']')) }

  ghost function AfterItem(i: Lang): Lang { Cat(Star(Cat(LOOSE, i)), TailOf()) }

  ghost function BeforeItem(i: Lang): Lang { Cat(LOOSE, Cat(i, AfterItem(i))) }

  ghost function ListOf(i: Lang): Lang { Cat(Opt(Cat(i, Star(Cat(LOOSE, i)))), TailOf()) }

  lemma LooseFacts()
    ensures [] in LOOSE && Cat(J.WS, LOOSE) <= LOOSE && Cat(Chr(','), LOOSE) <= LOOSE
  {
    assert InStar(One(WsOrComma), []);
    forall w | w in Cat(J.WS, LOOSE) ensures w in LOOSE {
      var u, v := CatSplit(J.WS, LOOSE, w);
      assert One(J.IsWs) <= One(WsOrComma);
      StarMono(One(J.IsWs), One(WsOrComma), u);
      StarConcat(One(WsOrComma), u, v);
    }
    forall w | w in Cat(Chr(','), LOOSE) ensures w in LOOSE {
      var u, v := CatSplit(Chr(','), LOOSE, w);
      StarCons(One(WsOrComma), u, v);
    }
  }

  /** The inclusions the empty moves of an array use. */
  lemma ArrayOrder(i: Lang)
    ensures TailOf() <= AfterItem(i) && TailOf() <= ListOf(i)
    ensures Cat(J.WS, BeforeItem(i)) <= BeforeItem(i) && Cat(Chr(','), BeforeItem(i)) <= BeforeItem(i)
    ensures BeforeItem(i) <= AfterItem(i) && Cat(i, AfterItem(i)) <= BeforeItem(i)
    ensures Cat(i, AfterItem(i)) <= ListOf(i)
  {
    hide Cat, Star, J.WS, LOOSE;
    LooseFacts();
    var k, st, t := Cat(i, AfterItem(i)), Star(Cat(LOOSE, i)), TailOf();
    assert InStar(Cat(LOOSE, i), []);
    StarUnfolds(Cat(LOOSE, i));
    CatEpsilon(t);
    CatEpsilon(k);
    CatMono(EPSILON, t, st, t);
    CatMono(EPSILON, t, Opt(Cat(i, st)), t);
    CatAssoc(J.WS, LOOSE, k);
    CatMono(Cat(J.WS, LOOSE), k, LOOSE, k);
    CatAssoc(Chr(','), LOOSE, k);
    CatMono(Cat(Chr(','), LOOSE), k, LOOSE, k);
    CatAssoc(LOOSE, i, AfterItem(i));
    CatAssoc(Cat(LOOSE, i), st, t);
    CatMono(Cat(Cat(LOOSE, i), st), t, st, t);
    CatMono(EPSILON, k, LOOSE, k);
    CatAssoc(i, st, t);
    CatMono(Cat(i, st), t, Opt(Cat(i, st)), t);
  }

  /** What each state of an array can read. */
  ghost function ArrayLabel(item: Part, p: nat): Lang {
    var n, i := item.hi, item.Accepted();
    if item.Owns(p) then item.Residual(p, AfterItem(i))
    else if p == n then Cat(Chr('['), Cat(J.WS, ListOf(i)))
    else if p == n + 1 then Cat(J.WS, ListOf(i))
    else if WsPart(n + 2).Owns(p) then WsPart(n + 2).Residual(p, ListOf(i))
    else if p == n + 14 then Cat(Chr(','), BeforeItem(i))
    else if p == n + 15 then BeforeItem(i)
    else if WsPart(n + 16).Owns(p) then WsPart(n + 16).Residual(p, BeforeItem(i))
    else if p == n + 28 then AfterItem(i)
    else if p == n + 29 || p == n + 31 then TailOf()
    else if p == n + 30 then ListOf(i)
    else if WsPart(n + 32).Owns(p) then WsPart(n + 32).Residual(p, Chr(']'))
    else if p == n + 44 then Chr(']')
    else if p == n + 45 then EPSILON
    else iset{}
  }

  ghost function Labelling(item: Part): nat -> Lang {
    (p: nat) => ArrayLabel(item, p)
  }

  lemma WsResidual(lo: nat, k: Lang)
    ensures k <= WsPart(lo).Residual(lo + 11, k) && WsPart(lo).Residual(lo + 10, k) == Cat(J.WS, k)
  {
    hide Part.Accepted, Cat;
    WsEnds(lo);
    WsExact(lo);
    WsPart(lo).ResidualEnds(k);
  }

  lemma FixedLabels(item: Part)
    requires item.Valid()
    ensures var n, i, r := item.hi, item.Accepted(), Labelling(item);
            && r(n) == Cat(Chr('['), Cat(J.WS, ListOf(i))) && r(n + 1) == Cat(J.WS, ListOf(i))
            && r(n + 14) == Cat(Chr(','), BeforeItem(i)) && r(n + 15) == BeforeItem(i) && r(n + 28) == AfterItem(i)
            && r(n + 29) == TailOf() == r(n + 31) && r(n + 30) == ListOf(i)
            && r(n + 44) == Chr(']') && r(n + 45) == EPSILON
  {
    hide Part.Residual, Cat, WsPart;
    WsEnds(item.hi + 2);
    WsEnds(item.hi + 16);
    WsEnds(item.hi + 32);
  }

  lemma PartLabels(item: Part)
    requires item.Valid()
    ensures var n, i, r := item.hi, item.Accepted(), Labelling(item);
            && r(n + 12) == Cat(J.WS, ListOf(i)) && ListOf(i) <= r(n + 13)
            && r(n + 26) == Cat(J.WS, BeforeItem(i)) && BeforeItem(i) <= r(n + 27)
            && r(n + 42) == TailOf() && Chr(']') <= r(n + 43)
            && r(item.s) == Cat(i, AfterItem(i)) && AfterItem(i) <= r(item.f)
  {
    hide Part.Residual, Cat, WsPart;
    var n, i := item.hi, item.Accepted();
    WsEnds(n + 2);
    WsEnds(n + 16);
    WsEnds(n + 32);
    WsResidual(n + 2, ListOf(i));
    WsResidual(n + 16, BeforeItem(i));
    WsResidual(n + 32, Chr(']'));
    item.ResidualEnds(AfterItem(i));
  }

  lemma SymbolClosed(e: Edge, r: nat -> Lang, c: char)
    requires e.sym == Ch(c) && Cat(Chr(c), r(e.dst)) <= r(e.src)
    ensures EdgeClosed(e, r)
  {
    forall w | w in r(e.dst) ensures [c] + w in r(e.src) {
      CatIn(Chr(c), r(e.dst), [c], w);
    }
  }

  lemma ArrayFrameClosed(item: Part)
    requires item.Valid()
    ensures Closed(ArrayFrame(item, item.hi), Labelling(item))
  {
    hide Labelling, Cat, TailOf, AfterItem, BeforeItem, ListOf, Part.Accepted, J.WS;
    var n, i, r := item.hi, item.Accepted(), Labelling(item);
    ArrayOrder(i);
    FixedLabels(item);
    PartLabels(item);
    CatEpsilon(Chr(']'));
    SymbolClosed(Edge(n, Ch('['), n + 1), r, '[');
    SymbolClosed(Edge(n + 44, Ch(']'), n + 45), r, ']');
  }

  lemma EmptyClosed(p: nat, q: nat, r: nat -> Lang)
    requires r(q) <= r(p)
    ensures EdgeClosed(Edge(p, Eps, q), r)
  {
  }

  lemma ArrayLoopClosed(item: Part)
    requires item.Valid()
    ensures Closed(ArrayLoop(item, item.hi), Labelling(item))
  {
    hide Labelling, Cat, TailOf, AfterItem, BeforeItem, ListOf, Part.Accepted, J.WS, EdgeClosed;
    var n, i, r := item.hi, item.Accepted(), Labelling(item);
    ArrayOrder(i);
    FixedLabels(item);
    PartLabels(item);
    SymbolClosed(Edge(n + 14, Ch(','), n + 15), r, ',');
    EmptyClosed(n + 27, n + 14, r);
    EmptyClosed(n + 15, n + 26, r);
    EmptyClosed(n + 27, item.s, r);
    EmptyClosed(n + 28, n + 26, r);
    EmptyClosed(item.f, n + 29, r);
    EmptyClosed(item.f, n + 26, r);
    EmptyClosed(n + 28, n + 29, r);
    EmptyClosed(item.f, n + 28, r);
  }

  lemma ArrayPartsClosed(item: Part)
    requires item.Valid()
    ensures var n, r := item.hi, Labelling(item);
            && Closed(item.es, r) && Closed(WsPart(n + 2).es, r) && Closed(WsPart(n + 16).es, r) && Closed(WsPart(n + 32).es, r)
  {
    hide Cat, TailOf, AfterItem, BeforeItem, ListOf, WsPart, Part.Accepted, Part.Residual, Closed, J.WS;
    var n, i, r := item.hi, item.Accepted(), Labelling(item);
    WsEnds(n + 2);
    WsEnds(n + 16);
    WsEnds(n + 32);
    WsExact(n + 2);
    WsExact(n + 16);
    WsExact(n + 32);
    item.ResidualClosed(AfterItem(i), r);
    WsPart(n + 2).ResidualClosed(ListOf(i), r);
    WsPart(n + 16).ResidualClosed(BeforeItem(i), r);
    WsPart(n + 32).ResidualClosed(Chr(']'), r);
  }

  lemma ArraySound(item: Part, w: string)
    requires item.Valid() && w in ArrayPart(item).Accepted()
    ensures w in J.ArrayOf(item.Accepted(), LOOSE)
  {
    hide Labelling, Cat, WsPart, Reads, ArrayFrame, ArrayLoop, J.WS;
    var n, i := item.hi, item.Accepted();
    ArrayFrameClosed(item);
    ArrayLoopClosed(item);
    ArrayPartsClosed(item);
    FixedLabels(item);
    ReadsBound(ArrayPart(item).es, Labelling(item), n, w, n + 45);
    CatAssoc(Chr('['), J.WS, ListOf(i));
  }

  // ---- completeness ----

  lemma GlueIn(item: Part)
    ensures ArrayGlue(item, item.hi) <= ArrayPart(item).es
    ensures item.es <= ArrayPart(item).es
    ensures WsPart(item.hi + 2).es <= ArrayPart(item).es && WsPart(item.hi + 16).es <= ArrayPart(item).es
    ensures WsPart(item.hi + 32).es <= ArrayPart(item).es
  {
    hide ArrayGlue, WsPart;
  }

  lemma LoopIn(item: Part)
    ensures var es, n := ArrayPart(item).es, item.hi;
            && AllHops(es, [n + 27, n + 14]) && Edge(n + 14, Ch(','), n + 15) in es && AllHops(es, [n + 15, n + 26])
            && Edge(item.f, Eps, n + 29) in es && Edge(item.f, Eps, n + 26) in es && Edge(n + 27, Eps, item.s) in es
  {
    hide ArrayPart, ArrayFrame;
    GlueIn(item);
  }

  lemma FrameIn(item: Part)
    ensures var es, n := ArrayPart(item).es, item.hi;
            && Edge(n + 30, Eps, n + 31) in es && Edge(n + 30, Eps, item.s) in es && Edge(n + 29, Eps, n + 31) in es
            && Edge(n, Ch('['), n + 1) in es && Edge(n + 1, Eps, n + 12) in es && Edge(n + 13, Eps, n + 30) in es
            && Edge(n + 31, Eps, n + 42) in es && Edge(n + 43, Eps, n + 44) in es && Edge(n + 44, Ch(']'), n + 45) in es
  {
    hide ArrayPart, ArrayLoop;
    GlueIn(item);
  }

  lemma WsReads(es: set<Edge>, lo: nat, w: string)
    requires WsPart(lo).es <= es && w in J.WS
    ensures Reads(es, lo + 10, w, lo + 11)
  {
    hide Reads, J.WS;
    WsExact(lo);
    WsEnds(lo);
    ReadsMono(WsPart(lo).es, es, lo + 10, w, lo + 11);
  }

  /** The leading whitespace of a separator text; what follows it, if anything, is a comma. */
  lemma {:induction false} LeadingBlanks(u: string) returns (k: nat)
    requires u in LOOSE
    ensures k <= |u| && u[..k] in J.WS && (k < |u| ==> u[k] == ',' && u[k + 1..] in LOOSE)
    decreases |u|
  {
    k := 0;
    assert InStar(One(J.IsWs), []);
    if u != [] {
      var i :| 0 < i <= |u| && u[..i] in One(WsOrComma) && InStar(One(WsOrComma), u[i..]);
      assert i == 1 && u[..1][0] == u[0];
      if u[0] == ',' {
        assert u[..0] == [];
      } else {
        var r := LeadingBlanks(u[1..]);
        k := r + 1;
        StarCons(One(J.IsWs), [u[0]], u[1..][..r]);
        assert u[..k] == [u[0]] + u[1..][..r];
        if k < |u| { assert u[1..][r + 1..] == u[k + 1..] && u[1..][r] == u[k]; }
      }
    }
  }

  lemma {:induction false} SeparatorReads(item: Part, u: string)
    requires item.Valid() && u in LOOSE
    ensures Reads(ArrayPart(item).es, item.hi + 26, u, item.hi + 27)
    decreases |u|
  {
    hide Reads, LOOSE, J.WS, WsPart, ArrayGlue, ArrayPart;
    GlueIn(item);
    var es, n := ArrayPart(item).es, item.hi;
    var k := LeadingBlanks(u);
    WsReads(es, n + 16, u[..k]);
    if k < |u| {
      SeparatorReads(item, u[k + 1..]);
      CommaStep(item);
      ReadsConcat(es, n + 27, ",", n + 26, u[k + 1..], n + 27);
      ReadsConcat(es, n + 26, u[..k], n + 27, "," + u[k + 1..], n + 27);
      assert u == u[..k] + ("," + u[k + 1..]);
    } else {
      assert u[..k] == u;
    }
  }

  lemma CommaStep(item: Part)
    ensures Reads(ArrayPart(item).es, item.hi + 27, ",", item.hi + 26)
  {
    hide Reads, ArrayPart, AllHops;
    LoopIn(item);
    var es, n := ArrayPart(item).es, item.hi;
    HopSymbolHop(es, [n + 27, n + 14], Ch(','), ',', [n + 15, n + 26]);
  }

  lemma {:induction false} ItemsRead(item: Part, v: string)
    requires item.Valid() && v in Star(Cat(LOOSE, item.Accepted()))
    ensures Reads(ArrayPart(item).es, item.f, v, item.hi + 29)
    decreases |v|
  {
    hide Reads, LOOSE, WsPart, Cat, ArrayPart, AllHops, Star;
    var es, n := ArrayPart(item).es, item.hi;
    LoopIn(item);
    if v == [] {
      ReadsEps(es, item.f, n + 29);
    } else {
      var u, rest := StarSplit(Cat(LOOSE, item.Accepted()), v);
      ItemsRead(item, rest);
      ItemReads(item, u);
      ReadsConcat(es, item.f, u, item.f, rest, n + 29);
    }
  }

  lemma ItemReads(item: Part, u: string)
    requires item.Valid() && u in Cat(LOOSE, item.Accepted())
    ensures Reads(ArrayPart(item).es, item.f, u, item.f)
  {
    hide Reads, LOOSE, WsPart, Cat, ArrayPart, AllHops;
    var es, n := ArrayPart(item).es, item.hi;
    LoopIn(item);
    var s, i := CatSplit(LOOSE, item.Accepted(), u);
    SeparatorReads(item, s);
    GlueIn(item);
    ReadsMono(item.es, es, item.s, i, item.f);
    ReadsAfterEps(es, item.f, n + 26, s, n + 27);
    ReadsThenEps(es, item.f, s, n + 27, item.s);
    ReadsConcat(es, item.f, s, item.s, i, item.f);
  }

  lemma ListReads(item: Part, u: string)
    requires item.Valid() && u in Opt(Cat(item.Accepted(), Star(Cat(LOOSE, item.Accepted()))))
    ensures Reads(ArrayPart(item).es, item.hi + 30, u, item.hi + 31)
  {
    hide Reads, LOOSE, WsPart, Star, Cat, ArrayPart, ArrayGlue;
    var es, n := ArrayPart(item).es, item.hi;
    FrameIn(item);
    if u == [] {
      ReadsEps(es, n + 30, n + 31);
    } else {
      var i, v := CatSplit(item.Accepted(), Star(Cat(LOOSE, item.Accepted())), u);
      GlueIn(item);
      ReadsMono(item.es, es, item.s, i, item.f);
      ItemsRead(item, v);
      ReadsConcat(es, item.s, i, item.f, v, n + 29);
      ReadsAfterEps(es, n + 30, item.s, u, n + 29);
      ReadsThenEps(es, n + 30, u, n + 29, n + 31);
    }
  }

  lemma ArrayComplete(item: Part, w: string)
    requires item.Valid() && w in J.ArrayOf(item.Accepted(), LOOSE)
    ensures w in ArrayPart(item).Accepted()
  {
    hide Reads, LOOSE, WsPart, Star, Cat, J.WS, ArrayGlue;
    var es, n, i := ArrayPart(item).es, item.hi, item.Accepted();
    var head, rest := CatSplit(Cat(Chr('['), J.WS), Cat(Opt(Cat(i, Star(Cat(LOOSE, i)))), Cat(J.WS, Chr(']'))), w);
    var open, b0 := CatSplit(Chr('['), J.WS, head);
    var list, tail := CatSplit(Opt(Cat(i, Star(Cat(LOOSE, i)))), Cat(J.WS, Chr(']')), rest);
    var b2, close := CatSplit(J.WS, Chr(']'), tail);
    GlueIn(item);
    FrameIn(item);
    ReadsChar(es, Edge(n, Ch('['), n + 1), '[');
    WsReads(es, n + 2, b0);
    ReadsThenEps(es, n, open, n + 1, n + 12);
    ReadsConcat(es, n, open, n + 12, b0, n + 13);
    ReadsThenEps(es, n, head, n + 13, n + 30);
    ListReads(item, list);
    ReadsThenEps(es, n + 30, list, n + 31, n + 42);
    WsReads(es, n + 32, b2);
    ReadsThenEps(es, n + 42, b2, n + 43, n + 44);
    ReadsChar(es, Edge(n + 44, Ch(']'), n + 45), ']');
    ReadsConcat(es, n + 42, b2, n + 44, close, n + 45);
    ReadsConcat(es, n + 30, list, n + 42, tail, n + 45);
    ReadsConcat(es, n, head, n + 30, rest, n + 45);
  }

  /** The compiled array accepts exactly the bracketed lists with the loose separator. */
  lemma ArrayExact(item: Part)
    requires item.Valid()
    ensures ArrayPart(item).Valid() && ArrayPart(item).Accepted() == J.ArrayOf(item.Accepted(), LOOSE)
  {
    hide J.ArrayOf, Reads, LOOSE;
    ArrayValid(item);
    forall w ensures w in ArrayPart(item).Accepted() <==> w in J.ArrayOf(item.Accepted(), LOOSE) {
      if w in ArrayPart(item).Accepted() { ArraySound(item, w); }
      if w in J.ArrayOf(item.Accepted(), LOOSE) { ArrayComplete(item, w); }
    }
  }

  lemma GlueInside(item: Part)
    requires item.Valid()
    ensures Inside(ArrayFrame(item, item.hi), item.lo, item.hi + 46) && Inside(ArrayLoop(item, item.hi), item.lo, item.hi + 46)
  {
    hide Part.Accepted;
  }

  lemma WsInside(lo: nat)
    ensures Inside(WsPart(lo).es, lo, lo + 12)
  {
    hide WsPart, Part.Accepted;
    WsEnds(lo);
    WsExact(lo);
  }

  lemma ArrayValid(item: Part)
    requires item.Valid()
    ensures ArrayPart(item).Valid()
  {
    hide Part.Accepted, WsPart, ArrayFrame, ArrayLoop;
    var n := item.hi;
    WsInside(n + 2);
    WsInside(n + 16);
    WsInside(n + 32);
    GlueInside(item);
  }
}
