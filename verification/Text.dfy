/** `string_frag`: the hex class is shared, so `\u` is followed by at least one hex digit, not by four. */
module Texts {
  import opened Languages
  import opened Nfas
  import opened Fragments
  import opened NfaBuilders
  import opened Scans
  import J = Json

  const OPEN: nat := 0
  const BODY: nat := 1
  const ESC: nat := 2
  const HEX: nat := 3
  const DONE: nat := 4

  function TextStep(ph: nat, c: char): Transit {
    if ph == OPEN then (if c == '\"' then Go(BODY) else Stop)
    else if ph == BODY then (if c == '\"' then Go(DONE) else if c == '\\' then Go(ESC) else if J.Plain(c) then Go(BODY) else Stop)
    else if ph == ESC then (if J.Simple(c) then Go(BODY) else if c == 'u' then Go(HEX) else Stop)
    else if ph == HEX then (if J.Hex(c) then Go(BODY) else Stop)
    else Stop
  }

  /** The language of the compiled string fragment. */
  function TextScan(): Scan {
    Scan((ph: nat, c: char) => TextStep(ph, c), (ph: nat) => ph == DONE)
  }

  const PLAIN: Label := Class([('\U{20}', '\U{21}'), ('\U{23}', '\U{5B}'), ('\U{5D}', '\U{10FFFF}')])
  const HEXES: Label := Class([('0', '9'), ('a', 'f'), ('A', 'F')])

  lemma PlainAllows(c: char)
    ensures PLAIN.Allows(c) <==> J.Plain(c)
  {
    var rs := PLAIN.ranges;
    assert rs[0] == ('\U{20}', '\U{21}') && rs[1] == ('\U{23}', '\U{5B}') && rs[2] == ('\U{5D}', '\U{10FFFF}');
  }

  lemma HexAllows(c: char)
    ensures HEXES.Allows(c) <==> J.Hex(c)
  {
    var rs := HEXES.ranges;
    assert rs[0] == ('0', '9') && rs[1] == ('a', 'f') && rs[2] == ('A', 'F');
  }

  // ---- the edges, with states relative to `lo` ----

  const ARMS: string := "\"\\/bfnrt"

  /** The eight one-character escapes, symbol `i` on states `8 + 2i` and `9 + 2i`. */
  function SimpleEdges(lo: nat): set<Edge> {
    CharEdges(ARMS, lo + 8)
  }

  function SimpleEnds(lo: nat): seq<(nat, nat)> {
    CharEnds(8, lo + 8)
  }

  function HeadEdges(lo: nat): set<Edge> {
    {Edge(lo, Ch('\"'), lo + 1), Edge(lo + 2, PLAIN, lo + 3), Edge(lo + 4, HEXES, lo + 5), Edge(lo + 6, Ch('\\'), lo + 7)}
  }

  function EscapeEdges(lo: nat): set<Edge> {
    SimpleEdges(lo) + Branches(SimpleEnds(lo), lo + 24) + {Edge(lo + 7, Eps, lo + 24), Edge(lo + 25, Eps, lo + 26)}
  }

  function HexEdges(lo: nat): set<Edge> {
    {Edge(lo + 27, Ch('u'), lo + 28), Edge(lo + 7, Eps, lo + 27)} +
    {Edge(lo + 28, Eps, lo + 4), Edge(lo + 5, Eps, lo + 29), Edge(lo + 29, Eps, lo + 4), Edge(lo + 5, Eps, lo + 30),
     Edge(lo + 30, Eps, lo + 4), Edge(lo + 5, Eps, lo + 31), Edge(lo + 31, Eps, lo + 4), Edge(lo + 5, Eps, lo + 32),
     Edge(lo + 32, Eps, lo + 26)}
  }

  function BodyEdges(lo: nat): set<Edge> {
    {Edge(lo + 33, Eps, lo + 2), Edge(lo + 3, Eps, lo + 34), Edge(lo + 33, Eps, lo + 6), Edge(lo + 26, Eps, lo + 34),
     Edge(lo + 35, Eps, lo + 33), Edge(lo + 34, Eps, lo + 36), Edge(lo + 34, Eps, lo + 33), Edge(lo + 35, Eps, lo + 36),
     Edge(lo + 37, Ch('\"'), lo + 38), Edge(lo + 1, Eps, lo + 35), Edge(lo + 36, Eps, lo + 37)}
  }

  function TextEdges(lo: nat): set<Edge> {
    HeadEdges(lo) + EscapeEdges(lo) + HexEdges(lo) + BodyEdges(lo)
  }

  function TextPart(lo: nat): Part {
    Part(TextEdges(lo), lo, lo + 39, lo, lo + 38)
  }

  // ---- the builder calls ----

  /** One symbol fragment per character. */
  method Symbols(b: NfaBuilder, text: string) returns (frags: seq<(nat, nat)>)
    modifies b
    ensures frags == CharEnds(|text|, old(b.states)) && b.states == old(b.states) + 2 * |text|
    ensures b.Set() == old(b.Set()) + CharEdges(text, old(b.states))
  {
    hide NfaBuilder.Set, CharEdges;
    ghost var lo := b.states;
    CharEdgesNone(lo);
    frags := [];
    for k := 0 to |text|
      invariant frags == CharEnds(k, lo) && b.states == lo + 2 * k && b.Set() == old(b.Set()) + CharEdges(text[..k], lo)
    {
      CharEdgesStep(text[..k + 1], lo);
      assert text[..k + 1][..k] == text[..k];
      var f := b.Char(text[k]);
      frags := frags + [f];
    }
    assert text[..|text|] == text;
  }

  method HexSteps(b: NfaBuilder, u: (nat, nat), hex: (nat, nat), escFin: nat, ghost lo: nat)
    requires u == (lo + 27, lo + 28) && hex == (lo + 4, lo + 5) && escFin == lo + 26 && b.states == lo + 29
    modifies b
    ensures b.states == lo + 33
    ensures b.Set() == old(b.Set()) +
                       {Edge(lo + 28, Eps, lo + 4), Edge(lo + 5, Eps, lo + 29), Edge(lo + 29, Eps, lo + 4), Edge(lo + 5, Eps, lo + 30),
                        Edge(lo + 30, Eps, lo + 4), Edge(lo + 5, Eps, lo + 31), Edge(lo + 31, Eps, lo + 4), Edge(lo + 5, Eps, lo + 32),
                        Edge(lo + 32, Eps, lo + 26)}
  {
    hide NfaBuilder.Set;
    var cur := u.1;
    for i := 0 to 4
      invariant b.states == lo + 29 + i && cur == lo + 28 + i
      invariant b.Set() == old(b.Set()) + HexLinks(lo, i)
    {
      b.AddEps(cur, hex.0);
      var next := b.State();
      b.AddEps(hex.1, next);
      cur := next;
    }
    HexLinksFour(lo);
    b.AddEps(cur, escFin);
  }

  function HexLinks(lo: nat, i: nat): set<Edge> {
    if i == 0 then {}
    else HexLinks(lo, i - 1) + {Edge(lo + 27 + i, Eps, lo + 4), Edge(lo + 5, Eps, lo + 28 + i)}
  }

  lemma HexLinksFour(lo: nat)
    ensures HexLinks(lo, 4) ==
            {Edge(lo + 28, Eps, lo + 4), Edge(lo + 5, Eps, lo + 29), Edge(lo + 29, Eps, lo + 4), Edge(lo + 5, Eps, lo + 30),
             Edge(lo + 30, Eps, lo + 4), Edge(lo + 5, Eps, lo + 31), Edge(lo + 31, Eps, lo + 4), Edge(lo + 5, Eps, lo + 32)}
  {
    assert HexLinks(lo, 1) == {Edge(lo + 28, Eps, lo + 4), Edge(lo + 5, Eps, lo + 29)} by {
      assert HexLinks(lo, 0) == {};
    }
    assert HexLinks(lo, 2) == {Edge(lo + 28, Eps, lo + 4), Edge(lo + 5, Eps, lo + 29), Edge(lo + 29, Eps, lo + 4), Edge(lo + 5, Eps, lo + 30)};
  }

  method StringFrag(b: NfaBuilder) returns (frag: (nat, nat))
    modifies b
    ensures var x := TextPart(old(b.states));
            b.Set() == old(b.Set()) + x.es && frag == (x.s, x.f) && b.states == x.hi
  {
    hide NfaBuilder.Set, Branches, Links, CharEdges, CharEnds;
    ghost var lo := b.states;
    var quote := b.Char('\"');
    var plain := b.Ranges([('\U{20}', '\U{21}'), ('\U{23}', '\U{5B}'), ('\U{5D}', '\U{10FFFF}')]);
    var hex := b.Ranges([('0', '9'), ('a', 'f'), ('A', 'F')]);
    var backslash := b.Char('\\');
    assert b.Set() == old(b.Set()) + HeadEdges(lo);
    var arms := Symbols(b, ARMS);
    var simple := b.Alt(arms);
    var escFin := b.State();
    b.AddEps(backslash.1, simple.0);
    b.AddEps(simple.1, escFin);
    assert b.Set() == old(b.Set()) + HeadEdges(lo) + EscapeEdges(lo);
    frag := StringTail(b, quote, plain, hex, backslash, escFin, lo);
  }

  /** The `\u` escape, the body loop and the closing quote. */
  method StringTail(b: NfaBuilder, quote: (nat, nat), plain: (nat, nat), hex: (nat, nat), backslash: (nat, nat), escFin: nat,
                    ghost lo: nat) returns (frag: (nat, nat))
    requires quote == (lo, lo + 1) && plain == (lo + 2, lo + 3) && hex == (lo + 4, lo + 5) && backslash == (lo + 6, lo + 7)
    requires escFin == lo + 26 && b.states == lo + 27
    modifies b
    ensures b.Set() == old(b.Set()) + HexEdges(lo) + BodyEdges(lo) && frag == (lo, lo + 38) && b.states == lo + 39
  {
    hide NfaBuilder.Set, Branches, Links;
    var u := b.Char('u');
    b.AddEps(backslash.1, u.0);
    HexSteps(b, u, hex, escFin, lo);
    assert b.Set() == old(b.Set()) + HexEdges(lo);
    label Hexed:
    hide HexEdges;
    var esc := (backslash.0, escFin);
    BranchesTwo(plain, esc, b.states);
    var bodyAlt := b.Alt([plain, esc]);
    var body := b.Star(bodyAlt);
    var close := b.Char('\"');
    LinksThree(quote, body, close);
    frag := b.Seq([quote, body, close]);
    assert b.Set() == old@Hexed(b.Set()) + BodyEdges(lo);
  }

  // ---- soundness ----

  function TagOf(i: nat): Tag {
    if i == 0 then Then(Ch('\"'), BODY)
    else if i == 2 then Then(PLAIN, BODY)
    else if i == 4 then Then(HEXES, BODY)
    else if i == 6 then Then(Ch('\\'), ESC)
    else if i == 7 || i == 24 then At(ESC)
    else if 8 <= i < 24 then (if i % 2 == 0 then Then(Ch(ARMS[i / 2 - 4]), BODY) else At(BODY))
    else if i == 27 then Then(Ch('u'), HEX)
    else if i == 28 then At(HEX)
    else if i == 37 then Then(Ch('\"'), DONE)
    else if i == 38 then At(DONE)
    else At(BODY)
  }

  ghost function Labelling(lo: nat): nat -> Lang {
    (p: nat) => if p < lo then iset{} else TextScan().Tagged(TagOf(p - lo))
  }

  lemma LabelAt(lo: nat, i: nat)
    ensures Labelling(lo)(lo + i) == TextScan().Tagged(TagOf(i))
  {
    assert lo + i - lo == i;
  }

  lemma SymbolAt(lo: nat, i: nat, j: nat)
    requires TagOf(i).Then? && !TagOf(i).sym.Eps? && TagOf(j) == At(TagOf(i).ph)
    ensures EdgeClosed(Edge(lo + i, TagOf(i).sym, lo + j), Labelling(lo))
  {
    hide Scan.Tagged, Labelling;
    LabelAt(lo, i);
    LabelAt(lo, j);
    TextScan().SymbolFits(Edge(lo + i, TagOf(i).sym, lo + j), Labelling(lo), TagOf(i).ph);
  }

  lemma EmptyAt(lo: nat, i: nat, j: nat)
    requires TextScan().Tagged(TagOf(j)) <= TextScan().Tagged(TagOf(i))
    ensures EdgeClosed(Edge(lo + i, Eps, lo + j), Labelling(lo))
  {
    hide Scan.Tagged, Labelling;
    LabelAt(lo, i);
    LabelAt(lo, j);
  }

  lemma TagOrder()
    ensures var m := TextScan();
            && m.Tagged(Then(PLAIN, BODY)) <= m.Tagged(At(BODY)) && m.Tagged(Then(HEXES, BODY)) <= m.Tagged(At(BODY))
            && m.Tagged(Then(HEXES, BODY)) <= m.Tagged(At(HEX)) && m.Tagged(Then(Ch('\\'), ESC)) <= m.Tagged(At(BODY))
            && m.Tagged(Then(Ch('u'), HEX)) <= m.Tagged(At(ESC)) && m.Tagged(Then(Ch('\"'), DONE)) <= m.Tagged(At(BODY))
  {
    hide Scan.Tagged, Scan.Feeds;
    var m := TextScan();
    TextFeeds();
    m.FeedsTexts(PLAIN, BODY, BODY);
    m.FeedsTexts(HEXES, BODY, BODY);
    m.FeedsTexts(HEXES, BODY, HEX);
    m.FeedsTexts(Ch('\\'), ESC, BODY);
    m.FeedsTexts(Ch('u'), HEX, ESC);
    m.FeedsTexts(Ch('\"'), DONE, BODY);
  }

  lemma TextFeeds()
    ensures var m := TextScan();
            && m.Feeds(PLAIN, BODY, BODY) && m.Feeds(HEXES, BODY, BODY) && m.Feeds(HEXES, BODY, HEX)
            && m.Feeds(Ch('\\'), ESC, BODY) && m.Feeds(Ch('u'), HEX, ESC) && m.Feeds(Ch('\"'), DONE, BODY)
  {
    forall c: char
      ensures PLAIN.Allows(c) <==> J.Plain(c)
      ensures HEXES.Allows(c) <==> J.Hex(c)
    {
      PlainAllows(c);
      HexAllows(c);
    }
  }

  lemma ArmTag(k: nat)
    requires k < 8
    ensures TagOf(8 + 2 * k) == Then(Ch(ARMS[k]), BODY) && TagOf(9 + 2 * k) == At(BODY)
    ensures J.Simple(ARMS[k]) && TextScan().Tagged(TagOf(8 + 2 * k)) <= TextScan().Tagged(At(ESC))
  {
    hide Scan.Tagged;
    assert (8 + 2 * k) / 2 - 4 == k && (8 + 2 * k) % 2 == 0 && (9 + 2 * k) % 2 == 1;
    ArmSimple(k);
    TextScan().FeedsTexts(Ch(ARMS[k]), BODY, ESC);
  }

  lemma ArmSimple(k: nat)
    requires k < 8
    ensures J.Simple(ARMS[k])
  {
    assert k == 0 || k == 1 || k == 2 || k == 3 || k == 4 || k == 5 || k == 6 || k == 7;
  }

  lemma {:induction false} CharEdgesMember(text: string, lo: nat, e: Edge)
    ensures e in CharEdges(text, lo) <==> exists k :: 0 <= k < |text| && e == Edge(lo + 2 * k, Ch(text[k]), lo + 2 * k + 1)
  {
    if text != [] {
      var n := |text| - 1;
      CharEdgesMember(text[..n], lo, e);
      if k :| 0 <= k < |text| && e == Edge(lo + 2 * k, Ch(text[k]), lo + 2 * k + 1) && k < n { assert text[..n][k] == text[k]; }
      if k :| 0 <= k < n && e == Edge(lo + 2 * k, Ch(text[..n][k]), lo + 2 * k + 1) { assert text[..n][k] == text[k]; }
    }
  }

  lemma HeadClosed(lo: nat)
    ensures Closed(HeadEdges(lo), Labelling(lo))
  {
    hide Scan.Tagged, TextScan, Labelling, EdgeClosed;
    SymbolAt(lo, 0, 1);
    SymbolAt(lo, 2, 3);
    SymbolAt(lo, 4, 5);
    SymbolAt(lo, 6, 7);
  }

  lemma ArmClosed(lo: nat, k: nat)
    requires k < 8
    ensures EdgeClosed(Edge(lo + 8 + 2 * k, Ch(ARMS[k]), lo + 9 + 2 * k), Labelling(lo))
    ensures EdgeClosed(Edge(lo + 24, Eps, lo + 8 + 2 * k), Labelling(lo)) && EdgeClosed(Edge(lo + 9 + 2 * k, Eps, lo + 25), Labelling(lo))
  {
    hide Scan.Tagged, TextScan, Labelling, EdgeClosed, TagOf;
    ArmTag(k);
    TagEnds();
    SymbolAt(lo, 8 + 2 * k, 9 + 2 * k);
    EmptyAt(lo, 24, 8 + 2 * k);
    EmptyAt(lo, 9 + 2 * k, 25);
  }

  lemma TagEnds()
    ensures TagOf(24) == At(ESC) && TagOf(25) == TagOf(26) == At(BODY) && TagOf(7) == At(ESC)
    ensures TagOf(0) == Then(Ch('\"'), BODY) && TagOf(38) == At(DONE)
  {
  }

  lemma EscapeClosed(lo: nat)
    ensures Closed(EscapeEdges(lo), Labelling(lo))
  {
    hide Scan.Tagged, TextScan, Labelling, EdgeClosed, TagOf, CharEdges, Branches;
    TagEnds();
    EmptyAt(lo, 7, 24);
    EmptyAt(lo, 25, 26);
    forall e | e in SimpleEdges(lo) ensures EdgeClosed(e, Labelling(lo)) {
      CharEdgesMember(ARMS, lo + 8, e);
      var k :| 0 <= k < |ARMS| && e == Edge(lo + 8 + 2 * k, Ch(ARMS[k]), lo + 8 + 2 * k + 1);
      ArmClosed(lo, k);
    }
    forall e | e in Branches(SimpleEnds(lo), lo + 24) ensures EdgeClosed(e, Labelling(lo)) {
      BranchesMember(SimpleEnds(lo), lo + 24, e);
      var k :| 0 <= k < 8 && IsBranch(SimpleEnds(lo)[k], lo + 24, e);
      ArmClosed(lo, k);
    }
  }

  lemma HexClosed(lo: nat)
    ensures Closed(HexEdges(lo), Labelling(lo))
  {
    hide Scan.Tagged, TextScan, Labelling, EdgeClosed;
    TagOrder();
    SymbolAt(lo, 27, 28);
    EmptyAt(lo, 7, 27);
    EmptyAt(lo, 28, 4);
    EmptyAt(lo, 5, 29);
    EmptyAt(lo, 29, 4);
    EmptyAt(lo, 5, 30);
    EmptyAt(lo, 30, 4);
    EmptyAt(lo, 5, 31);
    EmptyAt(lo, 31, 4);
    EmptyAt(lo, 5, 32);
    EmptyAt(lo, 32, 26);
  }

  lemma BodyClosed(lo: nat)
    ensures Closed(BodyEdges(lo), Labelling(lo))
  {
    hide Scan.Tagged, TextScan, Labelling, EdgeClosed;
    TagOrder();
    EmptyAt(lo, 33, 2);
    EmptyAt(lo, 3, 34);
    EmptyAt(lo, 33, 6);
    EmptyAt(lo, 26, 34);
    EmptyAt(lo, 35, 33);
    EmptyAt(lo, 34, 36);
    EmptyAt(lo, 34, 33);
    EmptyAt(lo, 35, 36);
    SymbolAt(lo, 37, 38);
    EmptyAt(lo, 1, 35);
    EmptyAt(lo, 36, 37);
  }

  lemma TextSound(lo: nat, w: string)
    requires w in TextPart(lo).Accepted()
    ensures TextScan().Run(OPEN, w)
  {
    hide HeadEdges, EscapeEdges, HexEdges, BodyEdges, Reads, TagOf, Labelling, Scan.Run, TextScan;
    HeadClosed(lo);
    EscapeClosed(lo);
    HexClosed(lo);
    BodyClosed(lo);
    OpenEnds(lo, w);
    ReadsBound(TextEdges(lo), Labelling(lo), lo, w, lo + 38);
  }

  lemma OpenEnds(lo: nat, w: string)
    ensures [] in Labelling(lo)(lo + 38)
    ensures w in Labelling(lo)(lo) ==> TextScan().Run(OPEN, w)
  {
    TagEnds();
    hide TagOf, Labelling;
    LabelAt(lo, 38);
    LabelAt(lo, 0);
    if w in Labelling(lo)(lo + 0) {
      assert TextScan().Holds(Then(Ch('\"'), BODY), w);
    }
  }

  // ---- completeness ----

  predicate Home(ph: nat, i: nat) {
    if ph == OPEN then i == 0
    else if ph == BODY then i == 34 || i == 35
    else if ph == ESC then i == 7
    else if ph == HEX then i == 28
    else ph == DONE && i == 38
  }

  lemma BodyHops(lo: nat, i: nat)
    requires i == 34 || i == 35
    ensures var es := TextEdges(lo);
            && AllHops(es, [lo + i, lo + 36, lo + 37]) && AllHops(es, [lo + i, lo + 33, lo + 6]) && AllHops(es, [lo + i, lo + 33, lo + 2])
            && Edge(lo + 37, Ch('\"'), lo + 38) in es && AllHops(es, [lo + 3, lo + 34]) && AllHops(es, [lo + 1, lo + 35])
  {
    hide HeadEdges, EscapeEdges, HexEdges;
  }

  lemma HeadEdgesIn(lo: nat)
    ensures var es := TextEdges(lo);
            && Edge(lo, Ch('\"'), lo + 1) in es && Edge(lo + 2, PLAIN, lo + 3) in es && Edge(lo + 4, HEXES, lo + 5) in es
            && Edge(lo + 6, Ch('\\'), lo + 7) in es
  {
    hide EscapeEdges, HexEdges, BodyEdges;
  }

  lemma HexHops(lo: nat)
    ensures var es := TextEdges(lo);
            && AllHops(es, [lo + 7, lo + 27]) && Edge(lo + 27, Ch('u'), lo + 28) in es && AllHops(es, [lo + 28, lo + 4])
            && AllHops(es, [lo + 5, lo + 32, lo + 26, lo + 34])
  {
    hide HeadEdges, EscapeEdges;
    assert Edge(lo + 26, Eps, lo + 34) in BodyEdges(lo);
  }

  lemma ArmHops(lo: nat, k: nat)
    requires k < 8
    ensures var es := TextEdges(lo);
            && AllHops(es, [lo + 7, lo + 24, lo + 8 + 2 * k]) && Edge(lo + 8 + 2 * k, Ch(ARMS[k]), lo + 9 + 2 * k) in es
            && AllHops(es, [lo + 9 + 2 * k, lo + 25, lo + 26, lo + 34])
  {
    hide HeadEdges, HexEdges, CharEdges, Branches;
    assert |ARMS| == 8;
    CharEdgesMember(ARMS, lo + 8, Edge(lo + 8 + 2 * k, Ch(ARMS[k]), lo + 8 + 2 * k + 1));
    assert SimpleEnds(lo)[k] == (lo + 8 + 2 * k, lo + 8 + 2 * k + 1);
    assert IsBranch(SimpleEnds(lo)[k], lo + 24, Edge(lo + 24, Eps, lo + 8 + 2 * k));
    assert IsBranch(SimpleEnds(lo)[k], lo + 24, Edge(lo + 9 + 2 * k, Eps, lo + 25));
    BranchesMember(SimpleEnds(lo), lo + 24, Edge(lo + 24, Eps, lo + 8 + 2 * k));
    BranchesMember(SimpleEnds(lo), lo + 24, Edge(lo + 9 + 2 * k, Eps, lo + 25));
    assert Edge(lo + 26, Eps, lo + 34) in BodyEdges(lo);
  }

  lemma ArmOf(c: char) returns (k: nat)
    requires J.Simple(c)
    ensures k < 8 && ARMS[k] == c
  {
    k := if c == '\"' then 0 else if c == '\\' then 1 else if c == '/' then 2 else if c == 'b' then 3
         else if c == 'f' then 4 else if c == 'n' then 5 else if c == 'r' then 6 else 7;
  }

  lemma HomeStep(lo: nat, ph: nat, i: nat, c: char) returns (j: nat)
    requires Home(ph, i) && TextStep(ph, c).Go?
    ensures Home(TextStep(ph, c).phase, j) && Reads(TextEdges(lo), lo + i, [c], lo + j)
  {
    hide Reads, TextEdges, AllHops, PLAIN, HEXES;
    var es := TextEdges(lo);
    HeadEdgesIn(lo);
    HexHops(lo);
    BodyHops(lo, if i == 34 then 34 else 35);
    if ph == OPEN {
      j := 35;
      HopsNone(es, lo);
      HopSymbolHop(es, [lo], Ch('\"'), c, [lo + 1, lo + 35]);
    } else if ph == BODY {
      if c == '\"' {
        j := 38;
        HopsNone(es, lo + 38);
        HopSymbolHop(es, [lo + i, lo + 36, lo + 37], Ch('\"'), c, [lo + 38]);
      } else if c == '\\' {
        j := 7;
        HopsNone(es, lo + 7);
        HopSymbolHop(es, [lo + i, lo + 33, lo + 6], Ch('\\'), c, [lo + 7]);
      } else {
        j := 34;
        PlainAllows(c);
        HopSymbolHop(es, [lo + i, lo + 33, lo + 2], PLAIN, c, [lo + 3, lo + 34]);
      }
    } else if ph == ESC {
      if J.Simple(c) {
        j := 34;
        var k := ArmOf(c);
        ArmHops(lo, k);
        HopSymbolHop(es, [lo + 7, lo + 24, lo + 8 + 2 * k], Ch(c), c, [lo + 9 + 2 * k, lo + 25, lo + 26, lo + 34]);
      } else {
        j := 28;
        HopsNone(es, lo + 28);
        HopSymbolHop(es, [lo + 7, lo + 27], Ch('u'), c, [lo + 28]);
      }
    } else {
      j := 34;
      HexAllows(c);
      HopSymbolHop(es, [lo + 28, lo + 4], HEXES, c, [lo + 5, lo + 32, lo + 26, lo + 34]);
    }
  }

  lemma HopsNone(es: set<Edge>, p: nat)
    ensures AllHops(es, [p])
  {
  }

  lemma {:induction false} TextComplete(lo: nat, ph: nat, i: nat, w: string)
    requires Home(ph, i) && TextScan().Run(ph, w)
    ensures Reads(TextEdges(lo), lo + i, w, lo + 38)
    decreases |w|
  {
    hide Reads, TextEdges, Home, TextStep;
    if w == [] {
      HomeDone(ph, i);
      ReadsSelf(TextEdges(lo), lo + 38);
    } else {
      var j := HomeStep(lo, ph, i, w[0]);
      TextComplete(lo, TextStep(ph, w[0]).phase, j, w[1..]);
      ReadsConcat(TextEdges(lo), lo + i, [w[0]], lo + j, w[1..], lo + 38);
      assert [w[0]] + w[1..] == w;
    }
  }

  lemma HomeDone(ph: nat, i: nat)
    requires Home(ph, i) && ph == DONE
    ensures i == 38
  {
  }

  /** The compiled fragment accepts exactly the scanner's texts. */
  lemma TextExact(lo: nat)
    ensures TextPart(lo).Valid() && TextPart(lo).Accepted() == TextScan().Texts(OPEN)
  {
    hide Reads, Scan.Run, TextScan, TextEdges, Part.Valid;
    TextValid(lo);
    var x := TextPart(lo);
    forall w ensures w in x.Accepted() <==> w in TextScan().Texts(OPEN) {
      if w in x.Accepted() { TextSound(lo, w); }
      if TextScan().Run(OPEN, w) { TextComplete(lo, OPEN, 0, w); }
    }
  }

  lemma EscapeInside(lo: nat)
    ensures Inside(EscapeEdges(lo), lo, lo + 39)
  {
    hide CharEdges, Branches;
    forall e | e in SimpleEdges(lo) ensures lo <= e.src < lo + 39 && lo <= e.dst < lo + 39 {
      CharEdgesMember(ARMS, lo + 8, e);
    }
    forall e | e in Branches(SimpleEnds(lo), lo + 24) ensures lo <= e.src < lo + 39 && lo <= e.dst < lo + 39 {
      BranchesMember(SimpleEnds(lo), lo + 24, e);
    }
  }

  lemma HeadInside(lo: nat)
    ensures Inside(HeadEdges(lo), lo, lo + 39)
  {
  }

  lemma HexInside(lo: nat)
    ensures Inside(HexEdges(lo), lo, lo + 39)
  {
  }

  lemma BodyInside(lo: nat)
    ensures Inside(BodyEdges(lo), lo, lo + 39)
  {
  }

  lemma TextValid(lo: nat)
    ensures TextPart(lo).Valid()
  {
    HeadInside(lo);
    HexInside(lo);
    BodyInside(lo);
    hide HeadEdges, EscapeEdges, HexEdges, BodyEdges;
    EscapeInside(lo);
  }
}
