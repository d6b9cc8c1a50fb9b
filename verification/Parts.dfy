/** The fragment combinators and the languages of what they build. */
module Fragments {
  import opened Languages
  import opened Nfas

  // ---- one symbol, and the empty text ----

  function Symbol(lo: nat, sym: Label): Part {
    Part({Edge(lo, sym, lo + 1)}, lo, lo + 2, lo, lo + 1)
  }

  function Blank(lo: nat): Part {
    Part({}, lo, lo + 1, lo, lo)
  }

  lemma SymbolExact(lo: nat, sym: Label)
    requires !sym.Eps?
    ensures Symbol(lo, sym).Valid() && Symbol(lo, sym).Accepted() == One((c: char) => sym.Allows(c))
  {
    hide Reads;
    var x := Symbol(lo, sym);
    var l := One((c: char) => sym.Allows(c));
    forall w | w in l ensures w in x.Accepted() {
      ReadsChar(x.es, Edge(lo, sym, lo + 1), w[0]);
      assert w == [w[0]];
    }
    var r := (p: nat) => if p == lo then l else if p == lo + 1 then EPSILON else iset{};
    forall w | w in x.Accepted() ensures w in l {
      ReadsBound(x.es, r, lo, w, lo + 1);
    }
  }

  lemma BlankExact(lo: nat)
    ensures Blank(lo).Valid() && Blank(lo).Accepted() == EPSILON
  {
    ReadsSelf({}, lo);
    forall w | Reads({}, lo, w, lo) ensures w == [] {
      var path :| IsPath({}, lo, path, lo) && Spells(path, w);
    }
  }

  // ---- literal texts ----

  /** The symbols of a literal, chained: symbol `i` owns states `lo + 2i` and `lo + 2i + 1`. */
  function Literal(text: string, lo: nat): Part {
    if |text| == 0 then Blank(lo)
    else if |text| == 1 then Symbol(lo, Ch(text[0]))
    else Sequence(Literal(text[..|text| - 1], lo), Symbol(lo + 2 * (|text| - 1), Ch(text[|text| - 1])))
  }

  lemma {:induction false} LiteralExact(text: string, lo: nat)
    ensures Literal(text, lo).Valid() && Literal(text, lo).Accepted() == iset{text}
    ensures Literal(text, lo).lo == lo == Literal(text, lo).s
    ensures Literal(text, lo).hi == lo + if text == [] then 1 else 2 * |text|
    ensures Literal(text, lo).f == lo + if text == [] then 0 else 2 * |text| - 1
  {
    hide Part.Accepted, Cat, Chr;
    var n := |text| - 1;
    if |text| == 0 {
      BlankExact(lo);
    } else if |text| == 1 {
      SymbolExact(lo, Ch(text[0]));
      OneChr(text[0]);
      assert text == [text[0]];
    } else {
      LiteralExact(text[..n], lo);
      SymbolExact(lo + 2 * n, Ch(text[n]));
      SequenceExact(Literal(text[..n], lo), Symbol(lo + 2 * n, Ch(text[n])));
      OneChr(text[n]);
      CatTexts(text[..n], [text[n]]);
      assert text[..n] + [text[n]] == text;
    }
  }

  lemma OneChr(d: char)
    ensures One((c: char) => Ch(d).Allows(c)) == Chr(d) == iset{[d]}
  {
    var l := One((c: char) => Ch(d).Allows(c));
    forall w: string ensures w in l <==> w == [d] {
    }
  }

  lemma CatTexts(u: string, v: string)
    ensures Cat(iset{u}, iset{v}) == iset{u + v}
  {
    CatIn(iset{u}, iset{v}, u, v);
    forall w | w in Cat(iset{u}, iset{v}) ensures w == u + v {
      var x, y := CatSplit(iset{u}, iset{v}, w);
    }
  }

  // ---- iteration ----

  /** `star`: fresh `a` and `b = a + 1` around a part. */
  function Repeat(x: Part, a: nat): Part {
    Part(x.es + {Edge(a, Eps, x.s), Edge(x.f, Eps, a + 1), Edge(x.f, Eps, x.s), Edge(a, Eps, a + 1)}, x.lo, a + 2, a, a + 1)
  }

  lemma RepeatExact(x: Part, a: nat)
    requires x.Valid() && x.hi <= a
    ensures Repeat(x, a).Valid() && Repeat(x, a).Accepted() == Star(x.Accepted())
  {
    hide Reads, Star, InStar, Cat;
    var y := Repeat(x, a);
    var l := x.Accepted();
    assert y.Valid();
    forall w | w in Star(l) ensures w in y.Accepted() {
      RepeatReads(x, a, w);
    }
    var k := Star(l);
    var r := (p: nat) => if x.Owns(p) then x.Residual(p, k) else if p == a then k else if p == a + 1 then EPSILON else iset{};
    x.ResidualClosed(k, r);
    x.ResidualEnds(k);
    StarUnfolds(l);
    assert Closed(y.es, r);
    forall w | w in y.Accepted() ensures w in k {
      ReadsBound(y.es, r, a, w, a + 1);
    }
  }

  lemma StarUnfolds(l: Lang)
    ensures Cat(l, Star(l)) <= Star(l) && EPSILON <= Star(l)
  {
    assert InStar(l, []);
    forall w | w in Cat(l, Star(l)) ensures w in Star(l) {
      var u, v := CatSplit(l, Star(l), w);
      StarCons(l, u, v);
    }
  }

  lemma RepeatReads(x: Part, a: nat, w: string)
    requires x.Valid() && x.hi <= a && w in Star(x.Accepted())
    ensures Reads(Repeat(x, a).es, a, w, a + 1)
  {
    hide Reads;
    var es := Repeat(x, a).es;
    if w == [] {
      ReadsEps(es, a, a + 1);
    } else {
      var i :| 0 < i <= |w| && w[..i] in x.Accepted() && InStar(x.Accepted(), w[i..]);
      RepeatLoop(x, a, w[..i], w[i..]);
      assert w[..i] + w[i..] == w;
      ReadsAfterEps(es, a, x.s, w, a + 1);
    }
  }

  /** From the body's entry: one body text, then any number more. */
  lemma {:induction false} RepeatLoop(x: Part, a: nat, u: string, v: string)
    requires x.Valid() && x.hi <= a && u in x.Accepted() && InStar(x.Accepted(), v)
    ensures Reads(Repeat(x, a).es, x.s, u + v, a + 1)
    decreases |v|
  {
    hide Reads;
    var es := Repeat(x, a).es;
    ReadsMono(x.es, es, x.s, u, x.f);
    if v == [] {
      ReadsEps(es, x.f, a + 1);
    } else {
      var i :| 0 < i <= |v| && v[..i] in x.Accepted() && InStar(x.Accepted(), v[i..]);
      RepeatLoop(x, a, v[..i], v[i..]);
      assert v[..i] + v[i..] == v;
      ReadsAfterEps(es, x.f, x.s, v, a + 1);
    }
    ReadsConcat(es, x.s, u, x.f, v, a + 1);
  }

  /** `opt`. */
  function Optional(x: Part, a: nat): Part {
    Part(x.es + {Edge(a, Eps, x.s), Edge(x.f, Eps, a + 1), Edge(a, Eps, a + 1)}, x.lo, a + 2, a, a + 1)
  }

  lemma OptionalExact(x: Part, a: nat)
    requires x.Valid() && x.hi <= a
    ensures Optional(x, a).Valid() && Optional(x, a).Accepted() == Opt(x.Accepted())
  {
    hide Reads, Cat;
    var y := Optional(x, a);
    var l := x.Accepted();
    forall w | w in Opt(l) ensures w in y.Accepted() {
      if w in l {
        ReadsMono(x.es, y.es, x.s, w, x.f);
        ReadsAfterEps(y.es, a, x.s, w, x.f);
        ReadsThenEps(y.es, a, w, x.f, a + 1);
      } else {
        ReadsEps(y.es, a, a + 1);
      }
    }
    var k := EPSILON;
    var r := (p: nat) => if x.Owns(p) then x.Residual(p, k) else if p == a then Opt(l) else if p == a + 1 then EPSILON else iset{};
    x.ResidualClosed(k, r);
    x.ResidualEnds(k);
    CatEpsilon(l);
    assert Closed(y.es, r);
    forall w | w in y.Accepted() ensures w in Opt(l) {
      ReadsBound(y.es, r, a, w, a + 1);
    }
  }

  // ---- alternation ----

  function AllEdges(xs: seq<Part>): set<Edge> {
    if xs == [] then {} else AllEdges(xs[..|xs| - 1]) + xs[|xs| - 1].es
  }

  /** Entry and exit of every part. */
  function Ends(xs: seq<Part>): seq<(nat, nat)> {
    seq(|xs|, i requires 0 <= i < |xs| => (xs[i].s, xs[i].f))
  }

  /** The empty moves of `alt`. */
  function Branches(fs: seq<(nat, nat)>, a: nat): set<Edge> {
    if fs == [] then {}
    else Branches(fs[..|fs| - 1], a) + {Edge(a, Eps, fs[|fs| - 1].0), Edge(fs[|fs| - 1].1, Eps, a + 1)}
  }

  /** `alt`: fresh `a` and `a + 1` around any number of parts. */
  function Alternation(xs: seq<Part>, lo: nat, a: nat): Part {
    Part(AllEdges(xs) + Branches(Ends(xs), a), lo, a + 2, a, a + 1)
  }

  /** The parts lie in `lo .. a`, one after the other. */
  ghost predicate Apart(xs: seq<Part>, lo: nat, a: nat) {
    && (forall i :: 0 <= i < |xs| ==> xs[i].Valid() && lo <= xs[i].lo && xs[i].hi <= a)
    && (forall i, j :: 0 <= i < j < |xs| ==> Disjoint(xs[i], xs[j]))
  }

  ghost function AcceptedBy(xs: seq<Part>): seq<Lang> {
    seq(|xs|, i requires 0 <= i < |xs| => xs[i].Accepted())
  }

  lemma {:induction false} AllEdgesMember(xs: seq<Part>, e: Edge)
    ensures e in AllEdges(xs) <==> exists i :: 0 <= i < |xs| && e in xs[i].es
  {
    if xs != [] {
      var n := |xs| - 1;
      AllEdgesMember(xs[..n], e);
      if i :| 0 <= i < |xs| && e in xs[i].es && i < n { assert e in xs[..n][i].es; }
      if i :| 0 <= i < |xs[..n]| && e in xs[..n][i].es { assert e in xs[i].es; }
    }
  }

  lemma {:induction false} BranchesMember(fs: seq<(nat, nat)>, a: nat, e: Edge)
    ensures e in Branches(fs, a) <==> exists i :: 0 <= i < |fs| && IsBranch(fs[i], a, e)
  {
    if fs != [] {
      var n := |fs| - 1;
      BranchesMember(fs[..n], a, e);
      if i :| 0 <= i < |fs| && IsBranch(fs[i], a, e) && i < n { assert IsBranch(fs[..n][i], a, e); }
      if i :| 0 <= i < |fs[..n]| && IsBranch(fs[..n][i], a, e) { assert IsBranch(fs[i], a, e); }
    }
  }

  predicate IsBranch(x: (nat, nat), a: nat, e: Edge) {
    e == Edge(a, Eps, x.0) || e == Edge(x.1, Eps, a + 1)
  }

  ghost predicate BranchReads(xs: seq<Part>, i: int, p: nat, w: string) {
    0 <= i < |xs| && xs[i].Owns(p) && w in Between(xs[i].es, p, xs[i].f)
  }

  /** What each state of an alternation can read. */
  ghost function BranchLabel(xs: seq<Part>, a: nat, p: nat): Lang {
    if p == a then AnyIn(AcceptedBy(xs))
    else if p == a + 1 then EPSILON
    else iset w: string | SomeBranchReads(xs, p, w)
  }

  ghost predicate SomeBranchReads(xs: seq<Part>, p: nat, w: string) {
    exists i :: BranchReads(xs, i, p, w)
  }

  lemma AlternationValid(xs: seq<Part>, lo: nat, a: nat)
    requires Apart(xs, lo, a) && lo <= a
    ensures Alternation(xs, lo, a).Valid()
  {
    var y := Alternation(xs, lo, a);
    forall e | e in y.es ensures lo <= e.src < a + 2 && lo <= e.dst < a + 2 {
      AllEdgesMember(xs, e);
      BranchesMember(Ends(xs), a, e);
    }
  }

  /** No state belongs to two branches. */
  lemma OneOwner(xs: seq<Part>, lo: nat, a: nat, i: int, j: int, p: nat)
    requires Apart(xs, lo, a) && 0 <= i < |xs| && 0 <= j < |xs| && xs[i].Owns(p) && xs[j].Owns(p)
    ensures i == j
  {
    hide Apart;
    if i < j {
      ApartAt(xs, lo, a, i, j);
    } else if j < i {
      ApartAt(xs, lo, a, j, i);
    }
  }

  lemma ApartAt(xs: seq<Part>, lo: nat, a: nat, i: int, j: int)
    requires Apart(xs, lo, a) && 0 <= i < j < |xs|
    ensures Disjoint(xs[i], xs[j])
  {
  }

  /** The label is closed along the edges inside the branches. */
  lemma BranchInner(xs: seq<Part>, lo: nat, a: nat, i: int, e: Edge)
    requires Apart(xs, lo, a) && 0 <= i < |xs| && e in xs[i].es
    ensures EdgeClosed(e, (p: nat) => BranchLabel(xs, a, p))
  {
    hide Reads;
    var x := xs[i];
    forall j, w | BranchReads(xs, j, e.dst, w) ensures j == i {
      OneOwner(xs, lo, a, i, j, e.dst);
    }
    forall w | w in BranchLabel(xs, a, e.dst) && e.sym.Eps? ensures w in BranchLabel(xs, a, e.src) {
      ReadsAfterEps(x.es, e.src, e.dst, w, x.f);
      assert BranchReads(xs, i, e.src, w);
    }
    forall c: char, w: string | e.sym.Allows(c) && w in BranchLabel(xs, a, e.dst) ensures [c] + w in BranchLabel(xs, a, e.src) {
      ReadsChar(x.es, e, c);
      ReadsConcat(x.es, e.src, [c], e.dst, w, x.f);
      assert BranchReads(xs, i, e.src, [c] + w);
    }
  }

  /** ... and along the edges into and out of them. */
  lemma BranchOuter(xs: seq<Part>, lo: nat, a: nat, i: int, e: Edge)
    requires Apart(xs, lo, a) && 0 <= i < |xs| && IsBranch(Ends(xs)[i], a, e)
    ensures EdgeClosed(e, (p: nat) => BranchLabel(xs, a, p))
  {
    hide Reads;
    var x := xs[i];
    if e == Edge(a, Eps, x.s) {
      forall w | w in BranchLabel(xs, a, x.s) ensures w in BranchLabel(xs, a, a) {
        var j :| BranchReads(xs, j, x.s, w);
        OneOwner(xs, lo, a, i, j, x.s);
        assert InNth(AcceptedBy(xs), i, w);
      }
    } else {
      ReadsSelf(x.es, x.f);
      assert BranchReads(xs, i, x.f, []);
    }
  }

  /** An alternation reads exactly the union; with no branch it reads nothing. */
  lemma AlternationExact(xs: seq<Part>, lo: nat, a: nat)
    requires Apart(xs, lo, a) && lo <= a
    ensures Alternation(xs, lo, a).Valid() && Alternation(xs, lo, a).Accepted() == AnyIn(AcceptedBy(xs))
  {
    hide Reads, AllEdges, Branches, BranchLabel;
    AlternationValid(xs, lo, a);
    var y := Alternation(xs, lo, a);
    forall w | w in AnyIn(AcceptedBy(xs)) ensures w in y.Accepted() {
      var i :| InNth(AcceptedBy(xs), i, w);
      AlternationReads(xs, lo, a, i, w);
    }
    var r := (p: nat) => BranchLabel(xs, a, p);
    forall e | e in y.es ensures EdgeClosed(e, r) {
      AllEdgesMember(xs, e);
      BranchesMember(Ends(xs), a, e);
      if e in AllEdges(xs) {
        var i :| 0 <= i < |xs| && e in xs[i].es;
        BranchInner(xs, lo, a, i, e);
      } else {
        var i :| 0 <= i < |xs| && IsBranch(Ends(xs)[i], a, e);
        BranchOuter(xs, lo, a, i, e);
      }
    }
    BranchEnds(xs, a);
    forall w | w in y.Accepted() ensures w in AnyIn(AcceptedBy(xs)) {
      ReadsBound(y.es, r, a, w, a + 1);
    }
  }

  lemma BranchEnds(xs: seq<Part>, a: nat)
    ensures BranchLabel(xs, a, a) == AnyIn(AcceptedBy(xs)) && [] in BranchLabel(xs, a, a + 1)
  {
  }

  lemma AlternationReads(xs: seq<Part>, lo: nat, a: nat, i: int, w: string)
    requires Apart(xs, lo, a) && 0 <= i < |xs| && w in xs[i].Accepted()
    ensures Reads(Alternation(xs, lo, a).es, a, w, a + 1)
  {
    hide Reads, AllEdges, Branches;
    var es := Alternation(xs, lo, a).es;
    var x := xs[i];
    forall e | e in x.es || IsBranch(Ends(xs)[i], a, e) ensures e in es {
      AllEdgesMember(xs, e);
      BranchesMember(Ends(xs), a, e);
    }
    assert IsBranch(Ends(xs)[i], a, Edge(a, Eps, x.s)) && IsBranch(Ends(xs)[i], a, Edge(x.f, Eps, a + 1));
    ReadsMono(x.es, es, x.s, w, x.f);
    ReadsAfterEps(es, a, x.s, w, x.f);
    ReadsThenEps(es, a, w, x.f, a + 1);
  }
}
