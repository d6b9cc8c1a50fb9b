/** Languages of texts: union, concatenation and iteration. */
module Languages {

  type Lang = iset<string>

  const EPSILON: Lang := iset{[]}

  ghost function Cat(a: Lang, b: Lang): Lang {
    iset w: string | InCat(a, b, w)
  }

  ghost predicate InCat(a: Lang, b: Lang, w: string) {
    exists i :: SplitsAt(a, b, w, i)
  }

  ghost predicate SplitsAt(a: Lang, b: Lang, w: string, i: int) {
    0 <= i <= |w| && w[..i] in a && w[i..] in b
  }

  ghost function Star(a: Lang): Lang {
    iset w: string | InStar(a, w)
  }

  ghost predicate InStar(a: Lang, w: string)
    decreases |w|
  {
    w == [] || exists i :: 0 < i <= |w| && w[..i] in a && InStar(a, w[i..])
  }

  ghost function Opt(a: Lang): Lang {
    a + EPSILON
  }

  /** The union of a list of languages. */
  ghost function AnyIn(ls: seq<Lang>): Lang {
    iset w: string | InAny(ls, w)
  }

  ghost predicate InAny(ls: seq<Lang>, w: string) {
    exists i :: InNth(ls, i, w)
  }

  ghost predicate InNth(ls: seq<Lang>, i: int, w: string) {
    0 <= i < |ls| && w in ls[i]
  }

  /** All texts of one character satisfying `p`. */
  ghost function One(p: char -> bool): Lang {
    iset w: string | |w| == 1 && p(w[0])
  }

  ghost function Chr(c: char): Lang {
    iset{[c]}
  }

  lemma CatIn(a: Lang, b: Lang, u: string, v: string)
    requires u in a && v in b
    ensures u + v in Cat(a, b)
  {
    assert (u + v)[..|u|] == u && (u + v)[|u|..] == v;
    assert SplitsAt(a, b, u + v, |u|);
  }

  lemma CatSplit(a: Lang, b: Lang, w: string) returns (u: string, v: string)
    requires w in Cat(a, b)
    ensures w == u + v && u in a && v in b
  {
    var i :| SplitsAt(a, b, w, i);
    u, v := w[..i], w[i..];
  }

  lemma CatMono(a: Lang, b: Lang, a2: Lang, b2: Lang)
    requires a <= a2 && b <= b2
    ensures Cat(a, b) <= Cat(a2, b2)
  {
    forall w | w in Cat(a, b) ensures w in Cat(a2, b2) {
      var u, v := CatSplit(a, b, w);
      CatIn(a2, b2, u, v);
    }
  }

  lemma CatAssoc(a: Lang, b: Lang, c: Lang)
    ensures Cat(Cat(a, b), c) == Cat(a, Cat(b, c))
  {
    forall w ensures w in Cat(Cat(a, b), c) <==> w in Cat(a, Cat(b, c)) {
      if w in Cat(Cat(a, b), c) {
        var x, v := CatSplit(Cat(a, b), c, w);
        var s, t := CatSplit(a, b, x);
        CatIn(b, c, t, v);
        CatIn(a, Cat(b, c), s, t + v);
        assert w == s + (t + v);
      }
      if w in Cat(a, Cat(b, c)) {
        var s, y := CatSplit(a, Cat(b, c), w);
        var t, v := CatSplit(b, c, y);
        CatIn(a, b, s, t);
        CatIn(Cat(a, b), c, s + t, v);
        assert w == (s + t) + v;
      }
    }
  }

  lemma CatEpsilon(a: Lang)
    ensures Cat(a, EPSILON) == a && Cat(EPSILON, a) == a
  {
    forall w ensures w in Cat(a, EPSILON) <==> w in a {
      if w in a { CatIn(a, EPSILON, w, []); assert w + [] == w; }
      if w in Cat(a, EPSILON) { var u, v := CatSplit(a, EPSILON, w); assert w == u; }
    }
    forall w ensures w in Cat(EPSILON, a) <==> w in a {
      if w in a { CatIn(EPSILON, a, [], w); assert [] + w == w; }
      if w in Cat(EPSILON, a) { var u, v := CatSplit(EPSILON, a, w); assert w == v; }
    }
  }

  lemma StarCons(a: Lang, u: string, v: string)
    requires u in a && v in Star(a)
    ensures u + v in Star(a)
  {
    if u == [] {
      assert u + v == v;
    } else {
      assert (u + v)[..|u|] == u && (u + v)[|u|..] == v;
    }
  }

  lemma StarSplit(a: Lang, w: string) returns (u: string, v: string)
    requires w in Star(a) && w != []
    ensures w == u + v && u != [] && u in a && v in Star(a) && |v| < |w|
  {
    var i :| 0 < i <= |w| && w[..i] in a && InStar(a, w[i..]);
    u, v := w[..i], w[i..];
  }

  lemma StarOne(a: Lang, u: string)
    requires u in a
    ensures u in Star(a)
  {
    assert InStar(a, []);
    StarCons(a, u, []);
    assert u + [] == u;
  }

  lemma {:induction false} StarConcat(a: Lang, u: string, v: string)
    requires u in Star(a) && v in Star(a)
    ensures u + v in Star(a)
    decreases |u|
  {
    if u == [] {
      assert u + v == v;
    } else {
      var i :| 0 < i <= |u| && u[..i] in a && InStar(a, u[i..]);
      StarConcat(a, u[i..], v);
      StarCons(a, u[..i], u[i..] + v);
      assert u + v == u[..i] + (u[i..] + v);
    }
  }

  lemma {:induction false} StarMono(a: Lang, b: Lang, w: string)
    requires a <= b && w in Star(a)
    ensures w in Star(b)
    decreases |w|
  {
    if w != [] {
      var i :| 0 < i <= |w| && w[..i] in a && InStar(a, w[i..]);
      StarMono(a, b, w[i..]);
    }
  }
}
