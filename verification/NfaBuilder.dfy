/** The mutable builder of character automata: every combinator allocates states and pushes edges. */
module NfaBuilders {
  import opened Languages
  import opened Nfas
  import opened Fragments

  /** The empty moves of `seq`: each exit to the next entry. */
  function Links(fs: seq<(nat, nat)>): set<Edge> {
    if |fs| <= 1 then {} else Links(fs[..|fs| - 1]) + {Edge(fs[|fs| - 2].1, Eps, fs[|fs| - 1].0)}
  }

  lemma LinksTwo(x: (nat, nat), y: (nat, nat))
    ensures Links([x, y]) == {Edge(x.1, Eps, y.0)}
  {
    assert [x, y][..1] == [x];
  }

  lemma LinksThree(x: (nat, nat), y: (nat, nat), z: (nat, nat))
    ensures Links([x, y, z]) == {Edge(x.1, Eps, y.0), Edge(y.1, Eps, z.0)}
  {
    assert [x, y, z][..2] == [x, y];
    LinksTwo(x, y);
  }

  lemma LinksFour(x: (nat, nat), y: (nat, nat), z: (nat, nat), u: (nat, nat))
    ensures Links([x, y, z, u]) == {Edge(x.1, Eps, y.0), Edge(y.1, Eps, z.0), Edge(z.1, Eps, u.0)}
  {
    assert [x, y, z, u][..3] == [x, y, z];
    LinksThree(x, y, z);
  }

  lemma LinksFive(x: (nat, nat), y: (nat, nat), z: (nat, nat), u: (nat, nat), v: (nat, nat))
    ensures Links([x, y, z, u, v]) == {Edge(x.1, Eps, y.0), Edge(y.1, Eps, z.0), Edge(z.1, Eps, u.0), Edge(u.1, Eps, v.0)}
  {
    assert [x, y, z, u, v][..4] == [x, y, z, u];
    LinksFour(x, y, z, u);
  }

  lemma BranchesTwo(x: (nat, nat), y: (nat, nat), a: nat)
    ensures Branches([x, y], a) == {Edge(a, Eps, x.0), Edge(x.1, Eps, a + 1), Edge(a, Eps, y.0), Edge(y.1, Eps, a + 1)}
  {
    assert [x, y][..1] == [x] && [x][..0] == [];
    assert Branches([x], a) == {Edge(a, Eps, x.0), Edge(x.1, Eps, a + 1)};
  }

  lemma BranchesSplit(fs: seq<(nat, nat)>, gs: seq<(nat, nat)>, a: nat)
    ensures Branches(fs + gs, a) == Branches(fs, a) + Branches(gs, a)
  {
    if gs == [] {
      assert fs + gs == fs;
    } else {
      assert (fs + gs)[..|fs + gs| - 1] == fs + gs[..|gs| - 1];
      BranchesSplit(fs, gs[..|gs| - 1], a);
    }
  }

  /** The edges and exits of a literal's symbols before they are chained. */
  function CharEdges(text: string, lo: nat): set<Edge> {
    if text == [] then {}
    else CharEdges(text[..|text| - 1], lo) + {Edge(lo + 2 * (|text| - 1), Ch(text[|text| - 1]), lo + 2 * |text| - 1)}
  }

  function CharEnds(n: nat, lo: nat): seq<(nat, nat)> {
    seq(n, i requires 0 <= i < n => (lo + 2 * i, lo + 2 * i + 1))
  }

  lemma CharEdgesNone(lo: nat)
    ensures CharEdges([], lo) == {}
  {
  }

  lemma CharEdgesStep(text: string, lo: nat)
    requires text != []
    ensures CharEdges(text, lo) ==
            CharEdges(text[..|text| - 1], lo) + {Edge(lo + 2 * (|text| - 1), Ch(text[|text| - 1]), lo + 2 * |text| - 1)}
  {
  }

  lemma LinksNone()
    ensures Links([]) == {}
  {
  }

  lemma LinksStep(fs: seq<(nat, nat)>)
    requires |fs| >= 2
    ensures Links(fs) == Links(fs[..|fs| - 1]) + {Edge(fs[|fs| - 2].1, Eps, fs[|fs| - 1].0)}
  {
  }

  lemma LiteralStep(text: string, lo: nat)
    requires |text| >= 2
    ensures Literal(text, lo) ==
            Sequence(Literal(text[..|text| - 1], lo), Symbol(lo + 2 * (|text| - 1), Ch(text[|text| - 1])))
  {
  }

  lemma LiteralOne(text: string, lo: nat)
    requires |text| <= 1
    ensures Literal(text, lo).es == CharEdges(text, lo) + Links(CharEnds(|text|, lo))
  {
    if |text| == 1 {
      assert text[..0] == [];
    }
  }

  lemma Shuffle(a: set<Edge>, b: set<Edge>, c: Edge, d: Edge)
    ensures (a + b) + {c} + {d} == (a + {c}) + (b + {d})
  {
  }

  lemma {:induction false} LiteralEdges(text: string, lo: nat)
    ensures Literal(text, lo).es == CharEdges(text, lo) + Links(CharEnds(|text|, lo))
  {
    hide Literal, Links, CharEdges;
    if |text| <= 1 {
      LiteralOne(text, lo);
    } else {
      var n := |text| - 1;
      LiteralEdges(text[..n], lo);
      LiteralExact(text[..n], lo);
      LiteralStep(text, lo);
      CharEdgesStep(text, lo);
      LinksStep(CharEnds(|text|, lo));
      assert CharEnds(|text|, lo)[..n] == CharEnds(n, lo);
      var last, link := Edge(lo + 2 * n, Ch(text[n]), lo + 2 * n + 1), Edge(lo + 2 * n - 1, Eps, lo + 2 * n);
      Shuffle(CharEdges(text[..n], lo), Links(CharEnds(n, lo)), last, link);
    }
  }

  class NfaBuilder {
    var edges: seq<Edge>
    var states: nat

    ghost function Set(): set<Edge>
      reads this`edges
    {
      set e | e in edges
    }

    constructor ()
      ensures edges == [] && states == 0
    {
      edges, states := [], 0;
    }

    method State() returns (s: nat)
      modifies this`states
      ensures s == old(states) && states == s + 1
    {
      s := states;
      states := states + 1;
    }

    method Push(e: Edge)
      modifies this`edges
      ensures edges == old(edges) + [e] && Set() == old(Set()) + {e}
    {
      edges := edges + [e];
    }

    method AddEps(a: nat, b: nat)
      modifies this`edges
      ensures Set() == old(Set()) + {Edge(a, Eps, b)}
    {
      Push(Edge(a, Eps, b));
    }

    method Char(c: char) returns (frag: (nat, nat))
      modifies this
      ensures frag == (old(states), old(states) + 1) && states == old(states) + 2
      ensures Set() == old(Set()) + {Edge(frag.0, Ch(c), frag.1)}
    {
      var a := State();
      var b := State();
      Push(Edge(a, Ch(c), b));
      frag := (a, b);
    }

    method Ranges(ranges: seq<(char, char)>) returns (frag: (nat, nat))
      modifies this
      ensures frag == (old(states), old(states) + 1) && states == old(states) + 2
      ensures Set() == old(Set()) + {Edge(frag.0, Class(ranges), frag.1)}
    {
      var a := State();
      var b := State();
      Push(Edge(a, Class(ranges), b));
      frag := (a, b);
    }

    /** Chains fragments; an empty chain is one fresh state. */
    method Seq(frags: seq<(nat, nat)>) returns (frag: (nat, nat))
      modifies this
      ensures Set() == old(Set()) + Links(frags)
      ensures frags == [] ==> frag == (old(states), old(states)) && states == old(states) + 1
      ensures frags != [] ==> frag == (frags[0].0, frags[|frags| - 1].1) && states == old(states)
    {
      if frags == [] {
        var a := State();
        return (a, a);
      }
      var prev := frags[0].1;
      for k := 1 to |frags|
        invariant prev == frags[k - 1].1 && states == old(states)
        invariant Set() == old(Set()) + Links(frags[..k])
      {
        assert frags[..k + 1][..k] == frags[..k];
        AddEps(prev, frags[k].0);
        prev := frags[k].1;
      }
      assert frags[..|frags|] == frags;
      frag := (frags[0].0, prev);
    }

    /** A fragment for a literal text. */
    method Lit(text: string) returns (frag: (nat, nat))
      modifies this
      ensures var x := Literal(text, old(states));
              Set() == old(Set()) + x.es && frag == (x.s, x.f) && states == x.hi
    {
      hide Literal, Links, CharEdges, Set;
      ghost var lo := states;
      CharEdgesNone(lo);
      var frags: seq<(nat, nat)> := [];
      for k := 0 to |text|
        invariant states == lo + 2 * k && frags == CharEnds(k, lo)
        invariant Set() == old(Set()) + CharEdges(text[..k], lo)
      {
        CharEdgesStep(text[..k + 1], lo);
        assert text[..k + 1][..k] == text[..k];
        var f := Char(text[k]);
        frags := frags + [f];
      }
      assert text[..|text|] == text;
      LiteralEdges(text, lo);
      LiteralExact(text, lo);
      LinksNone();
      if frags == [] {
        var a := State();
        frag := (a, a);
      } else {
        frag := Seq(frags);
      }
    }

    method Alt(frags: seq<(nat, nat)>) returns (frag: (nat, nat))
      modifies this
      ensures frag == (old(states), old(states) + 1) && states == old(states) + 2
      ensures Set() == old(Set()) + Branches(frags, frag.0)
    {
      var a := State();
      var b := State();
      for k := 0 to |frags|
        invariant states == old(states) + 2
        invariant Set() == old(Set()) + Branches(frags[..k], a)
      {
        assert frags[..k + 1][..k] == frags[..k];
        AddEps(a, frags[k].0);
        AddEps(frags[k].1, b);
      }
      assert frags[..|frags|] == frags;
      frag := (a, b);
    }

    method Star(x: (nat, nat)) returns (frag: (nat, nat))
      modifies this
      ensures frag == (old(states), old(states) + 1) && states == old(states) + 2
      ensures Set() == old(Set()) +
                       {Edge(frag.0, Eps, x.0), Edge(x.1, Eps, frag.1), Edge(x.1, Eps, x.0), Edge(frag.0, Eps, frag.1)}
    {
      var a := State();
      var b := State();
      AddEps(a, x.0);
      AddEps(x.1, b);
      AddEps(x.1, x.0);
      AddEps(a, b);
      frag := (a, b);
    }

    method Opt(x: (nat, nat)) returns (frag: (nat, nat))
      modifies this
      ensures frag == (old(states), old(states) + 1) && states == old(states) + 2
      ensures Set() == old(Set()) + {Edge(frag.0, Eps, x.0), Edge(x.1, Eps, frag.1), Edge(frag.0, Eps, frag.1)}
    {
      var a := State();
      var b := State();
      AddEps(a, x.0);
      AddEps(x.1, b);
      AddEps(a, b);
      frag := (a, b);
    }

    /** One or more: the fragment is shared between the first occurrence and the loop. */
    method OneOrMore(x: (nat, nat)) returns (frag: (nat, nat))
      modifies this
      ensures frag == (old(states), old(states) + 1) && states == old(states) + 4
      ensures Set() == old(Set()) + Looped(x, frag.0)
    {
      var a := State();
      var b := State();
      var looped := Star(x);
      AddEps(a, x.0);
      AddEps(x.1, looped.0);
      AddEps(looped.1, b);
      frag := (a, b);
    }
  }

  /** The empty moves of `one_or_more` around a fragment, with fresh states from `a`. */
  function Looped(x: (nat, nat), a: nat): set<Edge> {
    {Edge(a + 2, Eps, x.0), Edge(x.1, Eps, a + 3), Edge(x.1, Eps, x.0), Edge(a + 2, Eps, a + 3),
     Edge(a, Eps, x.0), Edge(x.1, Eps, a + 2), Edge(a + 3, Eps, a + 1)}
  }
}
