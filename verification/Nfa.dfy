/** Character automata with empty moves: paths, the texts they spell, and how fragments compose. */
module Nfas {
  import opened Languages

  datatype Label = Eps | Ch(c: char) | Class(ranges: seq<(char, char)>) {
    predicate Allows(x: char) {
      match this
      case Eps => false
      case Ch(d) => d == x
      case Class(rs) => exists i :: 0 <= i < |rs| && rs[i].0 <= x <= rs[i].1
    }
  }

  datatype Edge = Edge(src: nat, sym: Label, dst: nat)

  // ---- paths ----

  ghost predicate IsPath(es: set<Edge>, p: nat, path: seq<Edge>, q: nat)
    decreases |path|
  {
    if path == [] then p == q
    else path[0] in es && path[0].src == p && IsPath(es, path[0].dst, path[1..], q)
  }

  ghost predicate Spells(path: seq<Edge>, w: string)
    decreases |path|
  {
    if path == [] then w == []
    else if path[0].sym.Eps? then Spells(path[1..], w)
    else w != [] && path[0].sym.Allows(w[0]) && Spells(path[1..], w[1..])
  }

  /** Some path from `p` to `q` spells `w`. */
  ghost predicate Reads(es: set<Edge>, p: nat, w: string, q: nat) {
    exists path :: IsPath(es, p, path, q) && Spells(path, w)
  }

  /** The texts spelled between two states. */
  ghost function Between(es: set<Edge>, p: nat, q: nat): Lang {
    iset w: string | Reads(es, p, w, q)
  }

  lemma ReadsSelf(es: set<Edge>, p: nat)
    ensures Reads(es, p, [], p)
  {
    assert IsPath(es, p, [], p) && Spells([], []);
  }

  lemma ReadsEps(es: set<Edge>, p: nat, q: nat)
    requires Edge(p, Eps, q) in es
    ensures Reads(es, p, [], q)
  {
    var path := [Edge(p, Eps, q)];
    assert path[1..] == [];
    assert IsPath(es, p, path, q) && Spells(path, []);
  }

  lemma ReadsChar(es: set<Edge>, e: Edge, c: char)
    requires e in es && e.sym.Allows(c)
    ensures Reads(es, e.src, [c], e.dst)
  {
    assert [e][1..] == [];
    assert IsPath(es, e.src, [e], e.dst) && Spells([e], [c]);
  }

  lemma {:induction false} PathConcat(es: set<Edge>, p: nat, a: seq<Edge>, q: nat, b: seq<Edge>, r: nat, u: string, v: string)
    requires IsPath(es, p, a, q) && IsPath(es, q, b, r) && Spells(a, u) && Spells(b, v)
    ensures IsPath(es, p, a + b, r) && Spells(a + b, u + v)
    decreases |a|
  {
    if a == [] {
      assert a + b == b && u + v == v;
    } else {
      var rest := if a[0].sym.Eps? then u else u[1..];
      PathConcat(es, a[0].dst, a[1..], q, b, r, rest, v);
      assert (a + b)[0] == a[0] && (a + b)[1..] == a[1..] + b;
      assert !a[0].sym.Eps? ==> (u + v)[1..] == u[1..] + v && (u + v)[0] == u[0];
    }
  }

  lemma ReadsConcat(es: set<Edge>, p: nat, u: string, q: nat, v: string, r: nat)
    requires Reads(es, p, u, q) && Reads(es, q, v, r)
    ensures Reads(es, p, u + v, r)
  {
    var a :| IsPath(es, p, a, q) && Spells(a, u);
    var b :| IsPath(es, q, b, r) && Spells(b, v);
    PathConcat(es, p, a, q, b, r, u, v);
  }

  /** An empty move before, or after, a text. */
  lemma ReadsAfterEps(es: set<Edge>, p: nat, q: nat, w: string, r: nat)
    requires Edge(p, Eps, q) in es && Reads(es, q, w, r)
    ensures Reads(es, p, w, r)
  {
    ReadsEps(es, p, q);
    ReadsConcat(es, p, [], q, w, r);
    assert [] + w == w;
  }

  lemma ReadsThenEps(es: set<Edge>, p: nat, w: string, q: nat, r: nat)
    requires Reads(es, p, w, q) && Edge(q, Eps, r) in es
    ensures Reads(es, p, w, r)
  {
    ReadsEps(es, q, r);
    ReadsConcat(es, p, w, q, [], r);
    assert w + [] == w;
  }

  lemma {:induction false} PathMono(es: set<Edge>, fs: set<Edge>, p: nat, path: seq<Edge>, q: nat)
    requires es <= fs && IsPath(es, p, path, q)
    ensures IsPath(fs, p, path, q)
    decreases |path|
  {
    if path != [] { PathMono(es, fs, path[0].dst, path[1..], q); }
  }

  lemma ReadsMono(es: set<Edge>, fs: set<Edge>, p: nat, w: string, q: nat)
    requires es <= fs && Reads(es, p, w, q)
    ensures Reads(fs, p, w, q)
  {
    var path :| IsPath(es, p, path, q) && Spells(path, w);
    PathMono(es, fs, p, path, q);
  }

  ghost predicate AllHops(es: set<Edge>, ps: seq<nat>) {
    forall i :: 0 <= i < |ps| - 1 ==> Edge(ps[i], Eps, ps[i + 1]) in es
  }

  /** A run of empty moves. */
  lemma {:induction false} Hops(es: set<Edge>, ps: seq<nat>)
    requires ps != [] && AllHops(es, ps)
    ensures Reads(es, ps[0], [], ps[|ps| - 1])
  {
    var n := |ps| - 1;
    if n == 0 {
      ReadsSelf(es, ps[0]);
    } else {
      forall i | 0 <= i < n - 1 ensures Edge(ps[..n][i], Eps, ps[..n][i + 1]) in es {
        assert Edge(ps[i], Eps, ps[i + 1]) in es;
      }
      Hops(es, ps[..n]);
      assert Edge(ps[n - 1], Eps, ps[n - 1 + 1]) in es;
      ReadsThenEps(es, ps[0], [], ps[n - 1], ps[n]);
    }
  }

  /** A run of empty moves, then one character. */
  lemma HopsThen(es: set<Edge>, ps: seq<nat>, sym: Label, d: nat, c: char)
    requires ps != [] && AllHops(es, ps) && Edge(ps[|ps| - 1], sym, d) in es && sym.Allows(c)
    ensures Reads(es, ps[0], [c], d)
  {
    hide Reads;
    Hops(es, ps);
    ReadsChar(es, Edge(ps[|ps| - 1], sym, d), c);
    ReadsConcat(es, ps[0], [], ps[|ps| - 1], [c], d);
    assert [] + [c] == [c];
  }

  /** Some hops, one symbol, some hops. */
  lemma HopSymbolHop(es: set<Edge>, ps: seq<nat>, sym: Label, c: char, qs: seq<nat>)
    requires ps != [] && qs != [] && AllHops(es, ps) && AllHops(es, qs)
    requires Edge(ps[|ps| - 1], sym, qs[0]) in es && sym.Allows(c)
    ensures Reads(es, ps[0], [c], qs[|qs| - 1])
  {
    hide Reads, AllHops;
    HopsThen(es, ps, sym, qs[0], c);
    Hops(es, qs);
    ReadsConcat(es, ps[0], [c], qs[0], [], qs[|qs| - 1]);
    assert [c] + [] == [c];
  }

  // ---- labellings: upper bounds on what can be read ----

  /** What the source must hold given what the destination holds. */
  ghost predicate EdgeClosed(e: Edge, r: nat -> Lang) {
    if e.sym.Eps? then r(e.dst) <= r(e.src)
    else forall c: char, w: string :: e.sym.Allows(c) && w in r(e.dst) ==> [c] + w in r(e.src)
  }

  ghost predicate Closed(es: set<Edge>, r: nat -> Lang) {
    forall e :: e in es ==> EdgeClosed(e, r)
  }

  lemma {:induction false} PathBound(es: set<Edge>, r: nat -> Lang, p: nat, path: seq<Edge>, q: nat, w: string)
    requires Closed(es, r) && [] in r(q) && IsPath(es, p, path, q) && Spells(path, w)
    ensures w in r(p)
    decreases |path|
  {
    if path != [] {
      var e := path[0];
      assert EdgeClosed(e, r);
      if e.sym.Eps? {
        PathBound(es, r, e.dst, path[1..], q, w);
      } else {
        PathBound(es, r, e.dst, path[1..], q, w[1..]);
        assert [w[0]] + w[1..] == w;
      }
    }
  }

  /** A labelling closed along every edge bounds everything that can be read to the final state. */
  lemma ReadsBound(es: set<Edge>, r: nat -> Lang, p: nat, w: string, q: nat)
    requires Closed(es, r) && [] in r(q) && Reads(es, p, w, q)
    ensures w in r(p)
  {
    var path :| IsPath(es, p, path, q) && Spells(path, w);
    PathBound(es, r, p, path, q, w);
  }

  // ---- fragments ----

  /** Every edge starts and ends among the states `lo .. hi`. */
  ghost predicate Inside(es: set<Edge>, lo: nat, hi: nat) {
    forall e :: e in es ==> lo <= e.src < hi && lo <= e.dst < hi
  }

  /** A part of a machine that owns the states `lo .. hi`: all its edges stay inside, entry `s`, exit `f`. */
  datatype Part = Part(es: set<Edge>, lo: nat, hi: nat, s: nat, f: nat) {
    ghost predicate Valid() {
      lo <= s < hi && lo <= f < hi && Inside(es, lo, hi)
    }

    predicate Owns(p: nat) {
      lo <= p < hi
    }

    ghost function Accepted(): Lang {
      Between(es, s, f)
    }

    /** What a state of the part can read when `k` may follow the exit. */
    ghost function Residual(p: nat, k: Lang): Lang {
      Cat(Between(es, p, f), k)
    }

    /** Residuals are closed along the part's own edges. */
    lemma ResidualClosed(k: Lang, r: nat -> Lang)
      requires Valid() && forall p :: Owns(p) ==> r(p) == Residual(p, k)
      ensures Closed(es, r)
    {
      forall e | e in es ensures EdgeClosed(e, r) {
        forall w | w in r(e.dst) && e.sym.Eps? ensures w in r(e.src) {
          var u, v := CatSplit(Between(es, e.dst, f), k, w);
          ReadsAfterEps(es, e.src, e.dst, u, f);
          CatIn(Between(es, e.src, f), k, u, v);
        }
        forall c: char, w: string | e.sym.Allows(c) && w in r(e.dst) ensures [c] + w in r(e.src) {
          var u, v := CatSplit(Between(es, e.dst, f), k, w);
          ReadsChar(es, e, c);
          ReadsConcat(es, e.src, [c], e.dst, u, f);
          CatIn(Between(es, e.src, f), k, [c] + u, v);
          assert [c] + w == ([c] + u) + v;
        }
      }
    }

    /** At the exit the residual offers at least the continuation; at the entry it is the language, then the continuation. */
    lemma ResidualEnds(k: Lang)
      requires Valid()
      ensures k <= Residual(f, k) && Residual(s, k) == Cat(Accepted(), k)
    {
      ReadsSelf(es, f);
      forall w | w in k ensures w in Residual(f, k) {
        CatIn(Between(es, f, f), k, [], w);
        assert [] + w == w;
      }
    }
  }

  /** Two parts in sequence: `f1 -> s2`. */
  function Sequence(a: Part, b: Part): Part {
    Part(a.es + b.es + {Edge(a.f, Eps, b.s)}, if a.lo <= b.lo then a.lo else b.lo, if a.hi <= b.hi then b.hi else a.hi, a.s, b.f)
  }

  ghost predicate Disjoint(a: Part, b: Part) {
    a.hi <= b.lo || b.hi <= a.lo
  }

  /** A sequence of two parts reads exactly the concatenation. */
  lemma SequenceExact(a: Part, b: Part)
    requires a.Valid() && b.Valid() && Disjoint(a, b)
    ensures Sequence(a, b).Valid() && Sequence(a, b).Accepted() == Cat(a.Accepted(), b.Accepted())
  {
    hide Reads, Cat, Closed;
    var c := Sequence(a, b);
    var k := b.Accepted();
    forall w | w in Cat(a.Accepted(), k) ensures w in c.Accepted() {
      var u, v := CatSplit(a.Accepted(), k, w);
      ReadsMono(a.es, c.es, a.s, u, a.f);
      ReadsMono(b.es, c.es, b.s, v, b.f);
      ReadsThenEps(c.es, a.s, u, a.f, b.s);
      ReadsConcat(c.es, a.s, u, b.s, v, b.f);
    }
    var r := (p: nat) => if a.Owns(p) then a.Residual(p, k) else if b.Owns(p) then b.Residual(p, EPSILON) else iset{};
    a.ResidualClosed(k, r);
    b.ResidualClosed(EPSILON, r);
    a.ResidualEnds(k);
    b.ResidualEnds(EPSILON);
    CatEpsilon(b.Accepted());
    ClosedUnion(a.es, b.es, Edge(a.f, Eps, b.s), r);
    forall w | w in c.Accepted() ensures w in Cat(a.Accepted(), k) {
      ReadsBound(c.es, r, c.s, w, c.f);
    }
  }

  lemma ClosedUnion(es: set<Edge>, fs: set<Edge>, e: Edge, r: nat -> Lang)
    requires Closed(es, r) && Closed(fs, r) && EdgeClosed(e, r)
    ensures Closed(es + fs + {e}, r)
  {
  }
}
