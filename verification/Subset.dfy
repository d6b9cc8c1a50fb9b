/** Sets of states stepped by characters: the reference for the subset construction. */
module Subsets {
  import opened Prelude
  import opened Languages
  import opened Nfas

  /** A finished character automaton. */
  datatype Machine = Machine(es: set<Edge>, n: nat, start: nat, fin: nat) {

    ghost predicate Valid() {
      start < n && fin < n && forall e :: e in es ==> e.src < n && e.dst < n
    }

    ghost predicate InRange(x: set<nat>) {
      forall q :: q in x ==> q < n
    }

    /** `q` is reached from the set by empty moves. */
    ghost predicate Near(x: set<nat>, q: nat) {
      exists p :: p in x && Reads(es, p, [], q)
    }

    ghost function Closure(x: set<nat>): set<nat> {
      set q: nat | q < n && Near(x, q)
    }

    ghost predicate ClosedSet(x: set<nat>) {
      forall p: nat, q: nat :: p in x && Edge(p, Eps, q) in es ==> q in x
    }

    /** Some state of the set has a symbol edge for `c` into `d`. */
    ghost predicate Moves(x: set<nat>, c: char, d: nat) {
      exists e :: e in es && e.src in x && e.sym.Allows(c) && e.dst == d
    }

    ghost function Moved(x: set<nat>, c: char): set<nat> {
      set d: nat | d < n && Moves(x, c, d)
    }

    /** Move, then close. */
    ghost function Stepped(x: set<nat>, c: char): set<nat> {
      Closure(Moved(x, c))
    }

    ghost function Run(x: set<nat>, w: string): set<nat>
      decreases |w|
    {
      if w == [] then x else Run(Stepped(x, w[0]), w[1..])
    }

    ghost function Start(): set<nat> {
      Closure({start})
    }

    ghost function Accepted(): Lang {
      Between(es, start, fin)
    }

    // ---- closures ----

    lemma {:induction false} ClosedPath(x: set<nat>, p: nat, path: seq<Edge>, q: nat)
      requires ClosedSet(x) && p in x && IsPath(es, p, path, q) && Spells(path, [])
      ensures q in x
      decreases |path|
    {
      if path != [] {
        assert path[0].sym.Eps? && path[0] == Edge(p, Eps, path[0].dst);
        ClosedPath(x, path[0].dst, path[1..], q);
      }
    }

    /** A closed set contains everything near it. */
    lemma ClosedNear(x: set<nat>, q: nat)
      requires ClosedSet(x) && Near(x, q)
      ensures q in x
    {
      var p :| p in x && Reads(es, p, [], q);
      var path :| IsPath(es, p, path, q) && Spells(path, []);
      ClosedPath(x, p, path, q);
    }

    lemma {:induction false} PathInRange(p: nat, path: seq<Edge>, q: nat)
      requires Valid() && p < n && IsPath(es, p, path, q)
      ensures q < n
      decreases |path|
    {
      if path != [] { PathInRange(path[0].dst, path[1..], q); }
    }

    /** The closure is the least closed set around a set. */
    lemma ClosureClosed(x: set<nat>)
      requires Valid() && InRange(x)
      ensures x <= Closure(x) && InRange(Closure(x)) && ClosedSet(Closure(x))
    {
      hide Reads;
      forall q | q in x ensures q in Closure(x) {
        ReadsSelf(es, q);
        assert Near(x, q);
      }
      forall p: nat, q: nat | p in Closure(x) && Edge(p, Eps, q) in es ensures q in Closure(x) {
        var o :| o in x && Reads(es, o, [], p);
        ReadsThenEps(es, o, [], p, q);
        assert Near(x, q);
      }
    }

    lemma ClosureLeast(x: set<nat>, y: set<nat>)
      requires x <= y && ClosedSet(y)
      ensures Closure(x) <= y
    {
      hide Reads;
      forall q | q in Closure(x) ensures q in y {
        var p :| p in x && Reads(es, p, [], q);
        assert Near(y, q);
        ClosedNear(y, q);
      }
    }

    lemma SteppedClosed(x: set<nat>, c: char)
      requires Valid()
      ensures InRange(Stepped(x, c)) && ClosedSet(Stepped(x, c))
    {
      ClosureClosed(Moved(x, c));
    }

    // ---- runs against paths ----

    /** A text is empty moves, one symbol edge, and the rest. */
    lemma {:induction false} SplitFirst(p: nat, path: seq<Edge>, q: nat, w: string) returns (a: nat, e: Edge)
      requires w != [] && IsPath(es, p, path, q) && Spells(path, w)
      ensures Reads(es, p, [], a) && e in es && e.src == a && e.sym.Allows(w[0]) && Reads(es, e.dst, w[1..], q)
      decreases |path|
    {
      var f := path[0];
      if f.sym.Eps? {
        a, e := SplitFirst(f.dst, path[1..], q, w);
        assert f == Edge(p, Eps, f.dst);
        ReadsAfterEps(es, p, f.dst, [], a);
      } else {
        a, e := p, f;
        ReadsSelf(es, p);
      }
    }

    /** One step of the set covers the first character of every path. */
    lemma StepReads(x: set<nat>, w: string, q: nat)
      requires Valid() && InRange(x) && ClosedSet(x) && w != []
      ensures (exists p :: p in x && Reads(es, p, w, q)) <==> (exists p :: p in Stepped(x, w[0]) && Reads(es, p, w[1..], q))
    {
      hide Reads;
      if p :| p in x && Reads(es, p, w, q) {
        StepForward(x, w, p, q);
      }
      if p :| p in Stepped(x, w[0]) && Reads(es, p, w[1..], q) {
        StepBackward(x, w, p, q);
      }
    }

    lemma StepForward(x: set<nat>, w: string, p: nat, q: nat)
      requires Valid() && InRange(x) && ClosedSet(x) && w != [] && p in x && Reads(es, p, w, q)
      ensures exists d :: d in Stepped(x, w[0]) && Reads(es, d, w[1..], q)
    {
      var path :| IsPath(es, p, path, q) && Spells(path, w);
      hide IsPath, Spells;
      var a, e := SplitFirst(p, path, q, w);
      hide Reads;
      assert Near(x, a);
      ClosedNear(x, a);
      assert Moves(x, w[0], e.dst) && e.dst in Moved(x, w[0]);
      ReadsSelf(es, e.dst);
      assert Near(Moved(x, w[0]), e.dst);
      assert e.dst in Stepped(x, w[0]);
    }

    lemma StepBackward(x: set<nat>, w: string, p: nat, q: nat)
      requires Valid() && InRange(x) && w != [] && p in Stepped(x, w[0]) && Reads(es, p, w[1..], q)
      ensures exists o :: o in x && Reads(es, o, w, q)
    {
      hide Reads;
      var d :| d in Moved(x, w[0]) && Reads(es, d, [], p);
      var e :| e in es && e.src in x && e.sym.Allows(w[0]) && e.dst == d;
      ReadsChar(es, e, w[0]);
      ReadsConcat(es, e.src, [w[0]], d, [], p);
      assert [w[0]] + [] == [w[0]];
      ReadsConcat(es, e.src, [w[0]], p, w[1..], q);
      assert [w[0]] + w[1..] == w;
    }

    /** Stepping a closed set character by character simulates every path at once. */
    lemma {:induction false} RunReads(x: set<nat>, w: string, q: nat)
      requires Valid() && InRange(x) && ClosedSet(x)
      ensures q in Run(x, w) <==> exists p :: p in x && Reads(es, p, w, q)
      decreases |w|
    {
      hide Reads, ClosedSet;
      if w == [] {
        RunNone(x, q);
      } else {
        StepReads(x, w, q);
        SteppedClosed(x, w[0]);
        RunReads(Stepped(x, w[0]), w[1..], q);
      }
    }

    lemma RunNone(x: set<nat>, q: nat)
      requires Valid() && InRange(x) && ClosedSet(x)
      ensures q in x <==> exists p :: p in x && Reads(es, p, [], q)
    {
      hide Reads;
      if q in x { ReadsSelf(es, q); }
      if p :| p in x && Reads(es, p, [], q) {
        assert Near(x, q);
        ClosedNear(x, q);
      }
    }

    /** The subset machine accepts exactly the texts of the automaton. */
    lemma RunExact(w: string)
      requires Valid()
      ensures fin in Run(Start(), w) <==> w in Accepted()
    {
      hide Reads;
      ClosureClosed({start});
      RunReads(Start(), w, fin);
      if w in Accepted() {
        assert start in Start();
      }
      if p :| p in Start() && Reads(es, p, w, fin) {
        var o :| o in {start} && Reads(es, o, [], p);
        ReadsConcat(es, start, [], p, w, fin);
        assert [] + w == w;
      }
    }

    lemma {:induction false} RunConcat(x: set<nat>, u: string, v: string)
      ensures Run(x, u + v) == Run(Run(x, u), v)
      decreases |u|
    {
      if u == [] {
        assert u + v == v;
      } else {
        assert (u + v)[0] == u[0] && (u + v)[1..] == u[1..] + v;
        RunConcat(Stepped(x, u[0]), u[1..], v);
      }
    }

    lemma SteppedEmpty(c: char)
      ensures Stepped({}, c) == {}
    {
    }

    lemma {:induction false} RunEmpty(w: string)
      ensures Run({}, w) == {}
      decreases |w|
    {
      if w != [] {
        SteppedEmpty(w[0]);
        RunEmpty(w[1..]);
      }
    }

    lemma {:induction false} RunClosed(x: set<nat>, w: string)
      requires Valid() && InRange(x) && ClosedSet(x)
      ensures InRange(Run(x, w)) && ClosedSet(Run(x, w))
      decreases |w|
    {
      if w != [] {
        SteppedClosed(x, w[0]);
        RunClosed(Stepped(x, w[0]), w[1..]);
      }
    }
  }

  // ---- sets as sorted lists ----

  /** The sorted list stands for the set. */
  ghost predicate ListOf(s: seq<nat>, x: set<nat>) {
    StrictlySorted(s) && forall q: nat :: q in s <==> q in x
  }
}
