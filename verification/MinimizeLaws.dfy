/** What minimization means downstream: the posterior is unchanged, no smaller automaton exists, and the refused chain. */
module MinimizeLaws {
  import opened Prelude
  import opened Sums
  import opened Automata
  import opened Posterior
  import opened SequentialSpec
  import opened Trimming
  import opened Relabelling
  import opened Minimizer

  // ---- the posterior ----

  lemma WeightSame(b: Block, c: Block, t: nat, x: seq<nat>)
    requires b.Valid() && c.Valid() && c == b.(fa := c.fa) && c.fa.vocab == b.fa.vocab && t <= b.len
    ensures b.Weight(t, x) == c.Weight(t, x)
    decreases |x|
  {
    if x != [] && t < b.len {
      WeightSame(b, c, t + 1, x[1..]);
    }
  }

  /** Every sequence carries the same weight before and after minimization, so the totals agree. */
  lemma TermsSame(b: Block, m: Automaton, blockOf: seq<nat>, s: nat, t: nat)
    requires b.Valid() && Quotient(b.fa, m, blockOf) && t <= b.len && s < b.fa.nNodes && Kept(b.fa, s)
    ensures b.(fa := m).Valid() && blockOf[s] < m.nNodes
    ensures forall x :: b.Term(t, s, x) == b.(fa := m).Term(t, blockOf[s], x)
    ensures b.Total(t, s) == b.(fa := m).Total(t, blockOf[s])
  {
    hide Quotient, Automaton.Valid, Block.Weight, Kept, SumSeqs;
    QuotientParts(b.fa, m, blockOf);
    var c := b.(fa := m);
    assert SameLanguage(b.fa, s, m, blockOf[s]);
    forall x ensures b.Term(t, s, x) == c.Term(t, blockOf[s], x) {
      WeightSame(b, c, t, x);
    }
    SumSeqsSame(m.vocab, b.len - t, (x: seq<nat>) => b.Term(t, s, x), (x: seq<nat>) => c.Term(t, blockOf[s], x));
  }

  lemma {:induction false} SumSeqsSame(vocab: nat, n: nat, f: seq<nat> -> real, g: seq<nat> -> real)
    requires forall x :: f(x) == g(x)
    ensures SumSeqs(vocab, n, f) == SumSeqs(vocab, n, g)
  {
    if n > 0 {
      var fv := (v: nat) => SumSeqs(vocab, n - 1, (y: seq<nat>) => f([v] + y));
      var gv := (v: nat) => SumSeqs(vocab, n - 1, (y: seq<nat>) => g([v] + y));
      forall v: nat | v < vocab ensures fv(v) == gv(v) {
        SumSeqsSame(vocab, n - 1, (y: seq<nat>) => f([v] + y), (y: seq<nat>) => g([v] + y));
      }
      SumToExt(vocab, fv, gv);
    }
  }

  /** The posterior law survives: the box of draws that yields a sequence has the same volume on both automata. */
  lemma PosteriorKept(b: Block, m: Automaton, blockOf: seq<nat>, x: seq<nat>)
    requires b.Valid() && Quotient(b.fa, m, blockOf) && b.fa.start < b.fa.nNodes && |x| == b.len
    requires b.Term(0, b.fa.start, x) > 0.0
    ensures b.(fa := m).Valid() && m.start < m.nNodes
    ensures b.(fa := m).Term(0, m.start, x) == b.Term(0, b.fa.start, x)
    ensures b.(fa := m).Total(0, m.start) == b.Total(0, b.fa.start)
    ensures Volume(Box(b.(fa := m), 0, m.start, x)) == Volume(Box(b, 0, b.fa.start, x))
  {
    StartReachable(b.fa);
    hide Quotient, Automaton.Valid, Block.Term, Block.Total, Kept, Box, Volume;
    TermAccepted(b, b.fa.start, x);
    QuotientParts(b.fa, m, blockOf);
    TermsSame(b, m, blockOf, b.fa.start, 0);
    SequentialExact(b, b.fa.start, x);
    SequentialExact(b.(fa := m), m.start, x);
  }

  lemma TermAccepted(b: Block, s: nat, x: seq<nat>)
    requires b.Valid() && s < b.fa.nNodes && b.Term(0, s, x) > 0.0
    ensures CanAccept(b.fa, s)
  {
  }

  // ---- no smaller automaton ----

  /** Some sequence leads `a` to a kept member of block `b` and `other` to node `o`. */
  ghost predicate Meets(a: Automaton, blockOf: seq<nat>, other: Automaton, b: nat, o: nat)
    requires a.Valid() && other.Valid() && a.start < a.nNodes && other.start < other.nNodes
  {
    exists s: nat, x :: MeetsBy(a, blockOf, other, b, o, s, x)
  }

  ghost predicate MeetsBy(a: Automaton, blockOf: seq<nat>, other: Automaton, b: nat, o: nat, s: nat, x: seq<nat>)
    requires a.Valid() && other.Valid() && a.start < a.nNodes && other.start < other.nNodes
  {
    && s < |blockOf| && Kept(a, s) && blockOf[s] == b
    && a.Walk(a.start, x) == Some(s) && other.Walk(other.start, x) == Some(o)
  }

  lemma WalkAccepts(a: Automaton, x: seq<nat>, y: seq<nat>)
    requires a.Valid() && a.start < a.nNodes && a.Walk(a.start, x).Some?
    ensures a.Walk(a.start, x).value < a.nNodes
    ensures a.Accepts(a.start, x + y) == a.Accepts(a.Walk(a.start, x).value, y)
  {
    a.WalkConcat(a.start, x, y);
  }

  lemma DeadWalk(a: Automaton, x: seq<nat>, y: seq<nat>)
    requires a.Valid() && a.start < a.nNodes && a.Walk(a.start, x).None?
    ensures !a.Accepts(a.start, x + y)
  {
    a.WalkConcat(a.start, x, y);
  }

  /** Every block is met by some node of an automaton with the same language. */
  lemma BlockMet(a: Automaton, m: Automaton, blockOf: seq<nat>, other: Automaton, b: nat) returns (o: nat)
    requires Quotient(a, m, blockOf) && other.Valid() && a.start < a.nNodes && other.start < other.nNodes && b < m.nNodes
    requires forall x :: other.Accepts(other.start, x) == a.Accepts(a.start, x)
    ensures o < other.nNodes && Meets(a, blockOf, other, b, o)
  {
    hide Quotient, Automaton.Valid;
    QuotientParts(a, m, blockOf);
    assert HasMember(a, blockOf, b);
    var s: nat :| s < |blockOf| && Kept(a, s) && blockOf[s] == b;
    var x :| a.Walk(a.start, x) == Some(s);
    var y :| a.Accepts(s, y);
    WalkAccepts(a, x, y);
    if other.Walk(other.start, x).None? {
      DeadWalk(other, x, y);
    }
    o := other.Walk(other.start, x).value;
    WalkAccepts(other, x, y);
    assert MeetsBy(a, blockOf, other, b, o, s, x);
  }

  /** One node cannot meet two blocks. */
  lemma BlocksApart(a: Automaton, m: Automaton, blockOf: seq<nat>, other: Automaton, b: nat, c: nat, o: nat)
    requires Quotient(a, m, blockOf) && other.Valid() && a.start < a.nNodes && other.start < other.nNodes
    requires b < m.nNodes && c < m.nNodes && o < other.nNodes
    requires forall x :: other.Accepts(other.start, x) == a.Accepts(a.start, x)
    requires Meets(a, blockOf, other, b, o) && Meets(a, blockOf, other, c, o)
    ensures b == c
  {
    hide Quotient, Automaton.Valid, Kept;
    QuotientParts(a, m, blockOf);
    var s: nat, x :| MeetsBy(a, blockOf, other, b, o, s, x);
    var r: nat, y :| MeetsBy(a, blockOf, other, c, o, r, y);
    forall z ensures m.Accepts(b, z) == m.Accepts(c, z) {
      assert SameLanguage(a, s, m, b) && SameLanguage(a, r, m, c);
      WalkAccepts(a, x, z);
      WalkAccepts(other, x, z);
      WalkAccepts(a, y, z);
      WalkAccepts(other, y, z);
    }
    assert b != c ==> NodeSeparated(m, b, c);
  }

  /** Minimality in the strongest sense: no automaton with the same start language has fewer nodes. */
  lemma FewestNodes(a: Automaton, m: Automaton, blockOf: seq<nat>, other: Automaton)
    requires Quotient(a, m, blockOf) && other.Valid() && a.start < a.nNodes && other.start < other.nNodes
    requires forall x :: other.Accepts(other.start, x) == a.Accepts(a.start, x)
    ensures m.nNodes <= other.nNodes
  {
    hide Quotient, Automaton.Valid, Meets;
    QuotientParts(a, m, blockOf);
    var os: seq<nat> := [];
    for b := 0 to m.nNodes
      invariant |os| == b && Distinct(os)
      invariant forall c :: 0 <= c < b ==> os[c] < other.nNodes && Meets(a, blockOf, other, c, os[c])
    {
      var o := BlockMet(a, m, blockOf, other, b);
      forall c | 0 <= c < b ensures os[c] != o {
        if os[c] == o {
          BlocksApart(a, m, blockOf, other, b, c, o);
        }
      }
      os := os + [o];
    }
    Pigeonhole(os, other.nNodes);
  }

  // ---- the early stop ----

  /** Minimization succeeds on every automaton with a kept state that does not accept. */
  lemma MixedSucceeds(a: Automaton, s: nat, r: Result<(Automaton, MinimizeStats), FaError>)
    requires a.Valid() && Kept(a, s) && s < a.nNodes && !a.accept[s] && Outcome(a, r)
    ensures r.Ok?
  {
    assert a.start < a.nNodes;
    hide Automaton.Valid, Automaton.Walk, Automaton.Accepts;
    var x :| a.Walk(a.start, x) == Some(s);
    var y :| a.Accepts(s, y);
    a.WalkConcat(a.start, x, y);
    StartAccepts(a, s, x, y);
  }

  lemma StartAccepts(a: Automaton, s: nat, x: seq<nat>, y: seq<nat>)
    requires a.Valid() && a.start < a.nNodes && s < a.nNodes && a.Walk(a.start, x + y) == a.Walk(s, y) && a.Accepts(s, y)
    ensures CanAccept(a, a.start)
  {
    assert a.Accepts(a.start, x + y);
  }

  /** The three-state chain whose states all accept. */
  const CHAIN: Automaton := Automaton(3, 1, 0, [true, true, true], [0, 1, 2, 2], [1, 2], [0, 1, 2], [0, 0])

  lemma ChainValid()
    ensures CHAIN.Valid()
    ensures forall t: nat :: CHAIN.Next(0, t) == (if t == 0 then Some(1) else None)
    ensures forall t: nat :: CHAIN.Next(1, t) == (if t == 0 then Some(2) else None)
    ensures forall t: nat :: CHAIN.Next(2, t) == None
  {
    assert CHAIN.Shape();
    assert CHAIN.EdgeTokens(0) == [0] && CHAIN.EdgeTokens(1) == [0];
    forall s | 0 <= s < 3 ensures CHAIN.NodeValid(s) {
      assert s == 0 || s == 1 || s == 2;
    }
    assert CHAIN.Valid();
    CHAIN.EdgeForUnique(0, 0, 0);
    CHAIN.EdgeForUnique(1, 0, 1);
  }

  /** A concrete refusal: the chain accepts every prefix of `aa`, yet the minimizer reports a duplicate token. */
  lemma ChainRefused(r: Result<(Automaton, MinimizeStats), FaError>)
    ensures CHAIN.Valid() && CanAccept(CHAIN, CHAIN.start)
    ensures Outcome(CHAIN, r) ==> r.Err? && r.error.DuplicateEdgeToken?
  {
    ChainValid();
    hide Automaton.Valid, Automaton.Next;
    assert CHAIN.Walk(0, []) == Some(0) && CHAIN.Accepts(0, []);
    assert [0][1..] == [] && [0, 0][1..] == [0];
    assert CHAIN.Walk(1, [0]) == Some(2);
    assert CHAIN.Walk(0, [0]) == Some(1) && CHAIN.Walk(0, [0, 0]) == Some(2);
    assert CHAIN.Accepts(1, []) && CHAIN.Accepts(2, []);
    assert Kept(CHAIN, 0) && Kept(CHAIN, 1) && Kept(CHAIN, 2);
    assert Useful(CHAIN, 0, 0) && Useful(CHAIN, 1, 0) && !Useful(CHAIN, 2, 0);
    ChainFamily();
  }

  lemma ChainFamily()
    requires CHAIN.Valid() && Kept(CHAIN, 0) && Kept(CHAIN, 1) && Kept(CHAIN, 2)
    requires forall t: nat :: CHAIN.Next(0, t) == (if t == 0 then Some(1) else None)
    requires forall t: nat :: CHAIN.Next(1, t) == (if t == 0 then Some(2) else None)
    requires forall t: nat :: CHAIN.Next(2, t) == None
    ensures EarlyStop(CHAIN)
  {
    hide Automaton.Valid, Automaton.Next, Reachable;
    forall t: nat ensures Useful(CHAIN, 0, t) == Useful(CHAIN, 1, t) == (t == 0) && !Useful(CHAIN, 2, t) {
    }
    assert SameUseful(CHAIN, 0, 1) && SameUseful(CHAIN, 1, 1) && SameUseful(CHAIN, 2, 2);
    assert !SameUseful(CHAIN, 1, 2) by { assert Useful(CHAIN, 1, 0) != Useful(CHAIN, 2, 0); }
    forall q: nat | Kept(CHAIN, q) ensures SameUseful(CHAIN, q, 1) || SameUseful(CHAIN, q, 2) {
      assert q == 0 || q == 1 || q == 2;
    }
    assert OneOfTwoSets(CHAIN, 1, 2);
    assert Forks(CHAIN, 0, 1, 0);
  }
}
