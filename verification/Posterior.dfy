/** The constrained posterior over one block: its weights, the backward table, and the brute-force reference. */
module Posterior {
  import opened Prelude
  import opened Sums
  import opened Tables
  import opened Automata

  type NonNeg = r: real | r >= 0.0

  /** One block to be sampled. `mass[t * vocab + v]` is `exp(logits[t, v] / T)`, with an infinitely
      negative logit as zero; `forced[t]` pins position `t` unless it is `FREE`. */
  datatype Block = Block(fa: Automaton, mass: seq<NonNeg>, len: nat, forced: seq<nat>) {

    ghost predicate Valid() {
      && fa.Valid()
      && |mass| == len * fa.vocab
      && |forced| == len
    }

    /** The weight of token `v` at position `t`: a pin acts as a 0/1 indicator. */
    function Eff(t: nat, v: nat): (r: real)
      requires Valid() && t < len && v < fa.vocab
      ensures r >= 0.0
    {
      InRow(t, v, len, fa.vocab);
      if forced[t] != FREE then (if v == forced[t] then 1.0 else 0.0)
      else mass[t * fa.vocab + v]
    }

    ghost predicate Tokens(toks: seq<nat>) {
      forall i :: 0 <= i < |toks| ==> toks[i] < fa.vocab
    }

    function TokenMasses(t: nat, toks: seq<nat>): (r: seq<real>)
      requires Valid() && t < len && Tokens(toks)
      ensures |r| == |toks| && NonNegative(r)
    {
      seq(|toks|, i requires 0 <= i < |toks| => Eff(t, toks[i]))
    }

    lemma EdgeInRange(e: nat)
      requires Valid() && e < fa.NEdges()
      ensures fa.edgeDst[e] < fa.nNodes && Tokens(fa.EdgeTokens(e)) && StrictlySorted(fa.EdgeTokens(e))
    {
      assert fa.EdgeValid(e);
      var toks := fa.EdgeTokens(e);
      forall i | 0 <= i < |toks| ensures toks[i] < fa.vocab { assert toks[i] in toks; }
    }

    /** The emission fold of one edge. */
    function EdgeMass(t: nat, e: nat): (r: real)
      requires Valid() && t < len && e < fa.NEdges()
      ensures r >= 0.0
    {
      EdgeInRange(e);
      SumNonNegative(TokenMasses(t, fa.EdgeTokens(e)));
      Sum(TokenMasses(t, fa.EdgeTokens(e)))
    }

    /** Weight carried by one edge at position `t`: its emission times the weight of completing after it. */
    function Flow(t: nat, e: nat): (r: real)
      requires Valid() && t < len && e < fa.NEdges()
      ensures r >= 0.0
      decreases len - t, 0
    {
      EdgeInRange(e);
      Times(EdgeMass(t, e), Back(t + 1, fa.edgeDst[e]))
    }

    function FlowsOf(t: nat, lo: nat, hi: nat): (r: seq<real>)
      requires Valid() && t < len && lo <= hi <= fa.NEdges()
      ensures |r| == hi - lo && NonNegative(r)
      decreases len - t, 1
    {
      assert forall e :: lo <= e < hi ==> Flow(t, e) >= 0.0;
      seq(hi - lo, i requires 0 <= i < hi - lo => Flow(t, lo + i))
    }

    function Flows(t: nat, s: nat): (r: seq<real>)
      requires Valid() && t < len && s < fa.nNodes
      ensures |r| == fa.OutHi(s) - fa.OutLo(s) && NonNegative(r)
      decreases len - t, 2
    {
      FlowsOf(t, fa.OutLo(s), fa.OutHi(s))
    }

    lemma FlowAt(t: nat, s: nat, e: nat)
      requires Valid() && t < len && s < fa.nNodes && fa.OutLo(s) <= e < fa.OutHi(s)
      ensures Flows(t, s)[e - fa.OutLo(s)] == Flow(t, e)
    {
      var i := e - fa.OutLo(s);
      assert FlowsOf(t, fa.OutLo(s), fa.OutHi(s))[i] == Flow(t, fa.OutLo(s) + i);
    }

    /** The backward table. */
    function Back(t: nat, s: nat): (r: real)
      requires Valid() && t <= len && s < fa.nNodes
      ensures r >= 0.0
      decreases len - t, 3
    {
      if t == len then (if fa.accept[s] then 1.0 else 0.0)
      else
        SumNonNegative(Flows(t, s));
        Sum(Flows(t, s))
    }

    // ---- the reference: enumerate every token sequence ----

    /** The product of the token weights of `x` placed at positions `t`, `t + 1`, ... */
    function Weight(t: nat, x: seq<nat>): (r: real)
      requires Valid() && t <= len
      ensures r >= 0.0
      decreases |x|
    {
      if x == [] then 1.0
      else if t == len || x[0] >= fa.vocab then 0.0
      else Times(Weight(t + 1, x[1..]), Eff(t, x[0]))
    }

    /** What position `t` contributes to a sequence that has `v` there: the mass of a free token, one for a kept pin,
        nothing for a broken one. */
    ghost predicate Contributes(t: nat, v: nat, r: real)
      requires Valid()
    {
      && t < len && v < fa.vocab && t * fa.vocab + v < |mass|
      && r == if forced[t] == FREE then mass[t * fa.vocab + v] else if forced[t] == v then 1.0 else 0.0
    }

    /** The weight of a sequence that fills the block is the product of what its positions contribute. */
    lemma {:induction false} WeightIs(t: nat, x: seq<nat>, fs: seq<real>)
      requires Valid() && t + |x| <= len && |fs| == |x|
      requires forall k :: 0 <= k < |x| ==> Contributes(t + k, x[k], fs[k])
      ensures Weight(t, x) == Product(fs)
      decreases |x|
    {
      if x != [] {
        assert Contributes(t + 0, x[0], fs[0]);
        forall k | 0 <= k < |x| - 1 ensures Contributes(t + 1 + k, x[1..][k], fs[1..][k]) {
          assert Contributes(t + (k + 1), x[k + 1], fs[k + 1]);
        }
        WeightIs(t + 1, x[1..], fs[1..]);
      }
    }

    /** The unnormalized posterior weight of `x`: its product weight if the automaton accepts it from `s`. */
    function Term(t: nat, s: nat, x: seq<nat>): (r: real)
      requires Valid() && t <= len && s < fa.nNodes
      ensures r >= 0.0
    {
      if fa.Accepts(s, x) then Weight(t, x) else 0.0
    }

    /** The total weight over all sequences that fill the block from position `t`. */
    function Total(t: nat, s: nat): real
      requires Valid() && t <= len && s < fa.nNodes
    {
      SumSeqs(fa.vocab, len - t, (x: seq<nat>) => Term(t, s, x))
    }

    lemma TermStep(t: nat, s: nat, v: nat, y: seq<nat>)
      requires Valid() && t < len && s < fa.nNodes && v < fa.vocab
      ensures Term(t, s, [v] + y) ==
              match fa.Next(s, v) case None => 0.0 case Some(d) => Times(Term(t + 1, d, y), Eff(t, v))
    {
      assert ([v] + y)[1..] == y;
    }

    /** What token `v` contributes through the edges `[lo, hi)`. */
    function Share(t: nat, lo: nat, hi: nat, v: nat): real
      requires Valid() && t < len && lo <= hi <= fa.NEdges()
    {
      if v >= fa.vocab then 0.0
      else match fa.FirstEdge(v, lo, hi)
        case None => 0.0
        case Some(e) => EdgeInRange(e); Times(Back(t + 1, fa.edgeDst[e]), Eff(t, v))
    }

    /** Exactly one edge is added: a token of that edge gets its share there, every other token keeps its share. */
    lemma ShareStep(t: nat, s: nat, lo: nat, v: nat)
      requires Valid() && t < len && s < fa.nNodes && fa.OutLo(s) <= lo < fa.OutHi(s) && v < fa.vocab
      ensures Share(t, lo, fa.OutHi(s), v) == Share(t, lo + 1, fa.OutHi(s), v) + Own(t, lo, v)
    {
      assert fa.NodeValid(s);
      var rest := fa.FirstEdge(v, lo + 1, fa.OutHi(s));
      assert rest.Some? ==> fa.Apart(lo, rest.value);
    }

    function Own(t: nat, e: nat, v: nat): real
      requires Valid() && t < len && e < fa.NEdges()
    {
      EdgeInRange(e);
      if v < fa.vocab && v in fa.EdgeTokens(e) then Times(Back(t + 1, fa.edgeDst[e]), Eff(t, v)) else 0.0
    }

    /** Summing over the vocabulary the tokens of one edge gives that edge's flow. */
    lemma OwnSum(t: nat, e: nat)
      requires Valid() && t < len && e < fa.NEdges()
      ensures SumTo(fa.vocab, (v: nat) => Own(t, e, v)) == Flow(t, e)
    {
      EdgeInRange(e);
      hide Back, Eff, Automaton.Valid, SumTo, Sum;
      var toks := fa.EdgeTokens(e);
      var eff := (v: nat) => if v < fa.vocab then Eff(t, v) else 0.0;
      SelectSum(fa.vocab, toks, eff);
      var picked := Select(toks, eff);
      var b := Back(t + 1, fa.edgeDst[e]);
      SumToScale(fa.vocab, picked, b, (v: nat) => Own(t, e, v)) by {
        forall v: nat | v < fa.vocab ensures Own(t, e, v) == Times(picked(v), b) {
        }
      }
      assert TokenMasses(t, toks) == seq(|toks|, i requires 0 <= i < |toks| => eff(toks[i]));
    }

    lemma NoShare(t: nat, lo: nat, v: nat)
      requires Valid() && t < len && lo <= fa.NEdges()
      ensures Share(t, lo, lo, v) == 0.0 && Sum(FlowsOf(t, lo, lo)) == 0.0
    {
    }

    /** Regrouping by edge what is summed by token: valid because a node allows a token on at most one edge. */
    lemma {:induction false} Regroup(t: nat, s: nat, lo: nat)
      requires Valid() && t < len && s < fa.nNodes && fa.OutLo(s) <= lo <= fa.OutHi(s)
      ensures SumTo(fa.vocab, (v: nat) => Share(t, lo, fa.OutHi(s), v)) == Sum(FlowsOf(t, lo, fa.OutHi(s)))
      decreases fa.OutHi(s) - lo
    {
      hide Share, Own, Flow, FlowsOf, Back, Eff, Sum, Automaton.NodeValid;
      var hi := fa.OutHi(s);
      var here := (v: nat) => Share(t, lo, hi, v);
      if lo == hi {
        NoShare(t, lo, 0);
        forall v: nat ensures here(v) == 0.0 { NoShare(t, lo, v); }
        SumToZero(fa.vocab, here);
      } else {
        Regroup(t, s, lo + 1);
        OwnSum(t, lo);
        forall v: nat | v < fa.vocab ensures Share(t, lo, hi, v) == Share(t, lo + 1, hi, v) + Own(t, lo, v) {
          ShareStep(t, s, lo, v);
        }
        SumToPlus(fa.vocab, (v: nat) => Share(t, lo + 1, hi, v), (v: nat) => Own(t, lo, v), here);
        FlowsHead(t, lo, hi);
      }
    }

    lemma FlowsHead(t: nat, lo: nat, hi: nat)
      requires Valid() && t < len && lo < hi <= fa.NEdges()
      ensures Sum(FlowsOf(t, lo, hi)) == Flow(t, lo) + Sum(FlowsOf(t, lo + 1, hi))
    {
      SumHead(FlowsOf(t, lo, hi));
      forall i | 0 <= i < hi - lo - 1 ensures FlowsOf(t, lo, hi)[1..][i] == FlowsOf(t, lo + 1, hi)[i] {
        assert FlowsOf(t, lo, hi)[1 + i] == Flow(t, lo + 1 + i);
      }
      assert FlowsOf(t, lo, hi)[1..] == FlowsOf(t, lo + 1, hi);
      assert FlowsOf(t, lo, hi)[0] == Flow(t, lo + 0);
    }

    /** Forward-backward exactness: the backward table holds the total weight of all accepted completions. */
    lemma {:induction false} BackIsTotal(t: nat, s: nat)
      requires Valid() && t <= len && s < fa.nNodes
      ensures Back(t, s) == Total(t, s)
      decreases len - t
    {
      if t < len {
        var f := (x: seq<nat>) => Term(t, s, x);
        var byToken := (v: nat) => SumSeqs(fa.vocab, len - t - 1, (y: seq<nat>) => f([v] + y));
        var share := (v: nat) => Share(t, fa.OutLo(s), fa.OutHi(s), v);
        forall v: nat | v < fa.vocab ensures byToken(v) == share(v) {
          TokenTotal(t, s, v, (y: seq<nat>) => f([v] + y));
        }
        SumToExt(fa.vocab, byToken, share);
        Regroup(t, s, fa.OutLo(s));
      }
    }

    lemma {:induction false} TokenTotal(t: nat, s: nat, v: nat, f: seq<nat> -> real)
      requires Valid() && t < len && s < fa.nNodes && v < fa.vocab
      requires forall y :: f(y) == Term(t, s, [v] + y)
      ensures SumSeqs(fa.vocab, len - t - 1, f) == Share(t, fa.OutLo(s), fa.OutHi(s), v)
      decreases len - t, 0
    {
      forall y ensures f(y) == match fa.Next(s, v) case None => 0.0 case Some(d) => Times(Term(t + 1, d, y), Eff(t, v)) {
        TermStep(t, s, v, y);
      }
      match fa.Next(s, v) {
        case None =>
          SumSeqsZero(fa.vocab, len - t - 1, f);
        case Some(d) =>
          BackIsTotal(t + 1, d);
          SumSeqsScale(fa.vocab, len - t - 1, (y: seq<nat>) => Term(t + 1, d, y), Eff(t, v), f);
      }
    }
  }

  // ---- sums over all token sequences of one length ----

  /** The sum of `f` over every sequence of `n` tokens below `vocab`. */
  function SumSeqs(vocab: nat, n: nat, f: seq<nat> -> real): real
    decreases n
  {
    if n == 0 then f([])
    else SumTo(vocab, (v: nat) => SumSeqs(vocab, n - 1, (y: seq<nat>) => f([v] + y)))
  }

  lemma {:induction false} SumSeqsZero(vocab: nat, n: nat, f: seq<nat> -> real)
    requires forall x :: |x| == n ==> f(x) == 0.0
    ensures SumSeqs(vocab, n, f) == 0.0
    decreases n
  {
    if n > 0 {
      var g := (v: nat) => SumSeqs(vocab, n - 1, (y: seq<nat>) => f([v] + y));
      forall v: nat | v < vocab ensures g(v) == 0.0 {
        SumSeqsZero(vocab, n - 1, (y: seq<nat>) => f([v] + y));
      }
      SumToZero(vocab, g);
    }
  }

  lemma {:induction false} SumSeqsScale(vocab: nat, n: nat, f: seq<nat> -> real, c: real, h: seq<nat> -> real)
    requires forall x :: h(x) == Times(f(x), c)
    ensures SumSeqs(vocab, n, h) == Times(SumSeqs(vocab, n, f), c)
    decreases n
  {
    if n > 0 {
      var g := (v: nat) => SumSeqs(vocab, n - 1, (y: seq<nat>) => f([v] + y));
      var k := (v: nat) => SumSeqs(vocab, n - 1, (y: seq<nat>) => h([v] + y));
      forall v: nat | v < vocab ensures k(v) == Times(g(v), c) {
        SumSeqsScale(vocab, n - 1, (y: seq<nat>) => f([v] + y), c, (y: seq<nat>) => h([v] + y));
      }
      SumToScale(vocab, g, c, k);
    }
  }

  // ---- selecting a token set out of the vocabulary ----

  function Select(toks: seq<nat>, f: nat -> real): nat -> real {
    (v: nat) => if v in toks then f(v) else 0.0
  }

  /** Summing a selection over the vocabulary is summing over the selected list. */
  lemma {:induction false} SelectSum(vocab: nat, toks: seq<nat>, f: nat -> real)
    requires StrictlySorted(toks) && forall i :: 0 <= i < |toks| ==> toks[i] < vocab
    ensures SumTo(vocab, Select(toks, f)) == Sum(seq(|toks|, i requires 0 <= i < |toks| => f(toks[i])))
  {
    var all := seq(|toks|, i requires 0 <= i < |toks| => f(toks[i]));
    if toks == [] {
      SumToZero(vocab, Select(toks, f));
    } else {
      var last := toks[|toks| - 1];
      var init := toks[..|toks| - 1];
      SelectSum(vocab, init, f);
      assert all[..|toks| - 1] == seq(|init|, i requires 0 <= i < |init| => f(init[i]));
      assert toks == init + [last];
      var single := (v: nat) => if v == last then f(v) else 0.0;
      SumToSingle(vocab, single, last);
      assert last !in init;
      SumToPlus(vocab, Select(init, f), single, Select(toks, f));
    }
  }
}
