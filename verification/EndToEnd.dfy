/** From schema to sampled text: what compilation followed by exact sampling guarantees. */
module EndToEnd {
  import opened Languages
  import opened Json
  import opened Values
  import opened Tries
  import opened Automata
  import opened Posterior
  import opened SequentialSpec
  import opened Chains
  import opened TreeSpec
  import opened TokenCompiler
  import opened MinimizeLaws
  import opened Flaws
  import opened Dialects

  /** Token sequences that spell a valid instance the way the compiler does are accepted by every compiled automaton, unless a
      required name may be taken from an entry behind its first one. */
  lemma ValidAccepted(a: Automaton, sc: Schema, tokens: seq<Token>, x: seq<nat>)
    requires AcceptsInstances(a, sc, tokens) && SpelledIn(Listed(tokens), x, Padded(sc, CANON))
    requires !Reached(sc, {ShadowedName}, false)
    ensures a.Accepts(a.start, x)
  {
    hide CANON, COMPILED, Padded, Listed, Automaton.Valid, Reached;
    ValidIsCompiled(sc);
    SpelledMono(Listed(tokens), x, Padded(sc, CANON), Padded(sc, COMPILED));
  }

  /** Without a flaw of either kind in reach, exactly the token sequences that spell a valid instance are accepted. */
  lemma AcceptsValid(a: Automaton, sc: Schema, tokens: seq<Token>, x: seq<nat>)
    requires AcceptsInstances(a, sc, tokens)
    ensures !Reached(sc, WIDER, true) && a.Accepts(a.start, x) ==> SpelledIn(Listed(tokens), x, Padded(sc, RFC))
    ensures !Reached(sc, NARROWER, false) && SpelledIn(Listed(tokens), x, Padded(sc, RFC)) ==> a.Accepts(a.start, x)
  {
    hide RFC, COMPILED, Padded, Listed, Automaton.Valid, Reached;
    ExactIff(sc);
    CompleteIff(sc);
    if !Reached(sc, WIDER, true) && a.Accepts(a.start, x) {
      SpelledMono(Listed(tokens), x, Padded(sc, COMPILED), Padded(sc, RFC));
    }
    if !Reached(sc, NARROWER, false) && SpelledIn(Listed(tokens), x, Padded(sc, RFC)) {
      SpelledMono(Listed(tokens), x, Padded(sc, RFC), Padded(sc, COMPILED));
    }
  }

  lemma SpelledMono(listed: set<Token>, x: seq<nat>, l: Lang, k: Lang)
    requires SpelledIn(listed, x, l) && l <= k
    ensures SpelledIn(listed, x, k)
  {
    var texts :| Spelling(listed, x, texts) && Joined(texts) in l;
    assert Joined(texts) in k;
  }

  // ---- sampling a compiled automaton ----

  /** Whatever the draws and the logits, the sequential sampler's output spells a padded instance and keeps every pin. */
  lemma SampledSpellsInstance(b: Block, sc: Schema, tokens: seq<Token>, greedy: bool, u: nat -> real, pos: nat)
    requires b.Valid() && AcceptsInstances(b.fa, sc, tokens) && Uniform(u) && b.Back(0, b.fa.start) > 0.0
    ensures var x := Sample(b, 0, b.fa.start, greedy, u, pos).tokens;
            && |x| == b.len && SpelledIn(Listed(tokens), x, Padded(sc, COMPILED))
            && forall i :: 0 <= i < b.len && b.forced[i] != FREE ==> x[i] == b.forced[i]
  {
    hide COMPILED, Padded, Listed, Automaton.Valid, Sample, Block.Back, Block.Weight;
    AcceptedByConstruction(b, 0, b.fa.start, greedy, u, pos);
    var x := Sample(b, 0, b.fa.start, greedy, u, pos).tokens;
    assert b.fa.Accepts(b.fa.start, x);
    forall i | 0 <= i < b.len && b.forced[i] != FREE ensures x[i] == b.forced[i] {
      assert b.forced[0 + i] != FREE;
    }
  }

  /** The tree sampler's output does too. */
  lemma TreeSpellsInstance(b: Block, c: Chain, scales: seq<real>, h: nat, sc: Schema, tokens: seq<Token>, greedy: bool, u: nat -> real, pos: nat)
    requires Ready(b, c, scales, h, b.fa.start) && AcceptsInstances(b.fa, sc, tokens) && Uniform(u)
    ensures var x := TreeSample(b, c, scales, h, b.fa.start, greedy, u, pos).tokens;
            && |x| == b.len && SpelledIn(Listed(tokens), x, Padded(sc, COMPILED))
            && forall i :: 0 <= i < b.len && b.forced[i] != FREE ==> x[i] == b.forced[i]
  {
    ReadyBlock(b, c, scales, h, b.fa.start);
    TreeAccepted(b, c, scales, h, b.fa.start, greedy, u, pos);
    hide COMPILED, Padded, Listed, Automaton.Valid, TreeSample, Block.Weight, Ready;
    var x := TreeSample(b, c, scales, h, b.fa.start, greedy, u, pos).tokens;
    assert b.fa.Accepts(b.fa.start, x);
  }

  lemma ReadyBlock(b: Block, c: Chain, scales: seq<real>, h: nat, start: nat)
    requires Ready(b, c, scales, h, start)
    ensures b.Valid() && start < b.fa.nNodes
  {
  }

  /** The weight of a sequence under the schema: its token weights if it spells a padded instance, nothing otherwise. */
  ghost function SchemaWeight(b: Block, sc: Schema, tokens: seq<Token>, x: seq<nat>): real
    requires b.Valid()
  {
    if SpelledIn(Listed(tokens), x, Padded(sc, COMPILED)) then b.Weight(0, x) else 0.0
  }

  /** Sampling a compiled automaton is conditioning the token weights on the schema: the normalizer is the sum over all
      sequences spelling an instance, and each such sequence is drawn with its share of it. */
  lemma SamplingIsConditioning(b: Block, sc: Schema, tokens: seq<Token>, x: seq<nat>)
    requires b.Valid() && AcceptsInstances(b.fa, sc, tokens) && |x| == b.len && SchemaWeight(b, sc, tokens, x) > 0.0
    ensures b.Term(0, b.fa.start, x) == SchemaWeight(b, sc, tokens, x)
    ensures b.Back(0, b.fa.start) == b.Total(0, b.fa.start) > 0.0
    ensures b.Total(0, b.fa.start) == SumSeqs(b.fa.vocab, b.len, (y: seq<nat>) => SchemaWeight(b, sc, tokens, y))
    ensures Volume(Box(b, 0, b.fa.start, x)) == SchemaWeight(b, sc, tokens, x) / b.Total(0, b.fa.start)
    ensures forall u, pos :: Uniform(u) ==>
              (Sample(b, 0, b.fa.start, false, u, pos).tokens == x <==> InBox(u, pos, Box(b, 0, b.fa.start, x)))
  {
    hide COMPILED, Padded, Listed, Automaton.Valid, Sample, Block.Back, Block.Weight, SumSeqs, Box, Volume, InBox, SpelledIn;
    TermIsSchemaWeight(b, sc, tokens, x);
    SumSeqsSame(b.fa.vocab, b.len, (y: seq<nat>) => b.Term(0, b.fa.start, y), (y: seq<nat>) => SchemaWeight(b, sc, tokens, y));
    SequentialExact(b, b.fa.start, x);
  }

  lemma TermIsSchemaWeight(b: Block, sc: Schema, tokens: seq<Token>, x: seq<nat>)
    requires b.Valid() && AcceptsInstances(b.fa, sc, tokens)
    ensures b.fa.start < b.fa.nNodes
    ensures forall y :: b.Term(0, b.fa.start, y) == SchemaWeight(b, sc, tokens, y)
  {
    hide COMPILED, Padded, Listed, Automaton.Valid, Block.Weight, SpelledIn;
  }
}
