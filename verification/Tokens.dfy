/** `compile_stats`: from a schema and a token list to the minimal token automaton of the schema's padded instances. */
module TokenCompiler {
  import opened Prelude
  import opened Languages
  import opened Nfas
  import opened NfaBuilders
  import opened Json
  import opened JsonLaws
  import opened Values
  import opened Layouts
  import opened Faults
  import opened Sizes
  import opened SchemaCompiler
  import opened Subsets
  import opened Steppers
  import opened Tries
  import opened Walks
  import opened SubsetGraphs
  import opened Automata
  import opened Builders
  import opened Signatures
  import opened RowSpecs
  import opened Trimming
  import opened Relabelling
  import opened Minimizer
  import MinimizeLaws
  import Distances
  import Arrays

  datatype CompileStats = CompileStats(nfaStates: nat, rawNodes: nat, rawEdges: nat, nodes: nat, edges: nat)

  // ---- token sequences and the texts they spell ----

  /** The tokens that take part: those with a non-empty text. */
  ghost function Listed(tokens: seq<Token>): set<Token> {
    set t | t in tokens && t.text != []
  }

  ghost predicate Spelling(listed: set<Token>, x: seq<nat>, texts: seq<string>) {
    |texts| == |x| && forall i :: 0 <= i < |x| ==> Token(x[i], texts[i]) in listed
  }

  function Joined(texts: seq<string>): string {
    if texts == [] then [] else texts[0] + Joined(texts[1..])
  }

  /** Some choice of listed texts for the ids joins to a text of the language. */
  ghost predicate SpelledIn(listed: set<Token>, x: seq<nat>, l: Lang) {
    exists texts :: Spelling(listed, x, texts) && Joined(texts) in l
  }

  /** No id is listed with two different texts. */
  ghost predicate OneTextEach(listed: set<Token>) {
    forall s, t :: s in listed && t in listed && s.id == t.id ==> s == t
  }

  // ---- the explored graph as an automaton ----

  /** The automaton has one node per subset and exactly the graph's edges. */
  ghost predicate Realizes(a: Automaton, g: seq<seq<nat>>, edges: map<(nat, nat), seq<nat>>, m: Machine)
    requires a.Valid()
  {
    && a.nNodes == |g| && a.start < a.nNodes
    && (forall i :: 0 <= i < |g| ==> (a.accept[i] <==> m.fin in SetOf(g[i])))
    && forall i: nat, to: nat, id: nat :: i < |g| ==> (a.Next(i, id) == Some(to) <==> EdgeHas(edges, i, to, id))
  }

  lemma RealizesAt(a: Automaton, g: seq<seq<nat>>, edges: map<(nat, nat), seq<nat>>, m: Machine, i: nat)
    requires a.Valid() && Realizes(a, g, edges, m) && i < |g|
    ensures i < a.nNodes == |g| && (a.accept[i] <==> m.fin in SetOf(g[i]))
    ensures forall to: nat, id: nat :: a.Next(i, id) == Some(to) <==> EdgeHas(edges, i, to, id)
  {
  }

  ghost predicate RunSpelled(m: Machine, listed: set<Token>, x: set<nat>, ids: seq<nat>) {
    exists texts :: Spelling(listed, ids, texts) && m.fin in m.Run(x, Joined(texts))
  }

  lemma SpellingCons(listed: set<Token>, t: Token, ids: seq<nat>, texts: seq<string>)
    requires t in listed && Spelling(listed, ids, texts)
    ensures Spelling(listed, [t.id] + ids, [t.text] + texts) && Joined([t.text] + texts) == t.text + Joined(texts)
  {
    assert ([t.text] + texts)[1..] == texts;
    assert t == Token(t.id, t.text);
  }

  lemma SpellingTail(listed: set<Token>, ids: seq<nat>, texts: seq<string>)
    requires ids != [] && Spelling(listed, ids, texts)
    ensures texts != [] && Token(ids[0], texts[0]) in listed && Spelling(listed, ids[1..], texts[1..])
    ensures Joined(texts) == texts[0] + Joined(texts[1..])
  {
  }

  lemma AcceptStep(m: Machine, listed: set<Token>, g: seq<seq<nat>>, edges: map<(nat, nat), seq<nat>>, i: nat, to: nat, ids: seq<nat>)
    requires i < |g| && to < |g| && ids != [] && RowDone(m, listed, g, edges, i) && EdgeHas(edges, i, to, ids[0])
    requires RunSpelled(m, listed, SetOf(g[to]), ids[1..])
    ensures RunSpelled(m, listed, SetOf(g[i]), ids)
  {
    hide SetOf, Machine.Run;
    assert Leads(m, listed, SetOf(g[i]), ids[0], SetOf(g[to]));
    var t :| t in listed && t.id == ids[0] && m.Run(SetOf(g[i]), t.text) == SetOf(g[to]);
    var texts :| Spelling(listed, ids[1..], texts) && m.fin in m.Run(SetOf(g[to]), Joined(texts));
    SpellingCons(listed, t, ids[1..], texts);
    assert [t.id] + ids[1..] == ids;
    m.RunConcat(SetOf(g[i]), t.text, Joined(texts));
  }

  lemma SpellStep(m: Machine, listed: set<Token>, g: seq<seq<nat>>, edges: map<(nat, nat), seq<nat>>, i: nat, ids: seq<nat>) returns (to: nat)
    requires i < |g| && ids != [] && RowDone(m, listed, g, edges, i) && RunSpelled(m, listed, SetOf(g[i]), ids)
    ensures to < |g| && EdgeHas(edges, i, to, ids[0]) && RunSpelled(m, listed, SetOf(g[to]), ids[1..])
  {
    hide SetOf, Machine.Run;
    var texts :| Spelling(listed, ids, texts) && m.fin in m.Run(SetOf(g[i]), Joined(texts));
    SpellingTail(listed, ids, texts);
    m.RunConcat(SetOf(g[i]), texts[0], Joined(texts[1..]));
    var y := m.Run(SetOf(g[i]), texts[0]);
    m.RunEmpty(Joined(texts[1..]));
    assert Token(ids[0], texts[0]).text == texts[0];
    assert Leads(m, listed, SetOf(g[i]), ids[0], y);
    assert Shown(g, edges, i, ids[0], y);
    to :| to < |g| && SetOf(g[to]) == y && EdgeHas(edges, i, to, ids[0]);
  }

  /** A node accepts an id sequence exactly when some choice of texts runs its subset into the final state. */
  lemma {:induction false} GraphAccepts(a: Automaton, m: Machine, listed: set<Token>, g: seq<seq<nat>>, edges: map<(nat, nat), seq<nat>>,
                                        i: nat, ids: seq<nat>)
    requires a.Valid() && Realizes(a, g, edges, m) && RowsDone(m, listed, g, edges, |g|) && i < |g|
    ensures i < a.nNodes && (a.Accepts(i, ids) <==> RunSpelled(m, listed, SetOf(g[i]), ids))
    decreases |ids|
  {
    hide Automaton.Valid, Automaton.Next, SetOf, RowDone, RunSpelled, EdgeHas, Realizes;
    RealizesAt(a, g, edges, m, i);
    assert RowDone(m, listed, g, edges, i);
    if ids == [] {
      SpellNone(m, listed, SetOf(g[i]));
    } else {
      if a.Next(i, ids[0]).Some? {
        var to := a.Next(i, ids[0]).value;
        GraphAccepts(a, m, listed, g, edges, to, ids[1..]);
        if a.Accepts(to, ids[1..]) { AcceptStep(m, listed, g, edges, i, to, ids); }
      }
      if RunSpelled(m, listed, SetOf(g[i]), ids) {
        var to := SpellStep(m, listed, g, edges, i, ids);
        GraphAccepts(a, m, listed, g, edges, to, ids[1..]);
      }
    }
  }

  lemma SpellNone(m: Machine, listed: set<Token>, x: set<nat>)
    ensures RunSpelled(m, listed, x, []) <==> m.fin in x
  {
    if m.fin in x {
      assert Spelling(listed, [], []) && Joined([]) == [];
    }
    if RunSpelled(m, listed, x, []) {
      var texts :| Spelling(listed, [], texts) && m.fin in m.Run(x, Joined(texts));
      assert texts == [];
    }
  }

  /** The start node accepts exactly the id sequences that spell a text of the automaton. */
  lemma RawLanguage(a: Automaton, m: Machine, listed: set<Token>, g: seq<seq<nat>>, edges: map<(nat, nat), seq<nat>>, ids: seq<nat>)
    requires a.Valid() && m.Valid() && Realizes(a, g, edges, m) && RowsDone(m, listed, g, edges, |g|)
    requires |g| > 0 && SetOf(g[0]) == m.Start() && a.start == 0
    ensures a.Accepts(a.start, ids) <==> SpelledIn(listed, ids, m.Accepted())
  {
    hide Automaton.Valid, SetOf, RowsDone, Machine.Run, Machine.Start, Realizes;
    RealizesAt(a, g, edges, m, 0);
    GraphAccepts(a, m, listed, g, edges, 0, ids);
    if RunSpelled(m, listed, m.Start(), ids) {
      var texts :| Spelling(listed, ids, texts) && m.fin in m.Run(m.Start(), Joined(texts));
      m.RunExact(Joined(texts));
    }
    if SpelledIn(listed, ids, m.Accepted()) {
      var texts :| Spelling(listed, ids, texts) && Joined(texts) in m.Accepted();
      m.RunExact(Joined(texts));
    }
  }

  // ---- assembly ----

  /** The row of one node, in order of destination. */
  ghost predicate RowFrom(edges: map<(nat, nat), seq<nat>>, i: nat, n: nat, row: seq<Entry>) {
    && Canon(row) && (forall k :: 0 <= k < |row| ==> row[k].key < n)
    && forall to: nat, id: nat :: Reach(row, to, id) <==> to < n && EdgeHas(edges, i, to, id)
  }

  lemma RowNone(edges: map<(nat, nat), seq<nat>>, i: nat)
    ensures RowFrom(edges, i, 0, [])
  {
  }

  lemma RowNext(edges: map<(nat, nat), seq<nat>>, i: nat, n: nat, row: seq<Entry>)
    requires RowFrom(edges, i, n, row) && ((i, n) in edges ==> edges[(i, n)] != [])
    ensures RowFrom(edges, i, n + 1, if (i, n) in edges then row + [Entry(n, Canonical(edges[(i, n)]))] else row)
  {
    hide Canonical;
    if (i, n) in edges {
      var toks := Canonical(edges[(i, n)]);
      assert edges[(i, n)][0] in toks;
      var next := row + [Entry(n, toks)];
      forall to: nat, id: nat ensures Reach(next, to, id) <==> to < n + 1 && EdgeHas(edges, i, to, id) {
        ReachAfterPush(row, Entry(n, toks), to, id);
      }
    }
  }

  /** Adds the edges of the graph in order of source, then destination. */
  method Assemble(g: SubsetGraph, vocab: nat, start: nat, ghost m: Machine, ghost listed: set<Token>)
    returns (r: Result<Automaton, FaError>, ghost rows: seq<seq<Entry>>)
    requires g.Valid(m) && RowsDone(m, listed, g.subsets, g.edges, |g.subsets|) && start < |g.subsets|
    ensures |rows| == |g.subsets| && forall i :: 0 <= i < |rows| ==> RowFrom(g.edges, i, |rows|, rows[i])
    ensures r.Ok? <==> Buildable(|rows|, vocab, start, AllSpecs(rows))
    ensures r.Ok? ==> r.value.Valid() && Represents(r.value, AllSpecs(rows))
    ensures r.Ok? ==>
              && r.value.nNodes == |g.subsets| && r.value.vocab == vocab && r.value.start == start
              && r.value.accept == g.accept
  {
    hide RowFrom, SpecsOf, AllSpecs, Buildable, Truthful, Represents, Automaton.Valid, RowsDone, Canonical, Pooled;
    var n := |g.subsets|;
    var ab := new AutomatonBuilder(n, vocab, start);
    for i := 0 to n
      invariant ab.nNodes == n && ab.vocab == vocab && ab.start == start && ab.edges == [] && |ab.accept| == n == |g.accept|
      invariant forall c :: 0 <= c < n ==> ab.accept[c] == (c < i && g.accept[c])
    {
      if g.accept[i] {
        ab.Accept(i);
      }
    }
    assert ab.accept == g.accept;
    rows := [];
    AllSpecsEmpty();
    for i := 0 to n
      invariant ab.nNodes == n && ab.vocab == vocab && ab.start == start && ab.accept == g.accept
      invariant |rows| == i && ab.edges == AllSpecs(rows) && forall h :: 0 <= h < i ==> RowFrom(g.edges, h, n, rows[h])
    {
      ghost var row: seq<Entry> := [];
      ghost var before := ab.edges;
      RowNone(g.edges, i);
      RowEdgesNonEmpty(m, listed, g.subsets, g.edges, i);
      SpecsNone(i);
      for to := 0 to n
        invariant ab.nNodes == n && ab.vocab == vocab && ab.start == start && ab.accept == g.accept
        invariant RowFrom(g.edges, i, to, row) && ab.edges == before + SpecsOf(i, row)
      {
        RowNext(g.edges, i, to, row);
        if (i, to) in g.edges {
          var tids := Canonical(g.edges[(i, to)]);
          SpecsPush(i, row, Entry(to, tids));
          ab.AddEdge(i, to, tids);
          row := row + [Entry(to, tids)];
        }
      }
      AllSpecsExtend(rows, row);
      rows := rows + [row];
    }
    r := ab.Build();
  }

  lemma SpecsNone(i: nat)
    ensures SpecsOf(i, []) == []
  {
  }

  lemma SpecsPush(i: nat, row: seq<Entry>, e: Entry)
    ensures SpecsOf(i, row + [e]) == SpecsOf(i, row) + [EdgeSpec(i, e.key, e.tokens)]
  {
    assert (row + [e])[..|row|] == row;
  }

  lemma RowEdgesNonEmpty(m: Machine, listed: set<Token>, subsets: seq<seq<nat>>, edges: map<(nat, nat), seq<nat>>, i: nat)
    requires RowsDone(m, listed, subsets, edges, |subsets|) && i < |subsets|
    ensures forall to: nat :: (i, to) in edges ==> edges[(i, to)] != []
  {
    assert RowDone(m, listed, subsets, edges, i);
  }

  /** The rows pass the per-edge checks. */
  lemma RowsInBounds(m: Machine, listed: set<Token>, subsets: seq<seq<nat>>, edges: map<(nat, nat), seq<nat>>, rows: seq<seq<Entry>>, vocab: nat)
    requires RowsDone(m, listed, subsets, edges, |subsets|) && |rows| == |subsets|
    requires forall i :: 0 <= i < |rows| ==> RowFrom(edges, i, |rows|, rows[i])
    requires forall t :: t in listed ==> t.id < vocab
    ensures RowsOk(rows, vocab)
  {
    hide SetOf, Canon;
    forall b: nat, c: nat, t: nat | b < |rows| && Reach(rows[b], c, t) ensures c < |rows| && t < vocab {
      assert RowFrom(edges, b, |rows|, rows[b]);
      assert RowDone(m, listed, subsets, edges, b);
      assert EdgeHas(edges, b, c, t);
      assert Leads(m, listed, SetOf(subsets[b]), t, SetOf(subsets[c]));
    }
    forall b: nat | b < |rows| ensures RowOk(rows[b], |rows|, vocab) {
      assert RowFrom(edges, b, |rows|, rows[b]);
    }
  }

  /** With one text per id no token can lead a subset to two places. */
  lemma RowsDeterministic(m: Machine, listed: set<Token>, subsets: seq<seq<nat>>, ids: map<seq<nat>, nat>, edges: map<(nat, nat), seq<nat>>,
                          rows: seq<seq<Entry>>)
    requires RowsDone(m, listed, subsets, edges, |subsets|) && |rows| == |subsets| && OneTextEach(listed) && Pooled(m, subsets, ids)
    requires forall i :: 0 <= i < |rows| ==> RowFrom(edges, i, |rows|, rows[i])
    ensures forall b :: 0 <= b < |rows| ==> Deterministic(rows[b])
  {
    hide SetOf, Canon, Machine.Run, Pooled;
    forall b: nat, c: nat, d: nat, t: nat | b < |rows| && Reach(rows[b], c, t) && Reach(rows[b], d, t) ensures c == d {
      assert RowFrom(edges, b, |rows|, rows[b]);
      assert RowDone(m, listed, subsets, edges, b);
      assert EdgeHas(edges, b, c, t) && EdgeHas(edges, b, d, t);
      assert Leads(m, listed, SetOf(subsets[b]), t, SetOf(subsets[c]));
      assert Leads(m, listed, SetOf(subsets[b]), t, SetOf(subsets[d]));
      PoolDistinct(m, subsets, ids, c, d);
    }
  }

  lemma RowsRealize(a: Automaton, m: Machine, subsets: seq<seq<nat>>, ids: map<seq<nat>, nat>, accept: seq<bool>,
                    edges: map<(nat, nat), seq<nat>>, rows: seq<seq<Entry>>)
    requires a.Valid() && Numbered(m, subsets, ids, accept) && |rows| == |subsets| && a.nNodes == |rows| && a.start < |rows|
    requires a.accept == accept && Represents(a, AllSpecs(rows))
    requires forall i :: 0 <= i < |rows| ==> RowFrom(edges, i, |rows|, rows[i])
    requires forall i: nat, to: nat, id: nat :: i < |rows| && EdgeHas(edges, i, to, id) ==> to < |rows|
    ensures Realizes(a, subsets, edges, m)
  {
    hide Automaton.Valid, Automaton.Next, Represents, AllSpecs, SetOf, Canon, Pooled;
    forall i: nat, to: nat, id: nat | i < |subsets| ensures a.Next(i, id) == Some(to) <==> EdgeHas(edges, i, to, id) {
      RowsStep(a, rows, i, id, to);
      assert RowFrom(edges, i, |rows|, rows[i]);
    }
    forall i | 0 <= i < |subsets| ensures a.accept[i] <==> m.fin in SetOf(subsets[i]) {
      assert SubsetGraphs.NodeOk(m, subsets[i], accept[i]);
    }
  }

  lemma EdgesInGraph(m: Machine, listed: set<Token>, subsets: seq<seq<nat>>, edges: map<(nat, nat), seq<nat>>)
    requires RowsDone(m, listed, subsets, edges, |subsets|)
    ensures forall i: nat, to: nat, id: nat :: i < |subsets| && EdgeHas(edges, i, to, id) ==> to < |subsets|
  {
    forall i: nat, to: nat, id: nat | i < |subsets| && EdgeHas(edges, i, to, id) ensures to < |subsets| {
      assert RowDone(m, listed, subsets, edges, i);
    }
  }

  // ---- the counts ----

  /** The list of all non-empty subsets that runs of tokens meet, each once. */
  ghost predicate ListsMet(m: Machine, listed: set<Token>, xs: seq<set<nat>>) {
    Distinct(xs) && forall y :: y in xs <==> y != {} && Met(m, listed, y)
  }

  /** Some token leads from one subset to the other. */
  ghost predicate Moves(m: Machine, listed: set<Token>, x: set<nat>, y: set<nat>) {
    exists id :: Leads(m, listed, x, id, y)
  }

  /** The list of all pairs of numbers such that some token leads from the first subset to the second, each once. */
  ghost predicate ListsMoves(m: Machine, listed: set<Token>, xs: seq<set<nat>>, ps: seq<(nat, nat)>) {
    Distinct(ps) && forall i: nat, j: nat :: (i, j) in ps <==> i < |xs| && j < |xs| && Moves(m, listed, xs[i], xs[j])
  }

  /** The size of the subset automaton: the subsets that are met, and the pairs of them that a token joins. */
  ghost predicate Counted(m: Machine, listed: set<Token>, nodes: nat, edges: nat) {
    exists xs, ps :: ListsMet(m, listed, xs) && ListsMoves(m, listed, xs, ps) && |xs| == nodes && |ps| == edges
  }

  lemma MetListed(m: Machine, listed: set<Token>, g: SubsetGraph) returns (xs: seq<set<nat>>)
    requires g.Valid(m) && RowsDone(m, listed, g.subsets, g.edges, |g.subsets|) && AllMet(m, listed, g.subsets)
    requires |g.subsets| > 0 && SetOf(g.subsets[0]) == m.Start()
    ensures |xs| == |g.subsets| && ListsMet(m, listed, xs) && forall i :: 0 <= i < |xs| ==> xs[i] == SetOf(g.subsets[i])
  {
    hide SetOf, RowDone, Machine.Run, Machine.Start, Numbered, Met, RowsDone, TextsOf;
    var subsets := g.subsets;
    xs := seq(|subsets|, i requires 0 <= i < |subsets| => SetOf(subsets[i]));
    forall i, j | 0 <= i < j < |xs| ensures xs[i] != xs[j] {
      if xs[i] == xs[j] {
        GraphPooled(m, g.subsets, g.ids, g.accept);
        PoolDistinct(m, g.subsets, g.ids, i, j);
      }
    }
    forall y | y in xs ensures y != {} && Met(m, listed, y) {
      var i: nat :| i < |xs| && xs[i] == y;
      NodeLive(m, g.subsets, g.ids, g.accept, i);
      assert Met(m, listed, SetOf(g.subsets[i]));
    }
    forall y | y != {} && Met(m, listed, y) ensures y in xs {
      MetNumbered(m, listed, g, y);
      var i: nat :| IsNumber(y, g.subsets, i);
      assert xs[i] == SetOf(g.subsets[i]) == y;
    }
  }

  lemma MetNumbered(m: Machine, listed: set<Token>, g: SubsetGraph, y: set<nat>)
    requires g.Valid(m) && RowsDone(m, listed, g.subsets, g.edges, |g.subsets|)
    requires |g.subsets| > 0 && SetOf(g.subsets[0]) == m.Start() && y != {} && Met(m, listed, y)
    ensures HasNumber(y, g.subsets)
  {
    hide SetOf, RowDone, Machine.Run, Machine.Start, Numbered, RowsDone, TextsOf;
    var w :| w in Star(TextsOf(listed)) && m.Run(m.Start(), w) == y;
    RunFound(m, listed, g.subsets, g.edges, 0, w);
  }

  /** Edge `k` joins its owner to its destination. */
  lemma EdgeJoins(a: Automaton, k: nat)
    requires a.Valid() && k < a.NEdges()
    ensures exists id :: a.Next(Distances.Owner(a, a.nNodes, k), id) == Some(a.edgeDst[k])
  {
    var id := a.EdgeTokens(k)[0];
    a.NextCharacterized(Distances.Owner(a, a.nNodes, k), id, a.edgeDst[k]);
  }

  lemma JoinedByEdge(a: Automaton, i: nat, j: nat, id: nat) returns (k: nat)
    requires a.Valid() && i < a.nNodes && a.Next(i, id) == Some(j)
    ensures k < a.NEdges() && Distances.Owner(a, a.nNodes, k) == i && a.edgeDst[k] == j
  {
    a.NextCharacterized(i, id, j);
    var e :| a.OutLo(i) <= e < a.OutHi(i) && id in a.EdgeTokens(e) && a.edgeDst[e] == j;
    k := e;
    Distances.OneOwner(a, k, i, Distances.Owner(a, a.nNodes, k));
  }

  /** A valid automaton lists every pair of joined nodes once among its edges. */
  lemma PairsOnce(a: Automaton) returns (ps: seq<(nat, nat)>)
    requires a.Valid()
    ensures |ps| == a.NEdges() && Distinct(ps)
    ensures forall i: nat, j: nat :: (i, j) in ps <==> i < a.nNodes && exists id :: a.Next(i, id) == Some(j)
  {
    hide Automaton.EdgeValid, Automaton.NodeValid, Automaton.Next;
    ps := seq(a.NEdges(), k requires 0 <= k < a.NEdges() => (Distances.Owner(a, a.nNodes, k), a.edgeDst[k]));
    forall k, l | 0 <= k < l < |ps| ensures ps[k] != ps[l] {
      if ps[k].0 == ps[l].0 { TwoEdgesApart(a, ps[k].0, k, l); }
    }
    forall i: nat, j: nat | (i, j) in ps ensures i < a.nNodes && exists id :: a.Next(i, id) == Some(j) {
      var k: nat :| k < |ps| && ps[k] == (i, j);
      EdgeJoins(a, k);
    }
    forall i: nat, j: nat | i < a.nNodes && exists id :: a.Next(i, id) == Some(j) ensures (i, j) in ps {
      var id :| a.Next(i, id) == Some(j);
      var k := JoinedByEdge(a, i, j, id);
      assert ps[k] == (i, j);
    }
  }

  lemma TwoEdgesApart(a: Automaton, s: nat, k: nat, l: nat)
    requires a.Valid() && s < a.nNodes && a.OutLo(s) <= k < l < a.OutHi(s)
    ensures a.edgeDst[k] != a.edgeDst[l]
  {
    assert a.NodeValid(s);
    assert a.Apart(k, l);
  }

  /** The raw automaton has one node for every subset met and one edge for every pair of them that a token joins. */
  lemma RawCounted(raw: Automaton, m: Machine, listed: set<Token>, g: SubsetGraph)
    requires g.Valid(m) && RowsDone(m, listed, g.subsets, g.edges, |g.subsets|) && AllMet(m, listed, g.subsets)
    requires |g.subsets| > 0 && SetOf(g.subsets[0]) == m.Start() && raw.Valid() && Realizes(raw, g.subsets, g.edges, m)
    ensures Counted(m, listed, raw.nNodes, raw.NEdges())
  {
    hide SetOf, Automaton.Valid, Machine.Run, Machine.Start, Numbered, Automaton.Next, Leads, ListsMet, Met;
    var xs := MetListed(m, listed, g);
    var ps := PairsOnce(raw);
    forall i: nat, j: nat ensures (i, j) in ps <==> i < |xs| && j < |xs| && Moves(m, listed, xs[i], xs[j]) {
      if i < |xs| { MovesAre(raw, m, listed, g, i, j, xs); }
    }
    assert ListsMoves(m, listed, xs, ps);
  }

  lemma MovesAre(raw: Automaton, m: Machine, listed: set<Token>, g: SubsetGraph, i: nat, j: nat, xs: seq<set<nat>>)
    requires g.Valid(m) && RowsDone(m, listed, g.subsets, g.edges, |g.subsets|)
    requires raw.Valid() && Realizes(raw, g.subsets, g.edges, m) && ListsMet(m, listed, xs)
    requires i < |xs| == |g.subsets| && forall i :: 0 <= i < |xs| ==> xs[i] == SetOf(g.subsets[i])
    ensures (exists id :: raw.Next(i, id) == Some(j)) <==> j < |xs| && Moves(m, listed, xs[i], xs[j])
  {
    hide SetOf, Automaton.Valid, Automaton.Next, Leads, Met, Numbered;
    RealizesAt(raw, g.subsets, g.edges, m, i);
    assert RowDone(m, listed, g.subsets, g.edges, i);
    if id :| raw.Next(i, id) == Some(j) {
      assert EdgeHas(g.edges, i, j, id);
      assert Leads(m, listed, xs[i], id, xs[j]);
    }
    if j < |xs| && Moves(m, listed, xs[i], xs[j]) {
      var id :| Leads(m, listed, xs[i], id, xs[j]);
      assert Shown(g.subsets, g.edges, i, id, xs[j]);
      var to: nat :| to < |g.subsets| && SetOf(g.subsets[to]) == xs[j] && EdgeHas(g.edges, i, to, id);
      assert xs[to] == xs[j];
      assert raw.Next(i, id) == Some(j);
    }
  }

  /** The start node of the minimized automaton is node 0 if it was before. */
  lemma StartsAtZero(a: Automaton, m: Automaton, blockOf: seq<nat>)
    requires Quotient(a, m, blockOf) && ByFirstMember(a, blockOf) && a.start == 0 && CanAccept(a, 0)
    ensures m.start == 0
  {
    hide CanAccept, SameLanguage, NodesSeparated, Automaton.EdgeValid, Automaton.NodeValid;
    StartReachable(a);
    QuotientParts(a, m, blockOf);
    assert Kept(a, 0);
    assert HasMember(a, blockOf, 0);
    var s: nat :| s < |blockOf| && Kept(a, s) && blockOf[s] == 0;
    FirstOfZero(a, blockOf, s);
  }

  lemma {:induction false} FirstOfZero(a: Automaton, blockOf: seq<nat>, s: nat)
    requires a.Valid() && ByFirstMember(a, blockOf) && s < |blockOf| && Kept(a, s) && blockOf[s] == 0 && Kept(a, 0)
    ensures blockOf[0] == 0
  {
    hide Kept, Automaton.Valid;
    assert OldOrNextBlock(a, blockOf, s);
    if q: nat :| q < s && Kept(a, q) && blockOf[q] == blockOf[s] {
      FirstOfZero(a, blockOf, q);
    }
  }

  /** The vocabulary reaches just over the largest id of the token list, whatever the texts; an empty list has vocabulary 1. */
  ghost predicate VocabFor(vocab: nat, tokens: seq<Token>) {
    && vocab >= 1 && (forall i :: 0 <= i < |tokens| ==> tokens[i].id < vocab)
    && (vocab > 1 ==> exists i :: 0 <= i < |tokens| && tokens[i].id + 1 == vocab)
  }

  // ---- the compiler ----

  /** The trie of all listed tokens. */
  method BuildTrie(tokens: seq<Token>) returns (trie: TokenTrie)
    ensures fresh(trie) && trie.Valid() && trie.tokens == Listed(tokens)
  {
    hide Shape, Holds;
    trie := new TokenTrie();
    for i := 0 to |tokens|
      invariant fresh(trie) && trie.Valid() && trie.tokens == Listed(tokens[..i])
    {
      assert tokens[..i + 1] == tokens[..i] + [tokens[i]];
      if tokens[i].text != [] {
        trie.Insert(tokens[i].id, tokens[i].text);
      }
    }
    assert tokens[..|tokens|] == tokens;
  }

  /** One more than the largest id, or 1 for an empty list. */
  method VocabOf(tokens: seq<Token>) returns (vocab: nat)
    ensures VocabFor(vocab, tokens)
    ensures forall t :: t in Listed(tokens) ==> t.id < vocab
  {
    vocab := 1;
    for i := 0 to |tokens|
      invariant vocab >= 1 && forall h :: 0 <= h < i ==> tokens[h].id < vocab
      invariant vocab > 1 ==> exists h :: 0 <= h < i && tokens[h].id + 1 == vocab
    {
      if tokens[i].id + 1 > vocab {
        vocab := tokens[i].id + 1;
      }
    }
  }

  /** The character automaton the schema compiles to. */
  function MachineFor(sc: Schema): Machine {
    var x := TopPart(sc);
    Machine(x.es, x.hi, x.s, x.f)
  }

  /** The caps in numbers: a schema is compiled to a character automaton exactly if it is within bounds and its closed-form
      size is at most 400000; the padding takes 12 states more. */
  lemma CapIff(sc: Schema)
    ensures FitsCaps(sc) <==> WithinBounds(sc, 0) && Size(sc) <= 400000
    ensures MachineFor(sc).n == Size(sc) + 12
  {
    hide ValuePart, Size, WithinBounds, Arrays.WsPart;
    SizeIs(sc, 0);
    Arrays.WsEnds(Size(sc));
  }

  lemma RefusedFor(sc: Schema)
    ensures ValueFault(sc, 0, 0).Some? ==> Blames(ValueFault(sc, 0, 0).value, sc, 0, Size(sc))
  {
    hide ValuePart, ValueFault, Size, Blames;
    SizeIs(sc, 0);
    FaultBlames(sc, 0, 0);
  }

  /** What each refusal says about the schema and the token list. */
  ghost predicate CompileRefusal(e: SchemaError, sc: Schema, tokens: seq<Token>) {
    || (Refusal(e, sc, 0) && !FitsCaps(sc))
    || (e == TooManyStates(MAX_SUBSETS + 1, MAX_SUBSETS) && TooMany(MachineFor(sc), Listed(tokens)))
    || LateRefusal(e, sc, tokens)
  }

  /** The automaton accepts exactly the id sequences that spell a padded instance of the schema. */
  ghost predicate AcceptsInstances(a: Automaton, sc: Schema, tokens: seq<Token>) {
    && a.Valid() && a.start < a.nNodes
    && forall x :: a.Accepts(a.start, x) <==> SpelledIn(Listed(tokens), x, Padded(sc, COMPILED))
  }

  lemma CompiledNonEmpty()
    ensures [] !in COMPILED.number && [] !in COMPILED.text && forall l :: [] !in COMPILED.lit(l)
  {
    forall l ensures [] !in COMPILED.lit(l) { LitTextNonEmpty(l); }
  }

  /** The empty text is no padded instance, so the start node never accepts. */
  lemma PaddedNonEmpty(sc: Schema)
    ensures [] !in Padded(sc, COMPILED)
  {
    hide COMPILED, Instances, Cat, WS;
    CompiledNonEmpty();
    InstancesNonEmpty(sc, COMPILED);
    CatNonEmpty(Instances(sc, COMPILED), WS);
  }

  lemma EmptyNotSpelled(listed: set<Token>, l: Lang)
    requires [] !in l
    ensures !SpelledIn(listed, [], l)
  {
    forall texts | Spelling(listed, [], texts) ensures Joined(texts) !in l {
      assert texts == [];
    }
  }

  lemma StartRejects(raw: Automaton, sc: Schema, tokens: seq<Token>)
    requires AcceptsInstances(raw, sc, tokens)
    ensures !raw.accept[raw.start]
    ensures CanAccept(raw, raw.start) ==> !EarlyStop(raw)
  {
    hide COMPILED, Padded, Listed;
    PaddedNonEmpty(sc);
    var l := Padded(sc, COMPILED);
    EmptyNotSpelled(Listed(tokens), l);
    assert !raw.Accepts(raw.start, []);
    StartReachable(raw);
    if CanAccept(raw, raw.start) {
      assert Kept(raw, raw.start);
    }
  }

  lemma RawInstances(raw: Automaton, m: Machine, x: Part, sc: Schema, tokens: seq<Token>, g: seq<seq<nat>>, edges: map<(nat, nat), seq<nat>>)
    requires raw.Valid() && m.Valid() && Realizes(raw, g, edges, m) && RowsDone(m, Listed(tokens), g, edges, |g|)
    requires |g| > 0 && SetOf(g[0]) == m.Start() && raw.start == 0
    requires m == Machine(x.es, x.hi, x.s, x.f) && x.Accepted() == Padded(sc, COMPILED)
    ensures AcceptsInstances(raw, sc, tokens)
  {
    hide Automaton.Valid, SetOf, RowsDone, Machine.Start, Realizes, Padded, COMPILED, Listed, Reads;
    RealizesAt(raw, g, edges, m, 0);
    forall ids ensures raw.Accepts(raw.start, ids) <==> SpelledIn(Listed(tokens), ids, Padded(sc, COMPILED)) {
      RawLanguage(raw, m, Listed(tokens), g, edges, ids);
    }
  }

  lemma MinimizedInstances(raw: Automaton, fa: Automaton, blockOf: seq<nat>, sc: Schema, tokens: seq<Token>)
    requires AcceptsInstances(raw, sc, tokens) && Quotient(raw, fa, blockOf) && CanAccept(raw, raw.start)
    ensures AcceptsInstances(fa, sc, tokens) && Smallest(fa, sc, tokens)
  {
    StartReachable(raw);
    hide Automaton.Valid, Quotient, Padded, COMPILED, Listed, SpelledIn, Kept, CanAccept;
    QuotientParts(raw, fa, blockOf);
    assert SameLanguage(raw, raw.start, fa, blockOf[raw.start]);
    hide AcceptsInstances, SameLanguage;
    SameInstances(raw, fa, sc, tokens);
    forall other: Automaton | AcceptsInstances(other, sc, tokens) ensures fa.nNodes <= other.nNodes {
      SameAccepted(raw, other, sc, tokens);
      MinimizeLaws.FewestNodes(raw, fa, blockOf, other);
    }
  }

  lemma SameInstances(raw: Automaton, fa: Automaton, sc: Schema, tokens: seq<Token>)
    requires AcceptsInstances(raw, sc, tokens) && fa.Valid() && SameLanguage(raw, raw.start, fa, fa.start)
    ensures AcceptsInstances(fa, sc, tokens)
  {
    hide Automaton.Valid, Padded, COMPILED, Listed, SpelledIn;
  }

  lemma SameAccepted(raw: Automaton, other: Automaton, sc: Schema, tokens: seq<Token>)
    requires AcceptsInstances(raw, sc, tokens) && AcceptsInstances(other, sc, tokens)
    ensures raw.Valid() && other.Valid() && raw.start < raw.nNodes && other.start < other.nNodes
    ensures forall x :: other.Accepts(other.start, x) == raw.Accepts(raw.start, x)
  {
    hide Automaton.Valid, Padded, COMPILED, Listed, SpelledIn;
  }

  /** No automaton with this language has fewer nodes. */
  ghost predicate Smallest(a: Automaton, sc: Schema, tokens: seq<Token>) {
    forall other: Automaton :: AcceptsInstances(other, sc, tokens) ==> a.nNodes <= other.nNodes
  }

  lemma NoInstanceAtAll(raw: Automaton, sc: Schema, tokens: seq<Token>)
    requires AcceptsInstances(raw, sc, tokens) && !CanAccept(raw, raw.start)
    ensures forall x :: !SpelledIn(Listed(tokens), x, Padded(sc, COMPILED))
  {
    hide Automaton.Valid, Padded, COMPILED, Listed, SpelledIn;
    forall x ensures !SpelledIn(Listed(tokens), x, Padded(sc, COMPILED)) {
      assert !raw.Accepts(raw.start, x);
    }
  }

  lemma SomeInstance(raw: Automaton, sc: Schema, tokens: seq<Token>)
    requires AcceptsInstances(raw, sc, tokens) && CanAccept(raw, raw.start)
    ensures exists x :: SpelledIn(Listed(tokens), x, Padded(sc, COMPILED))
  {
    hide Automaton.Valid, Padded, COMPILED, Listed, SpelledIn;
    var x :| raw.Accepts(raw.start, x);
    assert SpelledIn(Listed(tokens), x, Padded(sc, COMPILED));
  }

  /** What the stages behind the graph may refuse. */
  ghost predicate LateRefusal(e: SchemaError, sc: Schema, tokens: seq<Token>) {
    || (e == InvalidSchema(InvariantsViolated) && !OneTextEach(Listed(tokens)))
    || (e == InvalidSchema(NoInstance) && forall x :: !SpelledIn(Listed(tokens), x, Padded(sc, COMPILED)))
  }

  /** The last stages of `compile_stats`: the builder and the minimizer. */
  method FromGraph(g: SubsetGraph, sc: Schema, tokens: seq<Token>, nfaStates: nat, ghost m: Machine, ghost x: Part)
    returns (r: Result<(Automaton, CompileStats), SchemaError>)
    requires m.Valid() && m == Machine(x.es, x.hi, x.s, x.f) && x.Accepted() == Padded(sc, COMPILED) && g.Valid(m)
    requires RowsDone(m, Listed(tokens), g.subsets, g.edges, |g.subsets|) && |g.subsets| > 0 && SetOf(g.subsets[0]) == m.Start()
    requires AllMet(m, Listed(tokens), g.subsets)
    ensures r.Ok? ==> AcceptsInstances(r.value.0, sc, tokens) && Smallest(r.value.0, sc, tokens)
    ensures r.Ok? ==> exists x :: SpelledIn(Listed(tokens), x, Padded(sc, COMPILED))
    ensures r.Ok? ==> r.value.1.nodes == r.value.0.nNodes && r.value.1.edges == r.value.0.NEdges() && r.value.1.nfaStates == nfaStates
    ensures r.Ok? ==> VocabFor(r.value.0.vocab, tokens) && r.value.0.start == 0
    ensures r.Ok? ==> Counted(m, Listed(tokens), r.value.1.rawNodes, r.value.1.rawEdges)
    ensures r.Err? ==> LateRefusal(r.error, sc, tokens)
  {
    hide Automaton.Valid, Padded, COMPILED, Instances, Part.Accepted, Listed, Smallest, AcceptsInstances;
    hide SetOf, RowsDone, Machine.Start, Realizes, RowFrom, Shape, Holds, Represents, Buildable, AllSpecs, Quotient, EarlyStop, CanAccept;
    hide RowsOk, Deterministic, OneTextEach, SpelledIn, VocabFor, Counted, AllMet, ByFirstMember;
    var vocab := VocabOf(tokens);
    var raw;
    ghost var rows;
    raw, rows := Assemble(g, vocab, 0, m, Listed(tokens));
    RowsInBounds(m, Listed(tokens), g.subsets, g.edges, rows, vocab);
    RowsBuildable(rows, vocab, 0);
    if raw.Err? {
      if OneTextEach(Listed(tokens)) {
        GraphPooled(m, g.subsets, g.ids, g.accept);
        RowsDeterministic(m, Listed(tokens), g.subsets, g.ids, g.edges, rows);
      }
      return Err(InvalidSchema(InvariantsViolated));
    }
    EdgesInGraph(m, Listed(tokens), g.subsets, g.edges);
    RowsRealize(raw.value, m, g.subsets, g.ids, g.accept, g.edges, rows);
    RawInstances(raw.value, m, x, sc, tokens, g.subsets, g.edges);
    RawCounted(raw.value, m, Listed(tokens), g);
    var small;
    ghost var blockOf;
    small, blockOf := MinimizeWithStats(raw.value);
    StartRejects(raw.value, sc, tokens);
    if small.Err? {
      if small.error.DeadStart? {
        NoInstanceAtAll(raw.value, sc, tokens);
        return Err(InvalidSchema(NoInstance));
      }
      return Err(InvalidSchema(MinimizationRejected));
    }
    MinimizedInstances(raw.value, small.value.0, blockOf, sc, tokens);
    StartsAtZero(raw.value, small.value.0, blockOf);
    SomeInstance(raw.value, sc, tokens);
    var stats := small.value.1;
    return Ok((small.value.0, CompileStats(nfaStates, stats.nodesIn, stats.edgesIn, stats.nodesOut, stats.edgesOut)));
  }

  /** `compile_stats`. A success is the smallest automaton that accepts exactly the token sequences spelling a padded
      instance. Every refusal is true of the input and comes in the order of the stages: the schema's bounds, the subset cap,
      the rest; and the minimizer never rejects a compiled automaton. */
  method Compile(sc: Schema, tokens: seq<Token>) returns (r: Result<(Automaton, CompileStats), SchemaError>)
    ensures r.Ok? ==> WithinBounds(sc, 0) && AcceptsInstances(r.value.0, sc, tokens) && Smallest(r.value.0, sc, tokens)
    ensures r.Ok? ==> exists x :: SpelledIn(Listed(tokens), x, Padded(sc, COMPILED))
    ensures r.Ok? ==> r.value.1.nodes == r.value.0.nNodes && r.value.1.edges == r.value.0.NEdges()
    ensures r.Ok? ==> VocabFor(r.value.0.vocab, tokens) && r.value.0.start == 0
    ensures r.Ok? ==> r.value.1.nfaStates == MachineFor(sc).n == Size(sc) + 12
    ensures r.Ok? ==> Counted(MachineFor(sc), Listed(tokens), r.value.1.rawNodes, r.value.1.rawEdges)
    ensures r.Err? ==> CompileRefusal(r.error, sc, tokens)
    ensures r.Err? && Refusal(r.error, sc, 0) <==> !FitsCaps(sc)
    ensures !FitsCaps(sc) <==> ValueFault(sc, 0, 0).Some?
    ensures !FitsCaps(sc) ==> r == Err(ValueFault(sc, 0, 0).value) && Blames(r.error, sc, 0, Size(sc))
    ensures r.Err? && r.error.TooManyStates? ==> r.error == TooManyStates(8193, 8192)
    ensures r.Err? && r.error.TooManyStates? <==> FitsCaps(sc) && TooMany(MachineFor(sc), Listed(tokens))
  {
    hide Automaton.Valid, NfaBuilder.Set, Padded, COMPILED, Instances, WithinBounds, Refusal, Part.Accepted, Listed, Smallest, AcceptsInstances;
    hide SetOf, RowsDone, Machine.Start, SpelledIn, TooMany, CompileRefusal, FitsCaps, TopPart, LateRefusal, ValueFault, VocabFor, Counted, AllMet;
    hide Size, Blames;
    LaterErrors(sc);
    CapIff(sc);
    RefusedFor(sc);
    var b := new NfaBuilder();
    EmptySet(b);
    var top;
    ghost var x;
    top, x := TopLevel(b, sc);
    if top.Err? {
      OtherRefusals(top.error, sc, tokens);
      return Err(top.error);
    }
    ghost var m := MachineOf(b, top.value, x);
    MachineIs(m, x, sc);
    var index := BuildIndex(b.edges, b.states, m);
    var stepper := new Stepper(index, m);
    var trie := BuildTrie(tokens);
    var failed, g := Explore(trie, stepper, top.value.0, top.value.1, m);
    if failed.Some? {
      SizeRefused(sc, tokens);
      return Err(failed.value);
    }
    r := FromGraph(g, sc, tokens, b.states, m, x);
    FitsWithin(sc);
    if r.Err? { OtherRefusals(r.error, sc, tokens); }
  }

  lemma FitsWithin(sc: Schema)
    requires FitsCaps(sc)
    ensures WithinBounds(sc, 0)
  {
  }

  lemma OtherRefusals(e: SchemaError, sc: Schema, tokens: seq<Token>)
    ensures Refusal(e, sc, 0) && !FitsCaps(sc) ==> CompileRefusal(e, sc, tokens)
    ensures LateRefusal(e, sc, tokens) ==> CompileRefusal(e, sc, tokens) && !e.TooManyStates? && !Refusal(e, sc, 0)
  {
  }

  lemma SizeRefused(sc: Schema, tokens: seq<Token>)
    requires TooMany(MachineFor(sc), Listed(tokens))
    ensures CompileRefusal(TooManyStates(MAX_SUBSETS + 1, MAX_SUBSETS), sc, tokens)
  {
    hide TooMany, MachineFor;
  }

  /** The refusals of the later stages are none of the first. */
  lemma LaterErrors(sc: Schema)
    ensures !Refusal(TooManyStates(MAX_SUBSETS + 1, MAX_SUBSETS), sc, 0)
    ensures forall e :: Refusal(e, sc, 0) ==> !e.TooManyStates?
  {
  }

  lemma MachineIs(m: Machine, x: Part, sc: Schema)
    requires m == Machine(x.es, x.hi, x.s, x.f) && x == TopPart(sc)
    ensures m == MachineFor(sc)
  {
    hide TopPart;
  }

  lemma EmptySet(b: NfaBuilder)
    requires b.edges == []
    ensures b.Set() == {}
  {
  }

  lemma GraphPooled(m: Machine, subsets: seq<seq<nat>>, ids: map<seq<nat>, nat>, accept: seq<bool>)
    requires Numbered(m, subsets, ids, accept)
    ensures Pooled(m, subsets, ids)
  {
  }

  lemma MachineOf(b: NfaBuilder, top: (nat, nat), x: Part) returns (m: Machine)
    requires Made({}, 0, b.Set(), b.states, top, x)
    ensures m.Valid() && m == Machine(x.es, x.hi, x.s, x.f) && m.n == b.states && m.start == top.0 && m.fin == top.1
    ensures m.es == set e | e in b.edges
  {
    m := Machine(x.es, x.hi, x.s, x.f);
    assert {} + x.es == x.es;
  }
}
