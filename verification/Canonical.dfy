/** The minimized automaton is determined by the input, down to its arrays. */
module CanonicalForm {
  import opened Prelude
  import opened Automata
  import opened Distances
  import opened Trimming
  import opened Relabelling
  import opened RowSpecs
  import opened Minimizer

  // ---- equal steps make equal arrays ----

  ghost predicate SameSteps(m: Automaton, k: Automaton)
    requires m.Valid() && k.Valid() && m.nNodes == k.nNodes
  {
    forall s: nat, t: nat :: s < m.nNodes ==> m.Next(s, t) == k.Next(s, t)
  }

  /** The destinations of one node. */
  ghost function Row(m: Automaton, s: nat): seq<nat>
    requires m.Valid() && s < m.nNodes
  {
    m.edgeDst[m.OutLo(s)..m.OutHi(s)]
  }

  lemma RowMember(m: Automaton, s: nat, d: nat)
    requires m.Valid() && s < m.nNodes
    ensures d in Row(m, s) <==> exists t :: m.Next(s, t) == Some(d)
  {
    hide Automaton.EdgeValid, Automaton.NodeValid, Automaton.Next;
    var row := Row(m, s);
    if d in row {
      var i :| 0 <= i < |row| && row[i] == d;
      EdgeSteps(m, s, m.OutLo(s) + i);
    }
    if t :| m.Next(s, t) == Some(d) {
      m.NextCharacterized(s, t, d);
      var e :| m.OutLo(s) <= e < m.OutHi(s) && t in m.EdgeTokens(e) && m.edgeDst[e] == d;
      assert row[e - m.OutLo(s)] == d;
    }
  }

  lemma EdgeSteps(m: Automaton, s: nat, e: nat)
    requires m.Valid() && s < m.nNodes && m.OutLo(s) <= e < m.OutHi(s)
    ensures exists t :: m.Next(s, t) == Some(m.edgeDst[e])
  {
    hide Automaton.NodeValid;
    assert m.EdgeValid(e);
    var t := m.EdgeTokens(e)[0];
    m.NextCharacterized(s, t, m.edgeDst[e]);
    assert m.Next(s, t) == Some(m.edgeDst[e]);
  }

  lemma RowSorted(m: Automaton, s: nat)
    requires m.Valid() && s < m.nNodes && EdgesAscend(m)
    ensures StrictlySorted(Row(m, s))
  {
    hide Automaton.EdgeValid, Automaton.NodeValid;
    var row := Row(m, s);
    forall i, j | 0 <= i < j < |row| ensures row[i] < row[j] {
      assert m.edgeDst[m.OutLo(s) + i] < m.edgeDst[m.OutLo(s) + j];
    }
  }

  lemma SameRow(m: Automaton, k: Automaton, s: nat)
    requires m.Valid() && k.Valid() && m.nNodes == k.nNodes && SameSteps(m, k) && s < m.nNodes
    requires EdgesAscend(m) && EdgesAscend(k)
    ensures Row(m, s) == Row(k, s)
  {
    hide Automaton.Valid, Automaton.Next, Row, EdgesAscend;
    RowSorted(m, s);
    RowSorted(k, s);
    forall d ensures d in Row(m, s) <==> d in Row(k, s) {
      RowMember(m, s, d);
      RowMember(k, s, d);
    }
    StrictUnique(Row(m, s), Row(k, s));
  }

  /** The offsets of the nodes and the destinations up to them agree. */
  lemma {:induction false} SameOffsets(m: Automaton, k: Automaton, s: nat)
    requires m.Valid() && k.Valid() && m.nNodes == k.nNodes && SameSteps(m, k) && s <= m.nNodes
    requires EdgesAscend(m) && EdgesAscend(k)
    ensures m.outStart[s] == k.outStart[s] <= |m.edgeDst| && m.outStart[s] <= |k.edgeDst|
    ensures m.edgeDst[..m.outStart[s]] == k.edgeDst[..m.outStart[s]]
  {
    hide Automaton.EdgeValid, Automaton.NodeValid, SameSteps, EdgesAscend;
    if s > 0 {
      SameOffsets(m, k, s - 1);
      SameRow(m, k, s - 1);
      var lo, hi := m.OutLo(s - 1), m.OutHi(s - 1);
      assert |Row(m, s - 1)| == hi - lo;
      assert m.edgeDst[..hi] == m.edgeDst[..lo] + Row(m, s - 1);
      assert k.edgeDst[..hi] == k.edgeDst[..lo] + Row(k, s - 1);
    }
  }

  lemma SameEdges(m: Automaton, k: Automaton)
    requires m.Valid() && k.Valid() && m.nNodes == k.nNodes && SameSteps(m, k) && EdgesAscend(m) && EdgesAscend(k)
    ensures m.outStart == k.outStart && m.edgeDst == k.edgeDst
  {
    hide Automaton.EdgeValid, Automaton.NodeValid, SameSteps, EdgesAscend;
    forall s | 0 <= s <= m.nNodes ensures m.outStart[s] == k.outStart[s] { SameOffsets(m, k, s); }
    SameOffsets(m, k, m.nNodes);
    assert m.edgeDst[..|m.edgeDst|] == m.edgeDst && k.edgeDst[..|k.edgeDst|] == k.edgeDst;
  }

  /** The tokens of an edge are those that step from its node to its destination. */
  lemma TokensAre(m: Automaton, s: nat, e: nat, t: nat)
    requires m.Valid() && s < m.nNodes && m.OutLo(s) <= e < m.OutHi(s)
    ensures t in m.EdgeTokens(e) <==> m.Next(s, t) == Some(m.edgeDst[e])
  {
    m.NextCharacterized(s, t, m.edgeDst[e]);
    if f :| m.OutLo(s) <= f < m.OutHi(s) && t in m.EdgeTokens(f) && m.edgeDst[f] == m.edgeDst[e] {
      assert m.NodeValid(s);
      assert f < e ==> m.Apart(f, e);
      assert e < f ==> m.Apart(e, f);
    }
  }

  lemma SameTokens(m: Automaton, k: Automaton, s: nat, e: nat)
    requires m.Valid() && k.Valid() && m.nNodes == k.nNodes && SameSteps(m, k) && m.outStart == k.outStart && m.edgeDst == k.edgeDst
    requires s < m.nNodes && m.OutLo(s) <= e < m.OutHi(s)
    ensures m.EdgeTokens(e) == k.EdgeTokens(e)
  {
    hide Automaton.NodeValid, Automaton.Next;
    assert m.EdgeValid(e) && k.EdgeValid(e);
    forall t ensures t in m.EdgeTokens(e) <==> t in k.EdgeTokens(e) {
      TokensAre(m, s, e, t);
      TokensAre(k, s, e, t);
    }
    StrictUnique(m.EdgeTokens(e), k.EdgeTokens(e));
  }

  lemma {:induction false} SameEmits(m: Automaton, k: Automaton, e: nat)
    requires m.Valid() && k.Valid() && m.nNodes == k.nNodes && SameSteps(m, k) && m.outStart == k.outStart && m.edgeDst == k.edgeDst
    requires e <= |m.edgeDst|
    ensures m.emitStart[e] == k.emitStart[e] <= |m.emitTokens| && m.emitStart[e] <= |k.emitTokens|
    ensures m.emitTokens[..m.emitStart[e]] == k.emitTokens[..m.emitStart[e]]
  {
    hide Automaton.EdgeValid, Automaton.NodeValid, SameSteps;
    EmitsInside(m, e);
    EmitsInside(k, e);
    if e > 0 {
      SameEmits(m, k, e - 1);
      var s := Owner(m, m.nNodes, e - 1);
      SameTokens(m, k, s, e - 1);
      var lo, hi := m.emitStart[e - 1], m.emitStart[e];
      EmitsInside(m, e - 1);
      EmitsInside(k, e - 1);
      assert |m.EdgeTokens(e - 1)| == hi - lo && |k.EdgeTokens(e - 1)| == k.emitStart[e] - lo;
      assert m.emitTokens[..hi] == m.emitTokens[..lo] + m.EdgeTokens(e - 1);
      assert k.emitTokens[..hi] == k.emitTokens[..lo] + k.EdgeTokens(e - 1);
    }
  }

  lemma EmitsInside(m: Automaton, e: nat)
    requires m.Valid() && e <= |m.edgeDst|
    ensures m.emitStart[e] <= |m.emitTokens|
    ensures e < |m.edgeDst| ==> m.emitStart[e] < m.emitStart[e + 1] <= |m.emitTokens|
  {
    if e < |m.edgeDst| {
      assert m.emitStart[e] < m.emitStart[e + 1];
      assert m.emitStart[e] < m.emitStart[|m.edgeDst|];
    }
    if e + 1 < |m.edgeDst| { assert m.emitStart[e + 1] < m.emitStart[|m.edgeDst|]; }
  }

  /** Automata that step alike, with edges in order, have the same arrays. */
  lemma SameArrays(m: Automaton, k: Automaton)
    requires m.Valid() && k.Valid() && m.nNodes == k.nNodes && SameSteps(m, k) && EdgesAscend(m) && EdgesAscend(k)
    ensures m.outStart == k.outStart && m.edgeDst == k.edgeDst && m.emitStart == k.emitStart && m.emitTokens == k.emitTokens
  {
    hide Automaton.EdgeValid, Automaton.NodeValid, SameSteps, EdgesAscend;
    SameEdges(m, k);
    forall e | 0 <= e <= |m.edgeDst| ensures m.emitStart[e] == k.emitStart[e] { SameEmits(m, k, e); }
    SameEmits(m, k, |m.edgeDst|);
    assert m.emitTokens[..|m.emitTokens|] == m.emitTokens && k.emitTokens[..|k.emitTokens|] == k.emitTokens;
  }

  // ---- the numbering ----

  /** The blocks are the languages. */
  lemma BlocksAreLanguages(a: Automaton, m: Automaton, b: seq<nat>, s: nat, r: nat)
    requires Quotient(a, m, b) && Kept(a, s) && Kept(a, r) && s < a.nNodes && r < a.nNodes
    ensures b[s] == b[r] <==> forall x :: a.Accepts(s, x) == a.Accepts(r, x)
  {
    hide Automaton.Valid, Kept;
    assert SameLanguage(a, s, m, b[s]) && SameLanguage(a, r, m, b[r]);
    if b[s] != b[r] {
      assert NodeSeparated(m, b[s], b[r]);
      var x :| m.Accepts(b[s], x) != m.Accepts(b[r], x);
      assert a.Accepts(s, x) != a.Accepts(r, x);
    }
  }

  lemma FirstOrOld(a: Automaton, b: seq<nat>, x: nat)
    requires a.Valid() && ByFirstMember(a, b) && x < |b| && Kept(a, x)
    ensures OldOrNextBlock(a, b, x)
  {
    hide Automaton.Valid, Kept, OldOrNextBlock;
  }

  /** Every number below that of a kept state has an earlier member. */
  lemma {:induction false} EarlierMember(a: Automaton, b: seq<nat>, s: nat, x: nat) returns (q: nat)
    requires a.Valid() && |b| == a.nNodes && ByFirstMember(a, b) && s < |b| && x < |b| && Kept(a, s) && Kept(a, x) && b[x] < b[s]
    ensures q < s && Kept(a, q) && b[q] == b[x]
    decreases x
  {
    hide Automaton.Valid, Kept, ByFirstMember;
    FirstOrOld(a, b, x);
    if x < s {
      q := x;
    } else {
      var y :| 0 <= y < x && Kept(a, y) && b[y] == b[x];
      q := EarlierMember(a, b, s, y);
    }
  }

  lemma {:induction false} SameNumbers(a: Automaton, m: Automaton, b: seq<nat>, k: Automaton, c: seq<nat>, s: nat)
    requires Quotient(a, m, b) && ByFirstMember(a, b) && Quotient(a, k, c) && ByFirstMember(a, c) && s < a.nNodes && Kept(a, s)
    ensures b[s] == c[s]
    decreases s
  {
    hide Automaton.Valid, Kept, SameLanguage, NodesSeparated, ByFirstMember;
    FirstOrOld(a, b, s);
    FirstOrOld(a, c, s);
    if q: nat :| q < s && Kept(a, q) && b[q] == b[s] {
      SameNumbers(a, m, b, k, c, q);
      SameClass(a, m, b, k, c, q, s);
    } else if q: nat :| q < s && Kept(a, q) && c[q] == c[s] {
      SameClass(a, m, b, k, c, q, s);
      assert false;
    } else {
      if b[s] < c[s] { NotBelow(a, m, b, k, c, s); }
      if c[s] < b[s] { NotBelow(a, k, c, m, b, s); }
    }
  }

  lemma SameClass(a: Automaton, m: Automaton, b: seq<nat>, k: Automaton, c: seq<nat>, q: nat, s: nat)
    requires Quotient(a, m, b) && Quotient(a, k, c) && q < a.nNodes && s < a.nNodes && Kept(a, q) && Kept(a, s)
    ensures b[q] == b[s] <==> c[q] == c[s]
  {
    BlocksAreLanguages(a, m, b, q, s);
    BlocksAreLanguages(a, k, c, q, s);
  }

  /** The first state of a new block gets the same number in both. */
  lemma {:induction false} NotBelow(a: Automaton, m: Automaton, b: seq<nat>, k: Automaton, c: seq<nat>, s: nat)
    requires Quotient(a, m, b) && ByFirstMember(a, b) && Quotient(a, k, c) && ByFirstMember(a, c) && s < a.nNodes && Kept(a, s)
    requires forall q: nat :: q < s && Kept(a, q) ==> b[q] != b[s] && c[q] != c[s]
    ensures b[s] >= c[s]
    decreases s, 0
  {
    hide Automaton.Valid, Kept, SameLanguage, NodesSeparated;
    if b[s] < c[s] {
      InRange(a, k, c, s);
      assert HasMember(a, c, b[s]);
      var x: nat :| x < |c| && Kept(a, x) && c[x] == b[s];
      var q := EarlierMember(a, c, s, x);
      SameNumbers(a, m, b, k, c, q);
      assert false;
    }
  }

  lemma InRange(a: Automaton, m: Automaton, b: seq<nat>, s: nat)
    requires Quotient(a, m, b) && s < a.nNodes && Kept(a, s)
    ensures b[s] < m.nNodes
  {
    hide Automaton.Valid, Kept;
    assert SameLanguage(a, s, m, b[s]);
  }

  // ---- equal outcomes ----

  lemma FewerNodes(a: Automaton, m: Automaton, b: seq<nat>, k: Automaton, c: seq<nat>)
    requires Quotient(a, m, b) && ByFirstMember(a, b) && Quotient(a, k, c) && ByFirstMember(a, c)
    ensures m.nNodes <= k.nNodes
  {
    hide Automaton.Valid, Kept, SameLanguage, NodesSeparated;
    if m.nNodes > 0 {
      assert HasMember(a, b, m.nNodes - 1);
      var s: nat :| s < |b| && Kept(a, s) && b[s] == m.nNodes - 1;
      SameNumbers(a, m, b, k, c, s);
      InRange(a, k, c, s);
    }
  }

  /** A node of both has the language of one state of the input. */
  lemma NodeLanguage(a: Automaton, m: Automaton, b: seq<nat>, k: Automaton, c: seq<nat>, v: nat) returns (s: nat)
    requires Quotient(a, m, b) && ByFirstMember(a, b) && Quotient(a, k, c) && ByFirstMember(a, c) && v < m.nNodes
    ensures v < k.nNodes && s < a.nNodes && Kept(a, s) && b[s] == v == c[s]
    ensures forall x :: m.Accepts(v, x) == k.Accepts(v, x) == a.Accepts(s, x)
  {
    hide Automaton.Valid, Kept, NodesSeparated;
    assert HasMember(a, b, v);
    s :| s < |b| && Kept(a, s) && b[s] == v;
    SameNumbers(a, m, b, k, c, s);
    assert SameLanguage(a, s, m, v) && SameLanguage(a, s, k, v);
  }

  lemma StepsAlike(a: Automaton, m: Automaton, b: seq<nat>, k: Automaton, c: seq<nat>, v: nat, t: nat)
    requires Quotient(a, m, b) && ByFirstMember(a, b) && Quotient(a, k, c) && ByFirstMember(a, c) && v < m.nNodes
    requires m.Next(v, t).Some?
    ensures v < k.nNodes && k.Next(v, t) == m.Next(v, t)
  {
    hide Automaton.Valid, Automaton.Next, NodesSeparated, ByFirstMember, SameLanguage;
    var d := m.Next(v, t).value;
    var s := NodeLanguage(a, m, b, k, c, v);
    var r := NodeLanguage(a, m, b, k, c, d);
    var y :| a.Accepts(r, y);
    AcceptsCons(m, v, t, y);
    AcceptsCons(k, v, t, y);
    assert k.Accepts(v, [t] + y);
    var e := k.Next(v, t).value;
    forall x ensures k.Accepts(e, x) == k.Accepts(d, x) {
      AcceptsCons(m, v, t, x);
      AcceptsCons(k, v, t, x);
    }
    Separate(a, k, c, e, d);
  }

  lemma AcceptsCons(m: Automaton, v: nat, t: nat, x: seq<nat>)
    requires m.Valid() && v < m.nNodes
    ensures m.Accepts(v, [t] + x) <==> m.Next(v, t).Some? && m.Accepts(m.Next(v, t).value, x)
  {
    assert ([t] + x)[1..] == x;
  }

  lemma Separate(a: Automaton, k: Automaton, c: seq<nat>, e: nat, d: nat)
    requires Quotient(a, k, c) && e < k.nNodes && d < k.nNodes && forall x :: k.Accepts(e, x) == k.Accepts(d, x)
    ensures e == d
  {
    hide Automaton.Valid;
    assert e != d ==> NodeSeparated(k, e, d);
  }

  /** What the minimizer promises leaves one automaton: nodes, numbering, offsets, destinations and tokens. */
  lemma MinimizedUnique(a: Automaton, m: Automaton, b: seq<nat>, k: Automaton, c: seq<nat>)
    requires Quotient(a, m, b) && ByFirstMember(a, b) && EdgesAscend(m) && Quotient(a, k, c) && ByFirstMember(a, c) && EdgesAscend(k)
    requires CanAccept(a, a.start)
    ensures m == k
  {
    hide Automaton.EdgeValid, Automaton.NodeValid, Automaton.Next, NodesSeparated, SameLanguage, Quotient, ByFirstMember, EdgesAscend;
    QuotientParts(a, m, b);
    QuotientParts(a, k, c);
    FewerNodes(a, m, b, k, c);
    FewerNodes(a, k, c, m, b);
    StartReachable(a);
    SameNumbers(a, m, b, k, c, a.start);
    forall v: nat, t: nat | v < m.nNodes ensures m.Next(v, t) == k.Next(v, t) {
      if m.Next(v, t).Some? { StepsAlike(a, m, b, k, c, v, t); }
      if k.Next(v, t).Some? { StepsAlike(a, k, c, m, b, v, t); }
    }
    SameArrays(m, k);
    forall v | 0 <= v < m.nNodes ensures m.accept[v] == k.accept[v] {
      var s := NodeLanguage(a, m, b, k, c, v);
      assert m.Accepts(v, []) == k.Accepts(v, []);
    }
    assert m.accept == k.accept;
  }
}
