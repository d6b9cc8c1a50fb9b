/** The dense relabelling of the kept states, and the lists of kept edges it yields. */
module Relabelling {
  import opened Prelude
  import opened Automata
  import opened Distances
  import opened Dfas
  import opened Signatures
  import opened Refinement
  import opened Trimming

  /** `olds` lists the kept states; `relabel` is its inverse on them. */
  ghost predicate Dense(keep: seq<bool>, relabel: seq<nat>, olds: seq<nat>) {
    && |relabel| == |keep|
    && (forall p :: 0 <= p < |olds| ==> olds[p] < |keep| && keep[olds[p]] && relabel[olds[p]] == p)
    && (forall s :: 0 <= s < |keep| && keep[s] ==> relabel[s] < |olds| && olds[relabel[s]] == s)
  }

  /** The first loop: new numbers and acceptance flags of the kept states. */
  method Relabel(a: Automaton, keep: seq<bool>) returns (relabel: seq<nat>, accept: seq<bool>, ghost olds: seq<nat>)
    requires a.Valid() && |keep| == a.nNodes
    ensures Dense(keep, relabel, olds) && |accept| == |olds|
    ensures forall p :: 0 <= p < |olds| ==> accept[p] == a.accept[olds[p]]
    ensures StrictlySorted(olds)
    ensures |relabel| == |keep| && forall s :: 0 <= s < |keep| && keep[s] ==> relabel[s] < |accept| && accept[relabel[s]] == a.accept[s]
    ensures forall s, r :: 0 <= s < r < |keep| && keep[s] && keep[r] ==> relabel[s] < relabel[r]
  {
    hide StrictlySorted, Automaton.NodeValid, Automaton.EdgeValid;
    relabel, accept, olds := [], [], [];
    NoneSorted();
    for state := 0 to a.nNodes
      invariant |relabel| == state && |accept| == |olds|
      invariant forall p :: 0 <= p < |olds| ==> olds[p] < state && keep[olds[p]] && relabel[olds[p]] == p
      invariant StrictlySorted(olds)
      invariant forall s :: 0 <= s < state && keep[s] ==> relabel[s] < |olds| && olds[relabel[s]] == s
      invariant forall p :: 0 <= p < |olds| ==> accept[p] == a.accept[olds[p]]
    {
      if keep[state] {
        relabel := relabel + [|accept|];
        accept := accept + [a.accept[state]];
        LastSorted(olds, state);
        olds := olds + [state];
      } else {
        relabel := relabel + [UNREACHABLE];
      }
    }
    Ascends(keep, relabel, olds);
  }

  lemma NoneSorted()
    ensures StrictlySorted([])
  {
  }

  lemma LastSorted(olds: seq<nat>, x: nat)
    requires StrictlySorted(olds) && forall p :: 0 <= p < |olds| ==> olds[p] < x
    ensures StrictlySorted(olds + [x])
  {
  }

  lemma Ascends(keep: seq<bool>, relabel: seq<nat>, olds: seq<nat>)
    requires Dense(keep, relabel, olds) && StrictlySorted(olds)
    ensures forall s, r :: 0 <= s < r < |keep| && keep[s] && keep[r] ==> relabel[s] < relabel[r]
  {
    forall s, r | 0 <= s < r < |keep| && keep[s] && keep[r] ensures relabel[s] < relabel[r] {
      assert olds[relabel[s]] == s && olds[relabel[r]] == r;
    }
  }

  /** The arc that stands for one edge. */
  function ArcOf(a: Automaton, relabel: seq<nat>, e: nat): Arc
    requires a.Valid() && |relabel| == a.nNodes && e < a.NEdges()
  {
    assert a.EdgeValid(e);
    Arc(relabel[a.edgeDst[e]], a.EdgeTokens(e))
  }

  function KeepsEdge(a: Automaton, keep: seq<bool>, e: nat): bool
    requires a.Valid() && |keep| == a.nNodes && e < a.NEdges()
  {
    assert a.EdgeValid(e);
    keep[a.edgeDst[e]]
  }

  /** The kept edges among `lo .. hi`, in order. */
  ghost function TrimArcs(a: Automaton, keep: seq<bool>, relabel: seq<nat>, lo: nat, hi: nat): seq<Arc>
    requires a.Valid() && |keep| == a.nNodes == |relabel| && lo <= hi <= a.NEdges()
    decreases hi - lo
  {
    if lo == hi then []
    else (if KeepsEdge(a, keep, lo) then [ArcOf(a, relabel, lo)] else []) + TrimArcs(a, keep, relabel, lo + 1, hi)
  }

  /** The kept edges of one kept state. */
  ghost function ArcsAt(a: Automaton, keep: seq<bool>, relabel: seq<nat>, s: nat): seq<Arc>
    requires a.Valid() && |keep| == a.nNodes == |relabel| && s < a.nNodes
  {
    TrimArcs(a, keep, relabel, a.OutLo(s), a.OutHi(s))
  }

  lemma {:induction false} TrimArcsMember(a: Automaton, keep: seq<bool>, relabel: seq<nat>, lo: nat, hi: nat, arc: Arc)
    requires a.Valid() && |keep| == a.nNodes == |relabel| && lo <= hi <= a.NEdges()
    ensures arc in TrimArcs(a, keep, relabel, lo, hi) <==>
            exists e :: lo <= e < hi && KeepsEdge(a, keep, e) && ArcOf(a, relabel, e) == arc
    decreases hi - lo
  {
    hide KeepsEdge, ArcOf;
    if lo < hi {
      TrimArcsMember(a, keep, relabel, lo + 1, hi, arc);
    }
  }

  /** Kept edges of one node share no token. */
  lemma {:induction false} TrimArcsApart(a: Automaton, keep: seq<bool>, relabel: seq<nat>, s: nat, lo: nat)
    requires a.Valid() && |keep| == a.nNodes == |relabel| && s < a.nNodes && a.OutLo(s) <= lo <= a.OutHi(s)
    ensures ArcsApart(TrimArcs(a, keep, relabel, lo, a.OutHi(s)))
    decreases a.OutHi(s) - lo
  {
    var hi := a.OutHi(s);
    if lo < hi {
      hide KeepsEdge, Automaton.Valid;
      TrimArcsApart(a, keep, relabel, s, lo + 1);
      var rest := TrimArcs(a, keep, relabel, lo + 1, hi);
      forall j, t | 0 <= j < |rest| && t in a.EdgeTokens(lo) ensures t !in rest[j].tokens {
        TrimArcsMember(a, keep, relabel, lo + 1, hi, rest[j]);
        var e :| lo + 1 <= e < hi && KeepsEdge(a, keep, e) && ArcOf(a, relabel, e) == rest[j];
        EdgesApart(a, s, lo, e);
      }
    }
  }

  lemma EdgesApart(a: Automaton, s: nat, e: nat, f: nat)
    requires a.Valid() && s < a.nNodes && a.OutLo(s) <= e < f < a.OutHi(s)
    ensures a.Apart(e, f)
  {
    assert a.NodeValid(s);
  }

  /** The second loop: the kept edges of the kept states, relabelled. */
  method TrimmedEdges(a: Automaton, keep: seq<bool>, relabel: seq<nat>, nn: nat, ghost olds: seq<nat>)
    returns (out: seq<seq<Arc>>)
    requires a.Valid() && |keep| == a.nNodes && Dense(keep, relabel, olds) && nn == |olds|
    ensures |out| == nn && forall p :: 0 <= p < nn ==> olds[p] < a.nNodes && out[p] == ArcsAt(a, keep, relabel, olds[p])
  {
    hide KeepsEdge, ArcOf, TrimArcs, Automaton.Valid;
    out := seq(nn, _ => []);
    for src := 0 to a.nNodes
      invariant |out| == nn
      invariant forall p :: 0 <= p < nn ==> out[p] == if olds[p] < src then ArcsAt(a, keep, relabel, olds[p]) else []
    {
      if keep[src] {
        out := TrimNode(a, keep, relabel, src, out);
      }
    }
  }

  method TrimNode(a: Automaton, keep: seq<bool>, relabel: seq<nat>, src: nat, out0: seq<seq<Arc>>)
    returns (out: seq<seq<Arc>>)
    requires a.Valid() && |keep| == a.nNodes == |relabel| && src < a.nNodes
    requires relabel[src] < |out0| && out0[relabel[src]] == []
    ensures out == out0[relabel[src] := ArcsAt(a, keep, relabel, src)]
  {
    hide KeepsEdge, ArcOf, Automaton.NodeValid, Automaton.EdgeValid;
    var r, hi := relabel[src], a.OutHi(src);
    out := out0;
    var e := a.OutLo(src);
    assert out[r] + ArcsAt(a, keep, relabel, src) == ArcsAt(a, keep, relabel, src);
    while e < hi
      invariant a.OutLo(src) <= e <= hi && |out| == |out0| && out == out0[r := out[r]]
      invariant out[r] + TrimArcs(a, keep, relabel, e, hi) == ArcsAt(a, keep, relabel, src)
    {
      ghost var rest := TrimArcs(a, keep, relabel, e + 1, hi);
      if KeepsEdge(a, keep, e) {
        assert (out[r] + [ArcOf(a, relabel, e)]) + rest == out[r] + ([ArcOf(a, relabel, e)] + rest);
        out := out[r := out[r] + [ArcOf(a, relabel, e)]];
      } else {
        assert [] + rest == rest;
      }
      e := e + 1;
    }
    assert out[r] + [] == out[r];
  }

  // ---- the lists against the automaton ----

  /** `d` is the automaton restricted to the kept states under the numbering `olds`. */
  ghost predicate Mirrors(a: Automaton, d: Dfa, olds: seq<nat>)
    requires a.Valid()
  {
    && |d.accept| == |olds|
    && (forall p :: 0 <= p < |olds| ==> Kept(a, olds[p]) && olds[p] < a.nNodes && d.accept[p] == a.accept[olds[p]])
    && (forall s: nat :: Kept(a, s) ==> exists p :: 0 <= p < |olds| && olds[p] == s)
    && (forall p: nat, t: nat :: p < |olds| ==> MirrorsStep(a, d, olds, p, t))
  }

  ghost predicate MirrorsStep(a: Automaton, d: Dfa, olds: seq<nat>, p: nat, t: nat)
    requires a.Valid() && p < |olds|
  {
    olds[p] < a.nNodes &&
    match d.next(p, t)
    case Some(q) => q < |olds| && a.Next(olds[p], t) == Some(olds[q])
    case None => a.Next(olds[p], t).Some? ==> !CanAccept(a, a.Next(olds[p], t).value)
  }

  lemma KeptOnward(a: Automaton, s: nat, t: nat, d: nat)
    requires a.Valid() && Kept(a, s) && a.Next(s, t) == Some(d) && CanAccept(a, d)
    ensures Kept(a, d)
  {
    StepIsLink(a, s, t, d);
    ReachableStep(a, s, d);
  }

  lemma ArcsOfKept(a: Automaton, keep: seq<bool>, relabel: seq<nat>, olds: seq<nat>, s: nat)
    requires a.Valid() && |keep| == a.nNodes && Dense(keep, relabel, olds) && s < a.nNodes
    ensures ArcsOk(ArcsAt(a, keep, relabel, s), |olds|) && ArcsApart(ArcsAt(a, keep, relabel, s))
  {
    hide TrimArcs;
    var arcs := ArcsAt(a, keep, relabel, s);
    TrimArcsApart(a, keep, relabel, s, a.OutLo(s));
    forall k | 0 <= k < |arcs| ensures arcs[k].dst < |olds| && arcs[k].tokens != [] {
      TrimArcsMember(a, keep, relabel, a.OutLo(s), a.OutHi(s), arcs[k]);
      var e :| a.OutLo(s) <= e < a.OutHi(s) && KeepsEdge(a, keep, e) && ArcOf(a, relabel, e) == arcs[k];
      assert a.EdgeValid(e);
    }
  }

  /** One step of the lists is one step of the automaton into a kept state. */
  lemma ArcsStep(a: Automaton, keep: seq<bool>, relabel: seq<nat>, olds: seq<nat>, s: nat, t: nat, q: nat)
    requires a.Valid() && |keep| == a.nNodes && Dense(keep, relabel, olds) && s < a.nNodes
    ensures ArcFor(ArcsAt(a, keep, relabel, s), t) == Some(q) <==>
            exists d :: 0 <= d < a.nNodes && keep[d] && relabel[d] == q && a.Next(s, t) == Some(d)
  {
    hide TrimArcs, Automaton.NodeValid, Automaton.Next;
    var arcs := ArcsAt(a, keep, relabel, s);
    ArcsOfKept(a, keep, relabel, olds, s);
    ArcForExact(arcs, t, q);
    if ArcFor(arcs, t) == Some(q) {
      var k :| 0 <= k < |arcs| && t in arcs[k].tokens && arcs[k].dst == q;
      TrimArcsMember(a, keep, relabel, a.OutLo(s), a.OutHi(s), arcs[k]);
      var e :| a.OutLo(s) <= e < a.OutHi(s) && KeepsEdge(a, keep, e) && ArcOf(a, relabel, e) == arcs[k];
      a.NextCharacterized(s, t, a.edgeDst[e]);
    }
    if d :| 0 <= d < a.nNodes && keep[d] && relabel[d] == q && a.Next(s, t) == Some(d) {
      a.NextCharacterized(s, t, d);
      var e :| a.OutLo(s) <= e < a.OutHi(s) && t in a.EdgeTokens(e) && a.edgeDst[e] == d;
      TrimArcsMember(a, keep, relabel, a.OutLo(s), a.OutHi(s), ArcOf(a, relabel, e));
      var k :| 0 <= k < |arcs| && arcs[k] == ArcOf(a, relabel, e);
    }
  }

  /** The lists mirror the automaton. */
  lemma ListsMirror(a: Automaton, keep: seq<bool>, relabel: seq<nat>, olds: seq<nat>, accept: seq<bool>, out: seq<seq<Arc>>)
    requires a.Valid() && |keep| == a.nNodes && Dense(keep, relabel, olds) && |accept| == |olds| == |out|
    requires forall s :: 0 <= s < a.nNodes ==> (keep[s] <==> Kept(a, s))
    requires forall p :: 0 <= p < |olds| ==> accept[p] == a.accept[olds[p]]
    requires forall p :: 0 <= p < |olds| ==> out[p] == ArcsAt(a, keep, relabel, olds[p])
    ensures Lists(accept, out) && DfaOf(accept, out).Valid() && Mirrors(a, DfaOf(accept, out), olds)
  {
    hide ArcsAt, Automaton.Valid, Automaton.Next, Reachable, CanAccept, ArcsOk, ArcsApart, ArcFor;
    forall p | 0 <= p < |out| ensures ArcsOk(out[p], |out|) && ArcsApart(out[p]) {
      ArcsOfKept(a, keep, relabel, olds, olds[p]);
    }
    DfaOfValid(accept, out);
    var d := DfaOf(accept, out);
    forall s: nat | Kept(a, s) ensures exists p :: 0 <= p < |olds| && olds[p] == s {
      KeptInRange(a, s);
      assert olds[relabel[s]] == s;
    }
    forall p: nat, t: nat | p < |olds| ensures MirrorsStep(a, d, olds, p, t) {
      assert d.next(p, t) == ArcFor(out[p], t);
      if d.next(p, t).Some? {
        ArcsStep(a, keep, relabel, olds, olds[p], t, d.next(p, t).value);
      } else if a.Next(olds[p], t).Some? && CanAccept(a, a.Next(olds[p], t).value) {
        var e := a.Next(olds[p], t).value;
        KeptOnward(a, olds[p], t, e);
        KeptInRange(a, e);
        ArcsStep(a, keep, relabel, olds, olds[p], t, relabel[e]);
      }
    }
  }

  lemma KeptInRange(a: Automaton, s: nat)
    requires a.Valid() && Kept(a, s)
    ensures s < a.nNodes && CanAccept(a, s)
  {
  }

  /** Trimming keeps the language of every kept state. */
  lemma {:induction false} MirrorLanguage(a: Automaton, d: Dfa, olds: seq<nat>, p: nat, x: seq<nat>)
    requires a.Valid() && d.Valid() && Mirrors(a, d, olds) && p < |olds|
    ensures olds[p] < a.nNodes && (d.Accepts(p, x) <==> a.Accepts(olds[p], x))
    decreases |x|
  {
    hide Automaton.Valid, Automaton.Next, Kept;
    assert MirrorsStep(a, d, olds, p, if x == [] then 0 else x[0]);
    if x != [] {
      if d.next(p, x[0]).Some? {
        MirrorLanguage(a, d, olds, d.next(p, x[0]).value, x[1..]);
      } else if a.Next(olds[p], x[0]).Some? {
        assert a.Accepts(olds[p], x) == a.Accepts(a.Next(olds[p], x[0]).value, x[1..]);
      }
    }
  }

  /** Every state of the mirror is live, and one of them accepts. */
  lemma MirrorLive(a: Automaton, d: Dfa, olds: seq<nat>)
    requires a.Valid() && d.Valid() && Mirrors(a, d, olds) && Kept(a, a.start)
    ensures d.AllLive() && exists p :: 0 <= p < |d.accept| && d.accept[p]
  {
    hide Automaton.Valid, Reachable, MirrorsStep;
    forall p | 0 <= p < |d.accept| ensures d.Live(p) {
      KeptInRange(a, olds[p]);
      var x :| a.Accepts(olds[p], x);
      MirrorLanguage(a, d, olds, p, x);
    }
    var p :| 0 <= p < |olds| && olds[p] == a.start;
    assert d.Live(p);
    var x :| d.Accepts(p, x);
    RunEnds(d, p, x);
  }

  lemma {:induction false} RunEnds(d: Dfa, p: nat, x: seq<nat>)
    requires d.Valid() && p < |d.accept| && d.Accepts(p, x)
    ensures exists q :: 0 <= q < |d.accept| && d.accept[q]
    decreases |x|
  {
    if x != [] {
      RunEnds(d, d.next(p, x[0]).value, x[1..]);
    }
  }

  // ---- the early-stop family, stated on the automaton itself ----

  /** The token can start an accepted continuation of `s`. */
  ghost predicate Useful(a: Automaton, s: nat, t: nat)
    requires a.Valid()
  {
    s < a.nNodes && a.Next(s, t).Some? && CanAccept(a, a.Next(s, t).value)
  }

  ghost predicate SameUseful(a: Automaton, s: nat, r: nat)
    requires a.Valid()
  {
    forall t: nat :: Useful(a, s, t) == Useful(a, r, t)
  }

  ghost predicate OneOfTwoSets(a: Automaton, s: nat, r: nat)
    requires a.Valid()
  {
    forall q: nat :: Kept(a, q) ==> SameUseful(a, q, s) || SameUseful(a, q, r)
  }

  /** A token leads two kept states with equal useful tokens to states with different ones. */
  ghost predicate Forks(a: Automaton, s: nat, r: nat, t: nat)
    requires a.Valid()
  {
    && Kept(a, s) && Kept(a, r) && SameUseful(a, s, r) && Useful(a, s, t) && Useful(a, r, t)
    && !SameUseful(a, a.Next(s, t).value, a.Next(r, t).value)
  }

  /** The inputs the minimizer refuses although they accept something: all kept states accept, they have exactly two
      sets of useful tokens, and some token forks. */
  ghost predicate EarlyStop(a: Automaton)
    requires a.Valid()
  {
    && (forall s: nat :: Kept(a, s) ==> s < a.nNodes && a.accept[s])
    && (exists s: nat, r: nat :: Kept(a, s) && Kept(a, r) && !SameUseful(a, s, r) && OneOfTwoSets(a, s, r))
    && (exists s: nat, r: nat, t: nat :: Forks(a, s, r, t))
  }

  lemma MirrorUseful(a: Automaton, d: Dfa, olds: seq<nat>, p: nat, t: nat)
    requires a.Valid() && d.Valid() && Mirrors(a, d, olds) && p < |olds|
    ensures Useful(a, olds[p], t) <==> d.next(p, t).Some?
    ensures d.next(p, t).Some? ==> a.Next(olds[p], t) == Some(olds[d.next(p, t).value])
  {
    hide Automaton.Valid, Automaton.Next, Reachable, CanAccept;
    assert MirrorsStep(a, d, olds, p, t);
    if d.next(p, t).Some? {
      KeptInRange(a, olds[d.next(p, t).value]);
    }
  }

  lemma MirrorSame(a: Automaton, d: Dfa, olds: seq<nat>, p: nat, q: nat)
    requires a.Valid() && d.Valid() && Mirrors(a, d, olds) && p < |olds| && q < |olds|
    ensures SameUseful(a, olds[p], olds[q]) <==> d.SameTokens(p, q)
  {
    hide Automaton.Valid, Mirrors, Useful;
    forall t: nat
      ensures Useful(a, olds[p], t) <==> d.next(p, t).Some?
      ensures Useful(a, olds[q], t) <==> d.next(q, t).Some?
    {
      MirrorUseful(a, d, olds, p, t);
      MirrorUseful(a, d, olds, q, t);
    }
  }

  lemma OldOf(a: Automaton, d: Dfa, olds: seq<nat>, s: nat) returns (p: nat)
    requires a.Valid() && d.Valid() && Mirrors(a, d, olds) && Kept(a, s)
    ensures p < |olds| && olds[p] == s
  {
    p :| p < |olds| && olds[p] == s;
  }

  lemma MirrorShape(a: Automaton, d: Dfa, olds: seq<nat>)
    requires a.Valid() && Mirrors(a, d, olds)
    ensures |d.accept| == |olds|
    ensures forall p :: 0 <= p < |olds| ==> Kept(a, olds[p]) && olds[p] < a.nNodes && d.accept[p] == a.accept[olds[p]]
  {
  }

  lemma MirrorTwoSets(a: Automaton, d: Dfa, olds: seq<nat>, p: nat, q: nat)
    requires a.Valid() && d.Valid() && Mirrors(a, d, olds) && p < |olds| && q < |olds|
    ensures OneOfTwoSets(a, olds[p], olds[q]) <==> d.EitherTokens(p, q)
  {
    hide Automaton.Valid, Mirrors, Kept, SameUseful, Dfa.SameTokens;
    MirrorShape(a, d, olds);
    if OneOfTwoSets(a, olds[p], olds[q]) {
      forall r: nat | r < |d.accept| ensures d.SameTokens(r, p) || d.SameTokens(r, q) {
        assert Kept(a, olds[r]);
        MirrorSame(a, d, olds, r, p);
        MirrorSame(a, d, olds, r, q);
      }
    }
    if d.EitherTokens(p, q) {
      forall s: nat | Kept(a, s) ensures SameUseful(a, s, olds[p]) || SameUseful(a, s, olds[q]) {
        var r := OldOf(a, d, olds, s);
        MirrorSame(a, d, olds, r, p);
        MirrorSame(a, d, olds, r, q);
      }
    }
  }

  lemma MirrorForks(a: Automaton, d: Dfa, olds: seq<nat>, p: nat, q: nat, t: nat)
    requires a.Valid() && d.Valid() && Mirrors(a, d, olds) && p < |olds| && q < |olds|
    ensures Forks(a, olds[p], olds[q], t) <==> d.Diverges(p, q, t)
  {
    hide Automaton.Valid, Mirrors, Kept, SameUseful, Dfa.SameTokens, Useful, Automaton.Next;
    MirrorShape(a, d, olds);
    MirrorSame(a, d, olds, p, q);
    MirrorUseful(a, d, olds, p, t);
    MirrorUseful(a, d, olds, q, t);
    if d.next(p, t).Some? && d.next(q, t).Some? {
      MirrorSame(a, d, olds, d.next(p, t).value, d.next(q, t).value);
    }
  }

  /** The family is the same seen from the lists and from the automaton. */
  lemma MirrorEarly(a: Automaton, d: Dfa, olds: seq<nat>)
    requires a.Valid() && d.Valid() && Mirrors(a, d, olds)
    ensures EarlyStop(a) <==> d.StopsEarly()
  {
    hide Automaton.Valid, Mirrors, Kept, SameUseful, Dfa.SameTokens, OneOfTwoSets, Dfa.EitherTokens, Forks, Dfa.Diverges;
    MirrorShape(a, d, olds);
    if EarlyStop(a) {
      MirrorEarlyLists(a, d, olds);
    }
    if d.StopsEarly() {
      MirrorEarlyBack(a, d, olds);
    }
  }

  lemma MirrorEarlyLists(a: Automaton, d: Dfa, olds: seq<nat>)
    requires a.Valid() && d.Valid() && Mirrors(a, d, olds) && EarlyStop(a)
    ensures d.StopsEarly()
  {
    hide Automaton.Valid, Mirrors, Kept, SameUseful, Dfa.SameTokens, OneOfTwoSets, Dfa.EitherTokens, Forks, Dfa.Diverges;
    MirrorShape(a, d, olds);
    var s: nat, r: nat :| Kept(a, s) && Kept(a, r) && !SameUseful(a, s, r) && OneOfTwoSets(a, s, r);
    var p := OldOf(a, d, olds, s);
    var q := OldOf(a, d, olds, r);
    MirrorSame(a, d, olds, p, q);
    MirrorTwoSets(a, d, olds, p, q);
    assert d.TwoTokenSets();
    var s2: nat, r2: nat, t: nat :| Forks(a, s2, r2, t);
    ForksKept(a, s2, r2, t);
    var p2 := OldOf(a, d, olds, s2);
    var q2 := OldOf(a, d, olds, r2);
    MirrorForks(a, d, olds, p2, q2, t);
  }

  lemma MirrorEarlyBack(a: Automaton, d: Dfa, olds: seq<nat>)
    requires a.Valid() && d.Valid() && Mirrors(a, d, olds) && d.StopsEarly()
    ensures EarlyStop(a)
  {
    hide Automaton.NodeValid, Automaton.EdgeValid, Mirrors, Kept, SameUseful, Dfa.SameTokens, OneOfTwoSets, Dfa.EitherTokens, Forks, Dfa.Diverges;
    MirrorShape(a, d, olds);
    forall s: nat | Kept(a, s) ensures s < a.nNodes && a.accept[s] {
      var p := OldOf(a, d, olds, s);
    }
    var p: nat, q: nat :| p < |d.accept| && q < |d.accept| && !d.SameTokens(p, q) && d.EitherTokens(p, q);
    MirrorSame(a, d, olds, p, q);
    MirrorTwoSets(a, d, olds, p, q);
    assert Kept(a, olds[p]) && Kept(a, olds[q]);
    var p2: nat, q2: nat, t: nat :| d.Diverges(p2, q2, t);
    DivergesInRange(d, p2, q2, t);
    MirrorForks(a, d, olds, p2, q2, t);
  }

  lemma ForksKept(a: Automaton, s: nat, r: nat, t: nat)
    requires a.Valid() && Forks(a, s, r, t)
    ensures Kept(a, s) && Kept(a, r)
  {
  }

  lemma DivergesInRange(d: Dfa, p: nat, q: nat, t: nat)
    requires d.Valid() && d.Diverges(p, q, t)
    ensures p < |d.accept| && q < |d.accept|
  {
  }
}
