/** The reverse breadth-first search: shortest accepted continuation of every node. */
module Distances {
  import opened Prelude
  import opened Automata

  /** Some edge leads from `s` to `d`. */
  ghost predicate Linked(a: Automaton, s: nat, d: nat)
    requires a.Valid()
  {
    s < a.nNodes && exists e :: a.OutLo(s) <= e < a.OutHi(s) && a.edgeDst[e] == d
  }

  /** A link can be taken by at least one token, and every step follows a link. */
  lemma LinkedByToken(a: Automaton, s: nat, d: nat) returns (t: nat)
    requires a.Valid() && Linked(a, s, d)
    ensures a.Next(s, t) == Some(d)
  {
    var e :| a.OutLo(s) <= e < a.OutHi(s) && a.edgeDst[e] == d;
    t := a.EdgeTokens(e)[0];
    a.EdgeForUnique(s, t, e);
  }

  lemma StepIsLink(a: Automaton, s: nat, t: nat, d: nat)
    requires a.Valid() && s < a.nNodes && a.Next(s, t) == Some(d)
    ensures Linked(a, s, d)
  {
    a.NextCharacterized(s, t, d);
  }

  /** `rev[d]` lists exactly the nodes with an edge to `d`. */
  ghost predicate ReverseOf(a: Automaton, rev: seq<seq<nat>>)
    requires a.Valid()
  {
    && |rev| == a.nNodes
    && forall d :: 0 <= d < a.nNodes ==> forall s: nat :: s in rev[d] <==> Linked(a, s, d)
  }

  method ReverseEdges(a: Automaton) returns (rev: seq<seq<nat>>)
    requires a.Valid()
    ensures ReverseOf(a, rev)
  {
    hide Linked, Automaton.NodeValid;
    rev := seq(a.nNodes, _ => []);
    ghost var owner: seq<nat> := [];
    for e := 0 to a.NEdges()
      invariant |rev| == a.nNodes && |owner| == e
      invariant forall k :: 0 <= k < e ==> owner[k] < a.nNodes && a.OutLo(owner[k]) <= k < a.OutHi(owner[k])
      invariant forall k :: 0 <= k < e ==> a.edgeDst[k] < a.nNodes && owner[k] in rev[a.edgeDst[k]]
      invariant forall d, s :: 0 <= d < a.nNodes && s in rev[d] ==> Linked(a, s, d)
    {
      assert a.EdgeValid(e);
      var s := a.SourceOf(e);
      var d := a.edgeDst[e];
      EdgeLinks(a, s, e);
      owner := owner + [s];
      rev := rev[d := rev[d] + [s]];
    }
    forall d, s: nat | 0 <= d < a.nNodes && Linked(a, s, d) ensures s in rev[d] {
      var e := LinkingEdge(a, s, d);
      OneOwner(a, e, s, owner[e]);
    }
  }

  lemma EdgeLinks(a: Automaton, s: nat, e: nat)
    requires a.Valid() && s < a.nNodes && a.OutLo(s) <= e < a.OutHi(s)
    ensures Linked(a, s, a.edgeDst[e])
  {
  }

  lemma LinkingEdge(a: Automaton, s: nat, d: nat) returns (e: nat)
    requires a.Valid() && Linked(a, s, d)
    ensures s < a.nNodes && a.OutLo(s) <= e < a.OutHi(s) && a.edgeDst[e] == d
  {
    e :| a.OutLo(s) <= e < a.OutHi(s) && a.edgeDst[e] == d;
  }

  /** Out-ranges do not overlap, even when some are empty. */
  lemma OutOrder(a: Automaton, s: nat, r: nat)
    requires a.Shape() && s < r < a.nNodes
    ensures a.OutHi(s) <= a.OutLo(r)
  {
    if s + 1 < r {
      assert a.outStart[s + 1] <= a.outStart[r];
    }
  }

  /** The node below `n` whose range holds edge `k`. */
  function Owner(a: Automaton, n: nat, k: nat): (s: nat)
    requires a.Valid() && n <= a.nNodes && k < a.outStart[n]
    ensures s < n && a.OutLo(s) <= k < a.OutHi(s)
  {
    if a.outStart[n - 1] <= k then n - 1 else Owner(a, n - 1, k)
  }

  lemma OneOwner(a: Automaton, e: nat, s: nat, r: nat)
    requires a.Shape() && s < a.nNodes && r < a.nNodes
    requires a.OutLo(s) <= e < a.OutHi(s) && a.OutLo(r) <= e < a.OutHi(r)
    ensures s == r
  {
    if s < r {
      OutOrder(a, s, r);
    } else if r < s {
      OutOrder(a, r, s);
    }
  }

  /** `k` is the least length of a token sequence accepted from `s`. */
  ghost predicate Shortest(a: Automaton, s: nat, k: nat)
    requires a.Valid() && s < a.nNodes
  {
    && AcceptsLength(a, s, k)
    && (forall x :: a.Accepts(s, x) ==> k <= |x|)
  }

  /** The discovery order of the search, with distances that never decrease along it. */
  ghost predicate Ordered(dist: seq<nat>, order: seq<nat>) {
    && Distinct(order)
    && (forall i :: 0 <= i < |order| ==> order[i] < |dist| && dist[order[i]] <= i)
    && (forall i, j :: 0 <= i < j < |order| ==> dist[order[i]] <= dist[order[j]])
    && (forall s :: 0 <= s < |dist| && s !in order ==> dist[s] == UNREACHABLE)
  }

  lemma OrderedPush(dist: seq<nat>, order: seq<nat>, s: nat, v: nat)
    requires Ordered(dist, order) && s < |dist| && s !in order && v <= |order|
    requires forall i :: 0 <= i < |order| ==> dist[order[i]] <= v
    ensures Ordered(dist[s := v], order + [s])
  {
    var next, longer := dist[s := v], order + [s];
    forall i | 0 <= i < |longer| ensures longer[i] < |next| && next[longer[i]] <= i && next[longer[i]] <= v {
      if i < |order| { assert order[i] in order; }
    }
    forall i, j | 0 <= i < j < |longer| ensures longer[i] != longer[j] && next[longer[i]] <= next[longer[j]] {
      assert order[i] in order;
      if j < |order| { assert order[j] in order; }
    }
  }

  /** The sentinel marks exactly the undiscovered nodes: a real distance is below the node count. */
  lemma Sentinel(dist: seq<nat>, order: seq<nat>, s: nat)
    requires Ordered(dist, order) && |dist| <= UNREACHABLE && s < |dist|
    ensures dist[s] == UNREACHABLE <==> s !in order
    ensures s in order ==> dist[s] < |dist|
  {
    Pigeonhole(order, |dist|);
    if s in order {
      var i :| 0 <= i < |order| && order[i] == s;
    }
  }

  /** Some accepted sequence from `s` has length `k`. */
  ghost predicate AcceptsLength(a: Automaton, s: nat, k: nat)
    requires a.Valid() && s < a.nNodes
  {
    exists x :: |x| == k && a.Accepts(s, x)
  }

  /** Every distance so far is witnessed by an accepted sequence of that length. */
  ghost predicate Witnessed(a: Automaton, dist: seq<nat>, order: seq<nat>)
    requires a.Valid() && |dist| == a.nNodes
  {
    forall s: nat :: s in order ==> s < a.nNodes && AcceptsLength(a, s, dist[s])
  }

  /** The first `head` discovered nodes have handed their distance on to all their predecessors. */
  ghost predicate Relaxed(a: Automaton, dist: seq<nat>, order: seq<nat>, head: nat)
    requires a.Valid() && |dist| == a.nNodes && head <= |order|
  {
    forall i, s :: 0 <= i < head && Linked(a, s, order[i]) ==> RelaxedAt(dist, order, s, order[i])
  }

  ghost predicate RelaxedAt(dist: seq<nat>, order: seq<nat>, s: nat, d: nat) {
    s in order && s < |dist| && d < |dist| && dist[s] <= dist[d] + 1
  }

  lemma {:induction false} NeverShorter(a: Automaton, dist: seq<nat>, order: seq<nat>, s: nat, x: seq<nat>)
    requires a.Valid() && |dist| == a.nNodes && Ordered(dist, order) && Relaxed(a, dist, order, |order|)
    requires forall q: nat :: q < a.nNodes && a.accept[q] ==> q in order && dist[q] == 0
    requires s < a.nNodes && a.Accepts(s, x)
    ensures s in order && dist[s] <= |x|
    decreases |x|
  {
    if x != [] {
      var d := a.Next(s, x[0]).value;
      StepIsLink(a, s, x[0], d);
      NeverShorter(a, dist, order, d, x[1..]);
      var i :| 0 <= i < |order| && order[i] == d;
      assert RelaxedAt(dist, order, s, order[i]);
    }
  }

  lemma LinkExtends(a: Automaton, s: nat, d: nat, k: nat)
    requires a.Valid() && d < a.nNodes && Linked(a, s, d) && AcceptsLength(a, d, k)
    ensures AcceptsLength(a, s, k + 1)
  {
    var t := LinkedByToken(a, s, d);
    var x :| |x| == k && a.Accepts(d, x);
    assert ([t] + x)[1..] == x;
    assert a.Accepts(s, [t] + x);
  }

  /** Accepting nodes start the search at distance zero. */
  method Seeds(a: Automaton) returns (dist: seq<nat>, queue: seq<nat>)
    requires a.Valid()
    ensures |dist| == a.nNodes && Ordered(dist, queue) && Witnessed(a, dist, queue) && Relaxed(a, dist, queue, 0)
    ensures forall q: nat :: q in queue <==> q < a.nNodes && a.accept[q]
    ensures forall q: nat :: q in queue ==> dist[q] == 0
  {
    hide Automaton.Valid;
    AcceptFlags(a);
    dist, queue := seq(a.nNodes, _ => UNREACHABLE), [];
    for s := 0 to a.nNodes
      invariant |dist| == a.nNodes && Ordered(dist, queue) && Witnessed(a, dist, queue)
      invariant forall q: nat :: q in queue <==> q < s && a.accept[q]
      invariant forall q: nat :: q in queue ==> dist[q] == 0
    {
      if a.accept[s] {
        assert a.Accepts(s, []);
        assert AcceptsLength(a, s, 0);
        OrderedPush(dist, queue, s, 0);
        dist := dist[s := 0];
        queue := queue + [s];
      }
    }
  }

  lemma AcceptFlags(a: Automaton)
    requires a.Valid()
    ensures |a.accept| == a.nNodes
  {
  }

  lemma GrowingStart(a: Automaton, dist: seq<nat>, order: seq<nat>, head: nat)
    requires a.Valid() && a.nNodes <= UNREACHABLE && |dist| == a.nNodes && Ordered(dist, order) && Witnessed(a, dist, order)
    requires head < |order| && forall i :: 0 <= i < |order| ==> dist[order[i]] <= dist[order[head]] + 1
    ensures |order| <= a.nNodes && order[head] < a.nNodes && dist[order[head]] < a.nNodes
    ensures Growing(a, order[head], dist, order, dist, order)
  {
    Pigeonhole(order, a.nNodes);
    assert order[head] in order;
    Sentinel(dist, order, order[head]);
  }

  lemma GrowingParts(a: Automaton, d: nat, dist0: seq<nat>, order0: seq<nat>, dist: seq<nat>, order: seq<nat>)
    requires a.Valid() && d < a.nNodes && Growing(a, d, dist0, order0, dist, order)
    ensures |dist| == a.nNodes && Ordered(dist, order) && Witnessed(a, dist, order)
    ensures forall q: nat :: q in order0 ==> q in order && dist[q] == dist0[q]
  {
  }

  /** `steps_to_accept`: for every node the length of its shortest accepted continuation, or the sentinel.
      Node ids are stored in 32 bits, so a node count above the sentinel cannot occur. */
  method StepsToAccept(a: Automaton) returns (dist: seq<nat>)
    requires a.Valid() && a.nNodes <= UNREACHABLE
    ensures |dist| == a.nNodes
    ensures forall s :: 0 <= s < a.nNodes && dist[s] != UNREACHABLE ==> dist[s] < a.nNodes && Shortest(a, s, dist[s])
    ensures forall s, x :: 0 <= s < a.nNodes && dist[s] == UNREACHABLE ==> !a.Accepts(s, x)
  {
    hide Automaton.Valid, Witnessed, Relaxed, Growing, Linked;
    AcceptFlags(a);
    var rev := ReverseEdges(a);
    var queue;
    dist, queue := Seeds(a);
    ghost var order := queue;
    ghost var head := 0;
    FirstIsLeast(dist, order);
    while queue != []
      invariant |dist| == a.nNodes && head <= |order| && queue == order[head..]
      invariant Ordered(dist, order) && Witnessed(a, dist, order) && Relaxed(a, dist, order, head)
      invariant forall q: nat :: q < a.nNodes && a.accept[q] ==> q in order && dist[q] == 0
      invariant head < |order| ==> forall i :: 0 <= i < |order| ==> dist[order[i]] <= dist[order[head]] + 1
      decreases a.nNodes - head
    {
      var d := queue[0];
      ghost var dist0, order0 := dist, order;
      GrowingStart(a, dist, order, head);
      queue, dist, order := RelaxAll(a, d, rev[d], dist, queue[1..], order, head);
      GrowingParts(a, d, dist0, order0, dist, order);
      Popped(a, d, dist0, order0, head, dist, order);
      head := head + 1;
    }
    Finish(a, dist, order);
  }

  lemma FirstIsLeast(dist: seq<nat>, order: seq<nat>)
    requires Ordered(dist, order) && forall q: nat :: q in order ==> q < |dist| && dist[q] == 0
    ensures 0 < |order| ==> forall i :: 0 <= i < |order| ==> dist[order[i]] <= dist[order[0]] + 1
  {
    forall i | 0 <= i < |order| ensures dist[order[i]] == 0 { assert order[i] in order; }
  }

  lemma Finish(a: Automaton, dist: seq<nat>, order: seq<nat>)
    requires a.Valid() && a.nNodes <= UNREACHABLE && |dist| == a.nNodes
    requires Ordered(dist, order) && Witnessed(a, dist, order) && Relaxed(a, dist, order, |order|)
    requires forall q: nat :: q < a.nNodes && a.accept[q] ==> q in order && dist[q] == 0
    ensures forall s :: 0 <= s < a.nNodes && dist[s] != UNREACHABLE ==> dist[s] < a.nNodes && Shortest(a, s, dist[s])
    ensures forall s, x :: 0 <= s < a.nNodes && dist[s] == UNREACHABLE ==> !a.Accepts(s, x)
  {
    forall s | 0 <= s < a.nNodes ensures dist[s] == UNREACHABLE <==> s !in order {
      Sentinel(dist, order, s);
    }
    forall s | s in order ensures dist[s] < a.nNodes {
      Sentinel(dist, order, s);
    }
    forall s, x | 0 <= s < a.nNodes && a.Accepts(s, x) ensures s in order && dist[s] <= |x| {
      NeverShorter(a, dist, order, s, x);
    }
  }

  /** The queue state while the predecessors of `d` are being discovered: old distances stay, new ones are one more. */
  ghost predicate Growing(a: Automaton, d: nat, dist0: seq<nat>, order0: seq<nat>, dist: seq<nat>, order: seq<nat>)
    requires a.Valid() && d < a.nNodes
  {
    && |dist| == a.nNodes == |dist0| && order0 <= order && d in order0
    && Ordered(dist, order) && Witnessed(a, dist, order)
    && (forall q: nat :: q in order0 ==> q < a.nNodes && dist[q] == dist0[q])
    && (forall k :: 0 <= k < |order| ==> dist[order[k]] <= dist0[d] + 1)
  }

  lemma Grow(a: Automaton, d: nat, dist0: seq<nat>, order0: seq<nat>, dist: seq<nat>, order: seq<nat>, s: nat)
    requires a.Valid() && d < a.nNodes && Growing(a, d, dist0, order0, dist, order)
    requires s !in order && Linked(a, s, d) && s < a.nNodes
    ensures Growing(a, d, dist0, order0, dist[s := dist[d] + 1], order + [s])
  {
    hide Linked, AcceptsLength, Automaton.Valid;
    var v := dist[d] + 1;
    LinkExtends(a, s, d, dist[d]);
    assert d in order;
    OrderedPush(dist, order, s, v);
    assert Witnessed(a, dist[s := v], order + [s]);
  }

  /** The inner loop: every undiscovered predecessor of the popped node enters the queue. */
  method RelaxAll(a: Automaton, d: nat, preds: seq<nat>, dist0: seq<nat>, queue0: seq<nat>, ghost order0: seq<nat>, ghost head: nat)
    returns (queue: seq<nat>, dist: seq<nat>, ghost order: seq<nat>)
    requires a.Valid() && a.nNodes <= UNREACHABLE && d < a.nNodes
    requires Growing(a, d, dist0, order0, dist0, order0) && dist0[d] < a.nNodes
    requires head < |order0| && d == order0[head] && queue0 == order0[head + 1..]
    requires forall s: nat :: s in preds <==> Linked(a, s, d)
    ensures Growing(a, d, dist0, order0, dist, order)
    ensures head + 1 <= |order| && queue == order[head + 1..]
    ensures forall s :: Linked(a, s, d) ==> RelaxedAt(dist, order, s, d)
  {
    hide Ordered, Witnessed, AcceptsLength, Automaton.Valid;
    queue, dist, order := queue0, dist0, order0;
    for i := 0 to |preds|
      invariant Growing(a, d, dist0, order0, dist, order) && queue == order[head + 1..]
      invariant forall k :: 0 <= k < i ==> preds[k] in order
    {
      var s := preds[i];
      assert Linked(a, s, d);
      Sentinel(dist, order, s);
      if dist[s] == UNREACHABLE {
        Grow(a, d, dist0, order0, dist, order, s);
        dist := dist[s := dist[d] + 1];
        queue := queue + [s];
        order := order + [s];
      }
    }
    forall s | Linked(a, s, d) ensures RelaxedAt(dist, order, s, d) {
      assert s in preds;
      var k :| 0 <= k < |order| && order[k] == s;
    }
  }

  /** After one popped node the next one bounds all distances, and nothing relaxed before is lost. */
  lemma Popped(a: Automaton, d: nat, dist0: seq<nat>, order0: seq<nat>, head: nat, dist: seq<nat>, order: seq<nat>)
    requires a.Valid() && d < a.nNodes && |dist0| == a.nNodes && head < |order0| && d == order0[head]
    requires Relaxed(a, dist0, order0, head) && Growing(a, d, dist0, order0, dist, order)
    requires forall s :: Linked(a, s, d) ==> RelaxedAt(dist, order, s, d)
    ensures Relaxed(a, dist, order, head + 1)
    ensures head + 1 < |order| ==> forall i :: 0 <= i < |order| ==> dist[order[i]] <= dist[order[head + 1]] + 1
  {
    forall i, s | 0 <= i < head + 1 && Linked(a, s, order[i]) ensures RelaxedAt(dist, order, s, order[i]) {
      assert order[i] == order0[i];
      if i < head {
        assert RelaxedAt(dist0, order0, s, order0[i]);
      }
    }
    if head + 1 < |order| {
      assert order[head] == d && d in order0;
      assert dist[order[head]] <= dist[order[head + 1]];
    }
  }
}
