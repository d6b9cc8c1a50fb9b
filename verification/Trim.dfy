/** Trimming: the states that are reachable from the start and can still accept, densely relabelled. */
module Trimming {
  import opened Prelude
  import opened Automata
  import opened Distances
  import opened Dfas

  ghost predicate Reachable(a: Automaton, s: nat)
    requires a.Valid()
  {
    s < a.nNodes && exists x :: a.Walk(a.start, x) == Some(s)
  }

  ghost predicate CanAccept(a: Automaton, s: nat)
    requires a.Valid()
  {
    s < a.nNodes && exists x :: a.Accepts(s, x)
  }

  /** The states the minimizer keeps. */
  ghost predicate Kept(a: Automaton, s: nat)
    requires a.Valid()
  {
    Reachable(a, s) && CanAccept(a, s)
  }

  // ---- worklists over a mask ----

  function Unmarked(mask: seq<bool>): nat {
    if mask == [] then 0 else (if mask[|mask| - 1] then 0 else 1) + Unmarked(mask[..|mask| - 1])
  }

  lemma {:induction false} MarkOne(mask: seq<bool>, i: nat)
    requires i < |mask| && !mask[i]
    ensures Unmarked(mask[i := true]) == Unmarked(mask) - 1
  {
    var n := |mask| - 1;
    if i < n {
      MarkOne(mask[..n], i);
      assert mask[i := true][..n] == mask[..n][i := true];
    } else {
      assert mask[i := true][..n] == mask[..n];
    }
  }

  /** Marks the unmarked members of a list and returns them as new work. */
  method MarkAll(mask0: seq<bool>, targets: seq<nat>) returns (mask: seq<bool>, fresh_: seq<nat>)
    requires forall i :: 0 <= i < |targets| ==> targets[i] < |mask0|
    ensures |mask| == |mask0| && Unmarked(mask) + |fresh_| == Unmarked(mask0)
    ensures forall s :: 0 <= s < |mask| ==> (mask[s] <==> mask0[s] || s in targets)
    ensures forall i :: 0 <= i < |fresh_| ==> fresh_[i] < |mask| && mask[fresh_[i]]
    ensures forall s: nat :: s < |mask| && mask[s] && !mask0[s] ==> s in fresh_
  {
    mask, fresh_ := mask0, [];
    for i := 0 to |targets|
      invariant |mask| == |mask0| && Unmarked(mask) + |fresh_| == Unmarked(mask0)
      invariant forall s :: 0 <= s < |mask| ==> (mask[s] <==> mask0[s] || s in targets[..i])
      invariant forall i :: 0 <= i < |fresh_| ==> fresh_[i] < |mask| && mask[fresh_[i]]
      invariant forall s: nat :: s < |mask| && mask[s] && !mask0[s] ==> s in fresh_
    {
      var d := targets[i];
      assert targets[..i + 1] == targets[..i] + [d];
      if !mask[d] {
        MarkOne(mask, d);
        mask := mask[d := true];
        fresh_ := fresh_ + [d];
      }
    }
    assert targets[..|targets|] == targets;
  }

  /** Every marked element outside the work list has handed its mark on along `r`. */
  ghost predicate Closing(mask: seq<bool>, work: seq<nat>, r: (nat, nat) -> bool) {
    && (forall i :: 0 <= i < |work| ==> work[i] < |mask| && mask[work[i]])
    && (forall p: nat, d: nat :: p < |mask| && d < |mask| && mask[p] && p !in work && r(p, d) ==> mask[d])
  }

  /** Taking one element off the work list and marking all it leads to. */
  lemma ClosingStep(before: seq<bool>, work: seq<nat>, r: (nat, nat) -> bool, s: nat, rest: seq<nat>, mask: seq<bool>, more: seq<nat>)
    requires Closing(before, work, r) && |mask| == |before|
    requires (forall x :: x in work <==> x == s || x in rest)
    requires forall d: nat :: d < |mask| ==> (mask[d] <==> before[d] || r(s, d))
    requires forall i :: 0 <= i < |more| ==> more[i] < |mask| && mask[more[i]]
    requires forall d: nat :: d < |mask| && mask[d] && !before[d] ==> d in more
    ensures Closing(mask, rest + more, r)
  {
    var next := rest + more;
    forall i | 0 <= i < |next| ensures next[i] < |mask| && mask[next[i]] {
      if i < |rest| {
        assert rest[i] in work;
        var k :| 0 <= k < |work| && work[k] == rest[i];
      }
    }
    forall p: nat, d: nat | p < |mask| && d < |mask| && mask[p] && p !in next && r(p, d) ensures mask[d] {
      assert before[p] by { assert !before[p] ==> p in more; }
    }
  }

  /** The destinations of a node's edges. */
  method Successors(a: Automaton, s: nat) returns (ds: seq<nat>)
    requires a.Valid() && s < a.nNodes
    ensures forall d: nat :: d in ds <==> Linked(a, s, d)
    ensures forall i :: 0 <= i < |ds| ==> ds[i] < a.nNodes
  {
    ds := [];
    for e := a.OutLo(s) to a.OutHi(s)
      invariant |ds| == e - a.OutLo(s) && forall k :: 0 <= k < |ds| ==> ds[k] == a.edgeDst[a.OutLo(s) + k]
      invariant forall i :: 0 <= i < |ds| ==> ds[i] < a.nNodes
    {
      assert a.EdgeValid(e);
      ds := ds + [a.edgeDst[e]];
    }
    forall d: nat | Linked(a, s, d) ensures d in ds {
      var e :| a.OutLo(s) <= e < a.OutHi(s) && a.edgeDst[e] == d;
      assert ds[e - a.OutLo(s)] == d;
    }
  }

  lemma ReachableStep(a: Automaton, s: nat, d: nat)
    requires a.Valid() && Reachable(a, s) && Linked(a, s, d)
    ensures Reachable(a, d)
  {
    var t := LinkedByToken(a, s, d);
    var x :| a.Walk(a.start, x) == Some(s);
    a.WalkConcat(a.start, x, [t]);
    assert [t][1..] == [];
    assert a.Walk(a.start, x + [t]) == Some(d);
  }

  /** A mask closed under edges contains everything its members reach. */
  lemma {:induction false} ClosedForward(a: Automaton, mask: seq<bool>, s: nat, x: seq<nat>)
    requires a.Valid() && |mask| == a.nNodes && s < a.nNodes && mask[s] && a.Walk(s, x).Some?
    requires forall p: nat, d: nat :: p < a.nNodes && d < a.nNodes && mask[p] && Linked(a, p, d) ==> mask[d]
    ensures mask[a.Walk(s, x).value]
    decreases |x|
  {
    if x != [] {
      var d := a.Next(s, x[0]).value;
      StepIsLink(a, s, x[0], d);
      ClosedForward(a, mask, d, x[1..]);
    }
  }

  /** Forward reachability by an explicit stack. */
  method Forward(a: Automaton) returns (fwd: seq<bool>)
    requires a.Valid()
    ensures |fwd| == a.nNodes && forall s :: 0 <= s < a.nNodes ==> (fwd[s] <==> Reachable(a, s))
  {
    hide Unmarked, Linked, Closing, Reachable;
    ghost var r := (p: nat, d: nat) => Linked(a, p, d);
    fwd := seq(a.nNodes, _ => false)[a.start := true];
    var stack := [a.start];
    ForwardStart(a, fwd, stack, r);
    while stack != []
      invariant |fwd| == a.nNodes && fwd[a.start] && Closing(fwd, stack, r)
      invariant forall s :: 0 <= s < a.nNodes && fwd[s] ==> Reachable(a, s)
      decreases 2 * Unmarked(fwd) + |stack|
    {
      var s := stack[|stack| - 1];
      var rest := stack[..|stack| - 1];
      assert stack == rest + [s];
      WorkBound(fwd, stack, r);
      var ds := Successors(a, s);
      ghost var before, work := fwd, stack;
      var more;
      fwd, more := MarkAll(fwd, ds);
      stack := rest + more;
      ClosingStep(before, work, r, s, rest, fwd, more);
      forall d | 0 <= d < a.nNodes && fwd[d] ensures Reachable(a, d) {
        if !before[d] { ReachableStep(a, s, d); }
      }
    }
    ForwardDone(a, fwd, r);
  }

  lemma WorkBound(mask: seq<bool>, work: seq<nat>, r: (nat, nat) -> bool)
    requires Closing(mask, work, r)
    ensures forall i :: 0 <= i < |work| ==> work[i] < |mask| && mask[work[i]]
  {
  }

  lemma ForwardStart(a: Automaton, fwd: seq<bool>, stack: seq<nat>, r: (nat, nat) -> bool)
    requires a.Valid() && fwd == seq(a.nNodes, _ => false)[a.start := true] && stack == [a.start]
    ensures Closing(fwd, stack, r) && Reachable(a, a.start)
  {
    assert a.Walk(a.start, []) == Some(a.start);
  }

  lemma ForwardDone(a: Automaton, fwd: seq<bool>, r: (nat, nat) -> bool)
    requires a.Valid() && |fwd| == a.nNodes && fwd[a.start] && Closing(fwd, [], r)
    requires forall p: nat, d: nat :: r(p, d) == Linked(a, p, d)
    ensures forall s :: 0 <= s < a.nNodes && Reachable(a, s) ==> fwd[s]
  {
    forall s | 0 <= s < a.nNodes && Reachable(a, s) ensures fwd[s] {
      var x :| a.Walk(a.start, x) == Some(s);
      ClosedForward(a, fwd, a.start, x);
    }
  }

  lemma CanAcceptStep(a: Automaton, s: nat, d: nat)
    requires a.Valid() && CanAccept(a, d) && Linked(a, s, d)
    ensures CanAccept(a, s)
  {
    var t := LinkedByToken(a, s, d);
    var x :| a.Accepts(d, x);
    assert ([t] + x)[1..] == x;
    assert a.Accepts(s, [t] + x);
  }

  /** A mask closed under reversed edges contains everything that can reach it. */
  lemma {:induction false} ClosedBackward(a: Automaton, mask: seq<bool>, s: nat, x: seq<nat>)
    requires a.Valid() && |mask| == a.nNodes && s < a.nNodes && a.Accepts(s, x)
    requires forall q :: 0 <= q < a.nNodes && a.accept[q] ==> mask[q]
    requires forall p: nat, d: nat :: p < a.nNodes && d < a.nNodes && mask[d] && Linked(a, p, d) ==> mask[p]
    ensures mask[s]
    decreases |x|
  {
    if x != [] {
      var d := a.Next(s, x[0]).value;
      StepIsLink(a, s, x[0], d);
      ClosedBackward(a, mask, d, x[1..]);
    }
  }

  /** In-edges per node, gathered node by node. */
  method InEdges(a: Automaton) returns (rev: seq<seq<nat>>)
    requires a.Valid()
    ensures ReverseOf(a, rev) && forall d :: 0 <= d < a.nNodes ==> forall i :: 0 <= i < |rev[d]| ==> rev[d][i] < a.nNodes
  {
    rev := seq(a.nNodes, _ => []);
    for s := 0 to a.nNodes
      invariant |rev| == a.nNodes
      invariant forall d, p: nat :: 0 <= d < a.nNodes ==> (p in rev[d] <==> p < s && Linked(a, p, d))
    {
      var e := a.OutLo(s);
      while e < a.OutHi(s)
        invariant a.OutLo(s) <= e <= a.OutHi(s) && |rev| == a.nNodes
        invariant forall d, p: nat :: 0 <= d < a.nNodes && p != s ==> (p in rev[d] <==> p < s && Linked(a, p, d))
        invariant forall d :: 0 <= d < a.nNodes && s in rev[d] ==> Linked(a, s, d)
        invariant forall k :: a.OutLo(s) <= k < e ==> a.edgeDst[k] < a.nNodes && s in rev[a.edgeDst[k]]
      {
        assert a.EdgeValid(e);
        var d := a.edgeDst[e];
        assert Linked(a, s, d);
        rev := rev[d := rev[d] + [s]];
        e := e + 1;
      }
    }
    forall d, i | 0 <= d < a.nNodes && 0 <= i < |rev[d]| ensures rev[d][i] < a.nNodes {
      assert rev[d][i] in rev[d];
    }
  }

  /** Backward reachability from the accepting states by a queue. */
  method Backward(a: Automaton) returns (live: seq<bool>)
    requires a.Valid()
    ensures |live| == a.nNodes && forall s :: 0 <= s < a.nNodes ==> (live[s] <==> CanAccept(a, s))
  {
    hide Unmarked, Linked, Closing, CanAccept;
    ghost var r := (d: nat, p: nat) => Linked(a, p, d);
    var rev := InEdges(a);
    live := a.accept;
    var queue: seq<nat> := [];
    for s := 0 to a.nNodes
      invariant forall q: nat :: q in queue <==> q < s && a.accept[q]
    {
      if a.accept[s] {
        queue := queue + [s];
      }
    }
    BackwardStart(a, queue, r);
    while queue != []
      invariant |live| == a.nNodes && Closing(live, queue, r)
      invariant forall q :: 0 <= q < a.nNodes && a.accept[q] ==> live[q]
      invariant forall s :: 0 <= s < a.nNodes && live[s] ==> CanAccept(a, s)
      decreases 2 * Unmarked(live) + |queue|
    {
      var d := queue[0];
      var rest := queue[1..];
      assert queue == [d] + rest;
      WorkBound(live, queue, r);
      ghost var before, work := live, queue;
      var more;
      live, more := MarkAll(live, rev[d]);
      queue := rest + more;
      ClosingStep(before, work, r, d, rest, live, more);
      forall s | 0 <= s < a.nNodes && live[s] ensures CanAccept(a, s) {
        if !before[s] { CanAcceptStep(a, s, d); }
      }
    }
    BackwardDone(a, live, r);
  }

  lemma BackwardStart(a: Automaton, queue: seq<nat>, r: (nat, nat) -> bool)
    requires a.Valid() && forall q: nat :: q in queue <==> q < a.nNodes && a.accept[q]
    ensures Closing(a.accept, queue, r)
    ensures forall s :: 0 <= s < a.nNodes && a.accept[s] ==> CanAccept(a, s)
  {
    forall i | 0 <= i < |queue| ensures queue[i] < |a.accept| && a.accept[queue[i]] { assert queue[i] in queue; }
    forall s | 0 <= s < a.nNodes && a.accept[s] ensures CanAccept(a, s) { assert a.Accepts(s, []); }
  }

  lemma BackwardDone(a: Automaton, live: seq<bool>, r: (nat, nat) -> bool)
    requires a.Valid() && |live| == a.nNodes && Closing(live, [], r)
    requires forall d: nat, p: nat :: r(d, p) == Linked(a, p, d)
    requires forall q :: 0 <= q < a.nNodes && a.accept[q] ==> live[q]
    ensures forall s :: 0 <= s < a.nNodes && CanAccept(a, s) ==> live[s]
  {
    forall s | 0 <= s < a.nNodes && CanAccept(a, s) ensures live[s] {
      var x :| a.Accepts(s, x);
      forall p: nat, d: nat | p < a.nNodes && d < a.nNodes && live[d] && Linked(a, p, d) ensures live[p] {
        assert r(d, p);
      }
      ClosedBackward(a, live, s, x);
    }
  }

  /** `trim_mask`: exactly the kept states. */
  method TrimMask(a: Automaton) returns (keep: seq<bool>)
    requires a.Valid()
    ensures |keep| == a.nNodes && forall s :: 0 <= s < a.nNodes ==> (keep[s] <==> Kept(a, s))
  {
    hide Reachable, CanAccept;
    var fwd := Forward(a);
    var live := Backward(a);
    keep := seq(a.nNodes, s requires 0 <= s < a.nNodes && |fwd| == a.nNodes == |live| => fwd[s] && live[s]);
  }
}
