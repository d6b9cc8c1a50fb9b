/** The executable subset step: grouped edges, a stamped visit buffer, and reused scratch. */
module Steppers {
  import opened Prelude
  import opened Nfas
  import opened Subsets

  /** Out-edges per state. */
  ghost predicate Indexes(out: seq<seq<(Label, nat)>>, m: Machine) {
    && |out| == m.n
    && forall q: nat, l: Label, d: nat :: q < |out| ==> ((l, d) in out[q] <==> Edge(q, l, d) in m.es)
  }

  /** `NfaIndex::build`: groups the edges by source. */
  method BuildIndex(edges: seq<Edge>, n: nat, ghost m: Machine) returns (out: seq<seq<(Label, nat)>>)
    requires m.Valid() && m.n == n && m.es == set e | e in edges
    ensures Indexes(out, m)
  {
    out := seq(n, _ => []);
    for k := 0 to |edges|
      invariant |out| == n
      invariant forall q: nat, l: Label, d: nat :: q < n ==> ((l, d) in out[q] <==> Edge(q, l, d) in edges[..k])
    {
      var e := edges[k];
      assert e in m.es;
      assert edges[..k + 1] == edges[..k] + [e];
      out := out[e.src := out[e.src] + [(e.sym, e.dst)]];
    }
    assert edges[..|edges|] == edges;
  }

  // ---- the closure search ----

  /** The marks carrying the current stamp are exactly the collected states; all others are as before. */
  ghost predicate Stamped(seen: seq<nat>, before: seq<nat>, stamp: nat, result: seq<nat>) {
    && |seen| == |before|
    && forall q: nat :: q < |seen| ==> (seen[q] == stamp <==> q in result) && (q !in result ==> seen[q] == before[q])
  }

  /** What the search has collected and what is still on its stack. */
  ghost predicate Searching(m: Machine, from: set<nat>, result: seq<nat>, stack: seq<nat>) {
    && Distinct(result)
    && (forall q: nat :: q in result || q in stack ==> q < m.n && m.Near(from, q))
    && (forall p: nat :: p in from ==> p in result || p in stack)
    && (forall p: nat, q: nat :: p in result && Edge(p, Eps, q) in m.es ==> q in result || q in stack)
  }

  lemma ResultSmall(result: seq<nat>, n: nat)
    requires Distinct(result) && forall q: nat :: q in result ==> q < n
    ensures |result| <= n
  {
    forall i | 0 <= i < |result| ensures result[i] < n { assert result[i] in result; }
    Pigeonhole(result, n);
  }

  lemma SearchStart(m: Machine, from: set<nat>, stack: seq<nat>)
    requires m.Valid() && m.InRange(from) && forall q: nat :: q in stack <==> q in from
    ensures Searching(m, from, [], stack)
  {
    hide Reads;
    forall q: nat | q in from ensures m.Near(from, q) { ReadsSelf(m.es, q); }
  }

  lemma SearchSkip(m: Machine, from: set<nat>, result: seq<nat>, stack: seq<nat>, q: nat)
    requires Searching(m, from, result, stack + [q]) && q in result
    ensures Searching(m, from, result, stack)
  {
    forall p: nat ensures p in stack + [q] <==> p in stack || p == q {
    }
  }

  /** Collecting one state and pushing its unmarked successors. */
  lemma SearchStep(m: Machine, from: set<nat>, result: seq<nat>, stack: seq<nat>, q: nat, more: seq<nat>)
    requires m.Valid() && Searching(m, from, result, stack + [q]) && q !in result
    requires forall d: nat :: d in more ==> Edge(q, Eps, d) in m.es
    requires forall d: nat :: Edge(q, Eps, d) in m.es ==> d in more || d in result + [q]
    ensures Searching(m, from, result + [q], stack + more)
  {
    hide Reads;
    forall p: nat ensures p in stack + [q] <==> p in stack || p == q {
    }
    forall p: nat ensures p in result + [q] <==> p in result || p == q {
    }
    forall p: nat ensures p in stack + more <==> p in stack || p in more {
    }
    assert m.Near(from, q);
    forall d: nat | d in more ensures d < m.n && m.Near(from, d) {
      var o :| o in from && Reads(m.es, o, [], q);
      ReadsThenEps(m.es, o, [], q, d);
    }
  }

  /** A finished search has collected the closure. */
  lemma SearchDone(m: Machine, from: set<nat>, result: seq<nat>)
    requires m.Valid() && m.InRange(from) && Searching(m, from, result, [])
    ensures ListOf(SortNats(result), m.Closure(from))
  {
    hide Reads;
    SortNatsSorts(result);
    SortNatsMembers(result);
    DistinctPerm(result, SortNats(result));
    SortedDistinct(SortNats(result));
    var y := set q: nat | q in result;
    forall p: nat, q: nat | p in y && Edge(p, Eps, q) in m.es ensures q in y {
      assert p in result;
    }
    m.ClosureLeast(from, y);
  }

  /** `closure_into`: an explicit stack and a buffer of stamps; `stamp` must be absent from the buffer. */
  method ClosureInto(out: seq<seq<(Label, nat)>>, states: seq<nat>, seen: array<nat>, stamp: nat, ghost m: Machine, ghost from: set<nat>)
    returns (closure: seq<nat>)
    requires m.Valid() && Indexes(out, m) && seen.Length == m.n && m.InRange(from)
    requires (forall q: nat :: q in states <==> q in from) && forall q :: 0 <= q < seen.Length ==> seen[q] != stamp
    modifies seen
    ensures ListOf(closure, m.Closure(from))
    ensures forall q :: 0 <= q < seen.Length ==> seen[q] == stamp || seen[q] == old(seen[q])
  {
    hide Searching, ListOf, Stamped, Machine.Near, Machine.Closure;
    var stack := Canonical(states);
    var result: seq<nat> := [];
    SearchStart(m, from, stack);
    StampedStart(seen[..], stamp);
    while stack != []
      invariant Searching(m, from, result, stack) && Stamped(seen[..], old(seen[..]), stamp, result) && |result| <= m.n
      decreases m.n - |result|, |stack|
    {
      var q := stack[|stack| - 1];
      var rest := stack[..|stack| - 1];
      assert stack == rest + [q];
      SearchRange(m, from, result, stack, q);
      StampedAt(seen[..], old(seen[..]), stamp, result, q);
      if seen[q] == stamp {
        SearchSkip(m, from, result, rest, q);
        stack := rest;
        continue;
      }
      ghost var before := seen[..];
      seen[q] := stamp;
      StampedPush(before, seen[..], old(seen[..]), stamp, result, q);
      var more := Unseen(out, seen, stamp, q, m, result + [q], old(seen[..]));
      SearchStep(m, from, result, rest, q, more);
      result := result + [q];
      SearchSmall(m, from, result, rest + more);
      stack := rest + more;
    }
    SearchDone(m, from, result);
    StampedFrame(seen[..], old(seen[..]), stamp, result);
    closure := SortNats(result);
  }

  /** The successors by empty moves that do not carry the stamp yet. */
  method Unseen(out: seq<seq<(Label, nat)>>, seen: array<nat>, stamp: nat, q: nat, ghost m: Machine, ghost result: seq<nat>,
                ghost before: seq<nat>) returns (more: seq<nat>)
    requires m.Valid() && Indexes(out, m) && q < m.n && seen.Length == m.n && Stamped(seen[..], before, stamp, result)
    ensures forall d: nat :: d in more ==> Edge(q, Eps, d) in m.es
    ensures forall d: nat :: Edge(q, Eps, d) in m.es ==> d in more || d in result
  {
    more := [];
    for k := 0 to |out[q]|
      invariant forall d: nat :: d in more ==> Edge(q, Eps, d) in m.es
      invariant forall d: nat :: (Eps, d) in out[q][..k] ==> d in more || d in result
    {
      var (sym, d) := out[q][k];
      assert (sym, d) in out[q];
      assert out[q][..k + 1] == out[q][..k] + [(sym, d)];
      if sym.Eps? {
        assert Edge(q, Eps, d) in m.es;
        if seen[d] != stamp {
          more := more + [d];
        }
      }
    }
    assert out[q][..|out[q]|] == out[q];
  }

  lemma StampedStart(seen: seq<nat>, stamp: nat)
    requires forall q :: 0 <= q < |seen| ==> seen[q] != stamp
    ensures Stamped(seen, seen, stamp, [])
  {
  }

  lemma StampedAt(seen: seq<nat>, before: seq<nat>, stamp: nat, result: seq<nat>, q: nat)
    requires Stamped(seen, before, stamp, result) && q < |seen|
    ensures seen[q] == stamp <==> q in result
  {
  }

  lemma StampedPush(seen: seq<nat>, next: seq<nat>, before: seq<nat>, stamp: nat, result: seq<nat>, q: nat)
    requires Stamped(seen, before, stamp, result) && q < |seen| && next == seen[q := stamp]
    ensures Stamped(next, before, stamp, result + [q])
  {
  }

  lemma StampedFrame(seen: seq<nat>, before: seq<nat>, stamp: nat, result: seq<nat>)
    requires Stamped(seen, before, stamp, result)
    ensures |seen| == |before| && forall q :: 0 <= q < |seen| ==> seen[q] == stamp || seen[q] == before[q]
  {
  }

  lemma SearchRange(m: Machine, from: set<nat>, result: seq<nat>, stack: seq<nat>, q: nat)
    requires Searching(m, from, result, stack) && q in stack
    ensures q < m.n
  {
  }

  lemma SearchSmall(m: Machine, from: set<nat>, result: seq<nat>, stack: seq<nat>)
    requires Searching(m, from, result, stack)
    ensures |result| <= m.n
  {
    ResultSmall(result, m.n);
  }

  // ---- the driver ----

  /** Number of different stamps: they are 32-bit words. */
  const STAMPS: nat := 0x1_0000_0000

  class Stepper {
    const out: seq<seq<(Label, nat)>>
    const seen: array<nat>
    var stamp: nat
    var moved: seq<nat>

    /** No mark exceeds the stamp, so the next stamp is fresh, wrap-around included. */
    ghost predicate Valid(m: Machine)
      reads this, seen
    {
      && m.Valid() && Indexes(out, m) && seen.Length == m.n && stamp < STAMPS
      && forall q :: 0 <= q < seen.Length ==> seen[q] <= stamp
    }

    constructor (index: seq<seq<(Label, nat)>>, ghost m: Machine)
      requires m.Valid() && Indexes(index, m)
      ensures Valid(m) && fresh(seen) && out == index
    {
      out := index;
      seen := new nat[|index|](_ => 0);
      stamp := 0;
      moved := [];
    }

    /** Advances the stamp; when the 32-bit counter wraps the buffer is cleared. */
    method BeginStamp(ghost m: Machine)
      requires Valid(m)
      modifies this`stamp, seen
      ensures Valid(m) && forall q :: 0 <= q < seen.Length ==> seen[q] < stamp
    {
      stamp := (stamp + 1) % STAMPS;
      if stamp == 0 {
        for q := 0 to seen.Length
          invariant stamp == 0 && forall p :: 0 <= p < q ==> seen[p] == 0
        {
          seen[q] := 0;
        }
        stamp := 1;
      }
    }

    /** One subset over one character; `None` when the character kills every state. */
    method Step(cur: seq<nat>, c: char, ghost m: Machine, ghost x: set<nat>) returns (r: Option<seq<nat>>)
      requires Valid(m) && m.InRange(x) && ListOf(cur, x)
      modifies this, seen
      ensures Valid(m)
      ensures r.None? <==> m.Stepped(x, c) == {}
      ensures r.Some? ==> ListOf(r.value, m.Stepped(x, c))
    {
      hide Machine.Closure, Machine.ClosedSet;
      moved := [];
      for k := 0 to |cur|
        invariant Valid(m)
        invariant forall d: nat :: d in moved ==> d < m.n && m.Moves(x, c, d)
        invariant forall e :: e in m.es && e.src in cur[..k] && e.sym.Allows(c) ==> e.dst in moved
      {
        assert cur[k] in cur;
        assert cur[..k + 1] == cur[..k] + [cur[k]];
        MoveState(cur[k], c, m, x);
      }
      assert cur[..|cur|] == cur;
      m.ClosureClosed(m.Moved(x, c));
      MovedIs(m, x, c, moved);
      if moved == [] {
        EmptyClosure(m);
        assert m.Moved(x, c) == {} by {
          forall d: nat ensures d !in m.Moved(x, c) { assert d in moved <==> d in m.Moved(x, c); }
        }
        return None;
      }
      assert moved[0] in moved;
      assert moved[0] in m.Stepped(x, c);
      BeginStamp(m);
      var s := ClosureInto(out, moved, seen, stamp, m, m.Moved(x, c));
      moved := [];
      return Some(s);
    }

    lemma MovedIs(m: Machine, x: set<nat>, c: char, moved: seq<nat>)
      requires forall d: nat :: d in moved ==> d < m.n && m.Moves(x, c, d)
      requires forall e :: e in m.es && e.src in x && e.sym.Allows(c) ==> e.dst in moved
      ensures forall d: nat :: d in moved <==> d in m.Moved(x, c)
    {
    }

    lemma EmptyClosure(m: Machine)
      ensures m.Closure({}) == {}
    {
    }

    /** `move_state`: appends the symbol successors of one state. */
    method MoveState(q: nat, c: char, ghost m: Machine, ghost x: set<nat>)
      requires Valid(m) && q in x && m.InRange(x)
      requires forall d: nat :: d in moved ==> d < m.n && m.Moves(x, c, d)
      modifies this`moved
      ensures Valid(m)
      ensures forall d: nat :: d in moved ==> d < m.n && m.Moves(x, c, d)
      ensures forall d: nat :: d in old(moved) ==> d in moved
      ensures forall e :: e in m.es && e.src == q && e.sym.Allows(c) ==> e.dst in moved
    {
      for k := 0 to |out[q]|
        invariant Valid(m) && forall d: nat :: d in moved ==> d < m.n && m.Moves(x, c, d)
        invariant forall d: nat :: d in old(moved) ==> d in moved
        invariant forall l: Label, d: nat :: (l, d) in out[q][..k] && l.Allows(c) ==> d in moved
      {
        var (sym, d) := out[q][k];
        assert (sym, d) in out[q];
        assert out[q][..k + 1] == out[q][..k] + [(sym, d)];
        if sym.Allows(c) {
          assert Edge(q, sym, d) in m.es;
          assert m.Moves(x, c, d);
          moved := moved + [d];
        }
      }
      assert out[q][..|out[q]|] == out[q];
      forall e | e in m.es && e.src == q && e.sym.Allows(c) ensures e.dst in moved {
        assert e == Edge(q, e.sym, e.dst);
        assert (e.sym, e.dst) in out[q];
      }
    }

    /** Empty moves only: the start subset. */
    method ClosureOnly(s: seq<nat>, ghost m: Machine, ghost x: set<nat>) returns (r: seq<nat>)
      requires Valid(m) && m.InRange(x) && forall q: nat :: q in s <==> q in x
      modifies this, seen
      ensures Valid(m) && ListOf(r, m.Closure(x))
    {
      BeginStamp(m);
      r := ClosureInto(out, s, seen, stamp, m, x);
    }
  }
}
