/** One subset's token walk: depth-first over the trie, with interned step results and a memo of character steps. */
module Walks {
  import opened Prelude
  import opened Nfas
  import opened Subsets
  import opened Steppers
  import opened Tries

  ghost function SetOf(s: seq<nat>): set<nat> {
    set q: nat | q in s
  }

  lemma SetOfList(s: seq<nat>, x: set<nat>)
    requires ListOf(s, x)
    ensures SetOf(s) == x && StrictlySorted(s)
  {
  }

  lemma ListOfSet(s: seq<nat>)
    requires StrictlySorted(s)
    ensures ListOf(s, SetOf(s))
  {
  }

  /** A subset as the compiler holds it: sorted, in range, closed under empty moves. */
  ghost predicate Subset(m: Machine, s: seq<nat>) {
    StrictlySorted(s) && m.InRange(SetOf(s)) && m.ClosedSet(SetOf(s))
  }

  lemma SameSubset(m: Machine, s: seq<nat>, t: seq<nat>)
    requires Subset(m, s) && Subset(m, t) && SetOf(s) == SetOf(t)
    ensures s == t
  {
    forall x: nat ensures x in s <==> x in t {
      assert x in SetOf(s) <==> x in SetOf(t);
    }
    StrictUnique(s, t);
  }

  /** The pool lists distinct subsets, each found under its own content. */
  ghost predicate Pooled(m: Machine, sets: seq<seq<nat>>, pool: map<seq<nat>, nat>) {
    && (forall i :: 0 <= i < |sets| ==> Subset(m, sets[i]) && sets[i] in pool && pool[sets[i]] == i)
    && (forall s :: s in pool ==> pool[s] < |sets| && sets[pool[s]] == s)
  }

  /** Every memo entry is a step taken. */
  ghost predicate Memo(m: Machine, sets: seq<seq<nat>>, steps: map<(nat, char), Option<nat>>) {
    forall p: nat, c: char :: (p, c) in steps ==> p < |sets| && StepIs(m, sets, p, c, steps[(p, c)])
  }

  ghost predicate StepIs(m: Machine, sets: seq<seq<nat>>, p: nat, c: char, t: Option<nat>)
    requires p < |sets|
  {
    match t
    case None => m.Stepped(SetOf(sets[p]), c) == {}
    case Some(i) => i < |sets| && SetOf(sets[i]) == m.Stepped(SetOf(sets[p]), c) != {}
  }

  lemma MemoGrows(m: Machine, sets: seq<seq<nat>>, more: seq<seq<nat>>, steps: map<(nat, char), Option<nat>>)
    requires Memo(m, sets, steps) && sets <= more
    ensures Memo(m, more, steps)
  {
    hide Machine.Stepped;
    forall p: nat, c: char | (p, c) in steps ensures p < |more| && StepIs(m, more, p, c, steps[(p, c)]) {
      assert StepIs(m, sets, p, c, steps[(p, c)]);
    }
  }

  class StepCache {
    var sets: seq<seq<nat>>
    var pool: map<seq<nat>, nat>
    var steps: map<(nat, char), Option<nat>>

    ghost predicate Valid(m: Machine)
      reads this
    {
      m.Valid() && Pooled(m, sets, pool) && Memo(m, sets, steps)
    }

    constructor (ghost m: Machine)
      requires m.Valid()
      ensures Valid(m) && sets == []
    {
      sets, pool, steps := [], map[], map[];
    }

    /** `pool_intern`: the id of a subset by content. */
    method Intern(s: seq<nat>, ghost m: Machine) returns (idx: nat)
      requires Valid(m) && Subset(m, s)
      modifies this`sets, this`pool
      ensures Valid(m) && old(sets) <= sets && idx < |sets| && sets[idx] == s
    {
      hide Subset, StepIs;
      if s in pool {
        return pool[s];
      }
      idx := |sets|;
      MemoGrows(m, sets, sets + [s], steps);
      pool := pool[s := idx];
      sets := sets + [s];
    }

    /** One character step from a pooled subset, taken at most once. */
    method Target(stepper: Stepper, p: nat, c: char, ghost m: Machine) returns (t: Option<nat>)
      requires Valid(m) && stepper.Valid(m) && p < |sets|
      modifies this, stepper, stepper.seen
      ensures Valid(m) && stepper.Valid(m) && old(sets) <= sets && StepIs(m, sets, p, c, t)
    {
      hide Machine.Stepped, Machine.ClosedSet, Machine.InRange, ListOf, SetOf, Pooled, StepIs;
      if (p, c) in steps {
        return steps[(p, c)];
      }
      PoolAt(m, sets, pool, p);
      ListOfSet(sets[p]);
      var s := stepper.Step(sets[p], c, m, SetOf(sets[p]));
      m.SteppedClosed(SetOf(sets[p]), c);
      if s.None? {
        t := None;
      } else {
        SetOfList(s.value, m.Stepped(SetOf(sets[p]), c));
        var idx := Intern(s.value, m);
        t := Some(idx);
      }
      StepFits(m, sets, p, c, t);
      steps := steps[(p, c) := t];
    }

    lemma StepFits(m: Machine, sets: seq<seq<nat>>, p: nat, c: char, t: Option<nat>)
      requires p < |sets| && (t.None? ==> m.Stepped(SetOf(sets[p]), c) == {})
      requires t.Some? ==> t.value < |sets| && SetOf(sets[t.value]) == m.Stepped(SetOf(sets[p]), c) != {}
      ensures StepIs(m, sets, p, c, t)
    {
    }

    lemma PoolAt(m: Machine, sets: seq<seq<nat>>, pool: map<seq<nat>, nat>, p: nat)
      requires Pooled(m, sets, pool) && p < |sets|
      ensures Subset(m, sets[p]) && StrictlySorted(sets[p]) && m.InRange(SetOf(sets[p])) && m.ClosedSet(SetOf(sets[p]))
    {
    }
  }

  lemma PoolDistinct(m: Machine, sets: seq<seq<nat>>, pool: map<seq<nat>, nat>, i: nat, j: nat)
    requires Pooled(m, sets, pool) && i < |sets| && j < |sets| && SetOf(sets[i]) == SetOf(sets[j])
    ensures i == j
  {
    SameSubset(m, sets[i], sets[j]);
  }

  // ---- the depth-first walk ----

  /** The subset reached at a trie node. */
  ghost function Arrived(m: Machine, x: set<nat>, paths: seq<string>, v: nat): set<nat>
    requires v < |paths|
  {
    m.Run(x, paths[v])
  }

  ghost predicate OnStack(stack: seq<(nat, nat)>, v: nat) {
    exists i :: 0 <= i < |stack| && stack[i].0 == v
  }

  /** Every stack entry pairs a node with the pooled subset reached there. */
  ghost predicate StackOk(m: Machine, x: set<nat>, paths: seq<string>, sets: seq<seq<nat>>, stack: seq<(nat, nat)>) {
    forall i :: 0 <= i < |stack| ==> EntryOk(m, x, paths, sets, stack[i])
  }

  ghost predicate EntryOk(m: Machine, x: set<nat>, paths: seq<string>, sets: seq<seq<nat>>, e: (nat, nat)) {
    e.0 < |paths| && e.1 < |sets| && SetOf(sets[e.1]) == Arrived(m, x, paths, e.0) != {}
  }

  ghost predicate Kid(children: seq<seq<(char, nat)>>, v: nat, kid: nat) {
    v < |children| && exists c: char :: (c, kid) in children[v]
  }

  /** Which nodes have been popped, and how the frontier hangs together. */
  ghost predicate Frontier(m: Machine, x: set<nat>, children: seq<seq<(char, nat)>>, paths: seq<string>, visited: set<nat>,
                           stack: seq<(nat, nat)>) {
    && |paths| == |children|
    && (forall v: nat :: v in visited ==> v < |paths| && Arrived(m, x, paths, v) != {} && !OnStack(stack, v))
    && (forall i, j :: 0 <= i < j < |stack| ==> stack[i].0 != stack[j].0)
    && (forall v: nat, kid: nat :: Kid(children, v, kid) && (kid in visited || OnStack(stack, kid)) ==> v in visited)
    && (forall v: nat, kid: nat :: v in visited && Kid(children, v, kid) && kid < |paths| && Arrived(m, x, paths, kid) != {} ==>
         kid in visited || OnStack(stack, kid))
    && (0 in visited || OnStack(stack, 0))
  }

  /** What has been gathered: exactly the tokens ending at visited nodes, by the pool id of the subset there. */
  ghost predicate Gathered(m: Machine, x: set<nat>, paths: seq<string>, terminals: seq<seq<nat>>, sets: seq<seq<nat>>,
                           visited: set<nat>, byTarget: map<nat, seq<nat>>) {
    && |terminals| == |paths|
    && (forall p: nat :: p in byTarget ==> p < |sets| && byTarget[p] != [])
    && (forall p: nat, id: nat :: p in byTarget && id in byTarget[p] ==> GatheredAt(m, x, paths, terminals, sets, visited, p, id))
    && (forall p: nat, id: nat :: GatheredAt(m, x, paths, terminals, sets, visited, p, id) ==> p in byTarget && id in byTarget[p])
  }

  ghost predicate GatheredAt(m: Machine, x: set<nat>, paths: seq<string>, terminals: seq<seq<nat>>, sets: seq<seq<nat>>,
                             visited: set<nat>, p: nat, id: nat)
    requires |terminals| == |paths|
  {
    p < |sets| && exists v: nat :: v in visited && EndsAt(m, x, paths, terminals, sets, v, p, id)
  }

  ghost predicate EndsAt(m: Machine, x: set<nat>, paths: seq<string>, terminals: seq<seq<nat>>, sets: seq<seq<nat>>, v: nat, p: nat, id: nat)
    requires |terminals| == |paths| && p < |sets|
  {
    v < |paths| && id in terminals[v] && SetOf(sets[p]) == Arrived(m, x, paths, v)
  }

  lemma FrontierStart(m: Machine, x: set<nat>, children: seq<seq<(char, nat)>>, paths: seq<string>, terminals: seq<seq<nat>>,
                      sets: seq<seq<nat>>, src: nat)
    requires Shape(children, paths) && |terminals| == |paths| && src < |sets| && SetOf(sets[src]) == x != {}
    ensures Frontier(m, x, children, paths, {}, [(0, src)]) && StackOk(m, x, paths, sets, [(0, src)])
    ensures Gathered(m, x, paths, terminals, sets, {}, map[])
  {
    hide SetOf;
    assert OnStack([(0, src)], 0) by { assert [(0, src)][0].0 == 0; }
    forall v: nat, kid: nat | Kid(children, v, kid) ensures !OnStack([(0, src)], kid) {
      var c: char :| (c, kid) in children[v];
      assert paths[kid] == paths[v] + [c];
    }
  }

  /** Popping a node moves it from the stack to the visited set. */
  lemma FrontierPop(m: Machine, x: set<nat>, children: seq<seq<(char, nat)>>, paths: seq<string>, sets: seq<seq<nat>>, visited: set<nat>,
                    rest: seq<(nat, nat)>, e: (nat, nat))
    requires Frontier(m, x, children, paths, visited, rest + [e]) && StackOk(m, x, paths, sets, rest + [e])
    ensures EntryOk(m, x, paths, sets, e) && e.0 !in visited && !OnStack(rest, e.0) && StackOk(m, x, paths, sets, rest)
    ensures forall v: nat :: OnStack(rest + [e], v) <==> OnStack(rest, v) || v == e.0
  {
    hide EntryOk, Arrived;
    var stack := rest + [e];
    assert stack[|rest|] == e;
    assert EntryOk(m, x, paths, sets, stack[|rest|]);
    assert OnStack(stack, e.0);
    forall i | 0 <= i < |rest| ensures rest[i].0 != e.0 && EntryOk(m, x, paths, sets, rest[i]) {
      assert stack[i] == rest[i];
      assert stack[i].0 != stack[|rest|].0;
    }
    forall v: nat ensures OnStack(stack, v) <==> OnStack(rest, v) || v == e.0 {
      if i :| 0 <= i < |rest| && rest[i].0 == v { assert stack[i].0 == v; }
    }
  }

  /** The popped node is visited and its live children are pushed. */
  lemma FrontierStep(m: Machine, x: set<nat>, children: seq<seq<(char, nat)>>, paths: seq<string>, sets: seq<seq<nat>>, visited: set<nat>,
                     rest: seq<(nat, nat)>, e: (nat, nat), more: seq<(nat, nat)>)
    requires Shape(children, paths) && Frontier(m, x, children, paths, visited, rest + [e]) && StackOk(m, x, paths, sets, rest + [e])
    requires forall i, j :: 0 <= i < j < |more| ==> more[i].0 != more[j].0
    requires forall kid: nat :: OnStack(more, kid) <==> kid < |paths| && Kid(children, e.0, kid) && Arrived(m, x, paths, kid) != {}
    ensures Frontier(m, x, children, paths, visited + {e.0}, rest + more)
  {
    hide EntryOk, Arrived, StackOk;
    FrontierPop(m, x, children, paths, sets, visited, rest, e);
    EntryLive(m, x, paths, sets, e);
    var stack := rest + more;
    forall v: nat ensures OnStack(stack, v) <==> OnStack(rest, v) || OnStack(more, v) {
      if i :| 0 <= i < |rest| && rest[i].0 == v { assert stack[i].0 == v; }
      if i :| 0 <= i < |more| && more[i].0 == v { assert stack[|rest| + i].0 == v; }
      if i :| 0 <= i < |stack| && stack[i].0 == v {
        if i < |rest| { assert rest[i].0 == v; } else { assert more[i - |rest|].0 == v; }
      }
    }
    forall kid: nat | OnStack(more, kid) ensures kid !in visited && kid != e.0 && !OnStack(rest, kid) {
      FreshKid(m, x, children, paths, visited, rest, e, kid);
    }
    forall i, j | 0 <= i < j < |stack| ensures stack[i].0 != stack[j].0 {
      StackDistinct(rest, more, i, j, e, visited);
    }
    forall v: nat, kid: nat | Kid(children, v, kid) && (kid in visited + {e.0} || OnStack(stack, kid)) ensures v in visited + {e.0} {
      if OnStack(more, kid) {
        OneParent(children, paths, v, e.0, kid);
      }
    }
  }

  lemma EntryLive(m: Machine, x: set<nat>, paths: seq<string>, sets: seq<seq<nat>>, e: (nat, nat))
    requires EntryOk(m, x, paths, sets, e)
    ensures e.0 < |paths| && Arrived(m, x, paths, e.0) != {}
  {
  }

  lemma StackDistinct(rest: seq<(nat, nat)>, more: seq<(nat, nat)>, i: int, j: int, e: (nat, nat), visited: set<nat>)
    requires 0 <= i < j < |rest + more|
    requires forall i, j :: 0 <= i < j < |rest + [e]| ==> (rest + [e])[i].0 != (rest + [e])[j].0
    requires forall i, j :: 0 <= i < j < |more| ==> more[i].0 != more[j].0
    requires forall kid: nat :: OnStack(more, kid) ==> !OnStack(rest, kid)
    ensures (rest + more)[i].0 != (rest + more)[j].0
  {
    var stack := rest + more;
    if j < |rest| {
      assert (rest + [e])[i] == stack[i] && (rest + [e])[j] == stack[j];
    } else if i < |rest| {
      assert rest[i] == stack[i] && more[j - |rest|] == stack[j];
      assert OnStack(rest, stack[i].0) && OnStack(more, stack[j].0);
    } else {
      assert more[i - |rest|] == stack[i] && more[j - |rest|] == stack[j];
    }
  }

  lemma OneParent(children: seq<seq<(char, nat)>>, paths: seq<string>, v: nat, u: nat, kid: nat)
    requires Shape(children, paths) && Kid(children, v, kid) && Kid(children, u, kid)
    ensures v == u
  {
    var c: char :| (c, kid) in children[v];
    var d: char :| (d, kid) in children[u];
    LastEqual(paths[v], c, paths[u], d);
  }

  lemma FreshKid(m: Machine, x: set<nat>, children: seq<seq<(char, nat)>>, paths: seq<string>, visited: set<nat>, rest: seq<(nat, nat)>,
                 e: (nat, nat), kid: nat)
    requires Shape(children, paths) && Frontier(m, x, children, paths, visited, rest + [e]) && Kid(children, e.0, kid)
    requires e.0 !in visited && forall v: nat :: OnStack(rest + [e], v) <==> OnStack(rest, v) || v == e.0
    ensures kid !in visited && kid != e.0 && !OnStack(rest, kid)
  {
    var c: char :| (c, kid) in children[e.0];
    assert paths[kid] == paths[e.0] + [c];
  }

  lemma GatherStep(m: Machine, x: set<nat>, paths: seq<string>, terminals: seq<seq<nat>>, sets: seq<seq<nat>>, visited: set<nat>,
                   byTarget: map<nat, seq<nat>>, e: (nat, nat), pool: map<seq<nat>, nat>)
    requires Gathered(m, x, paths, terminals, sets, visited, byTarget) && EntryOk(m, x, paths, sets, e) && Pooled(m, sets, pool)
    ensures var tids := terminals[e.0];
            var next := if tids == [] then byTarget else byTarget[e.1 := (if e.1 in byTarget then byTarget[e.1] else []) + tids];
            Gathered(m, x, paths, terminals, sets, visited + {e.0}, next)
  {
    hide SetOf, Arrived, Pooled;
    var tids := terminals[e.0];
    var next := if tids == [] then byTarget else byTarget[e.1 := (if e.1 in byTarget then byTarget[e.1] else []) + tids];
    forall p: nat, id: nat | p in next && id in next[p] ensures GatheredAt(m, x, paths, terminals, sets, visited + {e.0}, p, id) {
      if p in byTarget && id in byTarget[p] {
        var v: nat :| v in visited && EndsAt(m, x, paths, terminals, sets, v, p, id);
        assert v in visited + {e.0};
      } else {
        assert p == e.1 && id in tids;
        assert EndsAt(m, x, paths, terminals, sets, e.0, p, id) && e.0 in visited + {e.0};
      }
    }
    forall p: nat, id: nat | GatheredAt(m, x, paths, terminals, sets, visited + {e.0}, p, id) ensures p in next && id in next[p] {
      var v: nat :| v in visited + {e.0} && EndsAt(m, x, paths, terminals, sets, v, p, id);
      if v in visited {
        assert GatheredAt(m, x, paths, terminals, sets, visited, p, id);
      } else {
        PoolDistinct(m, sets, pool, p, e.1);
      }
    }
  }

  lemma GatherGrows(m: Machine, x: set<nat>, paths: seq<string>, terminals: seq<seq<nat>>, sets: seq<seq<nat>>, more: seq<seq<nat>>,
                    visited: set<nat>, byTarget: map<nat, seq<nat>>, pool: map<seq<nat>, nat>)
    requires Gathered(m, x, paths, terminals, sets, visited, byTarget) && sets <= more && Pooled(m, more, pool)
    requires forall v: nat :: v in visited ==> v < |paths| && Settled(m, x, paths, sets, v)
    ensures Gathered(m, x, paths, terminals, more, visited, byTarget)
  {
    hide SetOf, Arrived, Pooled;
    forall p: nat, id: nat | p in byTarget && id in byTarget[p] ensures GatheredAt(m, x, paths, terminals, more, visited, p, id) {
      var v: nat :| v in visited && EndsAt(m, x, paths, terminals, sets, v, p, id);
      assert EndsAt(m, x, paths, terminals, more, v, p, id);
    }
    forall p: nat, id: nat | GatheredAt(m, x, paths, terminals, more, visited, p, id) ensures p in byTarget && id in byTarget[p] {
      var v: nat :| v in visited && EndsAt(m, x, paths, terminals, more, v, p, id);
      assert Settled(m, x, paths, sets, v);
      var i: nat :| i < |sets| && SetOf(sets[i]) == Arrived(m, x, paths, v);
      assert sets[i] == more[i];
      PoolDistinct(m, more, pool, p, i);
      assert EndsAt(m, x, paths, terminals, sets, v, p, id);
      assert GatheredAt(m, x, paths, terminals, sets, visited, p, id);
    }
  }

  /** The subset reached at a node is already pooled. */
  ghost predicate Settled(m: Machine, x: set<nat>, paths: seq<string>, sets: seq<seq<nat>>, v: nat)
    requires v < |paths|
  {
    exists i: nat :: i < |sets| && SetOf(sets[i]) == Arrived(m, x, paths, v)
  }

  lemma StackGrows(m: Machine, x: set<nat>, paths: seq<string>, sets: seq<seq<nat>>, more: seq<seq<nat>>, stack: seq<(nat, nat)>)
    requires StackOk(m, x, paths, sets, stack) && sets <= more
    ensures StackOk(m, x, paths, more, stack)
  {
    hide SetOf, Arrived;
    forall i | 0 <= i < |stack| ensures EntryOk(m, x, paths, more, stack[i]) {
      assert EntryOk(m, x, paths, sets, stack[i]);
    }
  }

  /** One edge of the trie is one step of the subset. */
  lemma ArrivedStep(m: Machine, x: set<nat>, children: seq<seq<(char, nat)>>, paths: seq<string>, v: nat, c: char, kid: nat)
    requires Shape(children, paths) && v < |children| && (c, kid) in children[v]
    ensures kid < |paths| && Arrived(m, x, paths, kid) == m.Stepped(Arrived(m, x, paths, v), c)
  {
    hide Machine.Stepped;
    m.RunConcat(x, paths[v], [c]);
    assert [c][1..] == [];
    RunOne(m, Arrived(m, x, paths, v), c);
  }

  lemma RunOne(m: Machine, x: set<nat>, c: char)
    ensures m.Run(x, [c]) == m.Stepped(x, c)
  {
    assert [c][1..] == [];
    assert m.Run(m.Stepped(x, c), []) == m.Stepped(x, c);
  }

  /** Once the stack is empty every live node has been visited. */
  lemma {:induction false} AllVisited(m: Machine, x: set<nat>, children: seq<seq<(char, nat)>>, paths: seq<string>, visited: set<nat>, v: nat)
    requires Shape(children, paths) && Frontier(m, x, children, paths, visited, []) && v < |paths| && Arrived(m, x, paths, v) != {}
    ensures v in visited
  {
    hide Arrived;
    if v == 0 {
    } else {
      var u, c := ParentOf(children, paths, v);
      ArrivedStep(m, x, children, paths, u, c, v);
      m.SteppedEmpty(c);
      AllVisited(m, x, children, paths, visited, u);
      assert Kid(children, u, v);
    }
  }

  /** A token with some text leads the subset to a live subset. */
  ghost predicate Leads(m: Machine, tokens: set<Token>, x: set<nat>, id: nat, y: set<nat>) {
    y != {} && exists t :: t in tokens && t.id == id && m.Run(x, t.text) == y
  }

  /** The outcome of one walk: exactly the tokens that survive, by pooled target. */
  ghost predicate Walked(m: Machine, tokens: set<Token>, x: set<nat>, sets: seq<seq<nat>>, byTarget: map<nat, seq<nat>>) {
    && (forall p: nat :: p in byTarget ==> p < |sets| && byTarget[p] != [])
    && (forall p: nat, id: nat :: p in byTarget && id in byTarget[p] ==> Leads(m, tokens, x, id, SetOf(sets[p])))
    && (forall id: nat, y: set<nat> :: Leads(m, tokens, x, id, y) ==> Found(sets, byTarget, id, y))
  }

  ghost predicate Found(sets: seq<seq<nat>>, byTarget: map<nat, seq<nat>>, id: nat, y: set<nat>) {
    exists p: nat :: p in byTarget && p < |sets| && SetOf(sets[p]) == y && id in byTarget[p]
  }

  lemma WalkDone(m: Machine, x: set<nat>, children: seq<seq<(char, nat)>>, paths: seq<string>, terminals: seq<seq<nat>>, tokens: set<Token>,
                 sets: seq<seq<nat>>, visited: set<nat>, byTarget: map<nat, seq<nat>>)
    requires Shape(children, paths) && Holds(terminals, paths, tokens) && Frontier(m, x, children, paths, visited, [])
    requires Gathered(m, x, paths, terminals, sets, visited, byTarget)
    requires forall v: nat :: v in visited ==> v < |paths| && Settled(m, x, paths, sets, v)
    ensures Walked(m, tokens, x, sets, byTarget)
  {
    hide SetOf;
    forall p: nat, id: nat | p in byTarget && id in byTarget[p] ensures Leads(m, tokens, x, id, SetOf(sets[p])) {
      var v: nat :| v in visited && EndsAt(m, x, paths, terminals, sets, v, p, id);
      assert Token(id, paths[v]) in tokens;
      assert m.Run(x, Token(id, paths[v]).text) == SetOf(sets[p]);
    }
    forall id: nat, y: set<nat> | Leads(m, tokens, x, id, y) ensures Found(sets, byTarget, id, y) {
      var t :| t in tokens && t.id == id && m.Run(x, t.text) == y;
      assert t.text in paths;
      var v: nat :| v < |paths| && paths[v] == t.text;
      AllVisited(m, x, children, paths, visited, v);
      var i: nat :| i < |sets| && SetOf(sets[i]) == Arrived(m, x, paths, v);
      assert t == Token(id, paths[v]);
      assert EndsAt(m, x, paths, terminals, sets, v, i, id);
      assert GatheredAt(m, x, paths, terminals, sets, visited, i, id);
    }
  }

  ghost predicate AllSettled(m: Machine, x: set<nat>, paths: seq<string>, sets: seq<seq<nat>>, visited: set<nat>) {
    forall v: nat :: v in visited ==> v < |paths| && Settled(m, x, paths, sets, v)
  }

  lemma SettledGrows(m: Machine, x: set<nat>, paths: seq<string>, sets: seq<seq<nat>>, more: seq<seq<nat>>, visited: set<nat>)
    requires AllSettled(m, x, paths, sets, visited) && sets <= more
    ensures AllSettled(m, x, paths, more, visited)
  {
    hide SetOf, Arrived;
    forall v: nat | v in visited ensures v < |paths| && Settled(m, x, paths, more, v) {
      var i: nat :| i < |sets| && SetOf(sets[i]) == Arrived(m, x, paths, v);
      assert more[i] == sets[i];
    }
  }

  lemma SettledStep(m: Machine, x: set<nat>, paths: seq<string>, sets: seq<seq<nat>>, visited: set<nat>, e: (nat, nat))
    requires AllSettled(m, x, paths, sets, visited) && EntryOk(m, x, paths, sets, e)
    ensures AllSettled(m, x, paths, sets, visited + {e.0})
  {
    hide SetOf, Arrived;
  }

  /** The children of one node are different nodes. */
  lemma KidsDistinct(children: seq<seq<(char, nat)>>, paths: seq<string>, v: nat, i: nat, j: nat)
    requires Shape(children, paths) && v < |children| && i < j < |children[v]|
    ensures children[v][i].1 != children[v][j].1
  {
    var a, b := children[v][i], children[v][j];
    assert (a.0, a.1) in children[v] && (b.0, b.1) in children[v];
    assert a.1 == b.1 ==> paths[v] + [a.0] == paths[v] + [b.0];
    if a.1 == b.1 { LastEqual(paths[v], a.0, paths[v], b.0); }
  }

  /** The first `k` live children of a node, paired with their subsets. */
  ghost predicate KidsPushed(m: Machine, x: set<nat>, children: seq<seq<(char, nat)>>, paths: seq<string>, v: nat, k: nat,
                             more: seq<(nat, nat)>) {
    && v < |children| && k <= |children[v]|
    && (forall i :: 0 <= i < |more| ==> exists h :: 0 <= h < k && children[v][h].1 == more[i].0)
    && (forall i, j :: 0 <= i < j < |more| ==> more[i].0 != more[j].0)
    && (forall h :: 0 <= h < k ==> children[v][h].1 < |paths|)
    && (forall h :: 0 <= h < k ==> (OnStack(more, children[v][h].1) <==> Arrived(m, x, paths, children[v][h].1) != {}))
  }

  lemma KidPushed(m: Machine, x: set<nat>, children: seq<seq<(char, nat)>>, paths: seq<string>, v: nat, k: nat, more: seq<(nat, nat)>, t: nat)
    requires Shape(children, paths) && KidsPushed(m, x, children, paths, v, k, more) && k < |children[v]|
    requires children[v][k].1 < |paths|
    ensures Arrived(m, x, paths, children[v][k].1) == {} ==> KidsPushed(m, x, children, paths, v, k + 1, more)
    ensures Arrived(m, x, paths, children[v][k].1) != {} ==> KidsPushed(m, x, children, paths, v, k + 1, more + [(children[v][k].1, t)])
  {
    hide Arrived, Shape;
    var kid := children[v][k].1;
    forall h: nat | h < k ensures children[v][h].1 != kid { KidsDistinct(children, paths, v, h, k); }
    assert !OnStack(more, kid);
    var next := more + [(kid, t)];
    forall u: nat ensures OnStack(next, u) <==> OnStack(more, u) || u == kid {
      if i :| 0 <= i < |more| && more[i].0 == u { assert next[i].0 == u; }
      assert next[|more|].0 == kid;
    }
    forall i, j | 0 <= i < j < |next| ensures next[i].0 != next[j].0 {
      assert OnStack(more, next[i].0) by { assert next[i] == more[i]; }
    }
    forall i | 0 <= i < |next| ensures exists h :: 0 <= h < k + 1 && children[v][h].1 == next[i].0 {
      if i < |more| { assert next[i] == more[i]; }
    }
  }

  lemma KidsAll(m: Machine, x: set<nat>, children: seq<seq<(char, nat)>>, paths: seq<string>, v: nat, more: seq<(nat, nat)>)
    requires Shape(children, paths) && v < |children| && KidsPushed(m, x, children, paths, v, |children[v]|, more)
    ensures forall i, j :: 0 <= i < j < |more| ==> more[i].0 != more[j].0
    ensures forall kid: nat :: OnStack(more, kid) <==> kid < |paths| && Kid(children, v, kid) && Arrived(m, x, paths, kid) != {}
  {
    hide Arrived, Shape;
    forall kid: nat ensures OnStack(more, kid) <==> kid < |paths| && Kid(children, v, kid) && Arrived(m, x, paths, kid) != {} {
      if OnStack(more, kid) {
        var i :| 0 <= i < |more| && more[i].0 == kid;
        var h :| 0 <= h < |children[v]| && children[v][h].1 == more[i].0;
        assert (children[v][h].0, kid) in children[v];
      }
      if Kid(children, v, kid) {
        var c: char :| (c, kid) in children[v];
        var h :| 0 <= h < |children[v]| && children[v][h] == (c, kid);
      }
    }
  }

  /** Steps the popped subset along every child and pushes the survivors. */
  method PushKids(trie: TokenTrie, cache: StepCache, stepper: Stepper, e: (nat, nat), ghost m: Machine, ghost x: set<nat>)
    returns (more: seq<(nat, nat)>)
    requires trie.Valid() && cache.Valid(m) && stepper.Valid(m) && EntryOk(m, x, trie.paths, cache.sets, e)
    modifies cache, stepper, stepper.seen
    ensures cache.Valid(m) && stepper.Valid(m) && old(cache.sets) <= cache.sets
    ensures StackOk(m, x, trie.paths, cache.sets, more)
    ensures forall i, j :: 0 <= i < j < |more| ==> more[i].0 != more[j].0
    ensures forall kid: nat :: OnStack(more, kid) <==>
              kid < |trie.paths| && Kid(trie.children, e.0, kid) && Arrived(m, x, trie.paths, kid) != {}
  {
    hide Arrived, Machine.Stepped, SetOf, Shape, Holds, Pooled, Memo, StackOk, KidsPushed, OnStack, EntryOk;
    more := [];
    EntryParts(m, x, trie.paths, cache.sets, e);
    SameLength(trie.children, trie.paths);
    KidsNone(m, x, trie.children, trie.paths, cache.sets, e.0);
    ghost var first := cache.sets;
    for k := 0 to |trie.children[e.0]|
      invariant trie.Valid() && cache.Valid(m) && stepper.Valid(m) && first <= cache.sets
      invariant StackOk(m, x, trie.paths, cache.sets, more)
      invariant KidsPushed(m, x, trie.children, trie.paths, e.0, k, more)
    {
      var (c, kid) := trie.children[e.0][k];
      assert (c, kid) in trie.children[e.0];
      ArrivedStep(m, x, trie.children, trie.paths, e.0, c, kid);
      ghost var before := cache.sets;
      assert first[e.1] == cache.sets[e.1];
      var t := cache.Target(stepper, e.1, c, m);
      assert before[e.1] == cache.sets[e.1];
      StackGrows(m, x, trie.paths, before, cache.sets, more);
      KidPushed(m, x, trie.children, trie.paths, e.0, k, more, if t.Some? then t.value else 0);
      if t.Some? {
        StackPush(m, x, trie.paths, cache.sets, more, (kid, t.value));
        more := more + [(kid, t.value)];
      }
    }
    KidsAll(m, x, trie.children, trie.paths, e.0, more);
  }

  lemma EntryParts(m: Machine, x: set<nat>, paths: seq<string>, sets: seq<seq<nat>>, e: (nat, nat))
    requires EntryOk(m, x, paths, sets, e)
    ensures e.0 < |paths| && e.1 < |sets| && SetOf(sets[e.1]) == Arrived(m, x, paths, e.0)
  {
  }

  lemma KidsNone(m: Machine, x: set<nat>, children: seq<seq<(char, nat)>>, paths: seq<string>, sets: seq<seq<nat>>, v: nat)
    requires v < |children|
    ensures KidsPushed(m, x, children, paths, v, 0, []) && StackOk(m, x, paths, sets, [])
  {
  }

  lemma StackPush(m: Machine, x: set<nat>, paths: seq<string>, sets: seq<seq<nat>>, more: seq<(nat, nat)>, e: (nat, nat))
    requires StackOk(m, x, paths, sets, more) && e.0 < |paths| && e.1 < |sets|
    requires SetOf(sets[e.1]) == Arrived(m, x, paths, e.0) != {}
    ensures StackOk(m, x, paths, sets, more + [e])
  {
    hide SetOf, Arrived;
  }

  lemma StackJoin(m: Machine, x: set<nat>, paths: seq<string>, sets: seq<seq<nat>>, rest: seq<(nat, nat)>, more: seq<(nat, nat)>)
    requires StackOk(m, x, paths, sets, rest) && StackOk(m, x, paths, sets, more)
    ensures StackOk(m, x, paths, sets, rest + more)
  {
    hide EntryOk;
  }

  lemma VisitedSmall(m: Machine, x: set<nat>, children: seq<seq<(char, nat)>>, paths: seq<string>, visited: set<nat>, stack: seq<(nat, nat)>)
    requires Frontier(m, x, children, paths, visited, stack)
    ensures |visited| <= |paths|
  {
    hide Arrived, OnStack, Kid;
    SubsetSize(visited, Below(|paths|));
  }

  ghost function Below(n: nat): (r: set<nat>)
    ensures |r| == n && forall v: nat :: v in r <==> v < n
  {
    if n == 0 then {} else Below(n - 1) + {n - 1}
  }

  lemma {:induction false} SubsetSize(a: set<nat>, b: set<nat>)
    requires a <= b
    ensures |a| <= |b|
  {
    if a != {} {
      var x :| x in a;
      SubsetSize(a - {x}, b - {x});
    }
  }

  /** The token walk of one subset: every surviving token, by the pooled subset it leads to. */
  method Walk(trie: TokenTrie, cache: StepCache, stepper: Stepper, src: nat, ghost m: Machine, ghost x: set<nat>)
    returns (byTarget: map<nat, seq<nat>>)
    requires trie.Valid() && cache.Valid(m) && stepper.Valid(m)
    requires src < |cache.sets| && SetOf(cache.sets[src]) == x != {}
    modifies cache, stepper, stepper.seen
    ensures cache.Valid(m) && stepper.Valid(m) && old(cache.sets) <= cache.sets
    ensures Walked(m, trie.tokens, x, cache.sets, byTarget)
  {
    hide Arrived, Machine.Stepped, SetOf, Shape, Holds, Memo, Pooled, StackOk, EntryOk, Frontier, Gathered, AllSettled, Walked, OnStack, Kid;
    byTarget := map[];
    var stack := [(0, src)];
    ghost var visited: set<nat> := {};
    HeldLength(trie.terminals, trie.paths, trie.tokens);
    SameLength(trie.children, trie.paths);
    FrontierStart(m, x, trie.children, trie.paths, trie.terminals, cache.sets, src);
    NoneSettled(m, x, trie.paths, cache.sets);
    while stack != []
      invariant trie.Valid() && cache.Valid(m) && stepper.Valid(m) && old(cache.sets) <= cache.sets
      invariant Frontier(m, x, trie.children, trie.paths, visited, stack) && StackOk(m, x, trie.paths, cache.sets, stack)
      invariant Gathered(m, x, trie.paths, trie.terminals, cache.sets, visited, byTarget)
      invariant AllSettled(m, x, trie.paths, cache.sets, visited) && |visited| <= |trie.paths|
      decreases |trie.paths| - |visited|
    {
      var e := stack[|stack| - 1];
      var rest := stack[..|stack| - 1];
      assert stack == rest + [e];
      FrontierPop(m, x, trie.children, trie.paths, cache.sets, visited, rest, e);
      EntryParts(m, x, trie.paths, cache.sets, e);
      GatherStep(m, x, trie.paths, trie.terminals, cache.sets, visited, byTarget, e, cache.pool);
      SettledStep(m, x, trie.paths, cache.sets, visited, e);
      var tids := trie.terminals[e.0];
      if tids != [] {
        byTarget := byTarget[e.1 := (if e.1 in byTarget then byTarget[e.1] else []) + tids];
      }
      ghost var before := cache.sets;
      var more := PushKids(trie, cache, stepper, e, m, x);
      FrontierStep(m, x, trie.children, trie.paths, before, visited, rest, e, more);
      visited := visited + {e.0};
      SettledIs(m, x, trie.paths, before, visited);
      GatherGrows(m, x, trie.paths, trie.terminals, before, cache.sets, visited, byTarget, cache.pool);
      SettledGrows(m, x, trie.paths, before, cache.sets, visited);
      StackGrows(m, x, trie.paths, before, cache.sets, rest);
      StackJoin(m, x, trie.paths, cache.sets, rest, more);
      VisitedSmall(m, x, trie.children, trie.paths, visited, rest + more);
      stack := rest + more;
    }
    SettledIs(m, x, trie.paths, cache.sets, visited);
    WalkDone(m, x, trie.children, trie.paths, trie.terminals, trie.tokens, cache.sets, visited, byTarget);
  }

  lemma NoneSettled(m: Machine, x: set<nat>, paths: seq<string>, sets: seq<seq<nat>>)
    ensures AllSettled(m, x, paths, sets, {})
  {
  }

  lemma SettledIs(m: Machine, x: set<nat>, paths: seq<string>, sets: seq<seq<nat>>, visited: set<nat>)
    requires AllSettled(m, x, paths, sets, visited)
    ensures forall v: nat :: v in visited ==> v < |paths| && Settled(m, x, paths, sets, v)
  {
  }
}
