/** The subset graph explored from the start subset, one token walk per subset. */
module SubsetGraphs {
  import opened Prelude
  import opened Languages
  import opened Nfas
  import opened Subsets
  import opened Steppers
  import opened Tries
  import opened Walks
  import opened Values

  const MAX_SUBSETS: nat := 8192

  // ---- targets in set order ----

  /** Lexicographic order on lists. */
  predicate LexLeq(a: seq<nat>, b: seq<nat>) {
    if a == [] then true
    else if b == [] then false
    else a[0] < b[0] || (a[0] == b[0] && LexLeq(a[1..], b[1..]))
  }

  /** The first difference of two lists is at `i`, and `a` has the smaller number there. */
  ghost predicate LessAt(a: seq<nat>, b: seq<nat>, i: nat) {
    i < |a| && i < |b| && a[i] < b[i] && forall j :: 0 <= j < i ==> a[j] == b[j]
  }

  /** A list comes first if it is a prefix of the other or smaller at the first difference. */
  lemma {:induction false} LexMeans(a: seq<nat>, b: seq<nat>)
    ensures LexLeq(a, b) <==> a <= b || exists i: nat :: LessAt(a, b, i)
    decreases |a|
  {
    if a != [] && b != [] {
      var x, y := a[1..], b[1..];
      LexMeans(x, y);
      assert a == [a[0]] + x && b == [b[0]] + y;
      if i: nat :| LessAt(x, y, i) && a[0] == b[0] {
        assert LessAt(a, b, i + 1);
      }
      if i: nat :| LessAt(a, b, i) && i > 0 {
        assert a[0] == b[0] && LessAt(x, y, i - 1);
      }
      if a[0] < b[0] { assert LessAt(a, b, 0); }
    }
  }

  lemma {:induction false} LexTotal(a: seq<nat>, b: seq<nat>)
    ensures LexLeq(a, b) || LexLeq(b, a)
    ensures LexLeq(a, b) && LexLeq(b, a) ==> a == b
  {
    if a != [] && b != [] {
      LexTotal(a[1..], b[1..]);
      assert a == [a[0]] + a[1..] && b == [b[0]] + b[1..];
    }
  }

  lemma {:induction false} LexTrans(a: seq<nat>, b: seq<nat>, c: seq<nat>)
    requires LexLeq(a, b) && LexLeq(b, c)
    ensures LexLeq(a, c)
  {
    if a != [] && b != [] && c != [] && a[0] == b[0] == c[0] {
      LexTrans(a[1..], b[1..], c[1..]);
    }
  }

  /** One reached subset with the tokens that lead to it. */
  datatype Reached = Reached(subset: seq<nat>, ids: seq<nat>)

  function InsertTarget(t: Reached, ts: seq<Reached>): seq<Reached> {
    if ts == [] || LexLeq(t.subset, ts[0].subset) then [t] + ts else [ts[0]] + InsertTarget(t, ts[1..])
  }

  ghost predicate InSetOrder(ts: seq<Reached>) {
    forall i, j :: 0 <= i < j < |ts| ==> LexLeq(ts[i].subset, ts[j].subset)
  }

  lemma {:induction false} InsertTargetOrder(t: Reached, ts: seq<Reached>)
    requires InSetOrder(ts)
    ensures InSetOrder(InsertTarget(t, ts)) && forall u :: u in InsertTarget(t, ts) <==> u == t || u in ts
  {
    var r := InsertTarget(t, ts);
    if ts == [] || LexLeq(t.subset, ts[0].subset) {
      forall i, j | 0 <= i < j < |r| ensures LexLeq(r[i].subset, r[j].subset) {
        if i == 0 && j > 1 { LexTrans(t.subset, ts[0].subset, ts[j - 1].subset); }
      }
    } else {
      InsertTargetOrder(t, ts[1..]);
      LexTotal(t.subset, ts[0].subset);
      var rest := InsertTarget(t, ts[1..]);
      assert ts == [ts[0]] + ts[1..];
      forall i, j | 0 <= i < j < |r| ensures LexLeq(r[i].subset, r[j].subset) {
        if i == 0 {
          assert rest[j - 1] in rest;
          if rest[j - 1] in ts[1..] {
            var h :| 0 <= h < |ts[1..]| && ts[1..][h] == rest[j - 1];
            assert ts[h + 1] == rest[j - 1];
          }
        }
      }
    }
  }

  /** The targets of one walk, in set order, so that numbering does not depend on how the map is iterated. */
  method Targets(byTarget: map<nat, seq<nat>>, sets: seq<seq<nat>>) returns (ts: seq<Reached>)
    requires forall p :: p in byTarget ==> p < |sets|
    ensures InSetOrder(ts)
    ensures forall t :: t in ts <==> FromTarget(byTarget, sets, t)
  {
    hide LexLeq;
    ts := [];
    var keys := byTarget.Keys;
    while keys != {}
      invariant keys <= byTarget.Keys && InSetOrder(ts)
      invariant forall t :: t in ts ==> FromTarget(byTarget, sets, t)
      invariant forall p :: p in byTarget && p !in keys ==> Reached(sets[p], Canonical(byTarget[p])) in ts
    {
      var p :| p in keys;
      var t := Reached(sets[p], Canonical(byTarget[p]));
      assert FromTarget(byTarget, sets, t);
      InsertTargetOrder(t, ts);
      ts := InsertTarget(t, ts);
      keys := keys - {p};
    }
  }

  ghost predicate FromTarget(byTarget: map<nat, seq<nat>>, sets: seq<seq<nat>>, t: Reached)
    requires forall p :: p in byTarget ==> p < |sets|
  {
    exists p :: p in byTarget && t == Reached(sets[p], Canonical(byTarget[p]))
  }

  // ---- the graph ----

  /** The numbered subsets: distinct, live, and accepting exactly when they hold the final state. */
  ghost predicate Numbered(m: Machine, subsets: seq<seq<nat>>, ids: map<seq<nat>, nat>, accept: seq<bool>) {
    && Pooled(m, subsets, ids) && |accept| == |subsets|
    && forall i :: 0 <= i < |subsets| ==> NodeOk(m, subsets[i], accept[i])
  }

  ghost predicate NodeOk(m: Machine, s: seq<nat>, accepting: bool) {
    SetOf(s) != {} && (accepting <==> m.fin in SetOf(s))
  }

  /** The edge map has the token on the edge between the two nodes. */
  ghost predicate EdgeHas(edges: map<(nat, nat), seq<nat>>, i: nat, to: nat, id: nat) {
    (i, to) in edges && id in edges[(i, to)]
  }

  /** Node `i` has its whole row: exactly the tokens that lead it to live subsets. */
  ghost predicate RowDone(m: Machine, tokens: set<Token>, subsets: seq<seq<nat>>, edges: map<(nat, nat), seq<nat>>, i: nat)
    requires i < |subsets|
  {
    && (forall to: nat :: (i, to) in edges ==> to < |subsets| && edges[(i, to)] != [])
    && (forall to: nat, id: nat :: EdgeHas(edges, i, to, id) ==> to < |subsets| && Leads(m, tokens, SetOf(subsets[i]), id, SetOf(subsets[to])))
    && (forall id: nat, y: set<nat> :: Leads(m, tokens, SetOf(subsets[i]), id, y) ==> Shown(subsets, edges, i, id, y))
  }

  ghost predicate Shown(subsets: seq<seq<nat>>, edges: map<(nat, nat), seq<nat>>, i: nat, id: nat, y: set<nat>) {
    exists to: nat :: to < |subsets| && SetOf(subsets[to]) == y && EdgeHas(edges, i, to, id)
  }

  lemma RowGrows(m: Machine, tokens: set<Token>, subsets: seq<seq<nat>>, more: seq<seq<nat>>, edges: map<(nat, nat), seq<nat>>,
                 edges2: map<(nat, nat), seq<nat>>, i: nat)
    requires i < |subsets| && subsets <= more && RowDone(m, tokens, subsets, edges, i)
    requires forall to: nat :: ((i, to) in edges <==> (i, to) in edges2) && ((i, to) in edges ==> edges[(i, to)] == edges2[(i, to)])
    ensures RowDone(m, tokens, more, edges2, i)
  {
    hide SetOf, Leads;
    forall to: nat, id: nat | EdgeHas(edges2, i, to, id) ensures to < |more| && Leads(m, tokens, SetOf(more[i]), id, SetOf(more[to])) {
      assert EdgeHas(edges, i, to, id);
    }
    forall id: nat, y: set<nat> | Leads(m, tokens, SetOf(more[i]), id, y) ensures Shown(more, edges2, i, id, y) {
      assert Shown(subsets, edges, i, id, y);
      var to: nat :| to < |subsets| && SetOf(subsets[to]) == y && EdgeHas(edges, i, to, id);
      assert more[to] == subsets[to] && EdgeHas(edges2, i, to, id);
    }
  }

  /** The waiting nodes are the ones after the processed prefix, in order. */
  ghost predicate Waiting(queue: seq<nat>, queued: seq<bool>, from: nat, n: nat) {
    && from <= n && |queue| == n - from && |queued| == n
    && (forall i :: 0 <= i < |queue| ==> queue[i] == from + i)
    && forall i :: 0 <= i < n ==> queued[i]
  }

  class SubsetGraph {
    var subsets: seq<seq<nat>>
    var ids: map<seq<nat>, nat>
    var accept: seq<bool>
    var edges: map<(nat, nat), seq<nat>>
    var queue: seq<nat>
    var queued: seq<bool>

    ghost predicate Valid(m: Machine)
      reads this
    {
      m.Valid() && Numbered(m, subsets, ids, accept) && |subsets| <= MAX_SUBSETS
    }

    constructor (ghost m: Machine)
      requires m.Valid()
      ensures Valid(m) && subsets == [] && edges == map[] && queue == [] && queued == []
    {
      subsets, ids, accept, edges, queue, queued := [], map[], [], map[], [], [];
    }

    /** `id_of`: the number of a subset, made on first sight unless the cap is reached. */
    method IdOf(s: seq<nat>, fin: nat, ghost m: Machine) returns (r: Result<nat, SchemaError>)
      requires Valid(m) && Subset(m, s) && SetOf(s) != {} && fin == m.fin
      modifies this`subsets, this`ids, this`accept, this`queued
      ensures Valid(m) && old(subsets) <= subsets
      ensures r.Ok? ==> r.value < |subsets| && subsets[r.value] == s
      ensures r.Ok? ==> (subsets == old(subsets) && queued == old(queued)) ||
                        (r.value == |old(subsets)| && subsets == old(subsets) + [s] && queued == old(queued) + [false])
      ensures r.Err? ==> r.error == TooManyStates(MAX_SUBSETS + 1, MAX_SUBSETS)
      ensures r.Err? ==> subsets == old(subsets) && |subsets| == MAX_SUBSETS && s !in subsets
    {
      hide Subset, SetOf;
      if s in ids {
        return Ok(ids[s]);
      }
      if |subsets| >= MAX_SUBSETS {
        return Err(TooManyStates(|subsets| + 1, MAX_SUBSETS));
      }
      var id := |subsets|;
      Fin(s, fin);
      subsets := subsets + [s];
      accept := accept + [fin in s];
      queued := queued + [false];
      ids := ids[s := id];
      return Ok(id);
    }

    lemma Fin(s: seq<nat>, fin: nat)
      ensures fin in s <==> fin in SetOf(s)
    {
    }

    /** Records the tokens of one target and queues it when it is new. */
    method AddTarget(from: nat, to: nat, tids: seq<nat>)
      requires to < |queued|
      modifies this`edges, this`queue, this`queued
      ensures edges == old(edges)[(from, to) := (if (from, to) in old(edges) then old(edges)[(from, to)] else []) + tids]
      ensures queued == old(queued)[to := true]
      ensures queue == if old(queued)[to] then old(queue) else old(queue) + [to]
    {
      edges := edges[(from, to) := (if (from, to) in edges then edges[(from, to)] else []) + tids];
      if !queued[to] {
        queued := queued[to := true];
        queue := queue + [to];
      }
    }
  }

  // ---- one row ----

  /** The row of `from` after the first `k` targets. */
  ghost predicate RowUpTo(subsets: seq<seq<nat>>, edges: map<(nat, nat), seq<nat>>, from: nat, ts: seq<Reached>, k: nat) {
    && k <= |ts|
    && (forall to: nat :: (from, to) in edges ==> to < |subsets| && edges[(from, to)] != [])
    && (forall to: nat, id: nat :: EdgeHas(edges, from, to, id) ==> FromPrefix(subsets, ts, k, to, id))
    && (forall j, id: nat :: 0 <= j < k && id in ts[j].ids ==> ToSubset(subsets, edges, from, ts[j].subset, id))
  }

  ghost predicate FromPrefix(subsets: seq<seq<nat>>, ts: seq<Reached>, k: nat, to: nat, id: nat) {
    to < |subsets| && exists j :: 0 <= j < k <= |ts| && ts[j].subset == subsets[to] && id in ts[j].ids
  }

  ghost predicate ToSubset(subsets: seq<seq<nat>>, edges: map<(nat, nat), seq<nat>>, from: nat, s: seq<nat>, id: nat) {
    exists to: nat :: to < |subsets| && subsets[to] == s && EdgeHas(edges, from, to, id)
  }

  lemma RowStart(subsets: seq<seq<nat>>, edges: map<(nat, nat), seq<nat>>, from: nat, ts: seq<Reached>)
    requires forall to: nat :: (from, to) !in edges
    ensures RowUpTo(subsets, edges, from, ts, 0)
  {
  }

  lemma RowStep(subsets: seq<seq<nat>>, more: seq<seq<nat>>, edges: map<(nat, nat), seq<nat>>, from: nat, ts: seq<Reached>, k: nat, to: nat)
    requires RowUpTo(subsets, edges, from, ts, k) && k < |ts| && subsets <= more && to < |more| && more[to] == ts[k].subset && ts[k].ids != []
    ensures RowUpTo(more, edges[(from, to) := (if (from, to) in edges then edges[(from, to)] else []) + ts[k].ids], from, ts, k + 1)
  {
    var next := edges[(from, to) := (if (from, to) in edges then edges[(from, to)] else []) + ts[k].ids];
    forall t: nat, id: nat | EdgeHas(next, from, t, id) ensures FromPrefix(more, ts, k + 1, t, id) {
      if EdgeHas(edges, from, t, id) {
        assert FromPrefix(subsets, ts, k, t, id);
        var j :| 0 <= j < k && ts[j].subset == subsets[t] && id in ts[j].ids;
        assert more[t] == subsets[t];
      } else {
        assert t == to && id in ts[k].ids;
      }
    }
    forall j, id: nat | 0 <= j < k + 1 && id in ts[j].ids ensures ToSubset(more, next, from, ts[j].subset, id) {
      if j < k {
        assert ToSubset(subsets, edges, from, ts[j].subset, id);
        var t: nat :| t < |subsets| && subsets[t] == ts[j].subset && EdgeHas(edges, from, t, id);
        assert more[t] == subsets[t] && EdgeHas(next, from, t, id);
      } else {
        assert EdgeHas(next, from, to, id);
      }
    }
  }

  /** All targets recorded: the row is exactly the walk's outcome. */
  lemma RowFinish(m: Machine, tokens: set<Token>, x: set<nat>, sets: seq<seq<nat>>, byTarget: map<nat, seq<nat>>, ts: seq<Reached>,
                  subsets: seq<seq<nat>>, edges: map<(nat, nat), seq<nat>>, from: nat)
    requires Walked(m, tokens, x, sets, byTarget) && (forall p :: p in byTarget ==> p < |sets|)
    requires forall t :: t in ts <==> FromTarget(byTarget, sets, t)
    requires from < |subsets| && SetOf(subsets[from]) == x && RowUpTo(subsets, edges, from, ts, |ts|)
    ensures RowDone(m, tokens, subsets, edges, from)
  {
    hide SetOf, Leads;
    forall to: nat, id: nat | EdgeHas(edges, from, to, id) ensures to < |subsets| && Leads(m, tokens, x, id, SetOf(subsets[to])) {
      assert FromPrefix(subsets, ts, |ts|, to, id);
      var j :| 0 <= j < |ts| && ts[j].subset == subsets[to] && id in ts[j].ids;
      assert ts[j] in ts;
      var p :| p in byTarget && ts[j] == Reached(sets[p], Canonical(byTarget[p]));
      assert id in byTarget[p];
    }
    forall id: nat, y: set<nat> | Leads(m, tokens, x, id, y) ensures Shown(subsets, edges, from, id, y) {
      assert Found(sets, byTarget, id, y);
      var p: nat :| p in byTarget && p < |sets| && SetOf(sets[p]) == y && id in byTarget[p];
      var t := Reached(sets[p], Canonical(byTarget[p]));
      assert FromTarget(byTarget, sets, t);
      var j :| 0 <= j < |ts| && ts[j] == t;
      assert ToSubset(subsets, edges, from, ts[j].subset, id);
      var to: nat :| to < |subsets| && subsets[to] == ts[j].subset && EdgeHas(edges, from, to, id);
    }
  }

  /** What a walk's targets are: pooled live subsets with at least one token. */
  lemma TargetOk(m: Machine, tokens: set<Token>, x: set<nat>, sets: seq<seq<nat>>, pool: map<seq<nat>, nat>, byTarget: map<nat, seq<nat>>,
                 ts: seq<Reached>, k: nat)
    requires Walked(m, tokens, x, sets, byTarget) && Pooled(m, sets, pool) && (forall p :: p in byTarget ==> p < |sets|)
    requires (forall t :: t in ts <==> FromTarget(byTarget, sets, t)) && k < |ts|
    ensures Subset(m, ts[k].subset) && SetOf(ts[k].subset) != {} && ts[k].ids != []
  {
    hide SetOf, Subset;
    assert ts[k] in ts;
    var p :| p in byTarget && ts[k] == Reached(sets[p], Canonical(byTarget[p]));
    var id := byTarget[p][0];
    assert id in byTarget[p];
    assert id in ts[k].ids;
    assert Leads(m, tokens, x, id, SetOf(sets[p]));
  }

  /** Every processed node has its row, no other node has any edge. */
  ghost predicate RowsDone(m: Machine, tokens: set<Token>, subsets: seq<seq<nat>>, edges: map<(nat, nat), seq<nat>>, from: nat) {
    && from <= |subsets|
    && (forall i: nat :: i < from ==> RowDone(m, tokens, subsets, edges, i))
    && forall i: nat, to: nat :: (i, to) in edges ==> i < from
  }

  lemma OtherRows(m: Machine, tokens: set<Token>, subsets: seq<seq<nat>>, more: seq<seq<nat>>, edges: map<(nat, nat), seq<nat>>,
                  edges2: map<(nat, nat), seq<nat>>, from: nat)
    requires RowsDone(m, tokens, subsets, edges, from) && subsets <= more && from < |more| && RowDone(m, tokens, more, edges2, from)
    requires forall i: nat, to: nat :: i != from ==> ((i, to) in edges <==> (i, to) in edges2)
    requires forall i: nat, to: nat :: i != from && (i, to) in edges ==> edges[(i, to)] == edges2[(i, to)]
    ensures RowsDone(m, tokens, more, edges2, from + 1)
  {
    hide RowDone;
    forall i: nat | i < from + 1 ensures RowDone(m, tokens, more, edges2, i) {
      if i < from { RowGrows(m, tokens, subsets, more, edges, edges2, i); }
    }
  }

  // ---- which subsets are met ----

  /** The texts of the tokens. */
  ghost function TextsOf(tokens: set<Token>): Lang {
    iset t | t in tokens :: t.text
  }

  /** Some run of tokens leads the start subset here. */
  ghost predicate Met(m: Machine, tokens: set<Token>, y: set<nat>) {
    exists w :: w in Star(TextsOf(tokens)) && m.Run(m.Start(), w) == y
  }

  ghost predicate AllMet(m: Machine, tokens: set<Token>, subsets: seq<seq<nat>>) {
    forall i :: 0 <= i < |subsets| ==> Met(m, tokens, SetOf(subsets[i]))
  }

  /** More subsets are met than the cap allows. */
  ghost predicate TooMany(m: Machine, tokens: set<Token>) {
    exists ys: seq<set<nat>> :: |ys| == MAX_SUBSETS + 1 && Distinct(ys) && forall i :: 0 <= i < |ys| ==> ys[i] != {} && Met(m, tokens, ys[i])
  }

  lemma MetStart(m: Machine, tokens: set<Token>, s: seq<nat>)
    requires SetOf(s) == m.Start()
    ensures AllMet(m, tokens, [s])
  {
    assert InStar(TextsOf(tokens), []);
    assert m.Run(m.Start(), []) == m.Start();
  }

  lemma MetNext(m: Machine, tokens: set<Token>, x: set<nat>, id: nat, y: set<nat>)
    requires Met(m, tokens, x) && Leads(m, tokens, x, id, y)
    ensures Met(m, tokens, y)
  {
    hide Machine.Run, Machine.Start;
    var w :| w in Star(TextsOf(tokens)) && m.Run(m.Start(), w) == x;
    var t :| t in tokens && t.id == id && m.Run(x, t.text) == y;
    StarOne(TextsOf(tokens), t.text);
    StarConcat(TextsOf(tokens), w, t.text);
    m.RunConcat(m.Start(), w, t.text);
  }

  /** A refused subset is one more than the cap. */
  lemma OneTooMany(m: Machine, tokens: set<Token>, subsets: seq<seq<nat>>, ids: map<seq<nat>, nat>, accept: seq<bool>, s: seq<nat>)
    requires Numbered(m, subsets, ids, accept) && |subsets| == MAX_SUBSETS && AllMet(m, tokens, subsets)
    requires Subset(m, s) && SetOf(s) != {} && s !in subsets && Met(m, tokens, SetOf(s))
    ensures TooMany(m, tokens)
  {
    hide SetOf, Subset, Met;
    var all := subsets + [s];
    var ys := seq(|all|, i requires 0 <= i < |all| => SetOf(all[i]));
    forall i: nat, j: nat | i < j < |ys| ensures ys[i] != ys[j] {
      assert all[i] == subsets[i];
      if ys[i] == ys[j] {
        if j < |subsets| {
          PoolDistinct(m, subsets, ids, i, j);
        } else {
          SameSubset(m, subsets[i], s);
        }
      }
    }
    forall i | 0 <= i < |ys| ensures ys[i] != {} && Met(m, tokens, ys[i]) {
      if i < |subsets| { assert NodeOk(m, subsets[i], accept[i]); }
    }
  }

  ghost predicate IsNumber(y: set<nat>, subsets: seq<seq<nat>>, i: nat) {
    i < |subsets| && SetOf(subsets[i]) == y
  }

  ghost predicate HasNumber(y: set<nat>, subsets: seq<seq<nat>>) {
    exists i: nat :: IsNumber(y, subsets, i)
  }

  /** Once every row is complete, whatever a run of tokens reaches alive has a number. */
  lemma {:induction false} RunFound(m: Machine, tokens: set<Token>, subsets: seq<seq<nat>>, edges: map<(nat, nat), seq<nat>>, i: nat, w: string)
    requires RowsDone(m, tokens, subsets, edges, |subsets|) && i < |subsets| && w in Star(TextsOf(tokens))
    requires m.Run(SetOf(subsets[i]), w) != {}
    ensures HasNumber(m.Run(SetOf(subsets[i]), w), subsets)
    decreases |w|
  {
    hide SetOf, Machine.Run, RowDone;
    var x := SetOf(subsets[i]);
    if w == [] {
      assert m.Run(x, []) == x by { RunNothing(m, x); }
      assert IsNumber(x, subsets, i);
    } else {
      var u, v := StarSplit(TextsOf(tokens), w);
      m.RunConcat(x, u, v);
      m.RunEmpty(v);
      var t :| t in tokens && t.text == u;
      var y := m.Run(x, u);
      assert Leads(m, tokens, x, t.id, y);
      LeadShown(m, tokens, subsets, edges, i, t.id, y);
      var to: nat :| to < |subsets| && SetOf(subsets[to]) == y && EdgeHas(edges, i, to, t.id);
      RunFound(m, tokens, subsets, edges, to, v);
    }
  }

  lemma RunNothing(m: Machine, x: set<nat>)
    ensures m.Run(x, []) == x
  {
  }

  lemma LeadShown(m: Machine, tokens: set<Token>, subsets: seq<seq<nat>>, edges: map<(nat, nat), seq<nat>>, i: nat, id: nat, y: set<nat>)
    requires RowsDone(m, tokens, subsets, edges, |subsets|) && i < |subsets| && Leads(m, tokens, SetOf(subsets[i]), id, y)
    ensures Shown(subsets, edges, i, id, y)
  {
    hide SetOf, Leads;
    assert RowDone(m, tokens, subsets, edges, i);
  }

  /** A finished graph within the cap has met no more subsets than the cap. */
  lemma NotTooMany(m: Machine, tokens: set<Token>, subsets: seq<seq<nat>>, edges: map<(nat, nat), seq<nat>>)
    requires RowsDone(m, tokens, subsets, edges, |subsets|) && 0 < |subsets| <= MAX_SUBSETS && SetOf(subsets[0]) == m.Start()
    ensures !TooMany(m, tokens)
  {
    hide SetOf, RowDone, Machine.Run, Machine.Start;
    if TooMany(m, tokens) {
      var ys: seq<set<nat>> :| |ys| == MAX_SUBSETS + 1 && Distinct(ys) && forall i :: 0 <= i < |ys| ==> ys[i] != {} && Met(m, tokens, ys[i]);
      var os: seq<nat> := [];
      for k := 0 to |ys|
        invariant |os| == k && Distinct(os) && forall i :: 0 <= i < k ==> IsNumber(ys[i], subsets, os[i])
      {
        var w :| w in Star(TextsOf(tokens)) && m.Run(m.Start(), w) == ys[k];
        RunFound(m, tokens, subsets, edges, 0, w);
        var o: nat :| IsNumber(ys[k], subsets, o);
        forall i | 0 <= i < k ensures os[i] != o {
          assert ys[i] != ys[k];
        }
        os := os + [o];
      }
      Pigeonhole(os, |subsets|);
    }
  }

  /** Edges of every source but one are as they were. */
  ghost predicate OthersSame(edges: map<(nat, nat), seq<nat>>, edges2: map<(nat, nat), seq<nat>>, from: nat) {
    && (forall i: nat, to: nat :: i != from ==> ((i, to) in edges <==> (i, to) in edges2))
    && forall i: nat, to: nat :: i != from && (i, to) in edges ==> edges[(i, to)] == edges2[(i, to)]
  }

  /** Expands one node: its walk, its targets in set order, their numbers and edges. */
  method Expand(g: SubsetGraph, trie: TokenTrie, cache: StepCache, stepper: Stepper, from: nat, fin: nat, ghost m: Machine)
    returns (failed: Option<SchemaError>)
    requires g.Valid(m) && trie.Valid() && cache.Valid(m) && stepper.Valid(m) && fin == m.fin && from < |g.subsets|
    requires Waiting(g.queue, g.queued, from + 1, |g.subsets|) && RowsDone(m, trie.tokens, g.subsets, g.edges, from)
    requires AllMet(m, trie.tokens, g.subsets)
    modifies g, cache, stepper, stepper.seen
    ensures g.Valid(m) && cache.Valid(m) && stepper.Valid(m) && old(g.subsets) <= g.subsets
    ensures failed.None? ==> Waiting(g.queue, g.queued, from + 1, |g.subsets|) && RowsDone(m, trie.tokens, g.subsets, g.edges, from + 1)
    ensures failed.None? ==> AllMet(m, trie.tokens, g.subsets)
    ensures failed.Some? ==> failed.value == TooManyStates(MAX_SUBSETS + 1, MAX_SUBSETS) && TooMany(m, trie.tokens)
  {
    hide AllMet, Met, TooMany, Leads;
    hide SetOf, Subset, Pooled, Memo, Walked, RowUpTo, RowDone, OthersSame, Shape, Holds, Machine.ClosedSet, FromTarget;
    ghost var s0, e0 := g.subsets, g.edges;
    NodeLive(m, g.subsets, g.ids, g.accept, from);
    ghost var x := SetOf(g.subsets[from]);
    var src := cache.Intern(g.subsets[from], m);
    var byTarget := Walk(trie, cache, stepper, src, m, x);
    WalkedRange(m, trie.tokens, x, cache.sets, byTarget);
    var ts := Targets(byTarget, cache.sets);
    NoEdgesYet(m, trie.tokens, g.subsets, g.edges, from);
    RowStart(g.subsets, g.edges, from, ts);
    SameEdges(e0, from);
    ghost var pooled := cache.sets;
    for k := 0 to |ts|
      invariant cache.Valid(m) && stepper.Valid(m) && cache.sets == pooled
      invariant g.Valid(m) && s0 <= g.subsets && Waiting(g.queue, g.queued, from + 1, |g.subsets|)
      invariant RowUpTo(g.subsets, g.edges, from, ts, k) && OthersSame(e0, g.edges, from)
      invariant AllMet(m, trie.tokens, g.subsets)
    {
      TargetOk(m, trie.tokens, x, cache.sets, cache.pool, byTarget, ts, k);
      TargetMet(m, trie.tokens, g.subsets, from, cache.sets, byTarget, ts, k);
      ghost var before := g.subsets;
      var to := g.IdOf(ts[k].subset, fin, m);
      MetGrows(m, trie.tokens, before, g.subsets, ts[k].subset);
      if to.Err? {
        OneTooMany(m, trie.tokens, g.subsets, g.ids, g.accept, ts[k].subset);
        return Some(to.error);
      }
      RowStep(before, g.subsets, g.edges, from, ts, k, to.value);
      OthersStep(e0, g.edges, from, to.value, ts[k].ids);
      g.AddTarget(from, to.value, ts[k].ids);
    }
    RowFinish(m, trie.tokens, x, cache.sets, byTarget, ts, g.subsets, g.edges, from);
    OthersUnfold(e0, g.edges, from);
    OtherRows(m, trie.tokens, s0, g.subsets, e0, g.edges, from);
    return None;
  }

  lemma TargetMet(m: Machine, tokens: set<Token>, subsets: seq<seq<nat>>, from: nat, sets: seq<seq<nat>>, byTarget: map<nat, seq<nat>>,
                  ts: seq<Reached>, k: nat)
    requires from < |subsets| && AllMet(m, tokens, subsets)
    requires Walked(m, tokens, SetOf(subsets[from]), sets, byTarget) && (forall p :: p in byTarget ==> p < |sets|)
    requires (forall t :: t in ts <==> FromTarget(byTarget, sets, t)) && k < |ts|
    ensures Met(m, tokens, SetOf(ts[k].subset))
  {
    hide SetOf, Leads, Met;
    assert ts[k] in ts;
    var p :| p in byTarget && ts[k] == Reached(sets[p], Canonical(byTarget[p]));
    var id := byTarget[p][0];
    assert id in byTarget[p];
    MetNext(m, tokens, SetOf(subsets[from]), id, SetOf(sets[p]));
  }

  lemma MetGrows(m: Machine, tokens: set<Token>, before: seq<seq<nat>>, after: seq<seq<nat>>, s: seq<nat>)
    requires AllMet(m, tokens, before) && Met(m, tokens, SetOf(s)) && (after == before || after == before + [s])
    ensures AllMet(m, tokens, after)
  {
    hide Met, SetOf;
  }

  lemma NodeLive(m: Machine, subsets: seq<seq<nat>>, ids: map<seq<nat>, nat>, accept: seq<bool>, i: nat)
    requires Numbered(m, subsets, ids, accept) && i < |subsets|
    ensures Subset(m, subsets[i]) && SetOf(subsets[i]) != {}
  {
  }

  lemma WalkedRange(m: Machine, tokens: set<Token>, x: set<nat>, sets: seq<seq<nat>>, byTarget: map<nat, seq<nat>>)
    requires Walked(m, tokens, x, sets, byTarget)
    ensures forall p :: p in byTarget ==> p < |sets|
  {
  }

  lemma NoEdgesYet(m: Machine, tokens: set<Token>, subsets: seq<seq<nat>>, edges: map<(nat, nat), seq<nat>>, from: nat)
    requires RowsDone(m, tokens, subsets, edges, from)
    ensures forall to: nat :: (from, to) !in edges
  {
  }

  lemma SameEdges(edges: map<(nat, nat), seq<nat>>, from: nat)
    ensures OthersSame(edges, edges, from)
  {
  }

  lemma OthersStep(e0: map<(nat, nat), seq<nat>>, edges: map<(nat, nat), seq<nat>>, from: nat, to: nat, tids: seq<nat>)
    requires OthersSame(e0, edges, from)
    ensures OthersSame(e0, edges[(from, to) := (if (from, to) in edges then edges[(from, to)] else []) + tids], from)
  {
  }

  lemma OthersUnfold(e0: map<(nat, nat), seq<nat>>, edges: map<(nat, nat), seq<nat>>, from: nat)
    requires OthersSame(e0, edges, from)
    ensures forall i: nat, to: nat :: i != from ==> ((i, to) in e0 <==> (i, to) in edges)
    ensures forall i: nat, to: nat :: i != from && (i, to) in e0 ==> e0[(i, to)] == edges[(i, to)]
  {
  }

  /** The worklist: every discovered subset is expanded exactly once, in discovery order. */
  method Explore(trie: TokenTrie, stepper: Stepper, start: nat, fin: nat, ghost m: Machine)
    returns (failed: Option<SchemaError>, g: SubsetGraph)
    requires trie.Valid() && stepper.Valid(m) && start == m.start && fin == m.fin
    modifies stepper, stepper.seen
    ensures fresh(g) && g.Valid(m)
    ensures failed.None? ==> RowsDone(m, trie.tokens, g.subsets, g.edges, |g.subsets|) && |g.subsets| > 0 && SetOf(g.subsets[0]) == m.Start()
    ensures failed.None? ==> AllMet(m, trie.tokens, g.subsets)
    ensures failed.Some? ==> failed.value == TooManyStates(MAX_SUBSETS + 1, MAX_SUBSETS)
    ensures failed.Some? <==> TooMany(m, trie.tokens)
  {
    hide SetOf, Pooled, Memo, RowDone, Shape, Holds, Machine.ClosedSet, Machine.Closure, AllMet, Met, TooMany;
    g := new SubsetGraph(m);
    m.ClosureClosed({start});
    var s := stepper.ClosureOnly([start], m, {start});
    SetOfList(s, m.Start());
    var cache := new StepCache(m);
    var id := g.IdOf(s, fin, m);
    if id.Err? {
      assert false;
    }
    assert g.subsets == [s];
    MetStart(m, trie.tokens, s);
    g.queue := g.queue + [id.value];
    g.queued := g.queued[id.value := true];
    var from: nat := 0;
    while g.queue != []
      invariant g.Valid(m) && cache.Valid(m) && stepper.Valid(m) && trie.Valid() && fresh(cache)
      invariant Waiting(g.queue, g.queued, from, |g.subsets|) && RowsDone(m, trie.tokens, g.subsets, g.edges, from)
      invariant |g.subsets| > 0 && SetOf(g.subsets[0]) == m.Start() && AllMet(m, trie.tokens, g.subsets)
      decreases MAX_SUBSETS - from
    {
      var node := g.queue[0];
      g.queue := g.queue[1..];
      failed := Expand(g, trie, cache, stepper, node, fin, m);
      if failed.Some? {
        return failed, g;
      }
      from := from + 1;
    }
    NotTooMany(m, trie.tokens, g.subsets, g.edges);
    failed := None;
  }
}
