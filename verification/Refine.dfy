/** The refinement loop: hash-consed signatures, regrouping, and the count-based exit. */
module Refinement {
  import opened Prelude
  import opened Dfas
  import opened Signatures

  // ---- the trimmed automaton as lists ----

  /** The destination of a token among the arcs of one state. */
  function ArcFor(arcs: seq<Arc>, t: nat): Option<nat> {
    if arcs == [] then None else if t in arcs[0].tokens then Some(arcs[0].dst) else ArcFor(arcs[1..], t)
  }

  ghost predicate ArcsApart(arcs: seq<Arc>) {
    forall i, j, t :: 0 <= i < j < |arcs| && t in arcs[i].tokens ==> t !in arcs[j].tokens
  }

  lemma {:induction false} ArcForExact(arcs: seq<Arc>, t: nat, d: nat)
    requires ArcsApart(arcs)
    ensures ArcFor(arcs, t) == Some(d) <==> exists k :: 0 <= k < |arcs| && t in arcs[k].tokens && arcs[k].dst == d
  {
    if arcs != [] {
      ArcForExact(arcs[1..], t, d);
      if k :| 0 <= k < |arcs[1..]| && t in arcs[1..][k].tokens && arcs[1..][k].dst == d {
        assert t in arcs[k + 1].tokens;
      }
      if k :| 0 <= k < |arcs| && t in arcs[k].tokens && arcs[k].dst == d && k > 0 {
        assert arcs[1..][k - 1] == arcs[k];
      }
    }
  }

  /** A trimmed automaton: one acceptance flag and one arc list per state. */
  ghost predicate Lists(accept: seq<bool>, out: seq<seq<Arc>>) {
    && |accept| == |out|
    && forall p :: 0 <= p < |out| ==> ArcsOk(out[p], |out|) && ArcsApart(out[p])
  }

  ghost function DfaOf(accept: seq<bool>, out: seq<seq<Arc>>): Dfa {
    Dfa(accept, (p: nat, t: nat) => if p < |out| then ArcFor(out[p], t) else None)
  }

  lemma DfaOfValid(accept: seq<bool>, out: seq<seq<Arc>>)
    requires Lists(accept, out)
    ensures DfaOf(accept, out).Valid()
  {
    var d := DfaOf(accept, out);
    forall p: nat, t: nat | p < |accept| && d.next(p, t).Some? ensures d.next(p, t).value < |accept| {
      ArcForExact(out[p], t, d.next(p, t).value);
    }
  }

  /** What a state's arcs reach is its transition function seen through the blocks. */
  lemma TargetIsReach(accept: seq<bool>, out: seq<seq<Arc>>, block: seq<nat>, p: nat, t: nat, b: nat)
    requires Lists(accept, out) && |block| == |out| && p < |out|
    ensures DfaOf(accept, out).Valid()
    ensures DfaOf(accept, out).Target(block, p, t) == Some(b) <==> ArcsReach(out[p], block, b, t)
  {
    DfaOfValid(accept, out);
    var d := DfaOf(accept, out);
    if d.next(p, t).Some? {
      var e := d.next(p, t).value;
      ArcForExact(out[p], t, e);
      var k :| 0 <= k < |out[p]| && t in out[p][k].tokens && out[p][k].dst == e;
      assert ArcHits(out[p][k], block, block[e], t);
    }
    if ArcsReach(out[p], block, b, t) {
      var k :| 0 <= k < |out[p]| && ArcHits(out[p][k], block, b, t);
      ArcForExact(out[p], t, out[p][k].dst);
    }
  }

  /** Two states have equal signatures exactly when they are `SameSig`. */
  lemma SignatureMeans(accept: seq<bool>, out: seq<seq<Arc>>, block: seq<nat>, p: nat, q: nat, mp: seq<Entry>, mq: seq<Entry>)
    requires Lists(accept, out) && |block| == |out| && p < |out| && q < |out|
    requires Canon(mp) && Records(mp, out[p], block) && Canon(mq) && Records(mq, out[q], block)
    ensures DfaOf(accept, out).Valid()
    ensures Encode(accept[p], mp) == Encode(accept[q], mq) <==> DfaOf(accept, out).SameSig(block, p, q)
  {
    hide Canon, Encode, ArcsReach, Reach, DfaOf, Dfa.Target, Dfa.SameSig;
    DfaOfValid(accept, out);
    DfaAccept(accept, out);
    var d := DfaOf(accept, out);
    SignatureExact(accept[p], mp, accept[q], mq);
    forall t: nat, b: nat
      ensures d.Target(block, p, t) == Some(b) <==> Reach(mp, b, t)
      ensures d.Target(block, q, t) == Some(b) <==> Reach(mq, b, t)
    {
      TargetIsReach(accept, out, block, p, t, b);
      TargetIsReach(accept, out, block, q, t, b);
    }
    SameByReach(d, accept, block, p, q, mp, mq);
  }

  lemma DfaAccept(accept: seq<bool>, out: seq<seq<Arc>>)
    ensures DfaOf(accept, out).accept == accept
  {
  }

  lemma SameByReach(d: Dfa, accept: seq<bool>, block: seq<nat>, p: nat, q: nat, mp: seq<Entry>, mq: seq<Entry>)
    requires d.Valid() && |block| == |d.accept| && p < |block| && q < |block|
    requires forall t: nat, b: nat :: d.Target(block, p, t) == Some(b) <==> Reach(mp, b, t)
    requires forall t: nat, b: nat :: d.Target(block, q, t) == Some(b) <==> Reach(mq, b, t)
    ensures d.SameSig(block, p, q) <==>
            d.accept[p] == d.accept[q] && forall b: nat, t: nat :: Reach(mp, b, t) <==> Reach(mq, b, t)
  {
    hide Reach, Dfa.Target;
    if forall b: nat, t: nat :: Reach(mp, b, t) <==> Reach(mq, b, t) {
      forall t: nat ensures d.Target(block, p, t) == d.Target(block, q, t) {
        if d.Target(block, p, t).Some? {
          assert Reach(mp, d.Target(block, p, t).value, t);
        } else if d.Target(block, q, t).Some? {
          assert Reach(mq, d.Target(block, q, t).value, t);
        }
      }
    }
    if d.SameSig(block, p, q) {
      forall b: nat, t: nat ensures Reach(mp, b, t) <==> Reach(mq, b, t) {
        assert d.Target(block, p, t) == d.Target(block, q, t);
      }
    }
  }

  // ---- hash-consing ----

  ghost predicate Appears(ids: seq<nat>, b: nat) {
    exists i :: 0 <= i < |ids| && ids[i] == b
  }

  lemma AppearsAfter(ids: seq<nat>, x: nat, b: nat)
    ensures Appears(ids + [x], b) <==> Appears(ids, b) || b == x
  {
    if i :| 0 <= i < |ids| && ids[i] == b { assert (ids + [x])[i] == b; }
    if b == x { assert (ids + [x])[|ids|] == b; }
  }

  /** The id at `i` was used before, or is larger than every id before it. */
  ghost predicate OldOrNext(ids: seq<nat>, i: nat)
    requires i < |ids|
  {
    (exists j :: 0 <= j < i && ids[j] == ids[i]) || (forall j :: 0 <= j < i ==> ids[j] < ids[i])
  }

  /** Ids follow the order of first appearance. */
  ghost predicate InOrder(ids: seq<nat>) {
    forall i :: 0 <= i < |ids| ==> OldOrNext(ids, i)
  }

  lemma InOrderStep(ids: seq<nat>, x: nat)
    requires InOrder(ids) && (Appears(ids, x) || forall j :: 0 <= j < |ids| ==> ids[j] < x)
    ensures InOrder(ids + [x])
  {
    var next := ids + [x];
    forall i | 0 <= i < |next| ensures OldOrNext(next, i) {
      if i < |ids| {
        assert OldOrNext(ids, i);
        if j :| 0 <= j < i && ids[j] == ids[i] { assert next[j] == next[i]; }
      } else if Appears(ids, x) {
        var j :| 0 <= j < |ids| && ids[j] == x;
        assert next[j] == next[i];
      }
    }
  }

  /** Numbers the keys of a list in order of first appearance: equal keys get equal ids, and every id is used. */
  method Intern<T(==)>(keys: seq<T>) returns (ids: seq<nat>, n: nat)
    ensures |ids| == |keys| && n <= |keys|
    ensures forall i, j :: 0 <= i < |keys| && 0 <= j < |keys| ==> (ids[i] == ids[j] <==> keys[i] == keys[j])
    ensures forall i :: 0 <= i < |ids| ==> ids[i] < n
    ensures forall b :: 0 <= b < n ==> Appears(ids, b)
    ensures InOrder(ids)
  {
    hide InOrder;
    NothingYet();
    var table: map<T, nat> := map[];
    ids, n := [], 0;
    for k := 0 to |keys|
      invariant |ids| == k && n <= k
      invariant forall i :: 0 <= i < k ==> keys[i] in table && table[keys[i]] == ids[i]
      invariant forall x :: x in table ==> table[x] < n && x in keys[..k]
      invariant forall x, y :: x in table && y in table && table[x] == table[y] ==> x == y
      invariant forall b :: 0 <= b < n ==> Appears(ids, b)
      invariant InOrder(ids) && forall i :: 0 <= i < k ==> ids[i] < n
    {
      assert keys[..k + 1] == keys[..k] + [keys[k]];
      ghost var before := ids;
      if keys[k] in table {
        ids := ids + [table[keys[k]]];
      } else {
        table := table[keys[k] := n];
        ids := ids + [n];
        n := n + 1;
      }
      forall b | 0 <= b < n ensures Appears(ids, b) {
        AppearsAfter(before, ids[k], b);
      }
      InOrderStep(before, ids[k]);
    }
  }

  lemma NothingYet()
    ensures InOrder([])
  {
  }

  // ---- one pass ----

  /** Every state's signature under the current blocks. */
  method AllSignatures(accept: seq<bool>, out: seq<seq<Arc>>, block: seq<nat>) returns (sigs: seq<seq<nat>>)
    requires Lists(accept, out) && |block| == |out|
    ensures |sigs| == |out| && DfaOf(accept, out).Valid()
    ensures forall p: nat, q: nat :: p < |out| && q < |out| ==> (sigs[p] == sigs[q] <==> DfaOf(accept, out).SameSig(block, p, q))
  {
    hide Canon, Records, Encode, DfaOf, Dfa.SameSig;
    DfaOfValid(accept, out);
    sigs := [];
    ghost var merges: seq<seq<Entry>> := [];
    for p := 0 to |out|
      invariant |sigs| == p == |merges|
      invariant forall k :: 0 <= k < p ==> Canon(merges[k]) && Records(merges[k], out[k], block)
      invariant forall k :: 0 <= k < p ==> sigs[k] == Encode(accept[k], merges[k])
    {
      var sig;
      ghost var m;
      sig, m := Signature(accept[p], out[p], block);
      sigs := sigs + [sig];
      merges := merges + [m];
    }
    DfaAccept(accept, out);
    forall p: nat, q: nat | p < |out| && q < |out|
      ensures sigs[p] == sigs[q] <==> DfaOf(accept, out).SameSig(block, p, q)
    {
      SignatureMeans(accept, out, block, p, q, merges[p], merges[q]);
    }
  }

  /** One refinement pass: split every block by signature id. */
  method RefinePass(accept: seq<bool>, out: seq<seq<Arc>>, block: seq<nat>) returns (finer: seq<nat>, refined: nat)
    requires Lists(accept, out) && |block| == |out|
    ensures DfaOf(accept, out).Valid() && DfaOf(accept, out).accept == accept && |finer| == |out| && refined <= |out|
    ensures DfaOf(accept, out).Labels(finer, refined) && DfaOf(accept, out).Onto(finer, refined)
    ensures DfaOf(accept, out).Splits(block, finer)
    ensures InOrder(finer)
  {
    hide DfaOf, Dfa.SameSig, InOrder;
    DfaAccept(accept, out);
    var sigs := AllSignatures(accept, out, block);
    var sigIds, nSigs := Intern(sigs);
    var keys: seq<(nat, nat)> := [];
    for p := 0 to |out|
      invariant |keys| == p && forall k :: 0 <= k < p ==> keys[k] == (block[k], sigIds[k])
    {
      keys := keys + [(block[p], sigIds[p])];
    }
    finer, refined := Intern(keys);
    ghost var d := DfaOf(accept, out);
    forall b: nat | b < refined ensures d.Used(finer, b) {
      assert Appears(finer, b);
      var i :| 0 <= i < |finer| && finer[i] == b;
    }
    forall p: nat, q: nat | p < |out| && q < |out|
      ensures finer[p] == finer[q] <==> block[p] == block[q] && d.SameSig(block, p, q)
    {
      assert finer[p] == finer[q] <==> keys[p] == keys[q];
      assert sigIds[p] == sigIds[q] <==> sigs[p] == sigs[q];
    }
  }

  /** What the loop has achieved after at least one pass. */
  ghost predicate Progress(d: Dfa, block: seq<nat>, n: nat)
    requires d.Valid()
  {
    && d.Labels(block, n) && d.Onto(block, n) && n <= |block|
    && d.TokenUniform(block) && d.AcceptUniform(block) && d.BlocksSeparated(block)
  }

  lemma PassProgress(d: Dfa, block: seq<nat>, finer: seq<nat>, n: nat)
    requires d.Valid() && |block| == |d.accept| == |finer| && d.AllLive() && d.BlocksSeparated(block) && d.Splits(block, finer)
    requires d.Labels(finer, n) && d.Onto(finer, n) && n <= |finer|
    ensures Progress(d, finer, n)
  {
    hide Dfa.Splits, Dfa.TokenUniform, Dfa.AcceptUniform, Dfa.BlocksSeparated;
    d.PassKeeps(block, finer);
  }

  /** Refinement to the count-based fixed point. The loop terminates, every pass splits blocks only between separated
      states, and the final partition is stable except exactly on the early-stop family. */
  method Refine(accept: seq<bool>, out: seq<seq<Arc>>) returns (block: seq<nat>, nBlocks: nat)
    requires Lists(accept, out) && DfaOf(accept, out).Valid() && DfaOf(accept, out).AllLive()
    requires exists p :: 0 <= p < |accept| && accept[p]
    ensures DfaOf(accept, out).accept == accept && |block| == |accept|
    ensures Progress(DfaOf(accept, out), block, nBlocks)
    ensures DfaOf(accept, out).Stable(block) <==> !DfaOf(accept, out).StopsEarly()
    ensures DfaOf(accept, out).StopsEarly() ==> nBlocks == 2
    ensures InOrder(block)
  {
    hide InOrder;
    hide DfaOf, Dfa.AllLive, Dfa.BlocksSeparated, Dfa.Splits, Dfa.Stable, Dfa.StopsEarly, Dfa.Onto, Dfa.Labels, Lists;
    hide Progress, Dfa.ByAccept;
    DfaAccept(accept, out);
    ListsShape(accept, out);
    ghost var d := DfaOf(accept, out);
    block, nBlocks := AcceptBlocks(accept, d);
    d.ByAcceptSeparated(block);
    ghost var first := true;
    ghost var early := d.StopsEarly();
    while true
      invariant |block| == |accept| == |d.accept|
      invariant first ==> d.ByAccept(block) && nBlocks == 2 && d.BlocksSeparated(block)
      invariant !first ==> Progress(d, block, nBlocks) && !early && nBlocks <= |block|
      decreases if first then 1 else 0, |block| - nBlocks
    {
      var finer, refined := RefinePass(accept, out, block);
      if !first {
        ProgressParts(d, block, nBlocks);
      }
      PassProgress(d, block, finer, refined);
      if first {
        d.FirstPass(block, finer, refined);
      } else {
        d.CountGrows(block, finer, nBlocks, refined);
        if refined == nBlocks {
          d.EqualCountStable(block, finer, nBlocks);
        }
      }
      block := finer;
      if refined == nBlocks {
        break;
      }
      nBlocks := refined;
      first := false;
    }
  }

  lemma ListsShape(accept: seq<bool>, out: seq<seq<Arc>>)
    requires Lists(accept, out)
    ensures |accept| == |out|
  {
  }

  lemma ProgressParts(d: Dfa, block: seq<nat>, n: nat)
    requires d.Valid() && Progress(d, block, n)
    ensures d.Labels(block, n) && d.Onto(block, n) && |block| == |d.accept| && d.BlocksSeparated(block)
  {
  }

  /** The starting blocks: the acceptance flag, with the count one above the largest id. */
  method AcceptBlocks(accept: seq<bool>, ghost d: Dfa) returns (block: seq<nat>, nBlocks: nat)
    requires d.accept == accept && exists p :: 0 <= p < |accept| && accept[p]
    ensures d.ByAccept(block) && nBlocks == 2
  {
    block, nBlocks := [], 0;
    for p := 0 to |accept|
      invariant |block| == p && forall k :: 0 <= k < p ==> block[k] == if accept[k] then 1 else 0
      invariant nBlocks <= 2 && forall k :: 0 <= k < p && accept[k] ==> nBlocks == 2
    {
      var id := if accept[p] then 1 else 0;
      block := block + [id];
      if id + 1 > nBlocks {
        nBlocks := id + 1;
      }
    }
  }
}
