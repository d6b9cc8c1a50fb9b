/** Partial deterministic automata, partitions of their states, and what refinement does to them. */
module Dfas {
  import opened Prelude

  /** States `0 .. |accept|`; a missing transition kills the run. */
  datatype Dfa = Dfa(accept: seq<bool>, next: (nat, nat) -> Option<nat>) {

    ghost predicate Valid() {
      forall p: nat, t: nat :: p < |accept| && next(p, t).Some? ==> next(p, t).value < |accept|
    }

    predicate Accepts(p: nat, x: seq<nat>)
      requires Valid() && p < |accept|
      decreases |x|
    {
      if x == [] then accept[p]
      else match next(p, x[0])
        case None => false
        case Some(d) => assert d < |accept|; Accepts(d, x[1..])
    }

    /** Some sequence is accepted by exactly one of the two states. */
    ghost predicate Separated(p: nat, q: nat)
      requires Valid() && p < |accept| && q < |accept|
    {
      exists x :: Accepts(p, x) != Accepts(q, x)
    }

    ghost predicate Live(p: nat)
      requires Valid() && p < |accept|
    {
      exists x :: Accepts(p, x)
    }

    ghost predicate AllLive()
      requires Valid()
    {
      forall p :: 0 <= p < |accept| ==> Live(p)
    }

    lemma Prepend(p: nat, t: nat, d: nat, x: seq<nat>)
      requires Valid() && p < |accept| && next(p, t) == Some(d)
      ensures Accepts(p, [t] + x) == Accepts(d, x)
    {
      assert ([t] + x)[1..] == x;
    }

    lemma PrependDead(p: nat, t: nat, x: seq<nat>)
      requires Valid() && p < |accept| && next(p, t) == None
      ensures !Accepts(p, [t] + x)
    {
    }

    // ---- partitions ----

    ghost predicate Labels(block: seq<nat>, n: nat) {
      |block| == |accept| && forall p :: 0 <= p < |block| ==> block[p] < n
    }

    /** Every block id below `n` is in use. */
    ghost predicate Onto(block: seq<nat>, n: nat) {
      forall b: nat :: b < n ==> Used(block, b)
    }

    ghost predicate Used(block: seq<nat>, b: nat) {
      exists p :: 0 <= p < |block| && block[p] == b
    }

    function Target(block: seq<nat>, p: nat, t: nat): Option<nat>
      requires Valid() && |block| == |accept| && p < |accept|
    {
      match next(p, t) case None => None case Some(d) => assert d < |accept|; Some(block[d])
    }

    /** The two states agree on acceptance and, for every token, on the destination block. */
    ghost predicate SameSig(block: seq<nat>, p: nat, q: nat)
      requires Valid() && |block| == |accept| && p < |accept| && q < |accept|
    {
      accept[p] == accept[q] && forall t: nat :: Target(block, p, t) == Target(block, q, t)
    }

    ghost predicate Stable(block: seq<nat>)
      requires Valid() && |block| == |accept|
    {
      forall p: nat, q: nat :: p < |block| && q < |block| && block[p] == block[q] ==> SameSig(block, p, q)
    }

    /** `finer` is `block` split by signature. */
    ghost predicate Splits(block: seq<nat>, finer: seq<nat>)
      requires Valid() && |block| == |accept| == |finer|
    {
      forall p: nat, q: nat :: p < |block| && q < |block| ==>
        (finer[p] == finer[q] <==> block[p] == block[q] && SameSig(block, p, q))
    }

    /** The two states allow the same tokens. */
    ghost predicate SameTokens(p: nat, q: nat)
    {
      forall t: nat :: next(p, t).Some? == next(q, t).Some?
    }

    ghost predicate TokenUniform(block: seq<nat>) {
      forall p: nat, q: nat :: p < |block| && q < |block| && block[p] == block[q] ==> SameTokens(p, q)
    }

    ghost predicate AcceptUniform(block: seq<nat>) {
      |block| == |accept| &&
      forall p: nat, q: nat :: p < |block| && q < |block| && block[p] == block[q] ==> accept[p] == accept[q]
    }

    /** States in different blocks are separated by some sequence. */
    ghost predicate BlocksSeparated(block: seq<nat>)
      requires Valid() && |block| == |accept|
    {
      forall p: nat, q: nat :: p < |block| && q < |block| && block[p] != block[q] ==> Separated(p, q)
    }

    /** In a stable partition, members of one block accept the same sequences. */
    lemma {:induction false} StableSameLanguage(block: seq<nat>, p: nat, q: nat, x: seq<nat>)
      requires Valid() && |block| == |accept| && Stable(block) && p < |accept| && q < |accept| && block[p] == block[q]
      ensures Accepts(p, x) == Accepts(q, x)
      decreases |x|
    {
      assert SameSig(block, p, q);
      if x != [] {
        assert Target(block, p, x[0]) == Target(block, q, x[0]);
        if next(p, x[0]).Some? {
          StableSameLanguage(block, next(p, x[0]).value, next(q, x[0]).value, x[1..]);
        }
      }
    }

    /** Every split has a distinguishing continuation, because every state can still accept. */
    lemma SplitSeparates(block: seq<nat>, p: nat, q: nat)
      requires Valid() && |block| == |accept| && AllLive() && BlocksSeparated(block) && p < |accept| && q < |accept|
      requires !SameSig(block, p, q)
      ensures Separated(p, q)
    {
      if accept[p] != accept[q] {
        assert Accepts(p, []) != Accepts(q, []);
      } else {
        var t: nat :| Target(block, p, t) != Target(block, q, t);
        var a, b := next(p, t), next(q, t);
        if a.Some? && b.Some? {
          assert Separated(a.value, b.value);
          var x :| Accepts(a.value, x) != Accepts(b.value, x);
          Prepend(p, t, a.value, x);
          Prepend(q, t, b.value, x);
        } else if a.Some? {
          assert Live(a.value);
          var x :| Accepts(a.value, x);
          Prepend(p, t, a.value, x);
          PrependDead(q, t, x);
        } else {
          assert Live(b.value);
          var x :| Accepts(b.value, x);
          Prepend(q, t, b.value, x);
          PrependDead(p, t, x);
        }
      }
    }

    /** One pass keeps separation, and yields uniform tokens and acceptance in every block. */
    lemma PassKeeps(block: seq<nat>, finer: seq<nat>)
      requires Valid() && |block| == |accept| == |finer| && Splits(block, finer)
      ensures TokenUniform(finer) && AcceptUniform(finer)
      ensures AllLive() && BlocksSeparated(block) ==> BlocksSeparated(finer)
    {
      forall p: nat, q: nat | p < |finer| && q < |finer| && finer[p] == finer[q]
        ensures SameTokens(p, q) && accept[p] == accept[q]
      {
        assert SameSig(block, p, q);
        forall t: nat ensures next(p, t).Some? == next(q, t).Some? {
          assert Target(block, p, t) == Target(block, q, t);
        }
      }
      if AllLive() && BlocksSeparated(block) {
        forall p: nat, q: nat | p < |finer| && q < |finer| && finer[p] != finer[q] ensures Separated(p, q) {
          if block[p] == block[q] {
            SplitSeparates(block, p, q);
          }
        }
      }
    }

    /** A pass that does not raise the number of blocks changed nothing: the partition was stable. */
    lemma EqualCountStable(block: seq<nat>, finer: seq<nat>, k: nat)
      requires Valid() && Labels(block, k) && Onto(block, k) && Labels(finer, k) && Splits(block, finer)
      ensures forall p: nat, q: nat :: p < |block| && q < |block| ==> (block[p] == block[q] <==> finer[p] == finer[q])
      ensures Stable(block) && Stable(finer)
    {
      forall p: nat, q: nat | p < |block| && q < |block| && block[p] == block[q] ensures finer[p] == finer[q] {
        if finer[p] != finer[q] {
          SplitNeedsIds(block, finer, k, k, p, q);
        }
      }
      forall p: nat, q: nat | p < |block| && q < |block| && finer[p] == finer[q] ensures SameSig(finer, p, q) {
        assert SameSig(block, p, q);
        forall t: nat ensures Target(finer, p, t) == Target(finer, q, t) {
          assert Target(block, p, t) == Target(block, q, t);
        }
      }
    }

    /** Some member of block `b` carries the finer id. */
    ghost predicate IdOf(block: seq<nat>, finer: seq<nat>, b: nat, id: nat) {
      |block| == |finer| && exists m :: 0 <= m < |block| && block[m] == b && finer[m] == id
    }

    lemma FinerRefines(block: seq<nat>, finer: seq<nat>, p: nat, q: nat)
      requires Valid() && |block| == |accept| == |finer| && Splits(block, finer) && p < |block| && q < |block|
      ensures finer[p] == finer[q] ==> block[p] == block[q]
    {
    }

    /** Splitting some block needs more ids than there were blocks. */
    lemma SplitNeedsIds(block: seq<nat>, finer: seq<nat>, k: nat, n: nat, p: nat, q: nat)
      requires Valid() && Labels(block, k) && Onto(block, k) && Labels(finer, n) && Splits(block, finer)
      requires p < |block| && q < |block| && block[p] == block[q] && finer[p] != finer[q]
      ensures k < n
    {
      var ids := Representatives(block, finer, k, n, k);
      var e := if ids[block[p]] == finer[p] then q else p;
      var all := ids + [finer[e]];
      forall i, j | 0 <= i < j < |all| ensures all[i] != all[j] {
        if j == k {
          assert IdOf(block, finer, i, ids[i]);
          var m :| 0 <= m < |block| && block[m] == i && finer[m] == ids[i];
          FinerRefines(block, finer, m, e);
        }
      }
      Pigeonhole(all, n);
    }

    /** For each of the first `c` blocks the finer id of one member; different blocks give different ids. */
    lemma Representatives(block: seq<nat>, finer: seq<nat>, k: nat, n: nat, c: nat) returns (ids: seq<nat>)
      requires Valid() && Labels(block, k) && Onto(block, k) && Labels(finer, n) && Splits(block, finer) && c <= k
      ensures |ids| == c && Distinct(ids) && forall b :: 0 <= b < c ==> ids[b] < n && IdOf(block, finer, b, ids[b])
    {
      ids := [];
      for b := 0 to c
        invariant |ids| == b && Distinct(ids)
        invariant forall d :: 0 <= d < b ==> ids[d] < n && IdOf(block, finer, d, ids[d])
      {
        assert Used(block, b);
        var m :| 0 <= m < |block| && block[m] == b;
        assert IdOf(block, finer, b, finer[m]);
        forall d | 0 <= d < b ensures ids[d] != finer[m] {
          assert IdOf(block, finer, d, ids[d]);
          var o :| 0 <= o < |block| && block[o] == d && finer[o] == ids[d];
          FinerRefines(block, finer, o, m);
        }
        ids := ids + [finer[m]];
      }
    }

    /** A pass never lowers the number of blocks. */
    lemma CountGrows(block: seq<nat>, finer: seq<nat>, k: nat, n: nat)
      requires Valid() && Labels(block, k) && Onto(block, k) && Labels(finer, n) && Splits(block, finer)
      ensures k <= n
    {
      var ids := Representatives(block, finer, k, n, k);
      Pigeonhole(ids, n);
    }

    // ---- when the first pass stops too early ----

    /** The family of automata on which the count-based exit fires before the partition is stable: every state
        accepts, the states have exactly two token sets, and some token leads two states with equal token sets
        to states with different ones. */
    ghost predicate StopsEarly()
      requires Valid()
    {
      && (forall p :: 0 <= p < |accept| ==> accept[p])
      && TwoTokenSets()
      && exists p: nat, q: nat, t: nat :: Diverges(p, q, t)
    }

    ghost predicate TwoTokenSets() {
      exists p: nat, q: nat :: p < |accept| && q < |accept| && !SameTokens(p, q) && EitherTokens(p, q)
    }

    ghost predicate EitherTokens(p: nat, q: nat) {
      forall r: nat :: r < |accept| ==> SameTokens(r, p) || SameTokens(r, q)
    }

    ghost predicate Diverges(p: nat, q: nat, t: nat)
      requires Valid()
    {
      && p < |accept| && q < |accept| && SameTokens(p, q)
      && next(p, t).Some? && next(q, t).Some? && !SameTokens(next(p, t).value, next(q, t).value)
    }

    /** With one starting block, the first pass groups states by token set. */
    lemma FirstPassByTokens(block: seq<nat>, finer: seq<nat>)
      requires Valid() && |block| == |accept| == |finer| && Splits(block, finer)
      requires forall p :: 0 <= p < |accept| ==> accept[p] && block[p] == 1
      ensures forall p: nat, q: nat :: p < |accept| && q < |accept| ==> (finer[p] == finer[q] <==> SameTokens(p, q))
    {
      forall p: nat, q: nat | p < |accept| && q < |accept| ensures finer[p] == finer[q] <==> SameTokens(p, q) {
        assert SameSig(block, p, q) <==> forall t: nat :: Target(block, p, t) == Target(block, q, t);
        forall t: nat ensures Target(block, p, t) == Target(block, q, t) <==> next(p, t).Some? == next(q, t).Some? {
        }
      }
    }

    /** A partition by token set with two blocks is unstable exactly in the early-stop family. */
    lemma EarlyStopExact(finer: seq<nat>)
      requires Valid() && Labels(finer, 2) && Onto(finer, 2)
      requires forall p :: 0 <= p < |accept| ==> accept[p]
      requires forall p: nat, q: nat :: p < |accept| && q < |accept| ==> (finer[p] == finer[q] <==> SameTokens(p, q))
      ensures Stable(finer) <==> !StopsEarly()
    {
      assert Used(finer, 0) && Used(finer, 1);
      var a :| 0 <= a < |finer| && finer[a] == 0;
      var b :| 0 <= b < |finer| && finer[b] == 1;
      assert !SameTokens(a, b);
      assert EitherTokens(a, b);
      if !Stable(finer) {
        var p: nat, q: nat :| p < |finer| && q < |finer| && finer[p] == finer[q] && !SameSig(finer, p, q);
        var t: nat :| Target(finer, p, t) != Target(finer, q, t);
        assert SameTokens(p, q);
        assert next(p, t).Some? == next(q, t).Some?;
        assert Diverges(p, q, t);
      }
      if StopsEarly() {
        var p: nat, q: nat, t: nat :| Diverges(p, q, t);
        assert finer[p] == finer[q];
        assert Target(finer, p, t) != Target(finer, q, t);
      }
    }

    /** Two token sets make exactly two groups. */
    lemma TwoGroups(finer: seq<nat>, n: nat)
      requires Valid() && Labels(finer, n) && Onto(finer, n) && TwoTokenSets()
      requires forall p: nat, q: nat :: p < |accept| && q < |accept| ==> (finer[p] == finer[q] <==> SameTokens(p, q))
      ensures n == 2
    {
      hide SameTokens;
      var p: nat, q: nat :| p < |accept| && q < |accept| && !SameTokens(p, q) && EitherTokens(p, q);
      if n > 2 {
        OneOfTwo(finer, n, p, q, 0);
        OneOfTwo(finer, n, p, q, 1);
        OneOfTwo(finer, n, p, q, 2);
      }
    }

    lemma OneOfTwo(finer: seq<nat>, n: nat, p: nat, q: nat, b: nat)
      requires Valid() && Labels(finer, n) && Onto(finer, n) && b < n && p < |accept| && q < |accept| && EitherTokens(p, q)
      requires forall p: nat, q: nat :: p < |accept| && q < |accept| ==> (finer[p] == finer[q] <==> SameTokens(p, q))
      ensures b == finer[p] || b == finer[q]
    {
      hide SameTokens;
      assert Used(finer, b);
      var r :| 0 <= r < |finer| && finer[r] == b;
      assert SameTokens(r, p) || SameTokens(r, q);
    }

    /** The starting partition: one block per acceptance flag. */
    ghost predicate ByAccept(block: seq<nat>) {
      |block| == |accept| && forall p :: 0 <= p < |accept| ==> block[p] == if accept[p] then 1 else 0
    }

    lemma ByAcceptSeparated(block: seq<nat>)
      requires Valid() && ByAccept(block)
      ensures BlocksSeparated(block) && Labels(block, 2)
      ensures (exists p :: 0 <= p < |accept| && accept[p]) && (exists p :: 0 <= p < |accept| && !accept[p]) ==> Onto(block, 2)
    {
      forall p: nat, q: nat | p < |block| && q < |block| && block[p] != block[q] ensures Separated(p, q) {
        assert Accepts(p, []) != Accepts(q, []);
      }
      if (exists p :: 0 <= p < |accept| && accept[p]) && (exists p :: 0 <= p < |accept| && !accept[p]) {
        var p :| 0 <= p < |accept| && accept[p];
        var q :| 0 <= q < |accept| && !accept[q];
        assert block[p] == 1 && block[q] == 0;
        forall b: nat | b < 2 ensures Used(block, b) {
          assert b == 0 || b == 1;
        }
      }
    }

    /** The outcome of the very first pass: it is stable exactly outside the early-stop family when it already
        yields as many groups as the starting count of two; and outside that case the family cannot occur. */
    lemma FirstPass(block: seq<nat>, finer: seq<nat>, n: nat)
      requires Valid() && ByAccept(block) && Labels(finer, n) && Onto(finer, n) && Splits(block, finer)
      requires exists p :: 0 <= p < |accept| && accept[p]
      ensures n == 2 ==> (Stable(finer) <==> !StopsEarly())
      ensures n != 2 ==> !StopsEarly()
    {
      ByAcceptSeparated(block);
      if exists p :: 0 <= p < |accept| && !accept[p] {
        if n == 2 {
          EqualCountStable(block, finer, 2);
        }
      } else {
        FirstPassByTokens(block, finer);
        if n == 2 {
          EarlyStopExact(finer);
        } else if TwoTokenSets() {
          TwoGroups(finer, n);
        }
      }
    }
  }
}
