/** State signatures of the minimizer: out-edges merged per destination block and flattened with length prefixes. */
module Signatures {
  import opened Prelude

  /** One out-edge of a trimmed state. */
  datatype Arc = Arc(dst: nat, tokens: seq<nat>)

  /** One merged entry: a destination block and its tokens. */
  datatype Entry = Entry(key: nat, tokens: seq<nat>)

  ghost predicate ArcsReach(arcs: seq<Arc>, block: seq<nat>, b: nat, t: nat) {
    exists k :: 0 <= k < |arcs| && ArcHits(arcs[k], block, b, t)
  }

  ghost predicate ArcHits(arc: Arc, block: seq<nat>, b: nat, t: nat) {
    arc.dst < |block| && block[arc.dst] == b && t in arc.tokens
  }

  ghost predicate Reach(m: seq<Entry>, b: nat, t: nat) {
    exists k :: 0 <= k < |m| && m[k].key == b && t in m[k].tokens
  }

  ghost predicate DistinctKeys(m: seq<Entry>) {
    forall i, j :: 0 <= i < j < |m| ==> m[i].key != m[j].key
  }

  ghost predicate NonEmptyTokens(m: seq<Entry>) {
    forall i :: 0 <= i < |m| ==> m[i].tokens != []
  }

  /** Keys strictly increasing, every token list strictly sorted and non-empty. */
  ghost predicate Canon(m: seq<Entry>) {
    && (forall i, j :: 0 <= i < j < |m| ==> m[i].key < m[j].key)
    && (forall i :: 0 <= i < |m| ==> m[i].tokens != [] && StrictlySorted(m[i].tokens))
  }

  /** `m` records exactly which blocks the arcs reach by which tokens. */
  ghost predicate Records(m: seq<Entry>, arcs: seq<Arc>, block: seq<nat>) {
    forall b: nat, t: nat :: Reach(m, b, t) <==> ArcsReach(arcs, block, b, t)
  }

  ghost predicate ArcsOk(arcs: seq<Arc>, n: nat) {
    forall k :: 0 <= k < |arcs| ==> arcs[k].dst < n && arcs[k].tokens != []
  }

  /** The position of a key, or the length when it is absent. */
  method FindKey(m: seq<Entry>, key: nat) returns (i: nat)
    ensures i <= |m| && (i < |m| ==> m[i].key == key)
    ensures i == |m| ==> forall j :: 0 <= j < |m| ==> m[j].key != key
  {
    i := 0;
    while i < |m| && m[i].key != key
      invariant i <= |m| && forall j :: 0 <= j < i ==> m[j].key != key
    {
      i := i + 1;
    }
  }

  lemma ReachAfterExtend(m: seq<Entry>, i: nat, toks: seq<nat>, b: nat, t: nat)
    requires i < |m| && DistinctKeys(m)
    ensures Reach(m[i := Entry(m[i].key, m[i].tokens + toks)], b, t) <==> Reach(m, b, t) || (b == m[i].key && t in toks)
  {
    var m2 := m[i := Entry(m[i].key, m[i].tokens + toks)];
    if Reach(m, b, t) {
      var k :| 0 <= k < |m| && m[k].key == b && t in m[k].tokens;
      assert m2[k].key == b && t in m2[k].tokens;
    }
    if b == m[i].key && t in toks {
      assert m2[i].key == b && t in m2[i].tokens;
    }
  }

  lemma ReachAfterPush(m: seq<Entry>, e: Entry, b: nat, t: nat)
    ensures Reach(m + [e], b, t) <==> Reach(m, b, t) || (b == e.key && t in e.tokens)
  {
    var m2 := m + [e];
    if Reach(m, b, t) {
      var k :| 0 <= k < |m| && m[k].key == b && t in m[k].tokens;
      assert m2[k].key == b;
    }
    if b == e.key && t in e.tokens {
      assert m2[|m|] == e;
    }
  }

  lemma ArcsReachAppend(arcs: seq<Arc>, arc: Arc, block: seq<nat>, b: nat, t: nat)
    ensures ArcsReach(arcs + [arc], block, b, t) <==> ArcsReach(arcs, block, b, t) || ArcHits(arc, block, b, t)
  {
    var all := arcs + [arc];
    if ArcsReach(arcs, block, b, t) {
      var k :| 0 <= k < |arcs| && ArcHits(arcs[k], block, b, t);
      assert all[k] == arcs[k];
    }
    if ArcHits(arc, block, b, t) {
      assert all[|arcs|] == arc;
    }
  }

  /** Adds the arcs of one state to a merge under way: token lists of arcs into the same block are joined. */
  method MergeInto(m0: seq<Entry>, ghost done: seq<Arc>, arcs: seq<Arc>, block: seq<nat>) returns (m: seq<Entry>)
    requires ArcsOk(arcs, |block|) && DistinctKeys(m0) && NonEmptyTokens(m0) && Records(m0, done, block)
    ensures DistinctKeys(m) && NonEmptyTokens(m) && Records(m, done + arcs, block)
  {
    hide Reach, ArcsReach;
    m := m0;
    assert done + arcs[..0] == done;
    for k := 0 to |arcs|
      invariant DistinctKeys(m) && NonEmptyTokens(m) && Records(m, done + arcs[..k], block)
    {
      var db := block[arcs[k].dst];
      var i := FindKey(m, db);
      ghost var before := m;
      if i < |m| {
        m := m[i := Entry(m[i].key, m[i].tokens + arcs[k].tokens)];
      } else {
        m := m + [Entry(db, arcs[k].tokens)];
      }
      assert done + arcs[..k + 1] == (done + arcs[..k]) + [arcs[k]];
      forall b: nat, t: nat ensures Reach(m, b, t) <==> ArcsReach(done + arcs[..k + 1], block, b, t) {
        ArcsReachAppend(done + arcs[..k], arcs[k], block, b, t);
        if i < |before| {
          ReachAfterExtend(before, i, arcs[k].tokens, b, t);
        } else {
          ReachAfterPush(before, Entry(db, arcs[k].tokens), b, t);
        }
      }
    }
    assert arcs[..|arcs|] == arcs;
  }

  // ---- canonical form ----

  function InsertEntry(e: Entry, m: seq<Entry>): seq<Entry> {
    if m == [] || e.key <= m[0].key then [e] + m else [m[0]] + InsertEntry(e, m[1..])
  }

  /** Sort by key, then sort and deduplicate every token list. */
  function Canonicalize(m: seq<Entry>): seq<Entry> {
    if m == [] then [] else InsertEntry(Entry(m[0].key, Canonical(m[0].tokens)), Canonicalize(m[1..]))
  }

  ghost predicate HasKey(m: seq<Entry>, key: nat) {
    exists k :: 0 <= k < |m| && m[k].key == key
  }

  lemma {:induction false} InsertEntryCanon(e: Entry, m: seq<Entry>)
    requires Canon(m) && e.tokens != [] && StrictlySorted(e.tokens) && !HasKey(m, e.key)
    ensures Canon(InsertEntry(e, m))
    ensures forall b: nat, t: nat :: Reach(InsertEntry(e, m), b, t) <==> Reach(m, b, t) || (b == e.key && t in e.tokens)
    ensures forall key :: HasKey(InsertEntry(e, m), key) <==> HasKey(m, key) || key == e.key
  {
    var r := InsertEntry(e, m);
    if m == [] || e.key <= m[0].key {
      assert m != [] ==> m[0].key != e.key;
      PrependFacts(e, m);
    } else {
      forall k | 0 <= k < |m[1..]| ensures m[1..][k].key != e.key { assert m[k + 1].key != e.key; }
      InsertEntryCanon(e, m[1..]);
      var rest := InsertEntry(e, m[1..]);
      forall k | 0 <= k < |rest| ensures m[0].key < rest[k].key {
        assert HasKey(rest, rest[k].key);
      }
      PrependFacts(m[0], rest);
      PrependFacts(m[0], m[1..]);
      assert m == [m[0]] + m[1..];
    }
  }

  lemma PrependFacts(e: Entry, m: seq<Entry>)
    ensures forall b: nat, t: nat :: Reach([e] + m, b, t) <==> Reach(m, b, t) || (b == e.key && t in e.tokens)
    ensures forall key :: HasKey([e] + m, key) <==> HasKey(m, key) || key == e.key
  {
    var r := [e] + m;
    forall b: nat, t: nat ensures Reach(r, b, t) <==> Reach(m, b, t) || (b == e.key && t in e.tokens) {
      if k :| 0 <= k < |m| && m[k].key == b && t in m[k].tokens { assert r[k + 1] == m[k]; }
      if b == e.key && t in e.tokens { assert r[0] == e; }
      if k :| 0 <= k < |r| && r[k].key == b && t in r[k].tokens && k > 0 { assert r[k] == m[k - 1]; }
    }
    forall key ensures HasKey(r, key) <==> HasKey(m, key) || key == e.key {
      if k :| 0 <= k < |m| && m[k].key == key { assert r[k + 1] == m[k]; }
      if key == e.key { assert r[0] == e; }
      if k :| 0 <= k < |r| && r[k].key == key && k > 0 { assert r[k] == m[k - 1]; }
    }
  }

  /** Canonicalizing keeps what is recorded. */
  lemma {:induction false} CanonicalizeCanon(m: seq<Entry>)
    requires DistinctKeys(m) && NonEmptyTokens(m)
    ensures Canon(Canonicalize(m))
    ensures forall b: nat, t: nat :: Reach(Canonicalize(m), b, t) <==> Reach(m, b, t)
    ensures forall key :: HasKey(Canonicalize(m), key) <==> HasKey(m, key)
  {
    if m == [] {
    } else {
      hide Reach, Canon;
      CanonicalizeCanon(m[1..]);
      var e := Entry(m[0].key, Canonical(m[0].tokens));
      assert m[0].tokens[0] in e.tokens;
      assert !HasKey(m[1..], e.key);
      InsertEntryCanon(e, Canonicalize(m[1..]));
      PrependFacts(m[0], m[1..]);
      assert m == [m[0]] + m[1..];
    }
  }

  /** A canonical list is determined by what it records. */
  lemma {:induction false} CanonUnique(m1: seq<Entry>, m2: seq<Entry>)
    requires Canon(m1) && Canon(m2) && forall b: nat, t: nat :: Reach(m1, b, t) <==> Reach(m2, b, t)
    ensures m1 == m2
  {
    FirstKey(m1, m2);
    FirstKey(m2, m1);
    if m1 != [] {
      var e1, e2 := m1[0], m2[0];
      forall t: nat ensures t in e1.tokens <==> t in e2.tokens {
        assert Reach(m1, e1.key, t) <==> t in e1.tokens;
        assert Reach(m2, e2.key, t) <==> t in e2.tokens;
      }
      StrictUnique(e1.tokens, e2.tokens);
      forall b: nat, t: nat ensures Reach(m1[1..], b, t) <==> Reach(m2[1..], b, t) {
        TailReach(m1, b, t);
        TailReach(m2, b, t);
      }
      CanonUnique(m1[1..], m2[1..]);
      assert m1 == [e1] + m1[1..] && m2 == [e2] + m2[1..];
    }
  }

  lemma FirstKey(m1: seq<Entry>, m2: seq<Entry>)
    requires Canon(m1) && Canon(m2) && forall b: nat, t: nat :: Reach(m1, b, t) ==> Reach(m2, b, t)
    ensures m1 != [] ==> m2 != [] && m2[0].key <= m1[0].key
  {
    if m1 != [] {
      var t := m1[0].tokens[0];
      assert Reach(m1, m1[0].key, t);
      var k :| 0 <= k < |m2| && m2[k].key == m1[0].key && t in m2[k].tokens;
    }
  }

  lemma TailReach(m: seq<Entry>, b: nat, t: nat)
    requires Canon(m) && m != []
    ensures Reach(m[1..], b, t) <==> Reach(m, b, t) && b != m[0].key
  {
    if k :| 0 <= k < |m[1..]| && m[1..][k].key == b && t in m[1..][k].tokens { assert m[k + 1].key == b && t in m[k + 1].tokens; }
    if k :| 0 <= k < |m| && m[k].key == b && t in m[k].tokens && b != m[0].key { assert m[1..][k - 1] == m[k]; }
  }

  // ---- the flat signature ----

  function EncodeEntries(m: seq<Entry>): seq<nat> {
    if m == [] then [] else [m[0].key, |m[0].tokens|] + m[0].tokens + EncodeEntries(m[1..])
  }

  /** The hash-consed key of one state. */
  function Encode(accepting: bool, m: seq<Entry>): seq<nat> {
    [if accepting then 1 else 0] + EncodeEntries(m)
  }

  lemma {:induction false} EncodeEntriesInjective(m1: seq<Entry>, m2: seq<Entry>)
    requires EncodeEntries(m1) == EncodeEntries(m2)
    ensures m1 == m2
  {
    var f1, f2 := EncodeEntries(m1), EncodeEntries(m2);
    if m1 != [] && m2 != [] {
      EntryPrefix(m1[0], EncodeEntries(m1[1..]), m2[0], EncodeEntries(m2[1..]));
      EncodeEntriesInjective(m1[1..], m2[1..]);
      assert m1 == [m1[0]] + m1[1..] && m2 == [m2[0]] + m2[1..];
    }
  }

  /** The length prefix makes one encoded entry self-delimiting. */
  lemma EntryPrefix(e1: Entry, r1: seq<nat>, e2: Entry, r2: seq<nat>)
    requires [e1.key, |e1.tokens|] + e1.tokens + r1 == [e2.key, |e2.tokens|] + e2.tokens + r2
    ensures e1 == e2 && r1 == r2
  {
    var f1, f2 := [e1.key, |e1.tokens|] + e1.tokens + r1, [e2.key, |e2.tokens|] + e2.tokens + r2;
    assert f1[0] == f2[0] && f1[1] == f2[1];
    assert f1[2..2 + |e1.tokens|] == e1.tokens && f2[2..2 + |e2.tokens|] == e2.tokens;
    assert f1[2 + |e1.tokens|..] == r1 && f2[2 + |e2.tokens|..] == r2;
  }

  /** Signatures agree exactly when acceptance and every recorded (block, token) pair agree. */
  lemma SignatureExact(a1: bool, m1: seq<Entry>, a2: bool, m2: seq<Entry>)
    requires Canon(m1) && Canon(m2)
    ensures Encode(a1, m1) == Encode(a2, m2) <==>
            a1 == a2 && forall b: nat, t: nat :: Reach(m1, b, t) <==> Reach(m2, b, t)
  {
    var f1, f2 := Encode(a1, m1), Encode(a2, m2);
    if f1 == f2 {
      assert f1[0] == f2[0] && f1[1..] == f2[1..];
      assert f1[1..] == EncodeEntries(m1) && f2[1..] == EncodeEntries(m2);
      EncodeEntriesInjective(m1, m2);
    }
    if a1 == a2 && forall b: nat, t: nat :: Reach(m1, b, t) <==> Reach(m2, b, t) {
      CanonUnique(m1, m2);
    }
  }

  /** `sig` is the key of a state with these arcs: acceptance, then the canonical merge. */
  ghost predicate Spells(sig: seq<nat>, accepting: bool, arcs: seq<Arc>, block: seq<nat>)
    requires ArcsOk(arcs, |block|)
  {
    exists m :: Canon(m) && Records(m, arcs, block) && sig == Encode(accepting, m)
  }

  /** The signature of one state, and the canonical merge it spells. */
  method Signature(accepting: bool, arcs: seq<Arc>, block: seq<nat>) returns (sig: seq<nat>, ghost m: seq<Entry>)
    requires ArcsOk(arcs, |block|)
    ensures Canon(m) && Records(m, arcs, block) && sig == Encode(accepting, m)
    ensures Spells(sig, accepting, arcs, block)
  {
    hide Canon, Encode;
    assert Records([], [], block);
    var merged := MergeInto([], [], arcs, block);
    assert [] + arcs == arcs;
    CanonicalizeCanon(merged);
    var canonical := Canonicalize(merged);
    m := canonical;
    sig := Encode(accepting, canonical);
  }
}
