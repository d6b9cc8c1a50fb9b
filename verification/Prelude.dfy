/** Shared vocabulary: optional values, results, and sequences of naturals kept in sorted order. */
module Prelude {

  datatype Option<+T> = None | Some(value: T)

  datatype Result<+T, +E> = Ok(value: T) | Err(error: E)

  function Pow2(h: nat): (r: nat)
    ensures r > 0
  {
    if h == 0 then 1 else 2 * Pow2(h - 1)
  }

  ghost predicate Sorted(s: seq<nat>) {
    forall i, j :: 0 <= i < j < |s| ==> s[i] <= s[j]
  }

  ghost predicate StrictlySorted(s: seq<nat>) {
    forall i, j :: 0 <= i < j < |s| ==> s[i] < s[j]
  }

  ghost predicate Distinct<T(!new)>(s: seq<T>) {
    forall i, j :: 0 <= i < j < |s| ==> s[i] != s[j]
  }

  function InsertNat(x: nat, s: seq<nat>): seq<nat> {
    if s == [] || x <= s[0] then [x] + s else [s[0]] + InsertNat(x, s[1..])
  }

  /** The library sort on token lists. */
  function SortNats(s: seq<nat>): seq<nat> {
    if s == [] then [] else InsertNat(s[0], SortNats(s[1..]))
  }

  lemma {:induction false} InsertNatPerm(x: nat, s: seq<nat>)
    ensures multiset(InsertNat(x, s)) == multiset(s) + multiset{x}
  {
    if s != [] && s[0] < x {
      InsertNatPerm(x, s[1..]);
      assert s == [s[0]] + s[1..];
    }
  }

  lemma {:induction false} InsertNatSorts(x: nat, s: seq<nat>)
    requires Sorted(s)
    ensures Sorted(InsertNat(x, s))
  {
    if s != [] && s[0] < x {
      InsertNatSorts(x, s[1..]);
      InsertNatPerm(x, s[1..]);
      var rest := InsertNat(x, s[1..]);
      forall i | 0 <= i < |rest| ensures s[0] <= rest[i] {
        assert rest[i] in multiset(rest);
      }
    }
  }

  /** Sorting yields a sorted permutation. */
  lemma {:induction false} SortNatsSorts(s: seq<nat>)
    ensures Sorted(SortNats(s)) && multiset(SortNats(s)) == multiset(s)
  {
    if s != [] {
      SortNatsSorts(s[1..]);
      InsertNatSorts(s[0], SortNats(s[1..]));
      InsertNatPerm(s[0], SortNats(s[1..]));
      assert s == [s[0]] + s[1..];
    }
  }

  lemma SortNatsMembers(s: seq<nat>)
    ensures forall x :: x in SortNats(s) <==> x in s
    ensures |SortNats(s)| == |s|
  {
    SortNatsSorts(s);
    PermMembers(s, SortNats(s));
  }

  lemma PermMembers(a: seq<nat>, b: seq<nat>)
    requires multiset(a) == multiset(b)
    ensures |a| == |b| && forall x :: x in a <==> x in b
  {
    assert |multiset(a)| == |a| && |multiset(b)| == |b|;
    assert forall x :: x in a <==> x in multiset(a);
    assert forall x :: x in b <==> x in multiset(b);
  }

  lemma {:induction false} DistinctOnce(r: seq<nat>, x: nat)
    requires Distinct(r)
    ensures multiset(r)[x] <= 1
  {
    if r != [] {
      assert r == [r[0]] + r[1..];
      DistinctOnce(r[1..], x);
      assert r[0] !in r[1..];
    }
  }

  lemma RepeatedTwice(r: seq<nat>, i: nat, j: nat)
    requires i < j < |r| && r[i] == r[j]
    ensures multiset(r)[r[i]] >= 2
  {
    assert r == r[..j] + r[j..];
    assert r[..j][i] == r[i] && r[j..][0] == r[i];
    assert r[i] in multiset(r[..j]) && r[i] in multiset(r[j..]);
  }

  lemma DistinctPerm(a: seq<nat>, b: seq<nat>)
    requires multiset(a) == multiset(b) && Distinct(a)
    ensures Distinct(b)
  {
    forall i, j | 0 <= i < j < |b| ensures b[i] != b[j] {
      if b[i] == b[j] {
        RepeatedTwice(b, i, j);
        DistinctOnce(a, b[i]);
      }
    }
  }

  /** Drops equal neighbours of a sorted list. */
  function Dedup(s: seq<nat>): (r: seq<nat>)
    requires Sorted(s)
    ensures StrictlySorted(r)
    ensures forall x :: x in r <==> x in s
  {
    if |s| <= 1 then s
    else
      var rest := Dedup(s[1..]);
      assert forall x :: x in s <==> x == s[0] || x in s[1..];
      if s[0] == s[1] then rest
      else
        assert forall x :: x in s[1..] ==> s[0] < x;
        assert forall i :: 0 <= i < |rest| ==> rest[i] in rest;
        [s[0]] + rest
  }

  /** `sort_unstable` followed by `dedup`: the canonical list of a finite set of tokens. */
  function Canonical(s: seq<nat>): (r: seq<nat>)
    ensures StrictlySorted(r)
    ensures forall x :: x in r <==> x in s
  {
    SortNatsSorts(s);
    SortNatsMembers(s);
    Dedup(SortNats(s))
  }

  /** A strictly sorted list is determined by its set of members. */
  lemma {:induction false} StrictUnique(a: seq<nat>, b: seq<nat>)
    requires StrictlySorted(a) && StrictlySorted(b)
    requires forall x :: x in a <==> x in b
    ensures a == b
  {
    assert b != [] ==> b[0] in b;
    if a == [] {
    } else {
      assert a[0] in b;
      assert b[0] in a;
      assert a[0] == b[0];
      forall x ensures x in a[1..] <==> x in b[1..] {
        assert x in a[1..] <==> x in a && x != a[0];
        assert x in b[1..] <==> x in b && x != b[0];
      }
      StrictUnique(a[1..], b[1..]);
      assert a == [a[0]] + a[1..];
      assert b == [b[0]] + b[1..];
    }
  }

  /** A sorted list without repetition is strictly sorted. */
  lemma SortedDistinct(s: seq<nat>)
    requires Sorted(s) && Distinct(s)
    ensures StrictlySorted(s)
  {
  }

  /** Pigeonhole: a list of distinct numbers below `n` has at most `n` entries. */
  lemma {:induction false} Pigeonhole(s: seq<nat>, n: nat)
    requires Distinct(s)
    requires forall i :: 0 <= i < |s| ==> s[i] < n
    ensures |s| <= n
  {
    assert s != [] ==> s[0] < n;
    if n == 0 {
    } else if exists i :: 0 <= i < |s| && s[i] == n - 1 {
      var i :| 0 <= i < |s| && s[i] == n - 1;
      var t := s[..i] + s[i + 1..];
      forall j | 0 <= j < |t| ensures t[j] < n - 1 {
        assert t[j] == if j < i then s[j] else s[j + 1];
      }
      Pigeonhole(t, n - 1);
    } else {
      Pigeonhole(s, n - 1);
    }
  }
}
