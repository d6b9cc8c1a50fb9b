/** How many states a schema compiles to: a closed form that names no state, and the cap it is held against. */
module Sizes {
  import opened Prelude
  import opened Nfas
  import opened Fragments
  import opened Bits
  import opened Json
  import opened Values
  import opened Layouts
  import JsonLaws
  import Numbers
  import Texts
  import Arrays

  function Total(ns: seq<nat>): nat {
    if ns == [] then 0 else ns[0] + Total(ns[1..])
  }

  lemma {:induction false} TotalAppend(ns: seq<nat>, n: nat)
    ensures Total(ns + [n]) == Total(ns) + n
  {
    if ns == [] {
      assert ns + [n] == [n];
    } else {
      TotalAppend(ns[1..], n);
      assert (ns + [n])[1..] == ns[1..] + [n];
    }
  }

  /** Two states for every character of a literal and of a property name with its quotes and escapes, fixed numbers for the
      other leaves, 46 around the items of an array, two around every alternation. An object of `k` members has a separator
      for each of its `2^k - 1` non-empty masks and, because every member occurs in half of the masks as missing, `2^(k-1)`
      chains for every member. */
  function Size(sc: Schema): nat
    decreases sc, 1
  {
    match sc
    case Null => 8
    case Boolean => 20
    case Integer => 14
    case Number => 42
    case String => 39
    case Enum(lits) => 2 + Total(seq(|lits|, i requires 0 <= i < |lits| => 2 * |LitText(lits[i])|))
    case AnyOf(schemas) => 2 + Total(seq(|schemas|, i requires 0 <= i < |schemas| => Size(schemas[i])))
    case Array(items) => 46 + Size(items)
    case Object(properties, _) =>
      27 * Pow2(|properties|) + 3 + Pow2(|properties|) / 2 * Total(Costs(sc))
  }

  /** The states of one chain per member: key, colon and value. */
  function Costs(sc: Schema): (r: seq<nat>)
    requires sc.Object?
    ensures |r| == |sc.properties|
    decreases sc, 0
  {
    seq(|sc.properties|, j requires 0 <= j < |sc.properties| =>
      2 * |Written(sc.properties[j].0, false)| + 26 + Size(sc.properties[j].1))
  }

  // ---- the members missing from a mask, over all masks ----

  /** The cost of the members a mask lacks. */
  function Missing(costs: seq<nat>, mask: nat): nat {
    if costs == [] then 0 else (if mask % 2 == 0 then costs[0] else 0) + Missing(costs[1..], mask / 2)
  }

  /** The same over all masks below `n`. */
  function MissingBelow(costs: seq<nat>, n: nat): nat {
    if n == 0 then 0 else MissingBelow(costs, n - 1) + Missing(costs, n - 1)
  }

  lemma {:induction false} MissingStep(costs: seq<nat>, cost: nat, mask: nat)
    ensures Missing(costs + [cost], mask) == Missing(costs, mask) + if Bit(mask, |costs|) then 0 else cost
    decreases |costs|
  {
    if costs == [] {
      assert costs + [cost] == [cost] && [cost][1..] == [];
    } else {
      MissingStep(costs[1..], cost, mask / 2);
      assert (costs + [cost])[1..] == costs[1..] + [cost];
    }
  }

  lemma {:induction false} MissingDouble(costs: seq<nat>, n: nat)
    requires costs != []
    ensures MissingBelow(costs, 2 * n) == 2 * MissingBelow(costs[1..], n) + n * costs[0]
  {
    if n > 0 {
      var q := n - 1;
      MissingDouble(costs, q);
      assert Missing(costs, 2 * q) == costs[0] + Missing(costs[1..], q) by { assert 2 * q / 2 == q && 2 * q % 2 == 0; }
      assert Missing(costs, 2 * q + 1) == Missing(costs[1..], q) by { assert (2 * q + 1) / 2 == q && (2 * q + 1) % 2 == 1; }
      assert MissingBelow(costs, 2 * n) == MissingBelow(costs, 2 * q) + Missing(costs, 2 * q) + Missing(costs, 2 * q + 1);
      assert n * costs[0] == q * costs[0] + costs[0];
    }
  }

  /** Every member is missing from half of the masks. */
  lemma {:induction false} MissingTotal(costs: seq<nat>)
    ensures MissingBelow(costs, Pow2(|costs|)) == Pow2(|costs|) / 2 * Total(costs)
    ensures costs != [] ==> Pow2(|costs|) == 2 * Pow2(|costs| - 1)
  {
    if costs == [] {
      assert Pow2(0) == 1 && MissingBelow([], 1) == MissingBelow([], 0) + Missing([], 0);
    } else {
      var rest, half := costs[1..], Pow2(|costs| - 1);
      MissingTotal(rest);
      MissingDouble(costs, half);
      HalfTwice(half, Total(rest), costs[0], MissingBelow(rest, half), if rest == [] then 0 else Pow2(|rest| - 1));
    }
  }

  lemma HalfTwice(half: nat, total: nat, cost: nat, below: nat, quarter: nat)
    requires below == half / 2 * total && (half == 2 * quarter || (half == 1 && total == 0))
    ensures 2 * below + half * cost == 2 * half / 2 * (cost + total)
  {
    if half == 2 * quarter { assert below == quarter * total; }
    assert half * (cost + total) == half * cost + half * total;
  }

  // ---- the fragment of a schema has that many states ----

  lemma {:induction false} LitsTake(lits: seq<JsonLit>, n: nat, lo: nat)
    requires n <= |lits|
    ensures EndOf(LitParts(lits, n, lo), lo) == lo + Total(seq(n, i requires 0 <= i < n => 2 * |LitText(lits[i])|))
  {
    hide Literal, LitText;
    if n > 0 {
      LitsTake(lits, n - 1, lo);
      var text := LitText(lits[n - 1]);
      JsonLaws.LitTextNonEmpty(lits[n - 1]);
      LiteralExact(text, EndOf(LitParts(lits, n - 1, lo), lo));
      var before := seq(n - 1, i requires 0 <= i < n - 1 => 2 * |LitText(lits[i])|);
      TotalAppend(before, 2 * |text|);
      assert seq(n, i requires 0 <= i < n => 2 * |LitText(lits[i])|) == before + [2 * |text|];
    }
  }

  lemma {:induction false} SchemasTake(sc: Schema, n: nat, lo: nat)
    requires sc.AnyOf? && n <= |sc.schemas|
    ensures EndOf(SchemaParts(sc, n, lo), lo) == lo + Total(seq(n, i requires 0 <= i < n => Size(sc.schemas[i])))
    decreases sc, 5, n
  {
    hide ValuePart, SchemaParts, Size;
    if n == 0 {
      PartsNone(sc, lo);
    } else {
      SchemasTake(sc, n - 1, lo);
      PartsStep(sc, n - 1, lo);
      SizeIs(sc.schemas[n - 1], EndOf(SchemaParts(sc, n - 1, lo), lo));
      var before := seq(n - 1, i requires 0 <= i < n - 1 => Size(sc.schemas[i]));
      TotalAppend(before, Size(sc.schemas[n - 1]));
      assert seq(n, i requires 0 <= i < n => Size(sc.schemas[i])) == before + [Size(sc.schemas[n - 1])];
    }
  }

  lemma {:induction false} MemberTakes(sc: Schema, j: nat, lo: nat)
    requires sc.Object? && j < |sc.properties|
    ensures MemberPart(sc, j, lo).hi == lo + Costs(sc)[j]
    decreases sc, 1, 0
  {
    hide Literal, ValuePart, WrittenBody, Arrays.WsPart, Size;
    var key := Written(sc.properties[j].0, false);
    LiteralExact(key, lo);
    SurroundedEnd(lo + 2 * |key|, ':');
    SizeIs(sc.properties[j].1, lo + 2 * |key| + 26);
  }

  lemma {:induction false} ChainsTake(sc: Schema, lo: nat, mask: nat, n: nat, entry: nat, b: Built)
    requires sc.Object? && n <= |sc.properties|
    ensures ChainsBuilt(sc, lo, mask, n, entry, b).hi == b.hi + Missing(Costs(sc)[..n], mask)
    decreases sc, 2, n
  {
    hide ChainsBuilt, MemberPart, Costs, Bit;
    if n == 0 {
      ChainsNone(sc, lo, mask, entry, b);
    } else {
      ChainsTake(sc, lo, mask, n - 1, entry, b);
      ChainsStep(sc, lo, mask, n - 1, entry, b);
      MemberTakes(sc, n - 1, ChainsBuilt(sc, lo, mask, n - 1, entry, b).hi);
      var costs := Costs(sc);
      MissingStep(costs[..n - 1], costs[n - 1], mask);
      assert costs[..n] == costs[..n - 1] + [costs[n - 1]];
    }
  }

  lemma {:induction false} MaskTakes(sc: Schema, lo: nat, mask: nat, b: Built)
    requires sc.Object?
    ensures MaskBuilt(sc, lo, mask, b).hi == b.hi + (if mask == 0 then 0 else 26) + Missing(Costs(sc), mask)
    decreases sc, 3, 0
  {
    hide ChainsBuilt, Surrounded, Costs;
    var k, sep := |sc.properties|, Surrounded(b.hi, ',');
    SurroundedEnd(b.hi, ',');
    assert Costs(sc)[..k] == Costs(sc);
    ChainsTake(sc, lo, mask, k, lo, b);
    ChainsTake(sc, lo, mask, k, sep.f, Built(b.es + sep.es + {Edge(lo + mask, Eps, sep.s)}, sep.hi));
  }

  lemma {:induction false} MasksTake(sc: Schema, lo: nat, m: nat, b: Built)
    requires sc.Object?
    ensures MasksBuilt(sc, lo, m, b).hi == b.hi + (if m == 0 then 0 else 26 * (m - 1)) + MissingBelow(Costs(sc), m)
    decreases sc, 4, m
  {
    hide MasksBuilt, MaskBuilt, Costs;
    MasksStep(sc, lo, 0, b);
    if m > 0 {
      MasksTake(sc, lo, m - 1, b);
      MasksStep(sc, lo, m - 1, b);
      MaskTakes(sc, lo, m - 1, MasksBuilt(sc, lo, m - 1, b));
    }
  }

  lemma {:induction false} ObjectTakes(sc: Schema, lo: nat)
    requires sc.Object?
    ensures ObjectPart(sc, lo).hi == lo + Size(sc)
    decreases sc, 5, 0
  {
    hide MasksBuilt, ClosingEdges, BitsOf, Arrays.WsPart, Costs;
    var k := |sc.properties|;
    MasksTake(sc, lo, Pow2(k), Opened(lo, k));
    MissingTotal(Costs(sc));
    Arrays.WsEnds(lo + Pow2(k) + 3);
    Arrays.WsEnds(MasksBuilt(sc, lo, Pow2(k), Opened(lo, k)).hi + 2);
  }

  /** The fragment of a schema takes exactly as many states as the closed form says, wherever it starts. */
  lemma {:induction false} SizeIs(sc: Schema, lo: nat)
    ensures ValuePart(sc, lo).hi == lo + Size(sc)
    decreases sc, 6, 0
  {
    hide Literal, Numbers.NumberEdges, Texts.TextEdges, AllEdges, Branches, ObjectPart, SchemaParts, LitText, Arrays.ArrayGlue, Arrays.WsPart;
    match sc
    case Null => LiteralExact("null", lo);
    case Boolean =>
      LiteralExact("true", lo);
      LiteralExact("false", lo + 8);
    case Enum(lits) => LitsTake(lits, |lits|, lo);
    case AnyOf(schemas) => SchemasTake(sc, |schemas|, lo);
    case Array(items) => SizeIs(items, lo);
    case Object(_, _) => ObjectTakes(sc, lo);
    case _ =>
  }
}
