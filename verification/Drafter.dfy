/** The history drafter: a bounded history of output streams, the longest-suffix lookup, and the acceptance walk. */
module Drafters {
  import opened Tables

  type Token = nat

  // ---- the bounded history ----

  /** The last `n` elements. */
  function Latest<T>(s: seq<T>, n: nat): seq<T> {
    if |s| <= n then s else s[|s| - n..]
  }

  /** One prompt's prior output streams, oldest first. */
  class PromptHistory {
    var streams: seq<seq<Token>>
    const capacity: nat

    /** The retained streams are exactly the last `capacity` recorded ones. */
    ghost var recorded: seq<seq<Token>>

    ghost predicate Valid()
      reads this
    {
      capacity >= 1 && streams == Latest(recorded, capacity)
    }

    constructor (cap: nat)
      ensures Valid() && recorded == [] && streams == [] && capacity == if cap < 1 then 1 else cap
    {
      capacity := if cap < 1 then 1 else cap;
      streams, recorded := [], [];
    }

    /** The oldest stream is evicted at capacity; repeats are recorded too. */
    method Record(tokens: seq<Token>)
      requires Valid()
      modifies this
      ensures Valid() && recorded == old(recorded) + [tokens]
      ensures streams == Latest(old(streams) + [tokens], capacity)
    {
      if |streams| >= capacity {
        streams := streams[1..];
      }
      streams := streams + [tokens];
      recorded := recorded + [tokens];
    }

    /** The longest-suffix continuation. */
    method LongestSuffixContinuation(prefix: seq<Token>, maxOrder: nat, maxDraft: nat) returns (draft: seq<Token>)
      ensures IsLookup(streams, prefix, maxOrder, maxDraft, draft)
    {
      if streams == [] || prefix == [] {
        return [];
      }
      hide NoneIn, MatchAt;
      var order := if maxOrder < |prefix| then maxOrder else |prefix|;
      while order >= 1
        invariant 0 <= order <= maxOrder && order <= |prefix|
        invariant order == 0 ==> maxOrder == 0
        invariant forall o: nat :: order < o <= maxOrder && o <= |prefix| ==> NoneAt(streams, prefix, o)
      {
        var k := |streams|;
        while k > 0
          invariant 0 <= k <= |streams|
          invariant forall j :: k <= j < |streams| ==> NoneIn(streams[j], prefix, order)
        {
          k := k - 1;
          var found, start := FirstMatch(streams[k], prefix, order);
          if found {
            var end := start + order + maxDraft;
            if end > |streams[k]| {
              end := |streams[k]|;
            }
            assert Chosen(streams, prefix, maxOrder, order, k, start);
            return streams[k][start + order..end];
          }
        }
        assert NoneAt(streams, prefix, order);
        if order == 1 {
          break;
        }
        order := order - 1;
      }
      return [];
    }
  }

  // ---- the lookup ----

  /** The last `order` tokens of the prefix occur in the stream at `start`. */
  predicate MatchAt(stream: seq<Token>, prefix: seq<Token>, order: nat, start: nat) {
    order <= |prefix| && start + order <= |stream| && stream[start..start + order] == prefix[|prefix| - order..]
  }

  /** A stream takes part only if it is longer than the suffix. */
  ghost predicate NoneIn(stream: seq<Token>, prefix: seq<Token>, order: nat) {
    |stream| > order ==> forall start: nat :: !MatchAt(stream, prefix, order, start)
  }

  ghost predicate NoneAt(streams: seq<seq<Token>>, prefix: seq<Token>, order: nat) {
    forall k :: 0 <= k < |streams| ==> NoneIn(streams[k], prefix, order)
  }

  /** The match taken: the longest suffix, in the newest stream, at the earliest place. */
  ghost predicate Chosen(streams: seq<seq<Token>>, prefix: seq<Token>, maxOrder: nat, order: nat, k: nat, start: nat) {
    && 1 <= order <= maxOrder && order <= |prefix| && k < |streams| && |streams[k]| > order
    && MatchAt(streams[k], prefix, order, start)
    && (forall o: nat :: order < o <= maxOrder && o <= |prefix| ==> NoneAt(streams, prefix, o))
    && (forall j :: k < j < |streams| ==> NoneIn(streams[j], prefix, order))
    && (forall i: nat :: i < start ==> !MatchAt(streams[k], prefix, order, i))
  }

  /** What follows the match, capped by the draft length and by the end of the stream. */
  function Continuation(stream: seq<Token>, from: nat, maxDraft: nat): seq<Token>
    requires from <= |stream|
  {
    if from + maxDraft <= |stream| then stream[from..from + maxDraft] else stream[from..]
  }

  ghost predicate IsLookup(streams: seq<seq<Token>>, prefix: seq<Token>, maxOrder: nat, maxDraft: nat, draft: seq<Token>) {
    || (exists order: nat, k: nat, start: nat ::
          Chosen(streams, prefix, maxOrder, order, k, start) && draft == Continuation(streams[k], start + order, maxDraft))
    || ((forall o: nat :: 1 <= o <= maxOrder && o <= |prefix| ==> NoneAt(streams, prefix, o)) && draft == [])
  }

  /** The lookup's answer is determined: two answers to one question agree. */
  lemma LookupUnique(streams: seq<seq<Token>>, prefix: seq<Token>, maxOrder: nat, maxDraft: nat, x: seq<Token>, y: seq<Token>)
    requires IsLookup(streams, prefix, maxOrder, maxDraft, x) && IsLookup(streams, prefix, maxOrder, maxDraft, y)
    ensures x == y
  {
    hide Chosen, NoneAt;
    forall o: nat, k: nat, s: nat | Chosen(streams, prefix, maxOrder, o, k, s)
      ensures 1 <= o <= maxOrder && o <= |prefix| && !NoneAt(streams, prefix, o)
    {
      ChosenHits(streams, prefix, maxOrder, o, k, s);
    }
    forall o: nat, k: nat, s: nat, p: nat, j: nat, t: nat
      | Chosen(streams, prefix, maxOrder, o, k, s) && Chosen(streams, prefix, maxOrder, p, j, t)
      ensures o == p && k == j && s == t
    {
      ChosenOnce(streams, prefix, maxOrder, o, k, s, p, j, t);
    }
  }

  lemma ChosenHits(streams: seq<seq<Token>>, prefix: seq<Token>, maxOrder: nat, o: nat, k: nat, s: nat)
    requires Chosen(streams, prefix, maxOrder, o, k, s)
    ensures 1 <= o <= maxOrder && o <= |prefix| && k < |streams| && !NoneIn(streams[k], prefix, o) && !NoneAt(streams, prefix, o)
  {
    assert !NoneIn(streams[k], prefix, o);
  }

  lemma ChosenOnce(streams: seq<seq<Token>>, prefix: seq<Token>, maxOrder: nat, o: nat, k: nat, s: nat, p: nat, j: nat, t: nat)
    requires Chosen(streams, prefix, maxOrder, o, k, s) && Chosen(streams, prefix, maxOrder, p, j, t)
    ensures o == p && k == j && s == t
  {
    hide NoneIn, NoneAt, MatchAt;
    ChosenHits(streams, prefix, maxOrder, o, k, s);
    ChosenHits(streams, prefix, maxOrder, p, j, t);
    assert o == p && k == j;
  }

  /** The earliest match within one stream. */
  method FirstMatch(stream: seq<Token>, prefix: seq<Token>, order: nat) returns (found: bool, start: nat)
    requires order <= |prefix|
    ensures found <==> !NoneIn(stream, prefix, order)
    ensures found ==> |stream| > order && MatchAt(stream, prefix, order, start)
    ensures found ==> forall i: nat :: i < start ==> !MatchAt(stream, prefix, order, i)
  {
    start := 0;
    if |stream| > order {
      while start + order <= |stream|
        invariant forall i: nat :: i < start ==> !MatchAt(stream, prefix, order, i)
        decreases |stream| - start
      {
        if stream[start..start + order] == prefix[|prefix| - order..] {
          assert MatchAt(stream, prefix, order, start);
          return true, start;
        }
        start := start + 1;
      }
    }
    return false, 0;
  }

  // ---- the acceptance walk ----

  datatype CycleRecord = CycleRecord(drafted: nat, accepted: nat)

  datatype AlphaReport = AlphaReport(targetLen: nat, cycles: nat, draftedTotal: nat, acceptedTotal: nat, detail: seq<CycleRecord>)

  /** The length of the common prefix. */
  function Agreed(draft: seq<Token>, rest: seq<Token>): (n: nat)
    ensures n <= |draft| && n <= |rest| && draft[..n] == rest[..n]
    ensures n < |draft| && n < |rest| ==> draft[n] != rest[n]
  {
    if draft == [] || rest == [] || draft[0] != rest[0] then 0
    else
      var n := 1 + Agreed(draft[1..], rest[1..]);
      assert draft[..n] == [draft[0]] + draft[1..][..n - 1] && rest[..n] == [rest[0]] + rest[1..][..n - 1];
      n
  }

  function DraftedIn(detail: seq<CycleRecord>): nat {
    if detail == [] then 0 else DraftedIn(detail[..|detail| - 1]) + detail[|detail| - 1].drafted
  }

  function AcceptedIn(detail: seq<CycleRecord>): nat {
    if detail == [] then 0 else AcceptedIn(detail[..|detail| - 1]) + detail[|detail| - 1].accepted
  }

  /** Where the walk stands after its cycles: every cycle commits what it accepted and one more token. */
  function Reached(detail: seq<CycleRecord>): nat {
    AcceptedIn(detail) + |detail|
  }

  /** Cycle `i` looked up the prefix committed so far and accepted the draft's agreement with the rest of the target. */
  ghost predicate CycleOk(view: seq<seq<Token>>, seed: seq<Token>, target: seq<Token>, maxDraft: nat, maxOrder: nat,
                          detail: seq<CycleRecord>, i: nat)
  {
    && i < |detail|
    && var pos := Reached(detail[..i]);
    && pos < |target|
    && exists draft :: IsLookup(view, seed + target[..pos], maxOrder, maxDraft, draft) &&
                       detail[i] == CycleRecord(|draft|, Agreed(draft, target[pos..]))
  }

  /** The record of a whole walk: every cycle is right and the target is used up. */
  ghost predicate Walked(view: seq<seq<Token>>, seed: seq<Token>, target: seq<Token>, maxDraft: nat, maxOrder: nat,
                         detail: seq<CycleRecord>)
  {
    && (forall i :: 0 <= i < |detail| ==> CycleOk(view, seed, target, maxDraft, maxOrder, detail, i))
    && Reached(detail) >= |target|
  }

  function Seeded(seed: seq<Token>, streams: seq<seq<Token>>): (r: seq<seq<Token>>)
    ensures |r| == |streams|
  {
    seq(|streams|, i requires 0 <= i < |streams| => seed + streams[i])
  }

  lemma ReachedStep(detail: seq<CycleRecord>, c: CycleRecord)
    ensures Reached([]) == 0 && Reached(detail + [c]) == Reached(detail) + c.accepted + 1
    ensures DraftedIn(detail + [c]) == DraftedIn(detail) + c.drafted && AcceptedIn(detail + [c]) == AcceptedIn(detail) + c.accepted
  {
    assert (detail + [c])[..|detail|] == detail;
  }

  lemma CycleAdded(view: seq<seq<Token>>, seed: seq<Token>, target: seq<Token>, maxDraft: nat, maxOrder: nat,
                   detail: seq<CycleRecord>, draft: seq<Token>)
    requires Reached(detail) < |target|
    requires (forall i :: 0 <= i < |detail| ==> CycleOk(view, seed, target, maxDraft, maxOrder, detail, i))
    requires IsLookup(view, seed + target[..Reached(detail)], maxOrder, maxDraft, draft)
    ensures var c := CycleRecord(|draft|, Agreed(draft, target[Reached(detail)..]));
            && Reached(detail + [c]) == Reached(detail) + c.accepted + 1
            && forall i :: 0 <= i <= |detail| ==> CycleOk(view, seed, target, maxDraft, maxOrder, detail + [c], i)
  {
    hide IsLookup, Reached;
    var c := CycleRecord(|draft|, Agreed(draft, target[Reached(detail)..]));
    ReachedStep(detail, c);
    assert (detail + [c])[..|detail|] == detail;
    forall i | 0 <= i < |detail| ensures CycleOk(view, seed, target, maxDraft, maxOrder, detail + [c], i) {
      CyclesKept(view, seed, target, maxDraft, maxOrder, detail, c, i);
    }
  }

  lemma CyclesKept(view: seq<seq<Token>>, seed: seq<Token>, target: seq<Token>, maxDraft: nat, maxOrder: nat,
                   detail: seq<CycleRecord>, c: CycleRecord, i: nat)
    requires CycleOk(view, seed, target, maxDraft, maxOrder, detail, i)
    ensures CycleOk(view, seed, target, maxDraft, maxOrder, detail + [c], i)
  {
    assert (detail + [c])[..i] == detail[..i];
  }

  lemma PrefixIs(seed: seq<Token>, target: seq<Token>, pos: nat)
    requires pos <= |target|
    ensures (seed + target)[..|seed| + pos] == seed + target[..pos]
  {
  }

  /** `measure_alpha_seeded`: the walk over one target against the seeded copies of the retained streams. */
  method MeasureAlphaSeeded(seed: seq<Token>, history: PromptHistory, target: seq<Token>, maxDraft: nat, maxOrder: nat)
    returns (report: AlphaReport)
    requires history.Valid()
    ensures report.targetLen == |target| && report.cycles == |report.detail|
    ensures report.draftedTotal == DraftedIn(report.detail) && report.acceptedTotal == AcceptedIn(report.detail)
    ensures target == [] ==> report.detail == []
    ensures target != [] ==> Walked(Seeded(seed, history.streams), seed, target, maxDraft, maxOrder, report.detail)
  {
    if target == [] {
      return AlphaReport(0, 0, 0, 0, []);
    }
    hide IsLookup, CycleOk, Seeded, Reached, Agreed, Latest, DraftedIn, AcceptedIn, PromptHistory.Valid;
    var view := SeededView(seed, history);
    var combined := seed + target;
    var detail: seq<CycleRecord> := [];
    var pos := 0;
    ReachedStep([], CycleRecord(0, 0));
    while pos < |target|
      invariant view.streams == Seeded(seed, history.streams) && pos == Reached(detail)
      invariant forall i :: 0 <= i < |detail| ==> CycleOk(view.streams, seed, target, maxDraft, maxOrder, detail, i)
      decreases |target| + 1 - pos
    {
      var draft := view.LongestSuffixContinuation(combined[..|seed| + pos], maxOrder, maxDraft);
      PrefixIs(seed, target, pos);
      var accepted := Agreed(draft, target[pos..]);
      CycleAdded(view.streams, seed, target, maxDraft, maxOrder, detail, draft);
      detail := detail + [CycleRecord(|draft|, accepted)];
      pos := pos + accepted + 1;
    }
    report := AlphaReport(|target|, |detail|, DraftedIn(detail), AcceptedIn(detail), detail);
  }

  /** Every retained stream is seen as the seed followed by it. */
  method SeededView(seed: seq<Token>, history: PromptHistory) returns (view: PromptHistory)
    requires history.Valid()
    ensures fresh(view) && view.streams == Seeded(seed, history.streams)
  {
    view := new PromptHistory(history.capacity);
    for i := 0 to |history.streams|
      invariant fresh(view) && view.Valid() && view.capacity == history.capacity && history.streams == old(history.streams)
      invariant view.streams == Seeded(seed, history.streams)[..i]
    {
      view.Record(seed + history.streams[i]);
    }
  }

  // ---- the accounting ----

  /** Every walk over a non-empty target commits all of it, and at most one token more: accepted drafts plus cycles is the
      target's length or one above. No cycle accepts more than it drafted, nor drafts more than allowed. */
  lemma Accounting(view: seq<seq<Token>>, seed: seq<Token>, target: seq<Token>, maxDraft: nat, maxOrder: nat, detail: seq<CycleRecord>)
    requires target != [] && Walked(view, seed, target, maxDraft, maxOrder, detail)
    ensures |target| <= AcceptedIn(detail) + |detail| <= |target| + 1
    ensures forall i :: 0 <= i < |detail| ==> detail[i].accepted <= detail[i].drafted <= maxDraft
  {
    hide CycleOk, Reached;
    ReachedStep([], CycleRecord(0, 0));
    assert detail != [];
    var n := |detail| - 1;
    assert CycleOk(view, seed, target, maxDraft, maxOrder, detail, n);
    CycleBounds(view, seed, target, maxDraft, maxOrder, detail, n);
    assert detail == detail[..n] + [detail[n]];
    ReachedStep(detail[..n], detail[n]);
    ReachedIs(detail);
    forall i | 0 <= i < |detail| ensures detail[i].accepted <= detail[i].drafted <= maxDraft {
      assert CycleOk(view, seed, target, maxDraft, maxOrder, detail, i);
      CycleBounds(view, seed, target, maxDraft, maxOrder, detail, i);
    }
  }

  lemma ReachedIs(detail: seq<CycleRecord>)
    ensures Reached(detail) == AcceptedIn(detail) + |detail|
  {
  }

  lemma CycleBounds(view: seq<seq<Token>>, seed: seq<Token>, target: seq<Token>, maxDraft: nat, maxOrder: nat,
                    detail: seq<CycleRecord>, i: nat)
    requires CycleOk(view, seed, target, maxDraft, maxOrder, detail, i)
    ensures Reached(detail[..i]) + detail[i].accepted <= |target|
    ensures detail[i].accepted <= detail[i].drafted <= maxDraft
  {
    hide Reached, Chosen, NoneAt;
    var pos := Reached(detail[..i]);
    var draft :| IsLookup(view, seed + target[..pos], maxOrder, maxDraft, draft) &&
                 detail[i] == CycleRecord(|draft|, Agreed(draft, target[pos..]));
    LookupShort(view, seed + target[..pos], maxOrder, maxDraft, draft);
  }

  lemma LookupShort(streams: seq<seq<Token>>, prefix: seq<Token>, maxOrder: nat, maxDraft: nat, draft: seq<Token>)
    requires IsLookup(streams, prefix, maxOrder, maxDraft, draft)
    ensures |draft| <= maxDraft
  {
    hide NoneAt, NoneIn;
  }

  ghost predicate AllDistinct(s: seq<Token>) {
    forall i, j :: 0 <= i < j < |s| ==> s[i] != s[j]
  }

  /** With pairwise distinct tokens a committed prefix occurs in the whole text at one place only. */
  lemma OnlyMatch(all: seq<Token>, n: nat, order: nat, start: nat)
    requires AllDistinct(all) && n <= |all| && 1 <= order <= n && MatchAt(all, all[..n], order, start)
    ensures start == n - order
  {
    assert all[start..start + order][0] == all[..n][n - order..][0];
    assert all[start] == all[n - order];
  }

  lemma OwnMatch(all: seq<Token>, n: nat, order: nat)
    requires n <= |all| && order <= n
    ensures MatchAt(all, all[..n], order, n - order)
  {
    assert all[n - order..n] == all[..n][n - order..];
  }

  /** Against its own text the drafter proposes what comes next. */
  lemma OwnLookup(all: seq<Token>, n: nat, maxOrder: nat, maxDraft: nat, draft: seq<Token>)
    requires AllDistinct(all) && 1 <= n < |all| && maxOrder > 0
    requires IsLookup([all], all[..n], maxOrder, maxDraft, draft)
    ensures draft == Continuation(all, n, maxDraft)
  {
    OwnMatch(all, n, 1);
    assert !NoneIn([all][0], all[..n], 1);
    assert !NoneAt([all], all[..n], 1);
    var order: nat, k: nat, start: nat :| Chosen([all], all[..n], maxOrder, order, k, start) &&
                                          draft == Continuation([all][k], start + order, maxDraft);
    OnlyMatch(all, n, order, start);
  }

  /** What one cycle of a walk against the target itself records: as much as is left, up to the draft length. */
  lemma OwnCycle(seed: seq<Token>, target: seq<Token>, maxDraft: nat, maxOrder: nat, detail: seq<CycleRecord>, i: nat)
    requires seed != [] && maxOrder > 0 && AllDistinct(seed + target)
    requires CycleOk(Seeded(seed, [target]), seed, target, maxDraft, maxOrder, detail, i)
    ensures var left := |target| - Reached(detail[..i]);
            left > 0 && detail[i].accepted == detail[i].drafted == if maxDraft <= left then maxDraft else left
  {
    hide IsLookup, Agreed, Reached;
    var all, pos := seed + target, Reached(detail[..i]);
    var n := |seed| + pos;
    assert Seeded(seed, [target]) == [all];
    var draft :| IsLookup([all], seed + target[..pos], maxOrder, maxDraft, draft) &&
                 detail[i] == CycleRecord(|draft|, Agreed(draft, target[pos..]));
    assert all[..n] == seed + target[..pos];
    OwnLookup(all, n, maxOrder, maxDraft, draft);
    assert all[n..] == target[pos..];
    assert draft == target[pos..][..|draft|];
    AgreedPrefix(draft, target[pos..]);
  }

  lemma AgreedPrefix(draft: seq<Token>, rest: seq<Token>)
    requires draft <= rest
    ensures Agreed(draft, rest) == |draft|
  {
    assert forall k :: 0 <= k < |draft| ==> draft[k] == rest[k];
  }

  /** Every cycle that is not the first starts `K + 1` tokens after the one before. */
  lemma {:induction false} OwnSteps(seed: seq<Token>, target: seq<Token>, maxDraft: nat, maxOrder: nat, detail: seq<CycleRecord>, i: nat)
    requires seed != [] && maxOrder > 0 && AllDistinct(seed + target) && i < |detail|
    requires Walked(Seeded(seed, [target]), seed, target, maxDraft, maxOrder, detail)
    ensures Reached(detail[..i]) == i * (maxDraft + 1) < |target|
  {
    hide CycleOk, Reached, Seeded;
    assert CycleOk(Seeded(seed, [target]), seed, target, maxDraft, maxOrder, detail, i);
    OwnCycle(seed, target, maxDraft, maxOrder, detail, i);
    ReachedStep([], detail[i]);
    if i == 0 {
      assert detail[..0] == [];
    } else {
      OwnSteps(seed, target, maxDraft, maxOrder, detail, i - 1);
      assert CycleOk(Seeded(seed, [target]), seed, target, maxDraft, maxOrder, detail, i - 1);
      OwnCycle(seed, target, maxDraft, maxOrder, detail, i - 1);
      assert detail[..i] == detail[..i - 1] + [detail[i - 1]];
      ReachedStep(detail[..i - 1], detail[i - 1]);
      assert i * (maxDraft + 1) == (i - 1) * (maxDraft + 1) + (maxDraft + 1);
    }
  }

  /** Greedy self-consistency: with a non-empty seed, a positive lookup order, pairwise distinct tokens and the target
      itself as the only stream, every draft is accepted in full and the walk takes ceil(len / (K + 1)) cycles. */
  lemma SelfConsistent(seed: seq<Token>, target: seq<Token>, maxDraft: nat, maxOrder: nat, detail: seq<CycleRecord>)
    requires seed != [] && target != [] && maxOrder > 0 && AllDistinct(seed + target)
    requires Walked(Seeded(seed, [target]), seed, target, maxDraft, maxOrder, detail)
    ensures forall i :: 0 <= i < |detail| ==> detail[i].accepted == detail[i].drafted
    ensures maxDraft > 0 ==> forall i :: 0 <= i < |detail| ==> detail[i].drafted > 0
    ensures |detail| == (|target| + maxDraft) / (maxDraft + 1)
  {
    hide CycleOk, Reached, Seeded;
    forall i | 0 <= i < |detail|
      ensures detail[i].accepted == detail[i].drafted && (maxDraft > 0 ==> detail[i].drafted > 0)
    {
      assert CycleOk(Seeded(seed, [target]), seed, target, maxDraft, maxOrder, detail, i);
      OwnCycle(seed, target, maxDraft, maxOrder, detail, i);
    }
    ReachedStep([], CycleRecord(0, 0));
    assert detail != [];
    var n := |detail| - 1;
    OwnSteps(seed, target, maxDraft, maxOrder, detail, n);
    assert CycleOk(Seeded(seed, [target]), seed, target, maxDraft, maxOrder, detail, n);
    OwnCycle(seed, target, maxDraft, maxOrder, detail, n);
    assert detail == detail[..n] + [detail[n]];
    ReachedStep(detail[..n], detail[n]);
    CeilIs(|target|, maxDraft + 1, n);
  }

  lemma CeilIs(len: nat, d: nat, n: nat)
    requires d > 0 && n * d < len <= n * d + d
    ensures (len + d - 1) / d == n + 1
  {
    var r := len - n * d - 1;
    assert len + d - 1 == (n + 1) * d + r;
    DivModIs(len + d - 1, d, n + 1, r);
    var q := (len + d - 1) / d;
    assert q * d == (n + 1) * d;
    SameFactor(q, n + 1, d);
  }

  lemma SameFactor(x: nat, y: nat, d: nat)
    requires d > 0 && x * d == y * d
    ensures x == y
  {
    if x < y { RowEnd(x, y, d); }
    if y < x { RowEnd(y, x, d); }
  }
}
