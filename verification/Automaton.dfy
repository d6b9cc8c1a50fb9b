/** The compiled token automaton in compressed sparse row form, its walk, and the language it accepts. */
module Automata {
  import opened Prelude

  /** A position carrying this value is free; any other value pins the position to that token. */
  const FREE: nat := 0xFFFF_FFFF

  /** Distance sentinel: the node cannot reach an accepting node. */
  const UNREACHABLE: nat := 0xFFFF_FFFF

  datatype FaError =
    | NodeOutOfRange(node: nat, nNodes: nat)
    | TokenOutOfRange(token: nat, vocab: nat, src: nat, dst: nat)
    | DuplicateTokenInEdge(src: nat, dst: nat, token: nat)
    | DuplicateEdgeToken(node: nat, token: nat)
    | DuplicatePair(node: nat, dst: nat)
    | EmptyEdge(src: nat, dst: nat)
    | BadStart(start: nat)
    | LogitsShape(expected: nat, got: nat, len: nat, vocab: nat)
    | ForcedShape(got: nat, len: nat)
    | OutShape(got: nat, len: nat)
    | DeadStart(node: nat)
    | Unsatisfiable(len: nat)
    | InternalDeadState(pos: nat)

  /** Binary search in a sorted token set. */
  method ContainsToken(toks: seq<nat>, token: nat) returns (found: bool)
    requires StrictlySorted(toks)
    ensures found <==> token in toks
  {
    var lo, hi := 0, |toks|;
    while lo < hi
      invariant 0 <= lo <= hi <= |toks|
      invariant forall i :: 0 <= i < lo ==> toks[i] < token
      invariant forall i :: hi <= i < |toks| ==> token < toks[i]
    {
      var mid := lo + (hi - lo) / 2;
      if toks[mid] == token {
        return true;
      } else if toks[mid] < token {
        lo := mid + 1;
      } else {
        hi := mid;
      }
    }
    return false;
  }

  datatype Automaton = Automaton(
    nNodes: nat,
    vocab: nat,
    start: nat,
    accept: seq<bool>,
    outStart: seq<nat>,
    edgeDst: seq<nat>,
    emitStart: seq<nat>,
    emitTokens: seq<nat>)
  {
    function NEdges(): nat { |edgeDst| }

    /** The offset arrays are monotone, in range and cover everything. */
    ghost predicate Shape() {
      && start < nNodes
      && |accept| == nNodes
      && |outStart| == nNodes + 1
      && outStart[0] == 0 && outStart[nNodes] == |edgeDst|
      && Sorted(outStart)
      && |emitStart| == |edgeDst| + 1
      && emitStart[0] == 0 && emitStart[|edgeDst|] == |emitTokens|
      && StrictlySorted(emitStart)
    }

    function OutLo(s: nat): (r: nat)
      requires Shape() && s < nNodes
      ensures r <= |edgeDst|
    {
      assert s < nNodes ==> outStart[s] <= outStart[nNodes];
      outStart[s]
    }

    function OutHi(s: nat): (r: nat)
      requires Shape() && s < nNodes
      ensures OutLo(s) <= r <= |edgeDst|
    {
      assert s + 1 < nNodes ==> outStart[s + 1] <= outStart[nNodes];
      assert outStart[s] <= outStart[s + 1];
      outStart[s + 1]
    }

    /** The sorted token set of one edge. */
    function EdgeTokens(e: nat): (r: seq<nat>)
      requires Shape() && e < |edgeDst|
      ensures |r| > 0
    {
      assert emitStart[e] < emitStart[e + 1];
      assert e + 1 < |edgeDst| ==> emitStart[e + 1] < emitStart[|edgeDst|];
      emitTokens[emitStart[e]..emitStart[e + 1]]
    }

    ghost predicate EdgeValid(e: nat)
      requires Shape() && e < |edgeDst|
    {
      && edgeDst[e] < nNodes
      && StrictlySorted(EdgeTokens(e))
      && forall t :: t in EdgeTokens(e) ==> t < vocab
    }

    /** Two edges of one node go to different nodes and share no token. */
    ghost predicate Apart(e: nat, f: nat)
      requires Shape() && e < |edgeDst| && f < |edgeDst|
    {
      && edgeDst[e] != edgeDst[f]
      && forall t :: t in EdgeTokens(e) ==> t !in EdgeTokens(f)
    }

    /** Everything the builder promises about its result. */
    ghost predicate Valid() {
      && Shape()
      && (forall e :: 0 <= e < |edgeDst| ==> EdgeValid(e))
      && (forall s :: 0 <= s < nNodes ==> NodeValid(s))
    }

    ghost predicate NodeValid(s: nat)
      requires Shape() && s < nNodes
    {
      forall e, f :: OutLo(s) <= e < f < OutHi(s) ==> Apart(e, f)
    }

    /** The first edge in `[lo, hi)` allowing `token`. */
    function FirstEdge(token: nat, lo: nat, hi: nat): (r: Option<nat>)
      requires Shape() && lo <= hi <= |edgeDst|
      ensures r.Some? ==> lo <= r.value < hi && token in EdgeTokens(r.value)
      ensures r.None? ==> forall e :: lo <= e < hi ==> token !in EdgeTokens(e)
      decreases hi - lo
    {
      if lo == hi then None
      else if token in EdgeTokens(lo) then Some(lo)
      else FirstEdge(token, lo + 1, hi)
    }

    function EdgeFor(s: nat, token: nat): (r: Option<nat>)
      requires Shape() && s < nNodes
      ensures r.Some? ==> OutLo(s) <= r.value < OutHi(s) && token in EdgeTokens(r.value)
      ensures r.None? ==> forall e :: OutLo(s) <= e < OutHi(s) ==> token !in EdgeTokens(e)
    {
      FirstEdge(token, OutLo(s), OutHi(s))
    }

    /** The node reached from `s` by one token. */
    function Next(s: nat, token: nat): (r: Option<nat>)
      requires Valid() && s < nNodes
      ensures r.Some? ==> r.value < nNodes && token < vocab
    {
      match EdgeFor(s, token)
      case None => None
      case Some(e) => assert EdgeValid(e); Some(edgeDst[e])
    }

    /** The node reached from `s` by a token sequence, if the walk survives. */
    function Walk(s: nat, x: seq<nat>): (r: Option<nat>)
      requires Valid() && s < nNodes
      ensures r.Some? ==> r.value < nNodes
      decreases |x|
    {
      if x == [] then Some(s)
      else match Next(s, x[0])
        case None => None
        case Some(d) => Walk(d, x[1..])
    }

    predicate Accepts(s: nat, x: seq<nat>)
      requires Valid() && s < nNodes
    {
      var r := Walk(s, x);
      r.Some? && accept[r.value]
    }

    /** At most one edge of a node allows a token, so membership pins `EdgeFor`. */
    lemma EdgeForUnique(s: nat, token: nat, e: nat)
      requires Valid() && s < nNodes
      requires OutLo(s) <= e < OutHi(s) && token in EdgeTokens(e)
      ensures EdgeFor(s, token) == Some(e)
    {
      var f := EdgeFor(s, token).value;
      assert NodeValid(s);
      assert f < e ==> Apart(f, e);
      assert e < f ==> Apart(e, f);
    }

    lemma NextCharacterized(s: nat, token: nat, d: nat)
      requires Valid() && s < nNodes
      ensures Next(s, token) == Some(d) <==>
              exists e :: OutLo(s) <= e < OutHi(s) && token in EdgeTokens(e) && edgeDst[e] == d
    {
      if e :| OutLo(s) <= e < OutHi(s) && token in EdgeTokens(e) && edgeDst[e] == d {
        EdgeForUnique(s, token, e);
      }
    }

    /** A walk splits at any point of the sequence. */
    lemma {:induction false} WalkConcat(s: nat, x: seq<nat>, y: seq<nat>)
      requires Valid() && s < nNodes
      ensures Walk(s, x + y) ==
              match Walk(s, x) case None => None case Some(d) => Walk(d, y)
      decreases |x|
    {
      if x == [] {
        assert x + y == y;
      } else {
        assert (x + y)[0] == x[0] && (x + y)[1..] == x[1..] + y;
        match Next(s, x[0])
        case None =>
        case Some(d) => WalkConcat(d, x[1..], y);
      }
    }

    /** `edge_for_token`: linear over the fanout, binary search inside each edge. */
    method EdgeForToken(node: nat, token: nat) returns (r: Option<nat>)
      requires Valid() && node < nNodes
      ensures r == EdgeFor(node, token)
    {
      hide NodeValid;
      var e := OutLo(node);
      while e < OutHi(node)
        invariant OutLo(node) <= e <= OutHi(node)
        invariant EdgeFor(node, token) == FirstEdge(token, e, OutHi(node))
      {
        assert EdgeValid(e);
        var hit := ContainsToken(EdgeTokens(e), token);
        if hit {
          return Some(e);
        }
        e := e + 1;
      }
      return None;
    }

    /** `walk_from`: the walk of a token sequence from any node. */
    method WalkFrom(from: nat, tokens: seq<nat>) returns (r: Option<nat>)
      requires Valid() && from < nNodes
      ensures r == Walk(from, tokens)
    {
      var node: nat := from;
      for i := 0 to |tokens|
        invariant node < nNodes
        invariant Walk(from, tokens) == Walk(node, tokens[i..])
      {
        assert tokens[i..][0] == tokens[i] && tokens[i..][1..] == tokens[i + 1..];
        var e := EdgeForToken(node, tokens[i]);
        if e.None? {
          return None;
        }
        assert EdgeValid(e.value);
        node := edgeDst[e.value];
      }
      assert tokens[|tokens|..] == [];
      return Some(node);
    }

    /** `source_of`: the node whose out-range holds an edge, by partition point over the offsets. */
    method SourceOf(edge: nat) returns (s: nat)
      requires Shape() && edge < |edgeDst|
      ensures s < nNodes && OutLo(s) <= edge < OutHi(s)
    {
      var lo, hi := 0, |outStart|;
      while lo < hi
        invariant 0 <= lo <= hi <= |outStart|
        invariant forall i :: 0 <= i < lo ==> outStart[i] <= edge
        invariant forall i :: hi <= i < |outStart| ==> edge < outStart[i]
      {
        var mid := lo + (hi - lo) / 2;
        if outStart[mid] <= edge {
          lo := mid + 1;
        } else {
          hi := mid;
        }
      }
      s := lo - 1;
    }
  }
}
