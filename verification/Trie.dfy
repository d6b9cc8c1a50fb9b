/** The trie over token texts: shared prefixes are single nodes. */
module Tries {
  import opened Prelude

  /** One listed token. */
  datatype Token = Token(id: nat, text: string)

  /** Children in strictly increasing order of their characters. */
  ghost predicate ByChar(kids: seq<(char, nat)>) {
    forall i, j :: 0 <= i < j < |kids| ==> kids[i].0 < kids[j].0
  }

  /** The position of a character among sorted children, or where it belongs. */
  method FindChild(kids: seq<(char, nat)>, c: char) returns (found: bool, i: nat)
    requires ByChar(kids)
    ensures found ==> i < |kids| && kids[i].0 == c
    ensures !found ==> i <= |kids| && (forall j :: 0 <= j < i ==> kids[j].0 < c) && forall j :: i <= j < |kids| ==> c < kids[j].0
  {
    var lo, hi := 0, |kids|;
    while lo < hi
      invariant 0 <= lo <= hi <= |kids|
      invariant forall j :: 0 <= j < lo ==> kids[j].0 < c
      invariant forall j :: hi <= j < |kids| ==> c < kids[j].0
    {
      var mid := lo + (hi - lo) / 2;
      if kids[mid].0 == c {
        return true, mid;
      } else if kids[mid].0 < c {
        lo := mid + 1;
      } else {
        hi := mid;
      }
    }
    return false, lo;
  }

  /** `paths[v]` is the text spelled from the root to node `v`. */
  ghost predicate Shape(children: seq<seq<(char, nat)>>, paths: seq<string>) {
    && |paths| == |children| > 0 && paths[0] == []
    && Distinct(paths)
    && (forall v :: 0 <= v < |children| ==> ByChar(children[v]))
    && (forall v: nat, c: char, kid: nat :: v < |children| ==>
         ((c, kid) in children[v] <==> kid < |paths| && paths[kid] == paths[v] + [c]))
    && (forall kid: nat :: 0 < kid < |paths| ==> HasParent(paths, kid))
  }

  /** Some earlier node spells all but the last character. */
  ghost predicate HasParent(paths: seq<string>, kid: nat)
    requires kid < |paths|
  {
    paths[kid] != [] && exists v: nat :: v < kid && paths[v] == Init(paths[kid])
  }

  function Init(w: string): string
    requires w != []
  {
    w[..|w| - 1]
  }

  lemma ParentOf(children: seq<seq<(char, nat)>>, paths: seq<string>, kid: nat) returns (v: nat, c: char)
    requires Shape(children, paths) && 0 < kid < |paths|
    ensures v < kid && paths[kid] == paths[v] + [c] && (c, kid) in children[v]
  {
    assert HasParent(paths, kid);
    v :| v < kid && paths[v] == Init(paths[kid]);
    c := paths[kid][|paths[kid]| - 1];
    assert paths[kid] == paths[v] + [c];
  }

  lemma NoSuchChild(kids: seq<(char, nat)>, c: char, u: nat)
    requires forall j :: 0 <= j < |kids| ==> kids[j].0 != c
    ensures (c, u) !in kids
  {
  }

  lemma NotThere(children: seq<seq<(char, nat)>>, paths: seq<string>, v: nat, c: char)
    requires Shape(children, paths) && v < |children| && forall j :: 0 <= j < |children[v]| ==> children[v][j].0 != c
    ensures paths[v] + [c] !in paths
  {
    forall u: nat | u < |paths| ensures paths[u] != paths[v] + [c] {
      NoSuchChild(children[v], c, u);
    }
  }

  lemma LastEqual(u: string, c: char, w: string, d: char)
    requires u + [c] == w + [d]
    ensures u == w && c == d
  {
    assert (u + [c])[..|u|] == u && (w + [d])[..|w|] == w;
    assert (u + [c])[|u|] == c && (w + [d])[|w|] == d;
  }

  lemma NewChild(children: seq<seq<(char, nat)>>, paths: seq<string>, v: nat, c: char, i: nat)
    requires Shape(children, paths) && v < |children| && i <= |children[v]|
    requires (forall j :: 0 <= j < i ==> children[v][j].0 < c) && forall j :: i <= j < |children[v]| ==> c < children[v][j].0
    ensures var kid := |children|;
            var row := children[v][..i] + [(c, kid)] + children[v][i..];
            Shape((children + [[]])[v := row], paths + [paths[v] + [c]])
  {
    var kid, path := |children|, paths[v] + [c];
    var row := children[v][..i] + [(c, kid)] + children[v][i..];
    var more, longer := (children + [[]])[v := row], paths + [path];
    NotThere(children, paths, v, c);
    forall u: nat, d: char, k: nat | u < |more| ensures (d, k) in more[u] <==> k < |longer| && longer[k] == longer[u] + [d] {
      ChildrenExtend(children, paths, v, c, i, u, d, k);
    }
    forall k: nat | 0 < k < |longer| ensures HasParent(longer, k) {
      if k < |paths| {
        assert HasParent(paths, k);
        var p: nat :| p < k && paths[p] == Init(paths[k]);
        assert longer[p] == Init(longer[k]);
      } else {
        assert longer[v] == Init(longer[k]);
      }
    }
    assert ByChar(row);
  }

  lemma ChildrenExtend(children: seq<seq<(char, nat)>>, paths: seq<string>, v: nat, c: char, i: nat, u: nat, d: char, k: nat)
    requires Shape(children, paths) && v < |children| && i <= |children[v]| && u <= |children| && paths[v] + [c] !in paths
    ensures var kid := |children|;
            var row := children[v][..i] + [(c, kid)] + children[v][i..];
            var more, longer := (children + [[]])[v := row], paths + [paths[v] + [c]];
            (d, k) in more[u] <==> k < |longer| && longer[k] == longer[u] + [d]
  {
    var kid, path := |children|, paths[v] + [c];
    var row := children[v][..i] + [(c, kid)] + children[v][i..];
    var longer := paths + [path];
    assert children[v] == children[v][..i] + children[v][i..];
    assert (d, k) in row <==> (d, k) in children[v] || (d == c && k == kid);
    if u == kid {
      NoLonger(children, paths, v, c, d, k);
    } else if k == kid {
      if path == paths[u] + [d] { LastEqual(paths[v], c, paths[u], d); }
      assert (d, k) in children[u] ==> k < |paths|;
    }
  }

  /** No node spells a proper extension of a path that is not there yet. */
  lemma NoLonger(children: seq<seq<(char, nat)>>, paths: seq<string>, v: nat, c: char, d: char, k: nat)
    requires Shape(children, paths) && v < |children| && paths[v] + [c] !in paths
    ensures !(k < |paths| + 1 && (paths + [paths[v] + [c]])[k] == (paths[v] + [c]) + [d])
  {
    var path := paths[v] + [c];
    assert |path + [d]| == |path| + 1;
    if k < |paths| && paths[k] == path + [d] {
      var p, e := ParentOf(children, paths, k);
      LastEqual(paths[p], e, path, d);
    }
  }

  /** `terminals[v]` holds exactly the ids of the inserted tokens whose text ends at `v`. */
  ghost predicate Holds(terminals: seq<seq<nat>>, paths: seq<string>, tokens: set<Token>) {
    && |terminals| == |paths|
    && (forall v: nat, id: nat :: v < |paths| ==> (id in terminals[v] <==> Token(id, paths[v]) in tokens))
    && (forall t :: t in tokens ==> t.text in paths)
  }

  lemma HoldsGrow(terminals: seq<seq<nat>>, paths: seq<string>, tokens: set<Token>, path: string)
    requires Holds(terminals, paths, tokens) && path !in paths
    ensures Holds(terminals + [[]], paths + [path], tokens)
  {
    var more, longer := terminals + [[]], paths + [path];
    forall v: nat, id: nat | v < |longer| ensures id in more[v] <==> Token(id, longer[v]) in tokens {
      if v == |paths| {
        assert Token(id, path) in tokens ==> Token(id, path).text in paths;
      }
    }
    forall t | t in tokens ensures t.text in longer {
      assert t.text in paths;
    }
  }

  lemma HoldsInsert(terminals: seq<seq<nat>>, paths: seq<string>, tokens: set<Token>, v: nat, id: nat)
    requires Holds(terminals, paths, tokens) && v < |paths| && Distinct(paths)
    ensures Holds(terminals[v := terminals[v] + [id]], paths, tokens + {Token(id, paths[v])})
  {
    var more := terminals[v := terminals[v] + [id]];
    forall u: nat, i: nat | u < |paths| ensures i in more[u] <==> Token(i, paths[u]) in tokens + {Token(id, paths[v])} {
      assert u != v ==> paths[u] != paths[v];
    }
  }

  class TokenTrie {
    var children: seq<seq<(char, nat)>>
    var terminals: seq<seq<nat>>
    ghost var paths: seq<string>
    ghost var tokens: set<Token>

    ghost predicate Valid()
      reads this
    {
      Shape(children, paths) && Holds(terminals, paths, tokens)
    }

    constructor ()
      ensures Valid() && tokens == {}
    {
      children, terminals := [[]], [[]];
      paths, tokens := [[]], {};
    }

    /** The child for one character, made when it is missing. */
    method Child(node: nat, c: char) returns (kid: nat)
      requires Valid() && node < |children|
      modifies this
      ensures Valid() && tokens == old(tokens)
      ensures kid < |children| && paths[kid] == old(paths[node]) + [c]
    {
      hide Shape, Holds, ByChar;
      RowSorted(children, paths, node);
      var found, i := FindChild(children[node], c);
      if found {
        kid := children[node][i].1;
        ChildPath(children, paths, node, c, kid);
      } else {
        kid := |children|;
        NotThere(children, paths, node, c);
        NewChild(children, paths, node, c, i);
        SameLength(children, paths);
        HoldsGrow(terminals, paths, tokens, paths[node] + [c]);
        var row := children[node];
        children := (children + [[]])[node := row[..i] + [(c, kid)] + row[i..]];
        terminals := terminals + [[]];
        paths := paths + [paths[node] + [c]];
      }
    }

    /** Inserts one token text. */
    method Insert(id: nat, text: string)
      requires Valid()
      modifies this
      ensures Valid() && tokens == old(tokens) + {Token(id, text)}
    {
      hide Shape, Holds;
      Rooted(children, paths);
      var node: nat := 0;
      for k := 0 to |text|
        invariant Valid() && tokens == old(tokens) && node < |children| && node < |paths| && paths[node] == text[..k]
      {
        assert text[..k + 1] == text[..k] + [text[k]];
        node := Child(node, text[k]);
        SameLength(children, paths);
      }
      assert text[..|text|] == text;
      SameLength(children, paths);
      HeldLength(terminals, paths, tokens);
      HoldsInsert(terminals, paths, tokens, node, id);
      terminals := terminals[node := terminals[node] + [id]];
      tokens := tokens + {Token(id, text)};
    }
  }

  lemma RowSorted(children: seq<seq<(char, nat)>>, paths: seq<string>, v: nat)
    requires Shape(children, paths) && v < |children|
    ensures ByChar(children[v])
  {
  }

  lemma ChildPath(children: seq<seq<(char, nat)>>, paths: seq<string>, v: nat, c: char, kid: nat)
    requires Shape(children, paths) && v < |children| && (c, kid) in children[v]
    ensures kid < |paths| == |children| && paths[kid] == paths[v] + [c]
  {
  }

  lemma SameLength(children: seq<seq<(char, nat)>>, paths: seq<string>)
    requires Shape(children, paths)
    ensures |children| == |paths| > 0 && Distinct(paths)
  {
  }

  lemma HeldLength(terminals: seq<seq<nat>>, paths: seq<string>, tokens: set<Token>)
    requires Holds(terminals, paths, tokens)
    ensures |terminals| == |paths|
  {
  }

  lemma Rooted(children: seq<seq<(char, nat)>>, paths: seq<string>)
    requires Shape(children, paths)
    ensures |children| > 0 && |paths| > 0 && paths[0] == []
  {
  }
}
