/** Deterministic scanners over characters, used as exact descriptions of shared fragments. */
module Scans {
  import opened Languages
  import opened Nfas

  datatype Transit = Stop | Go(phase: nat)

  /** A scanner: phases, steps, and the phases where a text may end. */
  datatype Scan = Scan(step: (nat, char) -> Transit, final: nat -> bool) {

    predicate Run(ph: nat, w: string)
      decreases |w|
    {
      if w == [] then final(ph)
      else match step(ph, w[0])
        case Stop => false
        case Go(q) => Run(q, w[1..])
    }

    ghost function Texts(ph: nat): Lang {
      iset w: string | Run(ph, w)
    }

    /** What a state of a shared fragment can read: everything from a phase, or one symbol and then a phase. */
    ghost predicate Holds(tag: Tag, w: string) {
      match tag
      case At(ph) => Run(ph, w)
      case Then(sym, ph) => w != [] && sym.Allows(w[0]) && Run(ph, w[1..])
    }

    ghost function Tagged(tag: Tag): Lang {
      iset w: string | Holds(tag, w)
    }

    /** A symbol leads phase `q` to phase `ph`. */
    ghost predicate Feeds(sym: Label, ph: nat, q: nat) {
      forall c: char :: sym.Allows(c) ==> step(q, c) == Go(ph)
    }

    /** Phase `q` does whatever phase `p` does. */
    ghost predicate Covers(p: nat, q: nat) {
      (final(p) ==> final(q)) && forall c: char :: step(p, c).Go? ==> step(q, c) == step(p, c)
    }

    lemma CoversTexts(p: nat, q: nat)
      requires Covers(p, q)
      ensures Tagged(At(p)) <= Tagged(At(q))
    {
      forall w | Run(p, w) ensures Run(q, w) {
        if w != [] { assert step(p, w[0]).Go?; }
      }
    }

    lemma FeedsTexts(sym: Label, ph: nat, q: nat)
      requires Feeds(sym, ph, q)
      ensures Tagged(Then(sym, ph)) <= Tagged(At(q))
    {
    }

    /** A symbol edge fits when its source waits for exactly that symbol. */
    lemma SymbolFits(e: Edge, r: nat -> Lang, ph: nat)
      requires !e.sym.Eps? && r(e.src) == Tagged(Then(e.sym, ph)) && r(e.dst) == Tagged(At(ph))
      ensures EdgeClosed(e, r)
    {
      forall c: char, w: string | e.sym.Allows(c) && w in r(e.dst) ensures [c] + w in r(e.src) {
        assert ([c] + w)[1..] == w;
      }
    }
  }

  datatype Tag = At(ph: nat) | Then(sym: Label, ph: nat)
}
