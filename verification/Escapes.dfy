/** The second lexer on the compiled grammar: no property name is read with a `\u` escape in it, and no such escape is met at a
    place without a string leaf. */
module Escapes {
  import opened Prelude
  import opened Languages
  import opened Json
  import opened Spellings
  import opened Lexing
  import opened Scans
  import opened Values
  import Numbers
  import NumberLaws
  import Texts
  import Arrays

  predicate BareChar(c: char) {
    c != '\"' && c != ':' && c != '[' && c != ']' && c != '{' && c != '}'
  }

  /** No quotes, colons or brackets. */
  predicate Bare(w: string) {
    forall i :: 0 <= i < |w| ==> BareChar(w[i])
  }

  lemma {:induction false} BareRun(st: State, w: string)
    requires Bare(w) && st.Away?
    ensures Run(st, w) in AWAY(st.at, st.open)
    decreases |w|
  {
    if w != [] {
      assert BareChar(w[0]);
      BareRun(Step(st, w[0]), w[1..]);
    }
  }

  lemma BareTakes(l: Lang, at: Option<string>, open: string)
    requires forall w :: w in l ==> Bare(w)
    ensures Takes(AWAY(at, open), l, AWAY(at, open))
  {
    forall st, w | st in AWAY(at, open) && w in l ensures Run(st, w) in AWAY(at, open) { BareRun(st, w); }
  }

  /** A scanned number has no quotes, colons or brackets. */
  lemma {:induction false} NumberBare(full: bool, ph: nat, w: string)
    requires Numbers.NumberScan(full).Run(ph, w)
    ensures Bare(w)
    decreases |w|
  {
    if w != [] {
      var q := Numbers.NumberStep(full, ph, w[0]).phase;
      NumberBare(full, q, w[1..]);
      assert forall i :: 0 < i < |w| ==> w[i] == w[1..][i - 1];
    }
  }

  lemma NumbersTake(at: Option<string>, open: string)
    ensures Takes(AWAY(at, open), COMPILED.number, AWAY(at, open)) && Takes(AWAY(at, open), INTEGER, AWAY(at, open))
  {
    hide Takes, INTEGER, Scan.Run;
    forall w | w in COMPILED.number ensures Bare(w) { NumberBare(true, Numbers.NUM, w); }
    BareTakes(COMPILED.number, at, open);
    forall w | w in INTEGER ensures Bare(w) { IntegerBare(w); }
    BareTakes(INTEGER, at, open);
  }

  lemma IntegerBare(w: string)
    requires w in INTEGER
    ensures Bare(w)
  {
    hide INTEGER;
    NumberLaws.IntegerExact(w);
    NumberBare(false, Numbers.NUM, w);
  }

  lemma WrittenTakes(s: string, lit: bool, at: Option<string>, open: string)
    ensures Takes(AWAY(at, open), iset{Written(s, lit)}, NAMED(at, open))
  {
    hide Run;
    forall st | st in AWAY(at, open) ensures Run(st, Written(s, lit)) == Away(at, open, false) {
      QuoteRun(st, WrittenBody(s, lit));
      WrittenRun(s, lit);
    }
  }

  lemma FloatBare(x: Float64)
    ensures Bare(FloatText(x))
  {
    hide NUMBER;
    if x.Finite? {
      FiniteNumber(x);
      NumberLaws.NumberWide(FloatText(x));
      NumberBare(true, Numbers.NUM, FloatText(x));
    }
  }

  lemma IntBare(i: int)
    ensures Bare(IntText(i))
  {
    hide INTEGER;
    IntTextInteger(i);
    IntegerBare(IntText(i));
  }

  lemma LitBare(l: JsonLit)
    requires !l.Str?
    ensures Bare(LitText(l))
  {
    hide IntText, FloatText;
    match l
    case Int(i) => IntBare(i);
    case Float(x) => FloatBare(x);
    case _ =>
  }

  lemma LitTakes(l: JsonLit, at: Option<string>, open: string)
    ensures Takes(AWAY(at, open), iset{LitText(l)}, AWAY(at, open))
  {
    hide Run, LitText, Written;
    if l.Str? {
      WrittenTakes(l.s, true, at, open);
      LitWritten(l);
    } else {
      LitBare(l);
      BareTakes(iset{LitText(l)}, at, open);
    }
  }

  lemma LitWritten(l: JsonLit)
    requires l.Str?
    ensures LitText(l) == Written(l.s, true)
  {
  }

  /** The state of the second lexer at a phase of the string scanner. */
  predicate Alongside(ph: nat, st: State) {
    if ph == Texts.OPEN || ph == Texts.DONE then st.Away?
    else if ph == Texts.ESC then st.Slash? && st.at != Some(st.open)
    else st.Within? && st.at != Some(st.open)
  }

  /** The string scanner and the second lexer run side by side, away from the place the lexer looks for. */
  lemma {:induction false} TextRun(ph: nat, st: State, w: string, at: Option<string>, open: string)
    requires Texts.TextScan().Run(ph, w) && Alongside(ph, st) && at != Some(open)
    requires (st.Away? ==> st.at == at && st.open == open) && (st.Within? ==> st.at == at && st.open == open)
    requires st.Slash? ==> st.at == at && st.open == open
    ensures Run(st, w) in AWAY(at, open)
    decreases |w|
  {
    if w != [] {
      var q := Texts.TextStep(ph, w[0]).phase;
      assert Alongside(q, Step(st, w[0]));
      TextRun(q, Step(st, w[0]), w[1..], at, open);
    }
  }

  lemma TextsTake(at: Option<string>, open: string)
    requires at != Some(open)
    ensures Takes(AWAY(at, open), COMPILED.text, AWAY(at, open))
  {
    hide Run, Scan.Run;
    forall st, w | st in AWAY(at, open) && w in COMPILED.text ensures Run(st, w) in AWAY(at, open) {
      TextRun(Texts.OPEN, st, w, at, open);
    }
  }

  ghost function AWAYS(at: Option<string>): Family {
    Family((open: string) => AWAY(at, open), (open: string) => NAMED(at, open), (open: string) => AWAY(at, open),
           (open: string) => AWAY(at, open))
  }

  lemma CompiledLeaves(at: Option<string>, open: string)
    ensures LeavesAt(COMPILED, AWAYS(at), open)
  {
    hide Takes, INTEGER, Written, LitText;
    CompiledTexts();
    NumbersTake(at, open);
    assert Bare("null") && Bare("true") && Bare("false");
    BareTakes(iset{"null"}, at, open);
    BareTakes(iset{"true"}, at, open);
    BareTakes(iset{"false"}, at, open);
    forall l ensures Takes(AWAY(at, open), COMPILED.lit(l), AWAY(at, open)) { LitTakes(l, at, open); }
    forall name ensures Takes(AWAY(at, open), COMPILED.key(name), NAMED(at, open)) { WrittenTakes(name, false, at, open); }
  }

  lemma AwaySeparators(at: Option<string>, open: string)
    ensures Takes(AWAY(at, open), COMPILED.separator, AWAY(at, open)) && Takes(AWAY(at, open), WS, AWAY(at, open))
    ensures Takes(AWAY(at, open), SEPARATOR, AWAY(at, open))
  {
    var p := AWAY(at, open);
    TakesOne(p, Arrays.WsOrComma, p);
    TakesStar(p, One(Arrays.WsOrComma));
    BlanksTake(p);
    MarkTakes(p, ',', p);
  }

  lemma AwayColon(at: Option<string>, open: string)
    ensures Takes(NAMED(at, open), COLON, AWAY(at, open))
  {
    MarkTakes(NAMED(at, open), ':', AWAY(at, open));
  }

  lemma AwayBrackets(at: Option<string>, open: string)
    ensures Takes(AWAY(at, open), Chr('['), AWAY(at, open + "[")) && Takes(AWAY(at, open), Chr('{'), AWAY(at, open + "{"))
    ensures Takes(AWAY(at, open + "["), Chr(']'), AWAY(at, open)) && Takes(AWAY(at, open + "{"), Chr('}'), AWAY(at, open))
  {
    hide Takes;
    TakesChr(AWAY(at, open), '[', AWAY(at, open + "["));
    TakesChr(AWAY(at, open), '{', AWAY(at, open + "{"));
    assert (open + "[")[..|open|] == open && (open + "{")[..|open|] == open;
    TakesChr(AWAY(at, open + "["), ']', AWAY(at, open));
    TakesChr(AWAY(at, open + "{"), '}', AWAY(at, open));
  }

  lemma CompiledMarks(at: Option<string>)
    ensures Marks(COMPILED, AWAYS(at))
  {
    hide Takes, WS, SEPARATOR, COLON, AWAY, NAMED, LeavesAt, COMPILED;
    forall open ensures MarksAt(COMPILED, AWAYS(at), open) && LeavesAt(COMPILED, AWAYS(at), open) {
      CompiledLeaves(at, open);
      AwaySeparators(at, open);
      AwayColon(at, open);
      AwayBrackets(at, open);
    }
  }

  /** No compiled text has a property name with an escape in it, nor an escape at a place without a string leaf. */
  lemma CompiledTakes(sc: Schema, at: Option<string>)
    requires at.None? || at.value !in StringPlaces(sc)
    ensures Takes(AWAY(at, []), Instances(sc, COMPILED), AWAY(at, []))
  {
    hide COMPILED, Takes, Instances, Marks, AWAY, NAMED, StringPlaces;
    CompiledMarks(at);
    forall more | more in StringPlaces(sc) ensures Takes(AWAY(at, [] + more), COMPILED.text, AWAY(at, [] + more)) {
      assert [] + more == more;
      TextsTake(at, more);
    }
    InstancesTake(sc, COMPILED, AWAYS(at), []);
  }
}
