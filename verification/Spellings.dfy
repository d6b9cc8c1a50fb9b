/** How strings and numbers are spelled: the compiler's own texts are valid, and every string has a text of escapes only. */
module Spellings {
  import opened Languages
  import opened Json

  ghost const CHARS: Lang := Star(One(Plain) + ESCAPE)

  // ---- numbers ----

  lemma {:induction false} NatTextDigits(n: nat)
    ensures NatText(n) in DIGITS1
    ensures n > 0 ==> NatText(n) in Cat(One(Nonzero), DIGITS0)
  {
    if n < 10 {
      assert InStar(One(Digit), []);
      CatIn(One(Digit), DIGITS0, NatText(n), []);
      assert NatText(n) + [] == NatText(n);
      if n > 0 { CatIn(One(Nonzero), DIGITS0, NatText(n), []); }
    } else {
      NatTextDigits(n / 10);
      var last := [DigitChar(n % 10)];
      assert last in One(Digit);
      StarOne(One(Digit), last);
      var u, v := CatSplit(One(Digit), DIGITS0, NatText(n / 10));
      StarConcat(One(Digit), v, last);
      CatIn(One(Digit), DIGITS0, u, v + last);
      assert u + (v + last) == NatText(n);
      var u2, v2 := CatSplit(One(Nonzero), DIGITS0, NatText(n / 10));
      StarConcat(One(Digit), v2, last);
      CatIn(One(Nonzero), DIGITS0, u2, v2 + last);
      assert u2 + (v2 + last) == NatText(n);
    }
  }

  lemma NatTextInt(n: nat)
    ensures NatText(n) in INT
  {
    if n == 0 {
      assert NatText(0) == "0";
    } else {
      NatTextDigits(n);
    }
  }

  lemma SignedIn(negative: bool, l: Lang, u: string)
    requires u in l
    ensures (if negative then "-" else "") + u in Cat(Opt(Chr('-')), l)
  {
    CatIn(Opt(Chr('-')), l, if negative then "-" else [], u);
  }

  /** Every enumerated integer prints as a JSON integer. */
  lemma IntTextInteger(i: int)
    ensures IntText(i) in INTEGER
  {
    hide INT;
    var n := if i < 0 then -i else i;
    NatTextInt(n);
    SignedIn(i < 0, INT, NatText(n));
    assert [] + NatText(n) == NatText(n);
  }

  lemma {:induction false} FractionDigits(ds: seq<Decimal>)
    ensures FractionText(ds) in DIGITS0
    ensures ds != [] ==> FractionText(ds) in DIGITS1
  {
    if ds != [] {
      FractionDigits(ds[1..]);
      CatIn(One(Digit), DIGITS0, [DigitChar(ds[0])], FractionText(ds[1..]));
      StarCons(One(Digit), [DigitChar(ds[0])], FractionText(ds[1..]));
    }
  }

  lemma FractionIn(ds: seq<Decimal>)
    ensures (if ds == [] then "" else "." + FractionText(ds)) in Opt(FRAC)
  {
    hide DIGITS1;
    FractionDigits(ds);
    if ds != [] { CatIn(Chr('.'), DIGITS1, ".", FractionText(ds)); }
  }

  /** A finite float prints as a JSON number. */
  lemma FiniteNumber(x: Float64)
    requires x.Finite?
    ensures FloatText(x) in NUMBER
  {
    hide INT, EXP, FRAC, Cat, NatText, FractionText;
    var sign := if x.negative then "-" else "";
    var frac := if x.fraction == [] then "" else "." + FractionText(x.fraction);
    NatTextInt(x.whole);
    FractionIn(x.fraction);
    CatIn(Opt(FRAC), Opt(EXP), frac, []);
    CatIn(INT, Cat(Opt(FRAC), Opt(EXP)), NatText(x.whole), frac + []);
    SignedIn(x.negative, Cat(INT, Cat(Opt(FRAC), Opt(EXP))), NatText(x.whole) + (frac + []));
    assert sign + (NatText(x.whole) + (frac + [])) == sign + NatText(x.whole) + frac;
  }

  // ---- reading the compiler's numbers back ----

  lemma DigitBack(d: nat)
    requires d < 10
    ensures Digit(DigitChar(d)) && DigitValue(DigitChar(d)) == d
  {
  }

  lemma NumeralStep(w: string, c: char)
    requires Digits(w) && Digit(c)
    ensures Digits(w + [c]) && Numeral(w + [c]) == 10 * Numeral(w) + DigitValue(c)
  {
    assert (w + [c])[..|w|] == w;
  }

  lemma {:induction false} NatRead(n: nat)
    ensures ReadsNat(NatText(n), n)
    ensures NatText(n)[0] == '0' <==> n == 0
  {
    DigitBack(n % 10);
    if n < 10 {
      assert NatText(n) == [] + [DigitChar(n)];
      NumeralStep([], DigitChar(n));
    } else {
      NatRead(n / 10);
      NumeralStep(NatText(n / 10), DigitChar(n % 10));
    }
  }

  /** A numeral that starts with another digit than zero stands for a positive number. */
  lemma {:induction false} NumeralPositive(w: string)
    requires w != [] && Digits(w) && w[0] != '0'
    ensures Numeral(w) > 0
  {
    if |w| > 1 { NumeralPositive(w[..|w| - 1]); }
  }

  /** A number has one numeral without leading zeros. */
  lemma {:induction false} NatReadOnly(w: string, n: nat)
    requires ReadsNat(w, n)
    ensures w == NatText(n)
  {
    var k := |w| - 1;
    var d := DigitValue(w[k]);
    assert w[k] == DigitChar(d);
    if k == 0 {
      assert w[..0] == [] && Numeral([]) == 0;
      assert n == d && w == [w[0]];
    } else {
      NumeralPositive(w[..k]);
      assert n / 10 == Numeral(w[..k]) && n % 10 == d;
      NatReadOnly(w[..k], n / 10);
      assert w == w[..k] + [w[k]];
    }
  }

  lemma IntReadOnly(w: string, i: int)
    ensures ReadsInt(w, i) <==> w == IntText(i)
  {
    hide ReadsNat, NatText;
    NatRead(if i < 0 then -i else i);
    if i < 0 {
      assert ("-" + NatText(-i))[1..] == NatText(-i);
      if ReadsInt(w, i) {
        NatReadOnly(w[1..], -i);
        assert w == [w[0]] + w[1..];
      }
    } else if ReadsInt(w, i) {
      NatReadOnly(w, i);
    }
  }

  lemma {:induction false} DigitsRead(ds: seq<Decimal>)
    ensures ReadsDigits(FractionText(ds), ds)
  {
    if ds != [] {
      DigitsRead(ds[1..]);
      DigitBack(ds[0]);
    }
  }

  lemma DigitsReadOnly(w: string, v: string, ds: seq<Decimal>)
    requires ReadsDigits(w, ds) && ReadsDigits(v, ds)
    ensures w == v
  {
    forall k | 0 <= k < |w| ensures w[k] == v[k] {
      assert DigitValue(w[k]) == DigitValue(v[k]);
    }
  }

  lemma FloatReadOnly(w: string, x: Float64)
    ensures ReadsFloat(w, x) <==> x.Finite? && w == FloatText(x)
  {
    hide ReadsNat, NatText, ReadsDigits, FractionText;
    if x.Finite? {
      NatRead(x.whole);
      DigitsRead(x.fraction);
      FractionEmpty(x.fraction);
      assert FloatText(x) == Assembled(x.negative, NatText(x.whole), FractionText(x.fraction));
      if a, f :| ReadsNat(a, x.whole) && ReadsDigits(f, x.fraction) && w == Assembled(x.negative, a, f) {
        NatReadOnly(a, x.whole);
        DigitsReadOnly(f, FractionText(x.fraction), x.fraction);
      }
    }
  }

  lemma FractionEmpty(ds: seq<Decimal>)
    ensures FractionText(ds) == [] <==> ds == []
  {
  }

  // ---- every spelling of a string is a string text ----

  lemma EscapeOf(x: char)
    requires Simple(x)
    ensures ['\\', x] in ESCAPE
  {
    CatIn(Chr('\\'), One(Simple) + Cat(Chr('u'), HEX4), ['\\'], [x]);
    assert ['\\'] + [x] == ['\\', x];
  }

  lemma FourHex(a: char, b: char, c: char, d: char)
    requires Hex(a) && Hex(b) && Hex(c) && Hex(d)
    ensures [a] + ([b] + ([c] + [d])) in HEX4
  {
    hide Cat;
    CatIn(One(Hex), One(Hex), [c], [d]);
    CatIn(One(Hex), Cat(One(Hex), One(Hex)), [b], [c] + [d]);
    CatIn(One(Hex), Cat(One(Hex), Cat(One(Hex), One(Hex))), [a], [b] + ([c] + [d]));
  }

  lemma UnitEscape(u: string)
    requires Unit(u)
    ensures u in ESCAPE
  {
    hide HEX4, Cat, Hex;
    FourHex(u[2], u[3], u[4], u[5]);
    var h := [u[2]] + ([u[3]] + ([u[4]] + [u[5]]));
    CatIn(Chr('u'), HEX4, ['u'], h);
    CatIn(Chr('\\'), One(Simple) + Cat(Chr('u'), HEX4), ['\\'], ['u'] + h);
    assert ['\\'] + (['u'] + h) == u;
  }

  lemma SpellsChars(u: string, c: char)
    requires Spells(u, c)
    ensures u in CHARS
  {
    hide ESCAPE;
    var one := One(Plain) + ESCAPE;
    if u == [c] && Plain(c) {
      StarOne(one, u);
    } else if |u| == 2 {
      EscapeOf(u[1]);
      assert u == ['\\', u[1]];
      StarOne(one, u);
    } else if Unit(u) {
      UnitEscape(u);
      StarOne(one, u);
    } else {
      UnitEscape(u[..6]);
      UnitEscape(u[6..]);
      StarOne(one, u[6..]);
      StarCons(one, u[..6], u[6..]);
      assert u[..6] + u[6..] == u;
    }
  }

  lemma {:induction false} SpelledChars(s: string)
    ensures Spelled(s) <= CHARS
  {
    hide ESCAPE, Spells;
    assert InStar(One(Plain) + ESCAPE, []);
    if s != [] {
      var n := |s| - 1;
      SpelledChars(s[..n]);
      forall w | w in Spelled(s) ensures w in CHARS {
        var a, b := CatSplit(Spelled(s[..n]), SpelledChar(s[n]), w);
        SpellsChars(b, s[n]);
        StarConcat(One(Plain) + ESCAPE, a, b);
      }
    }
  }

  /** Whatever decodes to a string is a string text. */
  lemma QuotedString(s: string)
    ensures Quoted(s) <= STRING
  {
    hide CHARS, Spelled;
    SpelledChars(s);
    CatMono(Spelled(s), Chr('\"'), CHARS, Chr('\"'));
    CatMono(Chr('\"'), Cat(Spelled(s), Chr('\"')), Chr('\"'), Cat(CHARS, Chr('\"')));
    StringIs();
  }

  lemma StringIs()
    ensures STRING == Cat(Chr('\"'), Cat(CHARS, Chr('\"')))
  {
  }

  lemma QuotedIn(body: string, s: string)
    requires body in Spelled(s)
    ensures "\"" + body + "\"" in Quoted(s)
  {
    hide Spelled;
    CatIn(Spelled(s), Chr('\"'), body, "\"");
    CatIn(Chr('\"'), Cat(Spelled(s), Chr('\"')), "\"", body + "\"");
    assert "\"" + (body + "\"") == "\"" + body + "\"";
  }

  // ---- the compiler's own spelling ----

  lemma WrittenSpells(c: char, lit: bool)
    requires PrintableChar(c, lit)
    ensures Spells(WrittenChar(c, lit), c)
  {
    var u := WrittenChar(c, lit);
    assert c == '\"' ==> u == ['\\', '\"'];
    assert c == '\\' ==> u == ['\\', '\\'];
    assert lit && c == '\n' ==> u == ['\\', 'n'];
    assert lit && c == '\r' ==> u == ['\\', 'r'];
    assert lit && c == '\t' ==> u == ['\\', 't'];
  }

  lemma {:induction false} WrittenSpelled(s: string, lit: bool)
    requires Printable(s, lit)
    ensures WrittenBody(s, lit) in Spelled(s)
  {
    hide Spells, PrintableChar;
    if s != [] {
      var n := |s| - 1;
      WrittenSpelled(s[..n], lit);
      WrittenSpells(s[n], lit);
      CatIn(Spelled(s[..n]), SpelledChar(s[n]), WrittenBody(s[..n], lit), WrittenChar(s[n], lit));
    }
  }

  /** The characters the compiler does not write as they are. */
  predicate Escaped(c: char, lit: bool) {
    c == '\"' || c == '\\' || (lit && (c == '\n' || c == '\r' || c == '\t'))
  }

  /** Reading a body back from the front: a short escape for every character that needs one, any other as it is. */
  predicate ReadsBack(w: string, s: string, lit: bool)
    decreases |w|
  {
    if s == [] then w == []
    else if Escaped(s[0], lit) then |w| >= 2 && EscapeFor(w[0], w[1], s[0]) && ReadsBack(w[2..], s[1..], lit)
    else |w| >= 1 && w[0] == s[0] && ReadsBack(w[1..], s[1..], lit)
  }

  predicate EscapeFor(a: char, x: char, c: char) {
    a == '\\' && Simple(x) && Named(x) == c
  }

  lemma {:induction false} WrittenFront(s: string, lit: bool)
    requires s != []
    ensures WrittenBody(s, lit) == WrittenChar(s[0], lit) + WrittenBody(s[1..], lit)
  {
    hide WrittenChar;
    var n := |s| - 1;
    if n == 0 {
      assert s[..0] == [] && s[1..] == [];
      assert WrittenBody(s, lit) == [] + WrittenChar(s[0], lit);
    } else {
      WrittenFront(s[..n], lit);
      assert s[..n][1..] == s[1..][..n - 1];
      var a, b, c := WrittenChar(s[0], lit), WrittenBody(s[1..][..n - 1], lit), WrittenChar(s[n], lit);
      assert (a + b) + c == a + (b + c);
    }
  }

  /** The compiler escapes quotes and backslashes, in literals also line feeds, carriage returns and tabs by their short
      escapes, and nothing else: its text is the one text that reads back in this way. */
  lemma {:induction false} WrittenOnly(w: string, s: string, lit: bool)
    ensures ReadsBack(w, s, lit) <==> w == WrittenBody(s, lit)
    decreases |s|
  {
    hide WrittenChar;
    if s != [] {
      WrittenFront(s, lit);
      ReadHead(w, s, lit);
      hide ReadsBack, WrittenBody;
      var a := WrittenChar(s[0], lit);
      if |w| >= |a| {
        WrittenOnly(w[|a|..], s[1..], lit);
        assert w == w[..|a|] + w[|a|..];
      }
    }
  }

  /** A quoted body that reads back to `s`. */
  predicate QuotedBack(w: string, s: string, lit: bool) {
    |w| >= 2 && w[0] == '\"' && w[|w| - 1] == '\"' && ReadsBack(w[1..|w| - 1], s, lit)
  }

  lemma WrittenBack(w: string, s: string, lit: bool)
    ensures QuotedBack(w, s, lit) <==> w == Written(s, lit)
  {
    hide ReadsBack, WrittenBody;
    if |w| >= 2 {
      WrittenOnly(w[1..|w| - 1], s, lit);
      assert w == [w[0]] + w[1..|w| - 1] + [w[|w| - 1]];
    }
    var v := Written(s, lit);
    assert v[1..|v| - 1] == WrittenBody(s, lit);
    WrittenOnly(WrittenBody(s, lit), s, lit);
  }

  lemma ReadHead(w: string, s: string, lit: bool)
    requires s != []
    ensures var a := WrittenChar(s[0], lit);
            ReadsBack(w, s, lit) <==> |w| >= |a| && w[..|a|] == a && ReadsBack(w[|a|..], s[1..], lit)
  {
    hide WrittenChar, Escaped, EscapeFor;
    var a := WrittenChar(s[0], lit);
    CharBack(s[0], lit);
    if Escaped(s[0], lit) {
      if |w| >= 2 {
        EscapeIs(w[0], w[1], s[0], lit);
        assert w[..2] == [w[0], w[1]];
      }
    } else if |w| >= 1 {
      assert w[..1] == [w[0]];
    }
  }

  lemma CharBack(c: char, lit: bool)
    ensures |WrittenChar(c, lit)| == if Escaped(c, lit) then 2 else 1
    ensures !Escaped(c, lit) ==> WrittenChar(c, lit) == [c]
  {
  }

  lemma EscapeIs(a: char, x: char, c: char, lit: bool)
    requires Escaped(c, lit)
    ensures EscapeFor(a, x, c) <==> WrittenChar(c, lit) == [a, x]
  {
    var u := WrittenChar(c, lit);
    assert |u| == 2 && u == [u[0], u[1]];
    assert u == [a, x] <==> u[0] == a && u[1] == x;
  }

  // ---- literals ----

  /** The text stands for the literal, and is written in one way only: strings with the short escapes, numbers in decimals,
      words as RFC 8259 has them, and a float that is no number by the word it prints as. */
  ghost predicate StandsFor(w: string, l: JsonLit) {
    match l
    case Str(s) => QuotedBack(w, s, true)
    case Int(i) => ReadsInt(w, i)
    case Float(NaN) => w == "NaN"
    case Float(Infinite(negative)) => w == if negative then "-inf" else "inf"
    case Float(x) => ReadsFloat(w, x)
    case Bool(v) => w == if v then "true" else "false"
    case NullLit => w == "null"
  }

  /** What the compiler writes for a literal is the one text that stands for it, and the one valid text if it is no string; a
      printable string is written validly, and a float that is no number has no valid text. */
  lemma LitRead(l: JsonLit)
    ensures forall w :: StandsFor(w, l) <==> w == LitText(l)
    ensures l.Str? && Printable(l.s, true) ==> LitText(l) in LitTexts(l)
    ensures !l.Str? ==> LitTexts(l) == if l.Float? && !l.x.Finite? then iset{} else iset{LitText(l)}
  {
    hide ReadsInt, ReadsFloat, IntText, FloatText, QuotedBack, Quoted, WrittenBody;
    forall w ensures StandsFor(w, l) <==> w == LitText(l) { LitReadAt(w, l); }
    match l
    case Str(s) =>
      if Printable(s, true) {
        WrittenSpelled(s, true);
        QuotedIn(WrittenBody(s, true), s);
      }
    case Int(i) =>
      forall w ensures w in LitTexts(l) <==> w == LitText(l) { IntReadOnly(w, i); }
    case Float(x) =>
      forall w ensures w in LitTexts(l) <==> x.Finite? && w == LitText(l) { FloatReadOnly(w, x); }
    case _ =>
  }

  lemma LitReadAt(w: string, l: JsonLit)
    ensures StandsFor(w, l) <==> w == LitText(l)
  {
    hide ReadsInt, ReadsFloat, IntText, FloatText, QuotedBack, Written;
    match l
    case Str(s) => WrittenBack(w, s, true);
    case Int(i) => IntReadOnly(w, i);
    case Float(x) =>
      NoNumber(x);
      FloatReadOnly(w, x);
    case _ =>
  }

  lemma NoNumber(x: Float64)
    ensures x.NaN? ==> FloatText(x) == "NaN"
    ensures x.Infinite? ==> FloatText(x) == if x.negative then "-inf" else "inf"
  {
  }

  // ---- a text of escapes only ----

  function HexChar(d: nat): (c: char)
    requires d < 16
    ensures Hex(c) && HexValue(c) == d
  {
    if d < 10 then ('0' as int + d) as char else ('a' as int + (d - 10)) as char
  }

  function UnitText(n: nat): (u: string)
    requires n < 0x10000
    ensures Unit(u) && UnitValue(u) == n
  {
    var (a, b, c) := (n / 16, n / 16 / 16, n / 16 / 16 / 16);
    ['\\', 'u', HexChar(c), HexChar(b % 16), HexChar(a % 16), HexChar(n % 16)]
  }

  function CodedChar(c: char): (u: string)
    ensures Spells(u, c)
  {
    var n := c as int;
    if n < 0x10000 then UnitText(n)
    else
      var (hi, lo) := (UnitText(0xD800 + (n - 0x10000) / 0x400), UnitText(0xDC00 + (n - 0x10000) % 0x400));
      assert (hi + lo)[..6] == hi && (hi + lo)[6..] == lo;
      hi + lo
  }

  function CodedBody(s: string): string {
    if s == [] then [] else CodedBody(s[..|s| - 1]) + CodedChar(s[|s| - 1])
  }

  /** Every character as a `\u` escape. */
  function Coded(s: string): string {
    "\"" + CodedBody(s) + "\""
  }

  lemma {:induction false} CodedSpelled(s: string)
    ensures CodedBody(s) in Spelled(s)
  {
    hide Spells;
    if s != [] {
      var n := |s| - 1;
      CodedSpelled(s[..n]);
      CatIn(Spelled(s[..n]), SpelledChar(s[n]), CodedBody(s[..n]), CodedChar(s[n]));
    }
  }

  /** Every string has a text made of escapes. */
  lemma CodedQuoted(s: string)
    ensures Coded(s) in Quoted(s)
  {
    CodedSpelled(s);
    QuotedIn(CodedBody(s), s);
  }

  /** The empty string has a single text. */
  lemma EmptyQuoted()
    ensures Quoted([]) == iset{"\"\""}
  {
    EmptySpelled();
    hide Cat, Spelled;
    QuotedIn([], []);
    assert "\"" + [] + "\"" == "\"\"";
    forall w | w in Quoted([]) ensures w == "\"\"" {
      var a, r := CatSplit(Chr('\"'), Cat(Spelled([]), Chr('\"')), w);
      var b, c := CatSplit(Spelled([]), Chr('\"'), r);
      assert b == [] && r == c;
    }
  }

  lemma EmptySpelled()
    ensures Spelled([]) == EPSILON
  {
  }

  // ---- decoding is unique ----

  /** No spelling of a character continues another. */
  lemma SpellsApart(u: string, c: char, r: string, v: string, d: char, s: string)
    requires Spells(u, c) && Spells(v, d) && u + r == v + s
    ensures u == v && c == d && r == s
  {
    var w := u + r;
    assert w[0] == u[0] == v[0];
    assert |u| == |v| by {
      if |u| >= 2 && |v| >= 2 {
        assert w[1] == u[1] == v[1];
        if |u| >= 6 && |v| >= 6 {
          assert u[..6] == w[..6] == v[..6];
          assert |u| == 6 ==> u == u[..6];
          assert |v| == 6 ==> v == v[..6];
        }
      }
    }
    assert u == w[..|u|] == v;
    assert r == w[|u|..] == s;
  }

  lemma {:induction false} SpelledHead(s: string, w: string) returns (u: string, v: string)
    requires s != [] && w in Spelled(s)
    ensures w == u + v && Spells(u, s[0]) && v in Spelled(s[1..])
  {
    hide Spells, SpelledChar;
    var n := |s| - 1;
    var a, b := CatSplit(Spelled(s[..n]), SpelledChar(s[n]), w);
    assert Spells(b, s[n]) by { CharSpells(b, s[n]); }
    if n == 0 {
      u, v := b, [];
      assert s[..0] == [] && s[1..] == [];
      assert a == [];
      assert a + b == b + [];
    } else {
      var x, y := SpelledHead(s[..n], a);
      u, v := x, y + b;
      assert s[..n][0] == s[0] && s[..n][1..] == s[1..][..n - 1] && s[1..][n - 1] == s[n];
      CatIn(Spelled(s[1..][..n - 1]), SpelledChar(s[n]), y, b);
      assert (x + y) + b == x + (y + b);
    }
  }

  lemma CharSpells(u: string, c: char)
    requires u in SpelledChar(c)
    ensures Spells(u, c) && u != []
  {
  }

  lemma {:induction false} SpelledUnique(s: string, t: string, w: string)
    requires w in Spelled(s) && w in Spelled(t)
    ensures s == t
  {
    hide Spells, Spelled;
    if s == [] || t == [] {
      NothingSpelled(s, w);
      NothingSpelled(t, w);
    } else {
      var u, v := SpelledHead(s, w);
      var x, y := SpelledHead(t, w);
      SpellsApart(u, s[0], v, x, t[0], y);
      SpelledUnique(s[1..], t[1..], v);
      assert s == [s[0]] + s[1..] && t == [t[0]] + t[1..];
    }
  }

  lemma NothingSpelled(s: string, w: string)
    requires w in Spelled(s)
    ensures w == [] <==> s == []
  {
    if s != [] {
      var u, v := SpelledHead(s, w);
    }
  }

  /** A string text decodes to one string. */
  lemma QuotedUnique(s: string, t: string, w: string)
    requires w in Quoted(s) && w in Quoted(t)
    ensures s == t
  {
    hide Spelled, Cat;
    var a, r := CatSplit(Chr('\"'), Cat(Spelled(s), Chr('\"')), w);
    var b, c := CatSplit(Spelled(s), Chr('\"'), r);
    var x, y := CatSplit(Chr('\"'), Cat(Spelled(t), Chr('\"')), w);
    var z, d := CatSplit(Spelled(t), Chr('\"'), y);
    assert r == w[1..] == y;
    assert b == r[..|r| - 1] == z;
    SpelledUnique(s, t, b);
  }
}
