/** The compiled number and integer fragments against RFC 8259 section 6. */
module NumberLaws {
  import opened Languages
  import opened Scans
  import opened Numbers
  import J = Json

  /** Digits never leave the digits phase. */
  lemma {:induction false} DigitsRun(full: bool, u: string, v: string)
    requires u in J.DIGITS0 && NumberScan(full).Run(DIGITS, v)
    ensures NumberScan(full).Run(DIGITS, u + v)
    decreases |u|
  {
    if u == [] {
      assert u + v == v;
    } else {
      var i :| 0 < i <= |u| && u[..i] in One(J.Digit) && InStar(One(J.Digit), u[i..]);
      DigitsRun(full, u[1..], v);
      assert (u + v)[1..] == u[1..] + v && (u + v)[0] == u[0];
    }
  }

  lemma Digits1Run(full: bool, ph: nat, u: string, v: string)
    requires u in J.DIGITS1 && NumberScan(full).Run(DIGITS, v) && (ph == NEED || ph == EXP)
    ensures NumberScan(full).Run(ph, u + v)
  {
    var a, b := CatSplit(One(J.Digit), J.DIGITS0, u);
    DigitsRun(full, b, v);
    assert (u + v)[1..] == b + v && (u + v)[0] == a[0];
  }

  lemma IntRun(full: bool, u: string, v: string)
    requires u in J.INT && NumberScan(full).Run(TAIL, v)
    ensures NumberScan(full).Run(INT, u + v)
  {
    if u == "0" {
      assert (u + v)[1..] == v && (u + v)[0] == '0';
    } else {
      var a, b := CatSplit(One(J.Nonzero), J.DIGITS0, u);
      TailDigits(full, v);
      DigitsRun(full, b, v);
      assert (u + v)[1..] == b + v && (u + v)[0] == a[0];
    }
  }

  lemma TailDigits(full: bool, v: string)
    requires NumberScan(full).Run(TAIL, v)
    ensures NumberScan(full).Run(DIGITS, v)
  {
    if v != [] { assert NumberStep(full, TAIL, v[0]).Go?; }
  }

  lemma SignRun(full: bool, u: string, v: string)
    requires u in Opt(Chr('-')) && NumberScan(full).Run(INT, v)
    ensures NumberScan(full).Run(NUM, u + v)
  {
    if u == [] {
      assert u + v == v;
      if v != [] { assert NumberStep(full, INT, v[0]).Go?; }
    } else {
      assert (u + v)[1..] == v && (u + v)[0] == '-';
    }
  }

  lemma FracRun(u: string, v: string)
    requires u in J.FRAC && NumberScan(true).Run(DIGITS, v)
    ensures NumberScan(true).Run(TAIL, u + v)
  {
    var a, b := CatSplit(Chr('.'), J.DIGITS1, u);
    Digits1Run(true, NEED, b, v);
    assert (u + v)[1..] == b + v && (u + v)[0] == '.';
  }

  lemma SignedRun(r: string, v: string)
    requires r in Cat(Opt(One(J.Signed)), J.DIGITS1) && NumberScan(true).Run(DIGITS, v)
    ensures NumberScan(true).Run(EXP, r + v)
  {
    hide Scan.Run, J.DIGITS1;
    var s, b := CatSplit(Opt(One(J.Signed)), J.DIGITS1, r);
    if s == [] {
      assert r == b;
      Digits1Run(true, EXP, b, v);
    } else {
      Digits1Run(true, NEED, b, v);
      SignStep(s, b + v);
      assert r + v == s + (b + v);
    }
  }

  lemma SignStep(s: string, b: string)
    requires s in One(J.Signed) && NumberScan(true).Run(NEED, b)
    ensures NumberScan(true).Run(EXP, s + b)
  {
    assert (s + b)[1..] == b && (s + b)[0] == s[0];
  }

  lemma ExpRun(u: string, v: string)
    requires u in J.EXP && NumberScan(true).Run(DIGITS, v)
    ensures NumberScan(true).Run(TAIL, u + v)
  {
    var a, r := CatSplit(One(J.Mark), Cat(Opt(One(J.Signed)), J.DIGITS1), u);
    SignedRun(r, v);
    assert (u + v)[1..] == r + v && (u + v)[0] == a[0];
  }

  // ---- the exact language of the number fragment ----

  /** Fractions and exponents in any order and any number. */
  ghost const TAILS: Lang := Star(J.FRAC + J.EXP)

  /** What the compiled number fragment reads: `-?(0|[1-9][0-9]*)((\.[0-9]+)|([eE][+-]?[0-9]+))*`. */
  ghost const WIDE: Lang := Cat(Opt(Chr('-')), Cat(J.INT, TAILS))

  lemma {:induction false} TailsRun(w: string)
    requires w in TAILS
    ensures NumberScan(true).Run(TAIL, w)
    decreases |w|
  {
    hide Scan.Run, J.FRAC, J.EXP;
    if w == [] {
      EndRun();
    } else {
      var u, v := StarSplit(J.FRAC + J.EXP, w);
      TailsRun(v);
      TailDigits(true, v);
      if u in J.FRAC { FracRun(u, v); } else { ExpRun(u, v); }
      assert w == u + v;
    }
  }

  lemma EndRun()
    ensures NumberScan(true).Run(TAIL, [])
  {
  }

  /** What the phases behind the first digit read. */
  lemma {:induction false} PhaseForm(ph: nat, w: string)
    requires NumberScan(true).Run(ph, w) && TAIL <= ph + 1 && ph <= EXP
    ensures ph == TAIL ==> w in TAILS
    ensures ph == DIGITS ==> w in Cat(J.DIGITS0, TAILS)
    ensures ph == NEED ==> w in Cat(J.DIGITS1, TAILS)
    ensures ph == EXP ==> w in Cat(Cat(Opt(One(J.Signed)), J.DIGITS1), TAILS)
    decreases |w|, EXP - ph
  {
    hide J.FRAC, J.EXP, Cat;
    if w == [] {
      CatIn(J.DIGITS0, TAILS, [], []);
      assert [] + [] == w;
    } else {
      var c, v := w[0], w[1..];
      assert w == [c] + v;
      if ph == EXP && J.Signed(c) {
        PhaseForm(NEED, v);
        SignedForm(c, v);
      } else if ph != TAIL && J.Digit(c) {
        PhaseForm(DIGITS, v);
        DigitForm(c, v);
      } else {
        PhaseForm(if c == '.' then NEED else EXP, v);
        TailForm(c, v);
        CatIn(J.DIGITS0, TAILS, [], w);
        assert [] + w == w;
      }
    }
  }

  lemma SignedForm(c: char, v: string)
    requires J.Signed(c) && v in Cat(J.DIGITS1, TAILS)
    ensures [c] + v in Cat(Cat(Opt(One(J.Signed)), J.DIGITS1), TAILS)
  {
    hide J.DIGITS1, TAILS;
    CatIn(Opt(One(J.Signed)), Cat(J.DIGITS1, TAILS), [c], v);
    CatAssoc(Opt(One(J.Signed)), J.DIGITS1, TAILS);
  }

  lemma DigitForm(c: char, v: string)
    requires J.Digit(c) && v in Cat(J.DIGITS0, TAILS)
    ensures [c] + v in Cat(J.DIGITS0, TAILS) && [c] + v in Cat(J.DIGITS1, TAILS)
    ensures [c] + v in Cat(Cat(Opt(One(J.Signed)), J.DIGITS1), TAILS)
  {
    hide TAILS, Cat;
    var a, b := CatSplit(J.DIGITS0, TAILS, v);
    StarCons(One(J.Digit), [c], a);
    CatIn(One(J.Digit), J.DIGITS0, [c], a);
    CatIn(J.DIGITS0, TAILS, [c] + a, b);
    CatIn(J.DIGITS1, TAILS, [c] + a, b);
    CatIn(Opt(One(J.Signed)), J.DIGITS1, [], [c] + a);
    CatIn(Cat(Opt(One(J.Signed)), J.DIGITS1), TAILS, [] + ([c] + a), b);
    assert [c] + a + b == [c] + v && [] + ([c] + a) == [c] + a;
  }

  lemma TailForm(c: char, v: string)
    requires c == '.' ==> v in Cat(J.DIGITS1, TAILS)
    requires J.Mark(c) ==> v in Cat(Cat(Opt(One(J.Signed)), J.DIGITS1), TAILS)
    requires c == '.' || J.Mark(c)
    ensures [c] + v in TAILS
  {
    hide J.DIGITS1, Cat;
    var head := if c == '.' then J.DIGITS1 else Cat(Opt(One(J.Signed)), J.DIGITS1);
    var a, b := CatSplit(head, TAILS, v);
    if c == '.' { CatIn(Chr('.'), J.DIGITS1, [c], a); } else { CatIn(One(J.Mark), head, [c], a); }
    StarCons(J.FRAC + J.EXP, [c] + a, b);
    assert [c] + a + b == [c] + v;
  }

  lemma IntForm(w: string)
    requires NumberScan(true).Run(INT, w)
    ensures w in Cat(J.INT, TAILS)
  {
    hide TAILS, Cat, J.DIGITS0;
    var c, v := w[0], w[1..];
    assert w == [c] + v;
    if c == '0' {
      PhaseForm(TAIL, v);
      CatIn(J.INT, TAILS, [c], v);
    } else {
      PhaseForm(DIGITS, v);
      var a, b := CatSplit(J.DIGITS0, TAILS, v);
      CatIn(One(J.Nonzero), J.DIGITS0, [c], a);
      CatIn(J.INT, TAILS, [c] + a, b);
      assert [c] + a + b == w;
    }
  }

  /** The compiled number fragment reads exactly the texts of the expression above: RFC 8259 numbers, and beyond them any
      further fractions and exponents. */
  lemma NumberForm(w: string)
    ensures NumberScan(true).Run(NUM, w) <==> w in WIDE
  {
    hide TAILS, J.INT, Cat;
    if w in WIDE {
      hide Scan.Run;
      var m, r := CatSplit(Opt(Chr('-')), Cat(J.INT, TAILS), w);
      var i, t := CatSplit(J.INT, TAILS, r);
      TailsRun(t);
      IntRun(true, i, t);
      SignRun(true, m, r);
    }
    if NumberScan(true).Run(NUM, w) {
      var m, r := if w[0] == '-' then "-" else [], if w[0] == '-' then w[1..] else w;
      IntForm(r);
      CatIn(Opt(Chr('-')), Cat(J.INT, TAILS), m, r);
      assert m + r == w;
    }
  }

  /** Every RFC number is accepted by the compiled number fragment. */
  lemma NumberWide(w: string)
    requires w in J.NUMBER
    ensures NumberScan(true).Run(NUM, w)
  {
    hide J.FRAC, J.EXP, J.INT, Cat;
    var m, r := CatSplit(Opt(Chr('-')), Cat(J.INT, Cat(Opt(J.FRAC), Opt(J.EXP))), w);
    var i, t := CatSplit(J.INT, Cat(Opt(J.FRAC), Opt(J.EXP)), r);
    var f, e := CatSplit(Opt(J.FRAC), Opt(J.EXP), t);
    if e != [] { StarOne(J.FRAC + J.EXP, e); }
    if f != [] { StarCons(J.FRAC + J.EXP, f, e); } else { assert t == e; }
    CatIn(J.INT, TAILS, i, t);
    CatIn(Opt(Chr('-')), Cat(J.INT, TAILS), m, r);
    NumberForm(w);
  }

  lemma {:induction false} OnlyDigits(w: string)
    requires NumberScan(false).Run(DIGITS, w)
    ensures w in J.DIGITS0
    decreases |w|
  {
    if w != [] {
      OnlyDigits(w[1..]);
      StarCons(One(J.Digit), [w[0]], w[1..]);
      assert [w[0]] + w[1..] == w;
    }
  }

  lemma OnlyInt(w: string)
    requires NumberScan(false).Run(INT, w)
    ensures w in J.INT
  {
    if w[0] == '0' {
      assert w[1..] == [] by { assert NumberScan(false).Run(TAIL, w[1..]); }
      assert w == ['0'];
    } else {
      OnlyDigits(w[1..]);
      CatIn(One(J.Nonzero), J.DIGITS0, [w[0]], w[1..]);
      assert [w[0]] + w[1..] == w;
    }
  }

  /** The compiled integer fragment is exactly `-?(0|[1-9][0-9]*)`. */
  lemma IntegerExact(w: string)
    ensures NumberScan(false).Run(NUM, w) <==> w in J.INTEGER
  {
    if w in J.INTEGER {
      var m, i := CatSplit(Opt(Chr('-')), J.INT, w);
      IntRun(false, i, []);
      assert i + [] == i;
      SignRun(false, m, i);
    }
    if NumberScan(false).Run(NUM, w) {
      if w[0] == '-' {
        OnlyInt(w[1..]);
        CatIn(Opt(Chr('-')), J.INT, "-", w[1..]);
        assert "-" + w[1..] == w;
      } else {
        assert NumberScan(false).Run(INT, w);
        OnlyInt(w);
        CatIn(Opt(Chr('-')), J.INT, [], w);
        assert [] + w == w;
      }
    }
  }

  // ---- the number fragment is strictly wider ----

  /** Because the digit fragment is shared, a second fraction is accepted. */
  lemma SharedDigitLeaks()
    ensures NumberScan(true).Run(NUM, "1.2.3")
  {
    var w := "1.2.3";
    assert w[1..] == ".2.3" && w[1..][1..] == "2.3" && w[1..][1..][1..] == ".3";
    assert ".3"[1..] == "3" && "3"[1..] == [];
    var m := NumberScan(true);
    assert m.Run(DIGITS, []) && m.Run(NEED, "3") && m.Run(DIGITS, ".3") && m.Run(NEED, "2.3") && m.Run(DIGITS, ".2.3");
  }
}
