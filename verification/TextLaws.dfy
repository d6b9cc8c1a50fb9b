/** The compiled string fragment against RFC 8259 section 7. */
module TextLaws {
  import opened Languages
  import opened Scans
  import opened Texts
  import J = Json

  lemma PlainRun(u: string, v: string)
    requires u in One(J.Plain) && TextScan().Run(BODY, v)
    ensures TextScan().Run(BODY, u + v)
  {
    assert (u + v)[1..] == v && (u + v)[0] == u[0];
  }

  lemma HexRun(u: string, v: string)
    requires u in J.HEX4 && TextScan().Run(BODY, v)
    ensures TextScan().Run(HEX, u + v)
  {
    hide Scan.Run;
    var a, r := CatSplit(One(J.Hex), Cat(One(J.Hex), Cat(One(J.Hex), One(J.Hex))), u);
    var b, s := CatSplit(One(J.Hex), Cat(One(J.Hex), One(J.Hex)), r);
    var c, d := CatSplit(One(J.Hex), One(J.Hex), s);
    PlainRun(d, v);
    PlainRun(c, d + v);
    PlainRun(b, c + (d + v));
    HexStep(a, b + (c + (d + v)));
    assert u + v == a + (b + (c + (d + v)));
  }

  lemma HexStep(a: string, v: string)
    requires a in One(J.Hex) && TextScan().Run(BODY, v)
    ensures TextScan().Run(HEX, a + v)
  {
    assert (a + v)[1..] == v && (a + v)[0] == a[0];
  }

  lemma EscapeRun(u: string, v: string)
    requires u in J.ESCAPE && TextScan().Run(BODY, v)
    ensures TextScan().Run(BODY, u + v)
  {
    hide Scan.Run, J.HEX4, Cat, TextScan;
    var a, r := CatSplit(Chr('\\'), One(J.Simple) + Cat(Chr('u'), J.HEX4), u);
    if r in One(J.Simple) {
      SimpleStep(r, v);
    } else {
      var b, h := CatSplit(Chr('u'), J.HEX4, r);
      HexRun(h, v);
      UStep(h + v);
      assert r + v == ['u'] + (h + v);
    }
    BackslashStep(r + v);
    assert u + v == ['\\'] + (r + v);
  }

  lemma SimpleStep(r: string, v: string)
    requires r in One(J.Simple) && TextScan().Run(BODY, v)
    ensures TextScan().Run(ESC, r + v)
  {
    assert (r + v)[1..] == v && (r + v)[0] == r[0];
  }

  lemma UStep(v: string)
    requires TextScan().Run(HEX, v)
    ensures TextScan().Run(ESC, ['u'] + v)
  {
    assert (['u'] + v)[1..] == v;
  }

  lemma BackslashStep(v: string)
    requires TextScan().Run(ESC, v)
    ensures TextScan().Run(BODY, ['\\'] + v)
  {
    assert (['\\'] + v)[1..] == v;
  }

  lemma {:induction false} BodyRun(u: string, v: string)
    requires u in Star(One(J.Plain) + J.ESCAPE) && TextScan().Run(BODY, v)
    ensures TextScan().Run(BODY, u + v)
    decreases |u|
  {
    hide Scan.Run, J.ESCAPE;
    if u == [] {
      assert u + v == v;
    } else {
      var i :| 0 < i <= |u| && u[..i] in One(J.Plain) + J.ESCAPE && InStar(One(J.Plain) + J.ESCAPE, u[i..]);
      BodyRun(u[i..], v);
      if u[..i] in One(J.Plain) {
        PlainRun(u[..i], u[i..] + v);
      } else {
        EscapeRun(u[..i], u[i..] + v);
      }
      assert u + v == u[..i] + (u[i..] + v);
    }
  }

  /** Every RFC string is accepted by the compiled string fragment. */
  lemma TextWide(w: string)
    requires w in J.STRING
    ensures TextScan().Run(OPEN, w)
  {
    hide J.ESCAPE;
    var q, r := CatSplit(Chr('\"'), Cat(Star(One(J.Plain) + J.ESCAPE), Chr('\"')), w);
    var body, e := CatSplit(Star(One(J.Plain) + J.ESCAPE), Chr('\"'), r);
    assert "\""[1..] == [];
    assert TextScan().Run(BODY, "\"");
    BodyRun(body, "\"");
    assert w[1..] == r;
  }

  // ---- the exact language of the string fragment ----

  /** An escape as the compiled fragment reads it: one letter, or `u` and one hexadecimal digit. */
  ghost const AFTER_BACKSLASH: Lang := One(J.Simple) + Cat(Chr('u'), One(J.Hex))
  ghost const PIECE: Lang := One(J.Plain) + Cat(Chr('\\'), AFTER_BACKSLASH)

  /** What the compiled string fragment reads: further hexadecimal digits are plain characters. */
  ghost const CLOSED: Lang := Cat(Star(PIECE), Chr('\"'))
  ghost const WIDE: Lang := Cat(Chr('\"'), CLOSED)

  lemma PieceRun(u: string, v: string)
    requires u in PIECE && TextScan().Run(BODY, v)
    ensures TextScan().Run(BODY, u + v)
  {
    PieceCases(u);
    hide Scan.Run, Cat, TextScan, PIECE, AFTER_BACKSLASH;
    if u in One(J.Plain) {
      PlainRun(u, v);
    } else {
      var a, r := CatSplit(Chr('\\'), AFTER_BACKSLASH, u);
      AfterRun(r, v);
      BackslashStep(r + v);
      assert u + v == ['\\'] + (r + v);
    }
  }

  lemma PieceCases(u: string)
    requires u in PIECE
    ensures u in One(J.Plain) || u in Cat(Chr('\\'), AFTER_BACKSLASH)
  {
    hide Cat, AFTER_BACKSLASH;
  }

  lemma AfterRun(r: string, v: string)
    requires r in AFTER_BACKSLASH && TextScan().Run(BODY, v)
    ensures TextScan().Run(ESC, r + v)
  {
    hide Scan.Run, Cat, TextScan;
    if r in One(J.Simple) {
      SimpleStep(r, v);
    } else {
      var b, h := CatSplit(Chr('u'), One(J.Hex), r);
      HexStep(h, v);
      UStep(h + v);
      assert r + v == ['u'] + (h + v);
    }
  }

  lemma {:induction false} PiecesRun(u: string, v: string)
    requires u in Star(PIECE) && TextScan().Run(BODY, v)
    ensures TextScan().Run(BODY, u + v)
    decreases |u|
  {
    hide Scan.Run, PIECE;
    if u == [] {
      assert u + v == v;
    } else {
      var a, b := StarSplit(PIECE, u);
      PiecesRun(b, v);
      PieceRun(a, b + v);
      assert u + v == a + (b + v);
    }
  }

  /** What the phases behind the opening quote read. */
  lemma {:induction false} PhaseForm(ph: nat, w: string)
    requires TextScan().Run(ph, w) && BODY <= ph
    ensures ph == BODY ==> w in CLOSED
    ensures ph == ESC ==> w in Cat(AFTER_BACKSLASH, CLOSED)
    ensures ph == HEX ==> w in Cat(One(J.Hex), CLOSED)
    ensures ph == DONE ==> w == []
    decreases |w|
  {
    hide CLOSED, AFTER_BACKSLASH, Cat;
    if w != [] {
      var c, v := w[0], w[1..];
      assert w == [c] + v;
      PhaseForm(TextStep(ph, c).phase, v);
      if ph == BODY {
        BodyForm(c, v);
      } else if ph == ESC {
        EscForm(c, v);
      } else if ph == HEX {
        CatIn(One(J.Hex), CLOSED, [c], v);
      }
    }
  }

  lemma BodyForm(c: char, v: string)
    requires c == '\"' ==> v == []
    requires c == '\\' ==> v in Cat(AFTER_BACKSLASH, CLOSED)
    requires c != '\"' && c != '\\' ==> J.Plain(c) && v in CLOSED
    ensures [c] + v in CLOSED
  {
    hide AFTER_BACKSLASH, Cat, PIECE;
    if c == '\"' {
      assert InStar(PIECE, []);
      CatIn(Star(PIECE), Chr('\"'), [], [c]);
      assert [] + [c] == [c] + v;
    } else if c == '\\' {
      var a, r := CatSplit(AFTER_BACKSLASH, CLOSED, v);
      CatIn(Chr('\\'), AFTER_BACKSLASH, [c], a);
      PieceIs([c] + a);
      OneMore([c] + a, r);
      assert [c] + a + r == [c] + v;
    } else {
      PieceIs([c]);
      OneMore([c], v);
    }
  }

  lemma PieceIs(u: string)
    ensures u in One(J.Plain) || u in Cat(Chr('\\'), AFTER_BACKSLASH) ==> u in PIECE
  {
    hide AFTER_BACKSLASH, Cat;
  }

  lemma OneMore(u: string, v: string)
    requires u in PIECE && v in CLOSED
    ensures u + v in CLOSED
  {
    hide PIECE, Cat;
    var a, b := CatSplit(Star(PIECE), Chr('\"'), v);
    StarOne(PIECE, u);
    StarConcat(PIECE, u, a);
    CatIn(Star(PIECE), Chr('\"'), u + a, b);
    assert u + a + b == u + v;
  }

  lemma EscForm(c: char, v: string)
    requires J.Simple(c) ==> v in CLOSED
    requires !J.Simple(c) ==> c == 'u' && v in Cat(One(J.Hex), CLOSED)
    ensures [c] + v in Cat(AFTER_BACKSLASH, CLOSED)
  {
    hide CLOSED, Cat;
    if J.Simple(c) {
      CatIn(AFTER_BACKSLASH, CLOSED, [c], v);
    } else {
      var h, r := CatSplit(One(J.Hex), CLOSED, v);
      CatIn(Chr('u'), One(J.Hex), [c], h);
      CatIn(AFTER_BACKSLASH, CLOSED, [c] + h, r);
      assert [c] + h + r == [c] + v;
    }
  }

  /** The compiled string fragment reads exactly the texts of this expression: RFC 8259 strings, and beyond them `\u` escapes
      of one, two or three digits. */
  lemma TextForm(w: string)
    ensures TextScan().Run(OPEN, w) <==> w in WIDE
  {
    hide Cat, PIECE;
    if w in WIDE {
      var q, r := CatSplit(Chr('\"'), CLOSED, w);
      var body, e := CatSplit(Star(PIECE), Chr('\"'), r);
      assert "\""[1..] == [];
      assert TextScan().Run(BODY, "\"");
      PiecesRun(body, "\"");
      assert w[1..] == r;
    }
    if TextScan().Run(OPEN, w) {
      PhaseForm(BODY, w[1..]);
      CatIn(Chr('\"'), CLOSED, [w[0]], w[1..]);
      assert [w[0]] + w[1..] == w;
    }
  }

  /** Because the hex class is shared, a `\u` escape with a single digit is accepted. */
  lemma SharedHexLeaks()
    ensures TextScan().Run(OPEN, "\"\\u1\"")
  {
    var w := "\"\\u1\"";
    assert w[1..] == "\\u1\"" && "\\u1\""[1..] == "u1\"" && "u1\""[1..] == "1\"" && "1\""[1..] == "\"" && "\""[1..] == [];
    var m := TextScan();
    assert m.Run(BODY, "\"") && m.Run(HEX, "1\"") && m.Run(ESC, "u1\"") && m.Run(BODY, "\\u1\"");
  }
}
