/** The compiled array against RFC 8259 section 5. */
module ArrayLaws {
  import opened Languages
  import opened Arrays
  import J = Json

  /** A comma with its whitespace is one of the loose separators. */
  lemma SeparatorWide()
    ensures J.SEPARATOR <= LOOSE
  {
    hide J.WS, LOOSE;
    LooseFacts();
    forall w | w in J.SEPARATOR ensures w in LOOSE {
      var u, b := CatSplit(Cat(J.WS, Chr(',')), J.WS, w);
      var a, c := CatSplit(J.WS, Chr(','), u);
      BlanksLoose(b);
      CatIn(Chr(','), LOOSE, c, b);
      CatIn(J.WS, LOOSE, a, c + b);
      assert w == a + (c + b);
    }
  }

  lemma BlanksLoose(b: string)
    requires b in J.WS
    ensures b in LOOSE
  {
    assert One(J.IsWs) <= One(WsOrComma);
    StarMono(One(J.IsWs), One(WsOrComma), b);
  }

  /** Because the whitespace before and after the comma is one fragment, the separator may hold two commas. */
  lemma SharedBlanksLeak()
    ensures ",," in LOOSE
  {
    assert InStar(One(WsOrComma), []);
    StarOne(One(WsOrComma), ",");
    StarCons(One(WsOrComma), ",", ",");
    assert "," + "," == ",,";
  }
}
