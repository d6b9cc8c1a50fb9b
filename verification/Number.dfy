/** `number_frag`: the digit fragment is shared, so the compiled language is the scanner below, not RFC 8259 section 6. */
module Numbers {
  import opened Languages
  import opened Nfas
  import opened Fragments
  import opened NfaBuilders
  import opened Scans
  import J = Json

  const NUM: nat := 0
  const INT: nat := 1
  const DIGITS: nat := 2
  const TAIL: nat := 3
  const NEED: nat := 4
  const EXP: nat := 5

  function AfterDigits(full: bool, c: char): Transit {
    if full && c == '.' then Go(NEED)
    else if full && (c == 'e' || c == 'E') then Go(EXP)
    else Stop
  }

  function AtInt(c: char): Transit {
    if c == '0' then Go(TAIL) else if J.Nonzero(c) then Go(DIGITS) else Stop
  }

  function NumberStep(full: bool, ph: nat, c: char): Transit {
    if ph == NUM then (if c == '-' then Go(INT) else AtInt(c))
    else if ph == INT then AtInt(c)
    else if ph == DIGITS then (if J.Digit(c) then Go(DIGITS) else AfterDigits(full, c))
    else if ph == TAIL then AfterDigits(full, c)
    else if ph == NEED then (if J.Digit(c) then Go(DIGITS) else Stop)
    else if ph == EXP then (if c == '+' || c == '-' then Go(NEED) else if J.Digit(c) then Go(DIGITS) else Stop)
    else Stop
  }

  /** The language of the compiled number (`full`) or integer fragment. */
  function NumberScan(full: bool): Scan {
    Scan((ph: nat, c: char) => NumberStep(full, ph, c), (ph: nat) => ph == DIGITS || ph == TAIL)
  }

  const DIGIT: Label := Class([('0', '9')])
  const NONZERO: Label := Class([('1', '9')])

  lemma DigitAllows(c: char)
    ensures DIGIT.Allows(c) <==> J.Digit(c)
    ensures NONZERO.Allows(c) <==> J.Nonzero(c)
  {
    assert DIGIT.ranges[0] == ('0', '9') && NONZERO.ranges[0] == ('1', '9');
  }

  // ---- the edges, with states relative to `lo` ----

  function IntegerEdges(lo: nat): set<Edge> {
    {Edge(lo, Ch('-'), lo + 1), Edge(lo + 2, DIGIT, lo + 3), Edge(lo + 4, NONZERO, lo + 5), Edge(lo + 6, Ch('0'), lo + 7),
     Edge(lo + 8, Eps, lo + 2), Edge(lo + 3, Eps, lo + 9), Edge(lo + 3, Eps, lo + 2), Edge(lo + 8, Eps, lo + 9),
     Edge(lo + 5, Eps, lo + 8),
     Edge(lo + 10, Eps, lo + 6), Edge(lo + 7, Eps, lo + 11), Edge(lo + 10, Eps, lo + 4), Edge(lo + 9, Eps, lo + 11),
     Edge(lo + 12, Eps, lo), Edge(lo + 1, Eps, lo + 13), Edge(lo + 12, Eps, lo + 13)}
  }

  function FractionEdges(lo: nat): set<Edge> {
    {Edge(lo + 14, Ch('.'), lo + 15)} + Looped((lo + 2, lo + 3), lo + 16) + {Edge(lo + 15, Eps, lo + 16)}
  }

  function MarkEdges(lo: nat): set<Edge> {
    {Edge(lo + 20, Ch('e'), lo + 21), Edge(lo + 22, Ch('E'), lo + 23),
     Edge(lo + 24, Eps, lo + 20), Edge(lo + 21, Eps, lo + 25), Edge(lo + 24, Eps, lo + 22), Edge(lo + 23, Eps, lo + 25)}
  }

  function SignEdges(lo: nat): set<Edge> {
    {Edge(lo + 26, Ch('+'), lo + 27), Edge(lo + 28, Ch('-'), lo + 29),
     Edge(lo + 30, Eps, lo + 26), Edge(lo + 27, Eps, lo + 31), Edge(lo + 30, Eps, lo + 28), Edge(lo + 29, Eps, lo + 31),
     Edge(lo + 32, Eps, lo + 30), Edge(lo + 31, Eps, lo + 33), Edge(lo + 32, Eps, lo + 33)}
  }

  function ExponentEdges(lo: nat): set<Edge> {
    MarkEdges(lo) + SignEdges(lo) + Looped((lo + 2, lo + 3), lo + 34) +
    {Edge(lo + 25, Eps, lo + 32), Edge(lo + 33, Eps, lo + 34)}
  }

  function OptionEdges(lo: nat): set<Edge> {
    {Edge(lo + 38, Eps, lo + 14), Edge(lo + 17, Eps, lo + 39), Edge(lo + 38, Eps, lo + 39),
     Edge(lo + 40, Eps, lo + 24), Edge(lo + 35, Eps, lo + 41), Edge(lo + 40, Eps, lo + 41),
     Edge(lo + 11, Eps, lo + 38), Edge(lo + 39, Eps, lo + 40)}
  }

  function NumberEdges(lo: nat, full: bool): set<Edge> {
    IntegerEdges(lo) + {Edge(lo + 13, Eps, lo + 10)} +
    (if full then FractionEdges(lo) + ExponentEdges(lo) + OptionEdges(lo) else {})
  }

  function NumberPart(lo: nat, full: bool): Part {
    Part(NumberEdges(lo, full), lo, lo + (if full then 42 else 14), lo + 12, lo + (if full then 41 else 11))
  }

  /** Sign, shared digit class and integer part. */
  method IntegerCore(b: NfaBuilder) returns (digit: (nat, nat), intPart: (nat, nat), minusOpt: (nat, nat))
    modifies b
    ensures var lo := old(b.states);
            && digit == (lo + 2, lo + 3) && intPart == (lo + 10, lo + 11) && minusOpt == (lo + 12, lo + 13)
            && b.states == lo + 14 && b.Set() == old(b.Set()) + IntegerEdges(lo)
  {
    hide NfaBuilder.Set, Branches, Links;
    var minus := b.Char('-');
    digit := b.Ranges([('0', '9')]);
    var nonzero := b.Ranges([('1', '9')]);
    var zero := b.Char('0');
    var digits := b.Star(digit);
    LinksTwo(nonzero, digits);
    var lead := b.Seq([nonzero, digits]);
    BranchesTwo(zero, lead, b.states);
    intPart := b.Alt([zero, lead]);
    minusOpt := b.Opt(minus);
  }

  method Fraction(b: NfaBuilder, digit: (nat, nat), ghost lo: nat) returns (frac: (nat, nat))
    requires digit == (lo + 2, lo + 3) && b.states == lo + 14
    modifies b
    ensures frac == (lo + 14, lo + 17) && b.states == lo + 20 && b.Set() == old(b.Set()) + FractionEdges(lo)
  {
    hide NfaBuilder.Set, Links, Looped;
    var dot := b.Char('.');
    var digits := b.OneOrMore(digit);
    LinksTwo(dot, digits);
    frac := b.Seq([dot, digits]);
  }

  method Mark(b: NfaBuilder, ghost lo: nat) returns (e: (nat, nat))
    requires b.states == lo + 20
    modifies b
    ensures e == (lo + 24, lo + 25) && b.states == lo + 26 && b.Set() == old(b.Set()) + MarkEdges(lo)
  {
    hide NfaBuilder.Set, Branches;
    var lower := b.Char('e');
    var upper := b.Char('E');
    BranchesTwo(lower, upper, b.states);
    e := b.Alt([lower, upper]);
  }

  method Sign(b: NfaBuilder, ghost lo: nat) returns (sign: (nat, nat))
    requires b.states == lo + 26
    modifies b
    ensures sign == (lo + 32, lo + 33) && b.states == lo + 34 && b.Set() == old(b.Set()) + SignEdges(lo)
  {
    hide NfaBuilder.Set, Branches;
    var plus := b.Char('+');
    var neg := b.Char('-');
    BranchesTwo(plus, neg, b.states);
    var signAlt := b.Alt([plus, neg]);
    sign := b.Opt(signAlt);
  }

  method Exponent(b: NfaBuilder, digit: (nat, nat), ghost lo: nat) returns (exp: (nat, nat))
    requires digit == (lo + 2, lo + 3) && b.states == lo + 20
    modifies b
    ensures exp == (lo + 24, lo + 35) && b.states == lo + 38 && b.Set() == old(b.Set()) + ExponentEdges(lo)
  {
    hide NfaBuilder.Set, Links, Looped, MarkEdges, SignEdges;
    var e := Mark(b, lo);
    var sign := Sign(b, lo);
    var digits := b.OneOrMore(digit);
    LinksThree(e, sign, digits);
    exp := b.Seq([e, sign, digits]);
  }

  method NumberFrag(b: NfaBuilder, integerOnly: bool) returns (frag: (nat, nat))
    modifies b
    ensures var x := NumberPart(old(b.states), !integerOnly);
            b.Set() == old(b.Set()) + x.es && frag == (x.s, x.f) && b.states == x.hi
  {
    hide NfaBuilder.Set, Links, IntegerEdges, FractionEdges, ExponentEdges;
    ghost var lo := b.states;
    var digit, intPart, minusOpt := IntegerCore(b);
    if integerOnly {
      LinksTwo(minusOpt, intPart);
      frag := b.Seq([minusOpt, intPart]);
    } else {
      var frac := Fraction(b, digit, lo);
      var exp := Exponent(b, digit, lo);
      var fracOpt := b.Opt(frac);
      var expOpt := b.Opt(exp);
      LinksFour(minusOpt, intPart, fracOpt, expOpt);
      frag := b.Seq([minusOpt, intPart, fracOpt, expOpt]);
    }
  }

  // ---- soundness: every state is tagged with what it can read ----

  function TagOf(i: nat): Tag {
    if i == 0 then Then(Ch('-'), INT)
    else if i == 2 then Then(DIGIT, DIGITS)
    else if i == 4 then Then(NONZERO, DIGITS)
    else if i == 6 then Then(Ch('0'), TAIL)
    else if i == 14 then Then(Ch('.'), NEED)
    else if i == 20 then Then(Ch('e'), EXP)
    else if i == 22 then Then(Ch('E'), EXP)
    else if i == 26 then Then(Ch('+'), NEED)
    else if i == 28 then Then(Ch('-'), NEED)
    else if i == 3 || i == 5 || i == 8 || i == 18 || i == 36 then At(DIGITS)
    else if i == 1 || i == 10 || i == 13 then At(INT)
    else if i == 12 then At(NUM)
    else if i == 21 || i == 23 || i == 25 || i == 30 || i == 32 then At(EXP)
    else if i == 15 || i == 16 || i == 27 || i == 29 || i == 31 || i == 33 || i == 34 then At(NEED)
    else At(TAIL)
  }

  ghost function Labelling(lo: nat, full: bool): nat -> Lang {
    (p: nat) => if p < lo then iset{} else NumberScan(full).Tagged(TagOf(p - lo))
  }

  /** All inclusions between tags that the empty moves use. */
  lemma TagOrder(full: bool)
    ensures var m := NumberScan(full);
            && m.Tagged(At(TAIL)) <= m.Tagged(At(DIGITS)) && m.Tagged(At(NEED)) <= m.Tagged(At(DIGITS))
            && m.Tagged(At(NEED)) <= m.Tagged(At(EXP)) && m.Tagged(At(INT)) <= m.Tagged(At(NUM))
            && m.Tagged(Then(DIGIT, DIGITS)) <= m.Tagged(At(DIGITS)) && m.Tagged(Then(DIGIT, DIGITS)) <= m.Tagged(At(NEED))
            && m.Tagged(Then(NONZERO, DIGITS)) <= m.Tagged(At(INT)) && m.Tagged(Then(Ch('0'), TAIL)) <= m.Tagged(At(INT))
            && m.Tagged(Then(Ch('-'), INT)) <= m.Tagged(At(NUM))
            && m.Tagged(Then(Ch('+'), NEED)) <= m.Tagged(At(EXP)) && m.Tagged(Then(Ch('-'), NEED)) <= m.Tagged(At(EXP))
  {
    hide Scan.Tagged, Scan.Feeds, Scan.Covers;
    var m := NumberScan(full);
    NumberFeeds(full);
    m.CoversTexts(TAIL, DIGITS);
    m.CoversTexts(NEED, DIGITS);
    m.CoversTexts(NEED, EXP);
    m.CoversTexts(INT, NUM);
    m.FeedsTexts(DIGIT, DIGITS, DIGITS);
    m.FeedsTexts(DIGIT, DIGITS, NEED);
    m.FeedsTexts(NONZERO, DIGITS, INT);
    m.FeedsTexts(Ch('0'), TAIL, INT);
    m.FeedsTexts(Ch('-'), INT, NUM);
    m.FeedsTexts(Ch('+'), NEED, EXP);
    m.FeedsTexts(Ch('-'), NEED, EXP);
  }

  lemma NumberFeeds(full: bool)
    ensures var m := NumberScan(full);
            && m.Covers(TAIL, DIGITS) && m.Covers(NEED, DIGITS) && m.Covers(NEED, EXP) && m.Covers(INT, NUM)
            && m.Feeds(DIGIT, DIGITS, DIGITS) && m.Feeds(DIGIT, DIGITS, NEED) && m.Feeds(NONZERO, DIGITS, INT)
            && m.Feeds(Ch('0'), TAIL, INT) && m.Feeds(Ch('-'), INT, NUM)
            && m.Feeds(Ch('+'), NEED, EXP) && m.Feeds(Ch('-'), NEED, EXP)
  {
    var m := NumberScan(full);
    forall c: char { DigitAllows(c); }
  }

  lemma TagOrderFull()
    ensures var m := NumberScan(true);
            && m.Tagged(Then(Ch('.'), NEED)) <= m.Tagged(At(TAIL))
            && m.Tagged(Then(Ch('e'), EXP)) <= m.Tagged(At(TAIL)) && m.Tagged(Then(Ch('E'), EXP)) <= m.Tagged(At(TAIL))
  {
    hide Scan.Run, Scan.Tagged;
    var m := NumberScan(true);
    m.FeedsTexts(Ch('.'), NEED, TAIL);
    m.FeedsTexts(Ch('e'), EXP, TAIL);
    m.FeedsTexts(Ch('E'), EXP, TAIL);
  }

  lemma SymbolAt(lo: nat, full: bool, i: nat, j: nat)
    requires TagOf(i).Then? && !TagOf(i).sym.Eps? && TagOf(j) == At(TagOf(i).ph)
    ensures EdgeClosed(Edge(lo + i, TagOf(i).sym, lo + j), Labelling(lo, full))
  {
    hide Scan.Tagged;
    var r := Labelling(lo, full);
    NumberScan(full).SymbolFits(Edge(lo + i, TagOf(i).sym, lo + j), r, TagOf(i).ph);
  }

  lemma EmptyAt(lo: nat, full: bool, i: nat, j: nat)
    requires NumberScan(full).Tagged(TagOf(j)) <= NumberScan(full).Tagged(TagOf(i))
    ensures EdgeClosed(Edge(lo + i, Eps, lo + j), Labelling(lo, full))
  {
  }

  lemma IntegerClosed(lo: nat, full: bool)
    ensures Closed(IntegerEdges(lo) + {Edge(lo + 13, Eps, lo + 10)}, Labelling(lo, full))
  {
    hide Scan.Tagged, NumberScan, Labelling, EdgeClosed;
    TagOrder(full);
    SymbolAt(lo, full, 0, 1);
    SymbolAt(lo, full, 2, 3);
    SymbolAt(lo, full, 4, 5);
    SymbolAt(lo, full, 6, 7);
    EmptyAt(lo, full, 8, 2);
    EmptyAt(lo, full, 3, 9);
    EmptyAt(lo, full, 3, 2);
    EmptyAt(lo, full, 8, 9);
    EmptyAt(lo, full, 5, 8);
    EmptyAt(lo, full, 10, 6);
    EmptyAt(lo, full, 7, 11);
    EmptyAt(lo, full, 10, 4);
    EmptyAt(lo, full, 9, 11);
    EmptyAt(lo, full, 12, 0);
    EmptyAt(lo, full, 1, 13);
    EmptyAt(lo, full, 12, 13);
    EmptyAt(lo, full, 13, 10);
  }

  lemma LoopedClosed(lo: nat, a: nat)
    requires TagOf(a) == At(NEED) && TagOf(a + 2) == At(DIGITS) && TagOf(a + 1) == TagOf(a + 3) == At(TAIL)
    ensures Closed(Looped((lo + 2, lo + 3), lo + a), Labelling(lo, true))
  {
    hide Scan.Tagged, NumberScan, Labelling, EdgeClosed;
    TagOrder(true);
    EmptyAt(lo, true, a + 2, 2);
    EmptyAt(lo, true, 3, a + 3);
    EmptyAt(lo, true, 3, 2);
    EmptyAt(lo, true, a + 2, a + 3);
    EmptyAt(lo, true, a, 2);
    EmptyAt(lo, true, 3, a + 2);
    EmptyAt(lo, true, a + 3, a + 1);
  }

  lemma FractionClosed(lo: nat)
    ensures Closed(FractionEdges(lo), Labelling(lo, true))
  {
    hide Scan.Tagged, NumberScan, Labelling, EdgeClosed, Looped;
    SymbolAt(lo, true, 14, 15);
    EmptyAt(lo, true, 15, 16);
    LoopedClosed(lo, 16);
  }

  lemma MarkClosed(lo: nat)
    ensures Closed(MarkEdges(lo), Labelling(lo, true))
  {
    hide Scan.Tagged, NumberScan, Labelling, EdgeClosed;
    TagOrderFull();
    SymbolAt(lo, true, 20, 21);
    SymbolAt(lo, true, 22, 23);
    EmptyAt(lo, true, 24, 20);
    EmptyAt(lo, true, 21, 25);
    EmptyAt(lo, true, 24, 22);
    EmptyAt(lo, true, 23, 25);
  }

  lemma SignClosed(lo: nat)
    ensures Closed(SignEdges(lo), Labelling(lo, true))
  {
    hide Scan.Tagged, NumberScan, Labelling, EdgeClosed;
    TagOrder(true);
    SymbolAt(lo, true, 26, 27);
    SymbolAt(lo, true, 28, 29);
    EmptyAt(lo, true, 30, 26);
    EmptyAt(lo, true, 27, 31);
    EmptyAt(lo, true, 30, 28);
    EmptyAt(lo, true, 29, 31);
    EmptyAt(lo, true, 32, 30);
    EmptyAt(lo, true, 31, 33);
    EmptyAt(lo, true, 32, 33);
  }

  lemma ExponentClosed(lo: nat)
    ensures Closed(ExponentEdges(lo), Labelling(lo, true))
  {
    hide Scan.Tagged, NumberScan, Labelling, EdgeClosed, Looped, MarkEdges, SignEdges;
    MarkClosed(lo);
    SignClosed(lo);
    EmptyAt(lo, true, 25, 32);
    EmptyAt(lo, true, 33, 34);
    LoopedClosed(lo, 34);
  }

  lemma OptionClosed(lo: nat)
    ensures Closed(OptionEdges(lo), Labelling(lo, true))
  {
    hide Scan.Tagged, NumberScan, Labelling, EdgeClosed;
    TagOrder(true);
    TagOrderFull();
    EmptyAt(lo, true, 38, 14);
    EmptyAt(lo, true, 17, 39);
    EmptyAt(lo, true, 38, 39);
    EmptyAt(lo, true, 40, 24);
    EmptyAt(lo, true, 35, 41);
    EmptyAt(lo, true, 40, 41);
    EmptyAt(lo, true, 11, 38);
    EmptyAt(lo, true, 39, 40);
  }

  lemma NumberSound(lo: nat, full: bool, w: string)
    requires w in NumberPart(lo, full).Accepted()
    ensures NumberScan(full).Run(NUM, w)
  {
    hide Scan.Run, NumberScan, IntegerEdges, FractionEdges, ExponentEdges, OptionEdges, Reads;
    IntegerClosed(lo, full);
    if full {
      FractionClosed(lo);
      ExponentClosed(lo);
      OptionClosed(lo);
    }
    var x := NumberPart(lo, full);
    EndsHere(lo, full);
    NumberStart(lo, full, w);
    ReadsBound(x.es, Labelling(lo, full), x.s, w, x.f);
  }

  lemma EndsHere(lo: nat, full: bool)
    ensures [] in Labelling(lo, full)(NumberPart(lo, full).f)
  {
    var i := if full then 41 else 11;
    assert TagOf(i) == At(TAIL);
    assert NumberScan(full).Run(TAIL, []);
    LabelAt(lo, full, i);
  }

  lemma NumberStart(lo: nat, full: bool, w: string)
    ensures w in Labelling(lo, full)(NumberPart(lo, full).s) <==> NumberScan(full).Run(NUM, w)
  {
    assert TagOf(12) == At(NUM);
    LabelAt(lo, full, 12);
  }

  lemma LabelAt(lo: nat, full: bool, i: nat)
    ensures Labelling(lo, full)(lo + i) == NumberScan(full).Tagged(TagOf(i))
  {
    assert lo + i - lo == i;
  }

  // ---- completeness: every phase has a state that can do all of it ----

  predicate Home(ph: nat, i: nat) {
    if ph == NUM then i == 12
    else if ph == INT then i == 10
    else if ph == DIGITS then i == 3 || i == 8
    else if ph == TAIL then i == 11
    else if ph == NEED then i == 2
    else ph == EXP && i == 32
  }

  lemma HomeInt(lo: nat, full: bool, c: char) returns (j: nat)
    requires AtInt(c).Go?
    ensures Home(AtInt(c).phase, j) && Reads(NumberEdges(lo, full), lo + 10, [c], lo + j)
  {
    hide Reads, FractionEdges, ExponentEdges, OptionEdges;
    var es := NumberEdges(lo, full);
    if c == '0' {
      j := 11;
      HopsThen(es, [lo + 10, lo + 6], Ch('0'), lo + 7, c);
      ReadsThenEps(es, lo + 10, [c], lo + 7, lo + 11);
    } else {
      j := 8;
      DigitAllows(c);
      HopsThen(es, [lo + 10, lo + 4], NONZERO, lo + 5, c);
      ReadsThenEps(es, lo + 10, [c], lo + 5, lo + 8);
    }
  }

  lemma HomeDigit(lo: nat, full: bool, ps: seq<nat>, c: char)
    requires ps != [] && ps[|ps| - 1] == lo + 2 && AllHops(NumberEdges(lo, full), ps) && J.Digit(c)
    ensures Reads(NumberEdges(lo, full), ps[0], [c], lo + 3)
  {
    hide Reads, FractionEdges, ExponentEdges, OptionEdges;
    DigitAllows(c);
    HopsThen(NumberEdges(lo, full), ps, DIGIT, lo + 3, c);
  }

  lemma FractionHops(lo: nat)
    ensures var es := NumberEdges(lo, true);
            && AllHops(es, [lo + 11, lo + 38, lo + 14]) && Edge(lo + 14, Ch('.'), lo + 15) in es
            && AllHops(es, [lo + 15, lo + 16, lo + 2])
  {
    hide IntegerEdges, ExponentEdges;
  }

  /** From the end of the integer part to the sign, through one exponent mark. */
  ghost predicate MarkPath(es: set<Edge>, lo: nat, at: nat, c: char) {
    && AllHops(es, [lo + 11, lo + 38, lo + 39, lo + 40, lo + 24, lo + at])
    && Edge(lo + at, Ch(c), lo + at + 1) in es
    && AllHops(es, [lo + at + 1, lo + 25, lo + 32])
  }

  lemma MarkHops(lo: nat, at: nat, c: char)
    requires (at == 20 && c == 'e') || (at == 22 && c == 'E')
    ensures MarkPath(NumberEdges(lo, true), lo, at, c)
  {
    hide IntegerEdges, FractionEdges, SignEdges, Looped;
  }

  /** From the end of the integer part: a fraction or an exponent. */
  lemma HomeAfter(lo: nat, c: char) returns (j: nat)
    requires AfterDigits(true, c).Go?
    ensures Home(AfterDigits(true, c).phase, j) && Reads(NumberEdges(lo, true), lo + 11, [c], lo + j)
  {
    hide Reads, NumberEdges, AllHops;
    var es := NumberEdges(lo, true);
    if c == '.' {
      j := 2;
      FractionHops(lo);
      HopSymbolHop(es, [lo + 11, lo + 38, lo + 14], Ch('.'), c, [lo + 15, lo + 16, lo + 2]);
    } else {
      j := 32;
      var at: nat := if c == 'e' then 20 else 22;
      MarkHops(lo, at, c);
      HopSymbolHop(es, [lo + 11, lo + 38, lo + 39, lo + 40, lo + 24, lo + at], Ch(c), c, [lo + at + 1, lo + 25, lo + 32]);
    }
  }

  lemma HomeSign(lo: nat, c: char)
    requires c == '+' || c == '-'
    ensures Reads(NumberEdges(lo, true), lo + 32, [c], lo + 2)
  {
    hide Reads, IntegerEdges, FractionEdges, OptionEdges;
    var es := NumberEdges(lo, true);
    var at: nat := if c == '+' then 26 else 28;
    HopsThen(es, [lo + 32, lo + 30, lo + at], Ch(c), lo + at + 1, c);
    ReadsThenEps(es, lo + 32, [c], lo + at + 1, lo + 31);
    ReadsThenEps(es, lo + 32, [c], lo + 31, lo + 33);
    ReadsThenEps(es, lo + 32, [c], lo + 33, lo + 34);
    ReadsThenEps(es, lo + 32, [c], lo + 34, lo + 2);
  }

  /** After a digit the end of the integer part is one or two empty moves away, whichever digit it was. */
  lemma DigitsToEnd(lo: nat, full: bool, i: nat)
    requires i == 3 || i == 8
    ensures Reads(NumberEdges(lo, full), lo + i, [], lo + 11) && Edge(lo + i, Eps, lo + 2) in NumberEdges(lo, full)
  {
    hide Reads, FractionEdges, ExponentEdges, OptionEdges;
    Hops(NumberEdges(lo, full), [lo + i, lo + 9, lo + 11]);
  }

  lemma HomeDigits(lo: nat, full: bool, i: nat, c: char) returns (j: nat)
    requires (i == 3 || i == 8) && NumberStep(full, DIGITS, c).Go?
    ensures Home(NumberStep(full, DIGITS, c).phase, j) && Reads(NumberEdges(lo, full), lo + i, [c], lo + j)
  {
    hide Reads, NumberEdges;
    DigitsToEnd(lo, full, i);
    if J.Digit(c) {
      j := 3;
      HomeDigit(lo, full, [lo + i, lo + 2], c);
    } else {
      j := HomeAfter(lo, c);
      ReadsConcat(NumberEdges(lo, full), lo + i, [], lo + 11, [c], lo + j);
      assert [] + [c] == [c];
    }
  }

  lemma StartHops(lo: nat, full: bool)
    ensures AllHops(NumberEdges(lo, full), [lo + 12, lo + 13, lo + 10]) && AllHops(NumberEdges(lo, full), [lo + 12, lo])
    ensures Edge(lo, Ch('-'), lo + 1) in NumberEdges(lo, full) && AllHops(NumberEdges(lo, full), [lo + 1, lo + 13, lo + 10])
  {
    hide FractionEdges, ExponentEdges, OptionEdges;
  }

  lemma HomeNum(lo: nat, full: bool, c: char) returns (j: nat)
    requires NumberStep(full, NUM, c).Go?
    ensures Home(NumberStep(full, NUM, c).phase, j) && Reads(NumberEdges(lo, full), lo + 12, [c], lo + j)
  {
    hide Reads, NumberEdges, AllHops;
    var es := NumberEdges(lo, full);
    StartHops(lo, full);
    if c == '-' {
      j := 10;
      HopsThen(es, [lo + 12, lo], Ch('-'), lo + 1, c);
      Hops(es, [lo + 1, lo + 13, lo + 10]);
      ReadsConcat(es, lo + 12, [c], lo + 1, [], lo + 10);
      assert [c] + [] == [c];
    } else {
      j := HomeInt(lo, full, c);
      Hops(es, [lo + 12, lo + 13, lo + 10]);
      ReadsConcat(es, lo + 12, [], lo + 10, [c], lo + j);
      assert [] + [c] == [c];
    }
  }

  lemma HomeExp(lo: nat, c: char) returns (j: nat)
    requires NumberStep(true, EXP, c).Go?
    ensures Home(NumberStep(true, EXP, c).phase, j) && Reads(NumberEdges(lo, true), lo + 32, [c], lo + j)
  {
    hide Reads, NumberEdges;
    if c == '+' || c == '-' {
      j := 2;
      HomeSign(lo, c);
    } else {
      j := 3;
      ExpHops(lo);
      HomeDigit(lo, true, [lo + 32, lo + 33, lo + 34, lo + 2], c);
    }
  }

  lemma ExpHops(lo: nat)
    ensures AllHops(NumberEdges(lo, true), [lo + 32, lo + 33, lo + 34, lo + 2])
  {
    hide IntegerEdges, FractionEdges, OptionEdges;
  }

  lemma HomeStep(lo: nat, full: bool, ph: nat, i: nat, c: char) returns (j: nat)
    requires Home(ph, i) && NumberStep(full, ph, c).Go? && (ph == EXP ==> full)
    ensures Home(NumberStep(full, ph, c).phase, j) && Reads(NumberEdges(lo, full), lo + i, [c], lo + j)
    ensures NumberStep(full, ph, c).phase == EXP ==> full
  {
    hide Reads, NumberEdges;
    if ph == NUM {
      j := HomeNum(lo, full, c);
    } else if ph == INT {
      j := HomeInt(lo, full, c);
    } else if ph == DIGITS {
      j := HomeDigits(lo, full, i, c);
    } else if ph == TAIL {
      j := HomeAfter(lo, c);
    } else if ph == NEED {
      j := 3;
      HomeDigit(lo, full, [lo + 2], c);
    } else {
      j := HomeExp(lo, c);
    }
  }

  lemma HomeEnd(lo: nat, full: bool, ph: nat, i: nat)
    requires Home(ph, i) && (ph == DIGITS || ph == TAIL)
    ensures Reads(NumberEdges(lo, full), lo + i, [], NumberPart(lo, full).f)
  {
    hide Reads, NumberEdges, AllHops;
    var es := NumberEdges(lo, full);
    if full {
      EndHops(lo);
      Hops(es, [lo + 11, lo + 38, lo + 39, lo + 40, lo + 41]);
    } else {
      ReadsSelf(es, lo + 11);
    }
    if ph == DIGITS {
      DigitsToEnd(lo, full, i);
      ReadsConcat(es, lo + i, [], lo + 11, [], NumberPart(lo, full).f);
      var none: string := [];
      assert none + none == none;
    }
  }

  lemma EndHops(lo: nat)
    ensures AllHops(NumberEdges(lo, true), [lo + 11, lo + 38, lo + 39, lo + 40, lo + 41])
  {
    hide IntegerEdges, FractionEdges, ExponentEdges;
  }

  lemma {:induction false} NumberComplete(lo: nat, full: bool, ph: nat, i: nat, w: string)
    requires Home(ph, i) && (ph == EXP ==> full) && NumberScan(full).Run(ph, w)
    ensures Reads(NumberEdges(lo, full), lo + i, w, NumberPart(lo, full).f)
    decreases |w|
  {
    hide Reads, NumberEdges, Home, NumberStep;
    if w == [] {
      HomeEnd(lo, full, ph, i);
    } else {
      var j := HomeStep(lo, full, ph, i, w[0]);
      NumberComplete(lo, full, NumberStep(full, ph, w[0]).phase, j, w[1..]);
      ReadsConcat(NumberEdges(lo, full), lo + i, [w[0]], lo + j, w[1..], NumberPart(lo, full).f);
      assert [w[0]] + w[1..] == w;
    }
  }

  /** The compiled fragment accepts exactly the scanner's texts. */
  lemma NumberExact(lo: nat, full: bool)
    ensures NumberPart(lo, full).Valid() && NumberPart(lo, full).Accepted() == NumberScan(full).Texts(NUM)
  {
    hide Reads, Scan.Run, NumberScan;
    NumberValid(lo, full);
    var x := NumberPart(lo, full);
    forall w ensures w in x.Accepted() <==> w in NumberScan(full).Texts(NUM) {
      if w in x.Accepted() { NumberSound(lo, full, w); }
      if NumberScan(full).Run(NUM, w) { NumberComplete(lo, full, NUM, 12, w); }
    }
  }

  lemma LoopedInside(lo: nat, a: nat)
    requires a + 4 <= 42
    ensures Inside(Looped((lo + 2, lo + 3), lo + a), lo, lo + 42)
  {
  }

  lemma PiecesInside(lo: nat)
    ensures Inside(IntegerEdges(lo), lo, lo + 14) && Inside(OptionEdges(lo), lo, lo + 42)
    ensures Inside(MarkEdges(lo), lo, lo + 42) && Inside(SignEdges(lo), lo, lo + 42)
  {
  }

  lemma NumberValid(lo: nat, full: bool)
    ensures NumberPart(lo, full).Valid()
  {
    hide IntegerEdges, MarkEdges, SignEdges, OptionEdges, Looped;
    PiecesInside(lo);
    LoopedInside(lo, 16);
    LoopedInside(lo, 34);
  }
}
