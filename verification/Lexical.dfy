/** Lexers run over instance texts, and a calculus of the state sets a language leads between. */
module Lexing {
  import opened Prelude
  import opened Languages
  import opened Json
  import opened JsonLaws
  import opened Spellings

  /** Three lexers with one step function, told apart by their states. The first finds what no valid text has: a second dot in
      a number, two commas between values, a `\u` escape short of four digits, a raw control character in a string, a letter of
      `NaN` or `inf`. The second keeps the open brackets and finds a property name holding a `\u` escape, and any such escape
      at one given place. The third keeps the names read so far in every open object and finds one read twice. */
  datatype State =
    | Out(comma: bool, dot: bool) | In | Esc | Uni(left: nat)
    | Away(at: Option<string>, open: string, coded: bool)
    | Within(at: Option<string>, open: string, coded: bool)
    | Slash(at: Option<string>, open: string, coded: bool)
    | Level(seen: seq<set<string>>, last: string) | Reading(seen: seq<set<string>>, last: string)
    | Escaping(seen: seq<set<string>>, last: string)
    | Bad

  function Step(st: State, c: char): State {
    match st
    case Out(comma, dot) =>
      if c == '\"' then In
      else if IsWs(c) then Out(comma, false)
      else if c == ',' then (if comma then Bad else Out(true, false))
      else if c == '.' then (if dot then Bad else Out(false, true))
      else if c == 'N' || c == 'i' then Bad
      else Out(false, dot && (Digit(c) || Mark(c) || Signed(c)))
    case In => if c == '\"' then Out(false, false) else if c == '\\' then Esc else if c < ' ' then Bad else In
    case Esc => if c == 'u' then Uni(4) else In
    case Uni(left) => if !Hex(c) then Bad else if left <= 1 then In else Uni(left - 1)
    case Away(at, open, coded) =>
      if c == '\"' then Within(at, open, false)
      else if IsWs(c) then st
      else if c == ':' && coded then Bad
      else if c == '[' || c == '{' then Away(at, open + [c], false)
      else if c == ']' || c == '}' then Away(at, if open == [] then [] else open[..|open| - 1], false)
      else Away(at, open, false)
    case Within(at, open, coded) =>
      if c == '\"' then Away(at, open, coded) else if c == '\\' then Slash(at, open, coded) else st
    case Slash(at, open, coded) =>
      if c != 'u' then Within(at, open, coded) else if at == Some(open) then Bad else Within(at, open, true)
    case Level(seen, last) =>
      if c == '\"' then Reading(seen, [c])
      else if c == '{' then Level(seen + [{}], last)
      else if c == '}' then Level(if seen == [] then [] else seen[..|seen| - 1], last)
      else if c == ':' && seen != [] then
        (if last in seen[|seen| - 1] then Bad else Level(seen[..|seen| - 1] + [seen[|seen| - 1] + {last}], last))
      else st
    case Reading(seen, last) =>
      if c == '\"' then Level(seen, last + [c]) else if c == '\\' then Escaping(seen, last + [c]) else Reading(seen, last + [c])
    case Escaping(seen, last) => Reading(seen, last + [c])
    case Bad => Bad
  }

  function Run(st: State, w: string): State
    decreases |w|
  {
    if w == [] then st else Run(Step(st, w[0]), w[1..])
  }

  lemma {:induction false} RunConcat(st: State, u: string, v: string)
    ensures Run(st, u + v) == Run(Run(st, u), v)
    decreases |u|
  {
    if u == [] {
      assert u + v == v;
    } else {
      RunConcat(Step(st, u[0]), u[1..], v);
      assert (u + v)[1..] == u[1..] + v;
    }
  }

  lemma {:induction false} BadStays(w: string)
    ensures Run(Bad, w) == Bad
  {
    if w != [] { BadStays(w[1..]); }
  }

  // ---- a calculus of state sets ----

  /** Every text of the language leads from a state of `p` to a state of `q`. */
  ghost predicate Takes(p: iset<State>, l: Lang, q: iset<State>) {
    forall st, w :: st in p && w in l ==> Run(st, w) in q
  }

  ghost const OUT: iset<State> := iset st: State | st.Out?
  ghost const FRESH: iset<State> := iset st: State | st.Out? && !st.dot
  ghost const VALUE: iset<State> := iset st: State | st.Out? && !st.comma
  ghost const ZERO: iset<State> := iset{Out(false, false)}
  ghost const INSIDE: iset<State> := iset{In}

  /** Outside a string for the second lexer, at a place given by its open brackets. */
  ghost function AWAY(at: Option<string>, open: string): iset<State> {
    iset st: State | st.Away? && st.at == at && st.open == open
  }

  /** ... behind a text without an escape. */
  ghost function NAMED(at: Option<string>, open: string): iset<State> {
    iset{Away(at, open, false)}
  }

  lemma TakesCat(p: iset<State>, a: Lang, q: iset<State>, b: Lang, r: iset<State>)
    requires Takes(p, a, q) && Takes(q, b, r)
    ensures Takes(p, Cat(a, b), r)
  {
    forall st, w | st in p && w in Cat(a, b) ensures Run(st, w) in r {
      var u, v := CatSplit(a, b, w);
      RunConcat(st, u, v);
    }
  }

  lemma TakesStar(p: iset<State>, a: Lang)
    requires Takes(p, a, p)
    ensures Takes(p, Star(a), p)
  {
    forall st, w | st in p && w in Star(a) ensures Run(st, w) in p {
      StarRun(p, a, st, w);
    }
  }

  lemma {:induction false} StarRun(p: iset<State>, a: Lang, st: State, w: string)
    requires Takes(p, a, p) && st in p && w in Star(a)
    ensures Run(st, w) in p
    decreases |w|
  {
    if w != [] {
      var u, v := StarSplit(a, w);
      RunConcat(st, u, v);
      StarRun(p, a, Run(st, u), v);
    }
  }

  lemma TakesOne(p: iset<State>, f: char -> bool, q: iset<State>)
    requires forall st, c :: st in p && f(c) ==> Step(st, c) in q
    ensures Takes(p, One(f), q)
  {
    forall st, w | st in p && w in One(f) ensures Run(st, w) in q {
      assert Run(st, w) == Run(Step(st, w[0]), []);
    }
  }

  lemma TakesChr(p: iset<State>, c: char, q: iset<State>)
    requires forall st :: st in p ==> Step(st, c) in q
    ensures Takes(p, Chr(c), q)
  {
    forall st | st in p ensures Run(st, [c]) in q {
      assert Run(st, [c]) == Run(Step(st, c), []);
    }
  }

  lemma TakesOpt(p: iset<State>, a: Lang, q: iset<State>)
    requires p <= q && Takes(p, a, q)
    ensures Takes(p, Opt(a), q)
  {
  }

  lemma TakesEither(p: iset<State>, a: Lang, b: Lang, q: iset<State>)
    requires Takes(p, a, q) && Takes(p, b, q)
    ensures Takes(p, a + b, q)
  {
  }

  lemma TakesWeaken(p: iset<State>, l: Lang, q: iset<State>, p2: iset<State>, q2: iset<State>)
    requires Takes(p, l, q) && p2 <= p && q <= q2
    ensures Takes(p2, l, q2)
  {
  }

  // ---- whitespace and punctuation ----

  lemma BlanksTake(p: iset<State>)
    requires forall st, c :: st in p && IsWs(c) ==> Step(st, c) in p
    ensures Takes(p, WS, p)
  {
    TakesOne(p, IsWs, p);
    TakesStar(p, One(IsWs));
  }

  /** A mark between blanks. */
  lemma MarkTakes(p: iset<State>, c: char, q: iset<State>)
    requires forall st, b :: st in p && IsWs(b) ==> Step(st, b) in p
    requires forall st, b :: st in q && IsWs(b) ==> Step(st, b) in q
    requires forall st :: st in p ==> Step(st, c) in q
    ensures Takes(p, Cat(Cat(WS, Chr(c)), WS), q)
  {
    BlanksTake(p);
    BlanksTake(q);
    TakesChr(p, c, q);
    TakesCat(p, WS, p, Chr(c), q);
    TakesCat(p, Cat(WS, Chr(c)), q, WS, q);
  }

  // ---- numbers ----

  lemma DigitsTake(p: iset<State>)
    requires p == ZERO || p == VALUE
    ensures Takes(p, DIGITS0, p) && Takes(p, DIGITS1, p)
  {
    TakesOne(p, Digit, p);
    TakesStar(p, One(Digit));
    TakesCat(p, One(Digit), p, DIGITS0, p);
  }

  lemma IntTakes()
    ensures Takes(FRESH, INT, ZERO)
  {
    TakesChr(FRESH, '0', ZERO);
    TakesOne(FRESH, Nonzero, ZERO);
    DigitsTake(ZERO);
    TakesCat(FRESH, One(Nonzero), ZERO, DIGITS0, ZERO);
    TakesEither(FRESH, Chr('0'), Cat(One(Nonzero), DIGITS0), ZERO);
  }

  lemma SignTakes()
    ensures Takes(FRESH, Opt(Chr('-')), FRESH)
  {
    TakesChr(FRESH, '-', FRESH);
    TakesOpt(FRESH, Chr('-'), FRESH);
  }

  lemma IntegerTakes()
    ensures Takes(FRESH, INTEGER, VALUE)
  {
    SignTakes();
    IntTakes();
    TakesCat(FRESH, Opt(Chr('-')), FRESH, INT, ZERO);
    TakesWeaken(FRESH, INTEGER, ZERO, FRESH, VALUE);
  }

  lemma FracTakes()
    ensures Takes(ZERO, Opt(FRAC), VALUE)
  {
    TakesChr(ZERO, '.', VALUE);
    DigitsTake(VALUE);
    TakesCat(ZERO, Chr('.'), VALUE, DIGITS1, VALUE);
    TakesOpt(ZERO, FRAC, VALUE);
  }

  lemma ExpTakes()
    ensures Takes(VALUE, Opt(EXP), VALUE)
  {
    TakesOne(VALUE, Mark, VALUE);
    TakesOne(VALUE, Signed, VALUE);
    TakesOpt(VALUE, One(Signed), VALUE);
    DigitsTake(VALUE);
    TakesCat(VALUE, Opt(One(Signed)), VALUE, DIGITS1, VALUE);
    TakesCat(VALUE, One(Mark), VALUE, Cat(Opt(One(Signed)), DIGITS1), VALUE);
    TakesOpt(VALUE, EXP, VALUE);
  }

  lemma NumberTakes()
    ensures Takes(FRESH, NUMBER, VALUE)
  {
    SignTakes();
    IntTakes();
    FracTakes();
    ExpTakes();
    TakesCat(ZERO, Opt(FRAC), VALUE, Opt(EXP), VALUE);
    TakesCat(FRESH, INT, ZERO, Cat(Opt(FRAC), Opt(EXP)), VALUE);
    TakesCat(FRESH, Opt(Chr('-')), FRESH, Cat(INT, Cat(Opt(FRAC), Opt(EXP))), VALUE);
  }

  // ---- strings ----

  lemma HexTakes()
    ensures Takes(iset{Uni(4)}, HEX4, INSIDE)
  {
    TakesOne(iset{Uni(1)}, Hex, INSIDE);
    TakesOne(iset{Uni(2)}, Hex, iset{Uni(1)});
    TakesOne(iset{Uni(3)}, Hex, iset{Uni(2)});
    TakesOne(iset{Uni(4)}, Hex, iset{Uni(3)});
    TakesCat(iset{Uni(2)}, One(Hex), iset{Uni(1)}, One(Hex), INSIDE);
    TakesCat(iset{Uni(3)}, One(Hex), iset{Uni(2)}, Cat(One(Hex), One(Hex)), INSIDE);
    TakesCat(iset{Uni(4)}, One(Hex), iset{Uni(3)}, Cat(One(Hex), Cat(One(Hex), One(Hex))), INSIDE);
  }

  lemma EscapeTakes()
    ensures Takes(INSIDE, ESCAPE, INSIDE)
  {
    var esc := iset{Esc};
    TakesChr(INSIDE, '\\', esc);
    TakesOne(esc, Simple, INSIDE);
    TakesChr(esc, 'u', iset{Uni(4)});
    HexTakes();
    TakesCat(esc, Chr('u'), iset{Uni(4)}, HEX4, INSIDE);
    TakesEither(esc, One(Simple), Cat(Chr('u'), HEX4), INSIDE);
    TakesCat(INSIDE, Chr('\\'), esc, One(Simple) + Cat(Chr('u'), HEX4), INSIDE);
  }

  lemma StringTakes()
    ensures Takes(FRESH, STRING, VALUE)
  {
    var body := Star(One(Plain) + ESCAPE);
    TakesChr(FRESH, '\"', INSIDE);
    TakesOne(INSIDE, Plain, INSIDE);
    EscapeTakes();
    TakesEither(INSIDE, One(Plain), ESCAPE, INSIDE);
    TakesStar(INSIDE, One(Plain) + ESCAPE);
    TakesChr(INSIDE, '\"', VALUE);
    TakesCat(INSIDE, body, INSIDE, Chr('\"'), VALUE);
    TakesCat(FRESH, Chr('\"'), INSIDE, Cat(body, Chr('\"')), VALUE);
  }

  lemma CharRun(st: State, c: char)
    ensures Run(st, [c]) == Step(st, c)
  {
    assert Run(st, [c]) == Run(Step(st, c), []);
  }

  lemma TwoChars(st: State, a: char, b: char)
    ensures Run(st, [a, b]) == Step(Step(st, a), b)
  {
    assert [a, b][1..] == [b];
    assert Run(Step(st, a), [b]) == Run(Step(Step(st, a), b), []);
  }

  lemma WrittenCharRun(c: char, lit: bool)
    ensures Run(In, WrittenChar(c, lit)) == if PrintableChar(c, lit) then In else Bad
    ensures forall st: State :: st.Within? ==> Run(st, WrittenChar(c, lit)) == st
    ensures forall seen, last :: Run(Reading(seen, last), WrittenChar(c, lit)) == Reading(seen, last + WrittenChar(c, lit))
  {
    var u := WrittenChar(c, lit);
    assert c == '\"' ==> u == ['\\', '\"'];
    assert c == '\\' ==> u == ['\\', '\\'];
    assert lit && c == '\n' ==> u == ['\\', 'n'];
    assert lit && c == '\r' ==> u == ['\\', 'r'];
    assert lit && c == '\t' ==> u == ['\\', 't'];
    forall st: State | st.In? || st.Within?
      ensures Run(st, u) == if st.In? && !PrintableChar(c, lit) then Bad else st
    {
      if |u| == 2 { TwoChars(st, u[0], u[1]); } else { CharRun(st, c); }
    }
    assert In.In?;
    forall seen, last ensures Run(Reading(seen, last), u) == Reading(seen, last + u) {
      if |u| == 2 {
        TwoChars(Reading(seen, last), u[0], u[1]);
        assert last + [u[0]] + [u[1]] == last + u;
      } else {
        CharRun(Reading(seen, last), c);
      }
    }
  }

  /** The compiler's spelling breaks the first lexer at an unprintable character only, and passes the others. */
  lemma {:induction false} WrittenRun(s: string, lit: bool)
    ensures Run(In, WrittenBody(s, lit)) == if Printable(s, lit) then In else Bad
    ensures forall st: State :: st.Within? ==> Run(st, WrittenBody(s, lit)) == st
    ensures forall seen, last :: Run(Reading(seen, last), WrittenBody(s, lit)) == Reading(seen, last + WrittenBody(s, lit))
  {
    if s == [] {
      forall seen, last ensures Run(Reading(seen, last), []) == Reading(seen, last + []) { assert last + [] == last; }
    } else {
      hide WrittenChar, PrintableChar, Step;
      var n := |s| - 1;
      var init, last := WrittenBody(s[..n], lit), WrittenChar(s[n], lit);
      WrittenRun(s[..n], lit);
      WrittenCharRun(s[n], lit);
      forall st ensures Run(st, init + last) == Run(Run(st, init), last) { RunConcat(st, init, last); }
      BadStays(last);
      assert Printable(s, lit) <==> Printable(s[..n], lit) && PrintableChar(s[n], lit) by { PrintableStep(s, lit); }
      forall seen, text ensures Run(Reading(seen, text), init + last) == Reading(seen, text + (init + last)) {
        assert (text + init) + last == text + (init + last);
      }
    }
  }

  lemma PrintableStep(s: string, lit: bool)
    requires s != []
    ensures Printable(s, lit) <==> Printable(s[..|s| - 1], lit) && PrintableChar(s[|s| - 1], lit)
  {
    hide PrintableChar;
    var n := |s| - 1;
    assert forall i :: 0 <= i < n ==> s[..n][i] == s[i];
    if Printable(s, lit) { assert PrintableChar(s[n], lit); }
  }

  lemma QuoteRun(st: State, body: string)
    ensures Run(st, "\"" + body + "\"") == Step(Run(Step(st, '\"'), body), '\"')
  {
    RunConcat(st, "\"", body + "\"");
    RunConcat(Step(st, '\"'), body, "\"");
    assert "\"" + (body + "\"") == "\"" + body + "\"";
    CharRun(st, '\"');
    CharRun(Run(Step(st, '\"'), body), '\"');
  }

  /** The compiler's spelling of a string is a string text, and decodes to the string, exactly when no character of it is an
      unescaped control character. */
  lemma WrittenValid(s: string, lit: bool)
    ensures Written(s, lit) in Quoted(s) <==> Printable(s, lit)
    ensures Written(s, lit) in STRING <==> Printable(s, lit)
  {
    hide STRING, Quoted, Run, Printable;
    QuotedString(s);
    if Printable(s, lit) {
      WrittenSpelled(s, lit);
      QuotedIn(WrittenBody(s, lit), s);
    }
    if Written(s, lit) in STRING {
      StringTakes();
      WrittenRun(s, lit);
      QuoteRun(Out(false, false), WrittenBody(s, lit));
    }
  }

  // ---- a text of escapes and the second lexer ----

  /** What the second lexer makes of an escape inside a string. */
  function Caught(st: State): State
    requires st.Within?
  {
    if st.at == Some(st.open) then Bad else Within(st.at, st.open, true)
  }

  lemma UnitRun(u: string, st: State)
    requires Unit(u) && st.Within?
    ensures Run(st, u) == Caught(st)
  {
    var mid := Caught(st);
    assert u == [u[0], u[1]] + ([u[2], u[3]] + [u[4], u[5]]);
    RunConcat(st, [u[0], u[1]], [u[2], u[3]] + [u[4], u[5]]);
    RunConcat(mid, [u[2], u[3]], [u[4], u[5]]);
    TwoChars(st, u[0], u[1]);
    TwoChars(mid, u[2], u[3]);
    TwoChars(mid, u[4], u[5]);
  }

  lemma UnitsRun(hi: string, lo: string, st: State)
    requires Unit(hi) && Unit(lo) && st.Within?
    ensures Run(st, hi + lo) == Caught(st)
  {
    hide Run, Unit, Step;
    RunConcat(st, hi, lo);
    UnitRun(hi, st);
    if Caught(st).Within? { UnitRun(lo, Caught(st)); }
    BadStays(lo);
  }

  lemma CodedCharRun(c: char, st: State)
    requires st.Within?
    ensures Run(st, CodedChar(c)) == Caught(st)
  {
    hide Run, Unit, Step, UnitText, Spells;
    var n := c as int;
    if n < 0x10000 {
      UnitRun(UnitText(n), st);
    } else {
      var hi, lo := 0xD800 + (n - 0x10000) / 0x400, 0xDC00 + (n - 0x10000) % 0x400;
      UnitsRun(UnitText(hi), UnitText(lo), st);
    }
  }

  /** The escapes of a non-empty string are seen by the second lexer. */
  lemma {:induction false} CodedRun(s: string, st: State)
    requires s != [] && st.Within?
    ensures Run(st, CodedBody(s)) == Caught(st)
  {
    hide CodedChar, Step;
    var n := |s| - 1;
    var init, last := CodedBody(s[..n]), CodedChar(s[n]);
    RunConcat(st, init, last);
    CodedCharRun(s[n], st);
    if Caught(st).Within? { CodedCharRun(s[n], Caught(st)); }
    BadStays(last);
    if n > 0 { CodedRun(s[..n], st); }
  }

  // ---- words ----

  lemma {:induction false} WordRun(w: string)
    requires forall i :: 0 <= i < |w| ==> 'a' <= w[i] <= 'z' && w[i] != 'i'
    ensures Run(Out(false, false), w) == Out(false, false)
    decreases |w|
  {
    if w != [] { WordRun(w[1..]); }
  }

  /** A word in lower-case letters leads from a fresh position to the end of a value. */
  lemma WordTakes(w: string)
    requires w != [] && forall i :: 0 <= i < |w| ==> 'a' <= w[i] <= 'z' && w[i] != 'i'
    ensures Takes(FRESH, iset{w}, VALUE)
  {
    WordRun(w[1..]);
  }

  // ---- every instance text of a dialect ----

  /** State sets that depend on the brackets open around a text: `p` stands before a value, `q` behind one, `k` behind a name,
      `o` anywhere between values. */
  datatype Family = Family(p: string -> iset<State>, k: string -> iset<State>, q: string -> iset<State>, o: string -> iset<State>)

  /** What the marks of arrays and objects do at one place. */
  ghost predicate MarksAt(d: Dialect, f: Family, at: string) {
    var (p, k, q, o) := (f.p(at), f.k(at), f.q(at), f.o(at));
    && p <= o && q <= o && Takes(p, WS, p) && Takes(o, WS, o)
    && Takes(q, d.separator, p) && Takes(q, SEPARATOR, p) && Takes(k, COLON, p)
    && Takes(p, Chr('['), f.p(at + "[")) && Takes(p, Chr('{'), f.p(at + "{"))
    && Takes(f.o(at + "["), Chr(']'), q) && Takes(f.o(at + "{"), Chr('}'), q)
  }

  ghost predicate LeavesAt(d: Dialect, f: Family, at: string) {
    var (p, k, q) := (f.p(at), f.k(at), f.q(at));
    && Takes(p, iset{"null"}, q) && Takes(p, iset{"true"}, q) && Takes(p, iset{"false"}, q)
    && Takes(p, INTEGER, q) && Takes(p, d.number, q)
    && (forall l :: Takes(p, d.lit(l), q)) && forall name :: Takes(p, d.key(name), k)
  }

  ghost predicate Marks(d: Dialect, f: Family) {
    forall at :: MarksAt(d, f, at) && LeavesAt(d, f, at)
  }

  /** The places of the string leaves, each given by the brackets open around it. */
  function StringPlaces(sc: Schema): set<string>
    decreases sc
  {
    match sc
    case String => {[]}
    case AnyOf(schemas) => set i, at | 0 <= i < |schemas| && at in StringPlaces(schemas[i]) :: at
    case Array(items) => set at | at in StringPlaces(items) :: "[" + at
    case Object(properties, _) => set i, at | 0 <= i < |properties| && at in StringPlaces(properties[i].1) :: "{" + at
    case _ => {}
  }

  ghost predicate StringsTake(d: Dialect, f: Family, at: string, places: set<string>) {
    forall more :: more in places ==> Takes(f.p(at + more), d.text, f.q(at + more))
  }

  lemma AnyTakes(p: iset<State>, ls: seq<Lang>, q: iset<State>)
    requires forall i :: 0 <= i < |ls| ==> Takes(p, ls[i], q)
    ensures Takes(p, AnyIn(ls), q)
  {
    forall st, w | st in p && w in AnyIn(ls) ensures Run(st, w) in q {
      var i :| InNth(ls, i, w);
      assert Takes(p, ls[i], q);
    }
  }

  /** An array: `p0` and `q0` outside the brackets, `p`, `q` and `o` within. */
  lemma ArrayTakes(item: Lang, separator: Lang, p0: iset<State>, p: iset<State>, q: iset<State>, o: iset<State>, q0: iset<State>)
    requires Takes(p0, Chr('['), p) && Takes(p, WS, p) && Takes(p, item, q) && Takes(q, separator, p)
    requires p <= o && q <= o && Takes(o, WS, o) && Takes(o, Chr(']'), q0)
    ensures Takes(p0, ArrayOf(item, separator), q0)
  {
    hide WS, Cat, Star, Takes;
    var more := Cat(separator, item);
    TakesCat(q, separator, p, item, q);
    TakesStar(q, more);
    TakesCat(p, item, q, Star(more), q);
    TakesWeaken(p, Cat(item, Star(more)), q, p, o);
    TakesOpt(p, Cat(item, Star(more)), o);
    TakesCat(o, WS, o, Chr(']'), q0);
    TakesCat(p, Opt(Cat(item, Star(more))), o, Cat(WS, Chr(']')), q0);
    TakesCat(p0, Chr('['), p, WS, p);
    TakesCat(p0, Cat(Chr('['), WS), p, Cat(Opt(Cat(item, Star(more))), Cat(WS, Chr(']'))), q0);
  }

  lemma MemberTakes(d: Dialect, key: Lang, value: Lang, f: Family, at: string)
    requires MarksAt(d, f, at) && Takes(f.p(at), key, f.k(at)) && Takes(f.p(at), value, f.q(at))
    ensures Takes(f.p(at), Member(key, value), f.q(at))
  {
    hide COLON, Cat, Takes;
    TakesCat(f.p(at), key, f.k(at), COLON, f.p(at));
    TakesCat(f.p(at), Cat(key, COLON), f.p(at), value, f.q(at));
  }

  lemma {:induction false} MembersTake(members: seq<Lang>, js: seq<nat>, p: iset<State>, q: iset<State>)
    requires Takes(q, SEPARATOR, p) && forall i :: 0 <= i < |members| ==> Takes(p, members[i], q)
    requires forall i :: 0 <= i < |js| ==> js[i] < |members|
    ensures Takes(q, Members(members, js, false), q)
    decreases |js|
  {
    if js != [] {
      MembersTake(members, js[1..], p, q);
      hide SEPARATOR, Cat, Takes;
      var m := members[js[0]];
      TakesCat(q, SEPARATOR, p, m, q);
      TakesCat(q, Cat(SEPARATOR, m), q, Members(members, js[1..], false), q);
    }
  }

  lemma FirstMembersTake(members: seq<Lang>, js: seq<nat>, p: iset<State>, q: iset<State>, o: iset<State>)
    requires Takes(q, SEPARATOR, p) && p <= o && q <= o && forall i :: 0 <= i < |members| ==> Takes(p, members[i], q)
    requires forall i :: 0 <= i < |js| ==> js[i] < |members|
    ensures Takes(p, Members(members, js, true), o)
  {
    if js == [] {
      assert Members(members, js, true) == EPSILON;
    } else {
      MembersTake(members, js[1..], p, q);
      hide Cat, Takes, SEPARATOR;
      TakesCat(p, members[js[0]], q, Members(members, js[1..], false), q);
      TakesWeaken(p, Members(members, js, true), q, p, o);
    }
  }

  lemma ObjectTakes(d: Dialect, members: seq<Lang>, c: Choice, f: Family, at: string)
    requires MarksAt(d, f, at) && MarksAt(d, f, at + "{")
    requires forall i :: 0 <= i < |members| ==> Takes(f.p(at + "{"), members[i], f.q(at + "{"))
    ensures Takes(f.p(at), ObjectOf(members, c), f.q(at))
  {
    var (p, q, o) := (f.p(at + "{"), f.q(at + "{"), f.o(at + "{"));
    hide Cat, Members, WS;
    var open, close := Cat(Chr('{'), WS), Cat(WS, Chr('}'));
    TakesCat(o, WS, o, Chr('}'), f.q(at));
    TakesCat(f.p(at), Chr('{'), p, WS, p);
    forall st, w | st in f.p(at) && w in ObjectOf(members, c) ensures Run(st, w) in f.q(at) {
      var js :| Picks(js, |members|, c) && w in Cat(open, Cat(Members(members, js, true), close));
      FirstMembersTake(members, js, p, q, o);
      TakesCat(p, Members(members, js, true), o, close, f.q(at));
      TakesCat(f.p(at), open, p, Cat(Members(members, js, true), close), f.q(at));
    }
  }

  lemma PlacesInside(sc: Schema, d: Dialect, f: Family, at: string)
    requires StringsTake(d, f, at, StringPlaces(sc))
    ensures sc.AnyOf? ==> forall i :: 0 <= i < |sc.schemas| ==> StringsTake(d, f, at, StringPlaces(sc.schemas[i]))
    ensures sc.Array? ==> StringsTake(d, f, at + "[", StringPlaces(sc.items))
    ensures sc.Object? ==> forall i :: 0 <= i < |sc.properties| ==> StringsTake(d, f, at + "{", StringPlaces(sc.properties[i].1))
  {
    hide Takes;
    match sc
    case Array(items) =>
      forall more | more in StringPlaces(items) ensures Takes(f.p(at + "[" + more), d.text, f.q(at + "[" + more)) {
        assert "[" + more in StringPlaces(sc);
        assert at + ("[" + more) == at + "[" + more;
      }
    case Object(properties, _) =>
      forall i, more | 0 <= i < |properties| && more in StringPlaces(properties[i].1)
        ensures Takes(f.p(at + "{" + more), d.text, f.q(at + "{" + more))
      {
        assert "{" + more in StringPlaces(sc);
        assert at + ("{" + more) == at + "{" + more;
      }
    case _ =>
  }

  /** Every instance text of a dialect leads where its leaves lead. */
  lemma {:induction false} InstancesTake(sc: Schema, d: Dialect, f: Family, at: string)
    requires Marks(d, f) && StringsTake(d, f, at, StringPlaces(sc))
    ensures Takes(f.p(at), Instances(sc, d), f.q(at))
    decreases sc
  {
    assert MarksAt(d, f, at) && LeavesAt(d, f, at);
    PlacesInside(sc, d, f, at);
    hide NUMBER, STRING, INTEGER, SEPARATOR, ArrayOf, ObjectOf, Member, Takes, MarksAt;
    var (p, q) := (f.p(at), f.q(at));
    match sc
    case Boolean =>
      TakesEither(p, iset{"true"}, iset{"false"}, q);
      assert iset{"true"} + iset{"false"} == iset{"true", "false"};
    case String => assert at + [] == at;
    case Enum(lits) =>
      AnyTakes(p, seq(|lits|, i requires 0 <= i < |lits| => d.lit(lits[i])), q);
    case AnyOf(schemas) =>
      var ls := seq(|schemas|, i requires 0 <= i < |schemas| => Instances(schemas[i], d));
      forall i | 0 <= i < |ls| ensures Takes(p, ls[i], q) { InstancesTake(schemas[i], d, f, at); }
      AnyTakes(p, ls, q);
    case Array(items) =>
      assert MarksAt(d, f, at + "[");
      InstancesTake(items, d, f, at + "[");
      ItemsTake(items, d, f, at);
    case Object(properties, required) => ObjectInstancesTake(sc, d, f, at);
    case _ =>
  }

  lemma ItemsTake(items: Schema, d: Dialect, f: Family, at: string)
    requires MarksAt(d, f, at) && MarksAt(d, f, at + "[") && Takes(f.p(at + "["), Instances(items, d), f.q(at + "["))
    ensures Takes(f.p(at), ArrayOf(Instances(items, d), d.separator), f.q(at))
  {
    hide Takes, WS, SEPARATOR, COLON, ArrayOf, Instances;
    var inner := at + "[";
    ArrayTakes(Instances(items, d), d.separator, f.p(at), f.p(inner), f.q(inner), f.o(inner), f.q(at));
  }

  lemma {:induction false} ObjectInstancesTake(sc: Schema, d: Dialect, f: Family, at: string)
    requires sc.Object? && Marks(d, f)
    requires forall i :: 0 <= i < |sc.properties| ==> StringsTake(d, f, at + "{", StringPlaces(sc.properties[i].1))
    ensures Takes(f.p(at), Instances(sc, d), f.q(at))
    decreases sc, 0
  {
    hide ObjectOf, Member, Takes, MarksAt, StringsTake;
    var (properties, inner) := (sc.properties, at + "{");
    var ms := MembersOf(properties, d);
    forall i | 0 <= i < |ms| ensures Takes(f.p(inner), ms[i], f.q(inner)) {
      InstancesTake(properties[i].1, d, f, inner);
      assert LeavesAt(d, f, inner);
      MemberTakes(d, d.key(properties[i].0), Instances(properties[i].1, d), f, inner);
    }
    ObjectTakes(d, ms, ChoiceOf(properties, sc.required, d.byName), f, at);
  }

  // ---- every valid instance text ----

  /** For the first lexer the place does not matter. */
  ghost const FLAT: Family := Family((at: string) => FRESH, (at: string) => VALUE, (at: string) => VALUE, (at: string) => OUT)

  lemma ValidBlanks()
    ensures Takes(FRESH, WS, FRESH) && Takes(OUT, WS, OUT)
  {
    BlanksTake(FRESH);
    BlanksTake(OUT);
  }

  lemma ValidSeparators()
    ensures Takes(VALUE, SEPARATOR, FRESH) && Takes(VALUE, COLON, FRESH)
  {
    hide Takes;
    MarkTakes(VALUE, ',', FRESH);
    MarkTakes(VALUE, ':', FRESH);
  }

  lemma ValidBrackets()
    ensures Takes(FRESH, Chr('['), FRESH) && Takes(FRESH, Chr('{'), FRESH)
    ensures Takes(OUT, Chr(']'), VALUE) && Takes(OUT, Chr('}'), VALUE)
  {
    hide Takes;
    TakesChr(FRESH, '[', FRESH);
    TakesChr(FRESH, '{', FRESH);
    TakesChr(OUT, ']', VALUE);
    TakesChr(OUT, '}', VALUE);
  }

  lemma ValidLit(l: JsonLit)
    ensures Takes(FRESH, LitTexts(l), VALUE)
  {
    LitRead(l);
    hide NUMBER, INTEGER, STRING, Quoted;
    match l
    case Str(s) =>
      QuotedString(s);
      StringTakes();
    case Int(i) =>
      IntTextInteger(i);
      IntegerTakes();
    case Float(x) =>
      if x.Finite? {
        FiniteNumber(x);
        NumberTakes();
      }
    case Bool(v) =>
      WordTakes("true");
      WordTakes("false");
    case NullLit => WordTakes("null");
  }

  /** The valid dialect, members told apart by name or by place. */
  ghost function Valid(byName: bool): Dialect {
    RFC.(byName := byName)
  }

  lemma ValidLeaves(byName: bool, at: string)
    ensures LeavesAt(Valid(byName), FLAT, at) && Takes(FRESH, Valid(byName).text, VALUE)
  {
    WordTakes("null");
    WordTakes("true");
    WordTakes("false");
    IntegerTakes();
    NumberTakes();
    StringTakes();
    hide NUMBER, INTEGER, STRING, Quoted, LitTexts, Takes;
    forall l ensures Takes(FRESH, Valid(byName).lit(l), VALUE) { ValidLit(l); }
    forall name ensures Takes(FRESH, Valid(byName).key(name), VALUE) {
      QuotedString(name);
      TakesWithin(FRESH, STRING, Quoted(name), VALUE);
    }
  }

  lemma TakesWithin(p: iset<State>, l: Lang, k: Lang, q: iset<State>)
    requires Takes(p, l, q) && k <= l
    ensures Takes(p, k, q)
  {
  }

  lemma ValidMarks(byName: bool)
    ensures Marks(Valid(byName), FLAT)
  {
    hide Takes, WS, SEPARATOR, COLON, FRESH, VALUE, OUT, LeavesAt;
    ValidBlanks();
    ValidSeparators();
    ValidBrackets();
    Ordered();
    assert Valid(byName).separator == SEPARATOR;
    forall at ensures MarksAt(Valid(byName), FLAT, at) && LeavesAt(Valid(byName), FLAT, at) { ValidLeaves(byName, at); }
  }

  lemma Ordered()
    ensures FRESH <= OUT && VALUE <= OUT
  {
  }

  /** Every valid instance text leads from a fresh position to the end of a value: never to `Bad`. That members are told apart
      by name does not matter here. */
  lemma ValidTakes(sc: Schema, byName: bool)
    ensures Takes(FRESH, Instances(sc, Valid(byName)), VALUE)
  {
    ValidMarks(byName);
    ValidLeaves(byName, []);
    hide RFC, Takes, Instances, Marks, LeavesAt, Valid, FRESH, VALUE, OUT;
    assert StringsTake(Valid(byName), FLAT, [], StringPlaces(sc));
    InstancesTake(sc, Valid(byName), FLAT, []);
  }
}
