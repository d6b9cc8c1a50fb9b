/** JSON texts as RFC 8259 defines them, and the instance texts of a schema. */
module Json {
  import opened Languages

  // ---- characters (RFC 8259 sections 2, 6 and 7) ----

  predicate IsWs(c: char) { c == ' ' || c == '\t' || c == '\n' || c == '\r' }

  predicate Digit(c: char) { '0' <= c <= '9' }

  predicate Nonzero(c: char) { '1' <= c <= '9' }

  predicate Hex(c: char) { '0' <= c <= '9' || 'a' <= c <= 'f' || 'A' <= c <= 'F' }

  /** Anything a string may hold unescaped. */
  predicate Plain(c: char) { c >= ' ' && c != '\"' && c != '\\' }

  predicate Simple(c: char) {
    c == '\"' || c == '\\' || c == '/' || c == 'b' || c == 'f' || c == 'n' || c == 'r' || c == 't'
  }

  predicate Mark(c: char) { c == 'e' || c == 'E' }

  predicate Signed(c: char) { c == '+' || c == '-' }

  ghost const WS: Lang := Star(One(IsWs))

  // ---- numbers (section 6) ----

  ghost const DIGITS0: Lang := Star(One(Digit))
  ghost const DIGITS1: Lang := Cat(One(Digit), DIGITS0)
  ghost const INT: Lang := Chr('0') + Cat(One(Nonzero), DIGITS0)
  ghost const FRAC: Lang := Cat(Chr('.'), DIGITS1)
  ghost const EXP: Lang := Cat(One(Mark), Cat(Opt(One(Signed)), DIGITS1))

  /** `number = [ minus ] int [ frac ] [ exp ]` */
  ghost const NUMBER: Lang := Cat(Opt(Chr('-')), Cat(INT, Cat(Opt(FRAC), Opt(EXP))))

  ghost const INTEGER: Lang := Cat(Opt(Chr('-')), INT)

  // ---- strings (section 7) ----

  ghost const HEX4: Lang := Cat(One(Hex), Cat(One(Hex), Cat(One(Hex), One(Hex))))
  ghost const ESCAPE: Lang := Cat(Chr('\\'), One(Simple) + Cat(Chr('u'), HEX4))
  ghost const STRING: Lang := Cat(Chr('\"'), Cat(Star(One(Plain) + ESCAPE), Chr('\"')))

  /** What a two-character escape stands for. */
  function Named(x: char): char {
    if x == 'b' then '\U{8}' else if x == 'f' then '\U{C}'
    else if x == 'n' then '\n' else if x == 'r' then '\r' else if x == 't' then '\t'
    else x
  }

  function HexValue(c: char): nat
    requires Hex(c)
  {
    if c <= '9' then c as int - '0' as int
    else if c <= 'F' then c as int - 'A' as int + 10
    else c as int - 'a' as int + 10
  }

  /** One `\u` escape with its four hexadecimal digits. */
  predicate Unit(u: string) {
    |u| == 6 && u[0] == '\\' && u[1] == 'u' && Hex(u[2]) && Hex(u[3]) && Hex(u[4]) && Hex(u[5])
  }

  function UnitValue(u: string): nat
    requires Unit(u)
  {
    0x1000 * HexValue(u[2]) + 0x100 * HexValue(u[3]) + 0x10 * HexValue(u[4]) + HexValue(u[5])
  }

  /** A surrogate pair and the character it stands for. */
  predicate Pair(hi: nat, lo: nat, c: char) {
    0xD800 <= hi < 0xDC00 <= lo < 0xE000 && 0x10000 + 0x400 * (hi - 0xD800) + (lo - 0xDC00) == c as int
  }

  /** The texts that stand for one character: itself, a short escape, a `\u` escape, or two of them. */
  predicate Spells(u: string, c: char) {
    || (u == [c] && Plain(c))
    || (|u| == 2 && u[0] == '\\' && Simple(u[1]) && Named(u[1]) == c)
    || (Unit(u) && UnitValue(u) == c as int)
    || (|u| == 12 && Unit(u[..6]) && Unit(u[6..]) && Pair(UnitValue(u[..6]), UnitValue(u[6..]), c))
  }

  ghost function SpelledChar(c: char): Lang {
    iset u: string | Spells(u, c)
  }

  ghost function Spelled(s: string): Lang {
    if s == [] then EPSILON else Cat(Spelled(s[..|s| - 1]), SpelledChar(s[|s| - 1]))
  }

  /** Every string text that decodes to `s`. */
  ghost function Quoted(s: string): Lang {
    Cat(Chr('\"'), Cat(Spelled(s), Chr('\"')))
  }

  // ---- structure (sections 4 and 5) ----

  ghost const SEPARATOR: Lang := Cat(Cat(WS, Chr(',')), WS)
  ghost const COLON: Lang := Cat(Cat(WS, Chr(':')), WS)

  ghost function ArrayOf(item: Lang, separator: Lang): Lang {
    Cat(Cat(Chr('['), WS), Cat(Opt(Cat(item, Star(Cat(separator, item)))), Cat(WS, Chr(']'))))
  }

  /** `key ws : ws value` */
  ghost function Member(key: Lang, value: Lang): Lang {
    Cat(Cat(key, COLON), value)
  }

  /** The members at the positions `js`, in that order. */
  ghost function Members(members: seq<Lang>, js: seq<nat>, first: bool): Lang
    requires forall i :: 0 <= i < |js| ==> js[i] < |members|
    decreases |js|
  {
    if js == [] then EPSILON
    else Cat(if first then members[js[0]] else Cat(SEPARATOR, members[js[0]]), Members(members, js[1..], false))
  }

  /** Each position at most once, every required one among them. */
  ghost predicate Chooses(js: seq<nat>, k: nat, required: set<nat>) {
    && (forall i :: 0 <= i < |js| ==> js[i] < k)
    && (forall i, j :: 0 <= i < j < |js| ==> js[i] != js[j])
    && (forall r :: r in required ==> r in js)
  }

  /** Some position in the list has the name. */
  ghost predicate Bears(js: seq<nat>, names: seq<string>, name: string) {
    exists i :: 0 <= i < |js| && js[i] < |names| && names[js[i]] == name
  }

  /** Each name at most once, every required one among them. */
  ghost predicate ChoosesNames(js: seq<nat>, names: seq<string>, required: seq<string>) {
    && (forall i :: 0 <= i < |js| ==> js[i] < |names|)
    && (forall i, j :: 0 <= i < j < |js| ==> names[js[i]] != names[js[j]])
    && (forall r :: 0 <= r < |required| ==> Bears(js, names, required[r]))
  }

  /** Which members an object may have: told apart by their place in the list of properties, or by their names. */
  datatype Choice = ByPlace(places: set<nat>) | ByName(names: seq<string>, required: seq<string>)

  ghost predicate Picks(js: seq<nat>, k: nat, c: Choice) {
    match c
    case ByPlace(places) => Chooses(js, k, places)
    case ByName(names, required) => k == |names| && ChoosesNames(js, names, required)
  }

  ghost predicate ObjectText(members: seq<Lang>, c: Choice, w: string) {
    exists js :: Picks(js, |members|, c) &&
                 w in Cat(Cat(Chr('{'), WS), Cat(Members(members, js, true), Cat(WS, Chr('}'))))
  }

  ghost function ObjectOf(members: seq<Lang>, c: Choice): Lang {
    iset w: string | ObjectText(members, c, w)
  }

  // ---- schemas ----

  type Decimal = d: nat | d < 10

  /** A 64-bit float as its printing sees it: no exponent, and two kinds of value that are no number. */
  datatype Float64 = NaN | Infinite(negative: bool) | Finite(negative: bool, whole: nat, fraction: seq<Decimal>)

  datatype JsonLit = Str(s: string) | Int(i: int) | Float(x: Float64) | Bool(v: bool) | NullLit

  datatype Schema =
    | Null
    | Boolean
    | Number
    | Integer
    | String
    | Object(properties: seq<(string, Schema)>, required: seq<string>)
    | Array(items: Schema)
    | Enum(lits: seq<JsonLit>)
    | AnyOf(schemas: seq<Schema>)

  // ---- the compiler's own spelling ----

  /** One character as the compiler writes it, in an enumerated literal or in a property name. */
  function WrittenChar(c: char, lit: bool): string {
    if c == '\"' then "\\\"" else if c == '\\' then "\\\\"
    else if lit && c == '\n' then "\\n" else if lit && c == '\r' then "\\r" else if lit && c == '\t' then "\\t"
    else [c]
  }

  function WrittenBody(s: string, lit: bool): string {
    if s == [] then [] else WrittenBody(s[..|s| - 1], lit) + WrittenChar(s[|s| - 1], lit)
  }

  function Written(s: string, lit: bool): string {
    "\"" + WrittenBody(s, lit) + "\""
  }

  predicate PrintableChar(c: char, lit: bool) {
    c >= ' ' || (lit && (c == '\n' || c == '\r' || c == '\t'))
  }

  predicate Printable(s: string, lit: bool) {
    forall i :: 0 <= i < |s| ==> PrintableChar(s[i], lit)
  }

  function DigitChar(d: nat): char
    requires d < 10
  {
    ('0' as int + d) as char
  }

  function NatText(n: nat): string {
    if n < 10 then [DigitChar(n)] else NatText(n / 10) + [DigitChar(n % 10)]
  }

  function IntText(i: int): string {
    if i < 0 then "-" + NatText(-i) else NatText(i)
  }

  function FractionText(ds: seq<Decimal>): string {
    if ds == [] then [] else [DigitChar(ds[0])] + FractionText(ds[1..])
  }

  function FloatText(x: Float64): string {
    match x
    case NaN => "NaN"
    case Infinite(negative) => if negative then "-inf" else "inf"
    case Finite(negative, whole, fraction) =>
      (if negative then "-" else "") + NatText(whole) + (if fraction == [] then "" else "." + FractionText(fraction))
  }

  /** The text the compiler writes for an enumerated literal. */
  function LitText(l: JsonLit): string {
    match l
    case Str(s) => Written(s, true)
    case Int(i) => IntText(i)
    case Float(x) => FloatText(x)
    case Bool(v) => if v then "true" else "false"
    case NullLit => "null"
  }

  // ---- what the text of a literal stands for ----

  function DigitValue(c: char): nat
    requires Digit(c)
  {
    c as int - '0' as int
  }

  predicate Digits(w: string) {
    forall k :: 0 <= k < |w| ==> Digit(w[k])
  }

  /** The number a row of digits stands for. */
  function Numeral(w: string): nat
    requires Digits(w)
  {
    if w == [] then 0 else 10 * Numeral(w[..|w| - 1]) + DigitValue(w[|w| - 1])
  }

  /** A numeral without leading zeros. */
  predicate ReadsNat(w: string, n: nat) {
    w != [] && Digits(w) && (w[0] == '0' ==> |w| == 1) && Numeral(w) == n
  }

  predicate ReadsInt(w: string, i: int) {
    if i < 0 then w != [] && w[0] == '-' && ReadsNat(w[1..], -i) else ReadsNat(w, i)
  }

  predicate ReadsDigits(w: string, ds: seq<Decimal>) {
    |w| == |ds| && forall k :: 0 <= k < |w| ==> Digit(w[k]) && DigitValue(w[k]) == ds[k]
  }

  /** A sign, a numeral, and the digits behind the point, if there are any; nothing stands for a value that is no number. */
  ghost predicate ReadsFloat(w: string, x: Float64) {
    x.Finite? && exists a, f :: ReadsNat(a, x.whole) && ReadsDigits(f, x.fraction) && w == Assembled(x.negative, a, f)
  }

  function Assembled(negative: bool, a: string, f: string): string {
    (if negative then "-" else "") + a + (if f == [] then "" else "." + f)
  }

  /** The valid texts of an enumerated literal: a string in every spelling, a number in decimals, a word as it is. */
  ghost function LitTexts(l: JsonLit): Lang {
    match l
    case Str(s) => Quoted(s)
    case Int(i) => iset w: string | ReadsInt(w, i)
    case Float(x) => iset w: string | ReadsFloat(w, x)
    case Bool(v) => iset{if v then "true" else "false"}
    case NullLit => iset{"null"}
  }

  /** The first property of that name, or the number of properties. */
  function PositionOf(properties: seq<(string, Schema)>, name: string): (r: nat)
    ensures r <= |properties|
    ensures r < |properties| ==> properties[r].0 == name
    ensures forall i :: 0 <= i < r ==> properties[i].0 != name
  {
    if properties == [] then 0
    else if properties[0].0 == name then 0
    else 1 + PositionOf(properties[1..], name)
  }

  ghost function RequiredSet(properties: seq<(string, Schema)>, required: seq<string>): set<nat> {
    set i | 0 <= i < |required| :: PositionOf(properties, required[i])
  }

  function NamesOf(properties: seq<(string, Schema)>): seq<string> {
    seq(|properties|, i requires 0 <= i < |properties| => properties[i].0)
  }

  ghost function ChoiceOf(properties: seq<(string, Schema)>, required: seq<string>, byName: bool): Choice {
    if byName then ByName(NamesOf(properties), required) else ByPlace(RequiredSet(properties, required))
  }

  /** The leaves of a reading of the grammar, how it spells property names and enumerated literals, and whether it tells the
      members of an object apart by name. */
  datatype Dialect = Dialect(number: Lang, text: Lang, separator: Lang, key: string -> Lang, lit: JsonLit -> Lang, byName: bool)

  /** The grammar of RFC 8259: names and literal strings in every spelling that decodes to them. A name is a member's identity:
      it occurs at most once, and a required one is there with any of the schemas listed for it. */
  ghost const RFC: Dialect :=
    Dialect(NUMBER, STRING, SEPARATOR, (name: string) => Quoted(name), (l: JsonLit) => LitTexts(l), true)

  /** The same with names and literals in the compiler's spelling only, where that spelling is valid. */
  ghost const CANON: Dialect :=
    Dialect(NUMBER, STRING, SEPARATOR, (name: string) => iset{Written(name, false)} * Quoted(name),
            (l: JsonLit) => iset{LitText(l)} * LitTexts(l), true)

  /** The instance texts of a schema. */
  ghost function Instances(sc: Schema, d: Dialect): Lang
    decreases sc
  {
    match sc
    case Null => iset{"null"}
    case Boolean => iset{"true", "false"}
    case Integer => INTEGER
    case Number => d.number
    case String => d.text
    case Enum(lits) => AnyIn(seq(|lits|, i requires 0 <= i < |lits| => d.lit(lits[i])))
    case AnyOf(schemas) => AnyIn(seq(|schemas|, i requires 0 <= i < |schemas| => Instances(schemas[i], d)))
    case Array(items) => ArrayOf(Instances(items, d), d.separator)
    case Object(properties, required) =>
      ObjectOf(seq(|properties|, i requires 0 <= i < |properties| => Member(d.key(properties[i].0), Instances(properties[i].1, d))),
               ChoiceOf(properties, required, d.byName))
  }

  /** The complete texts: one instance, then the whitespace that pads a block. */
  ghost function Padded(sc: Schema, d: Dialect): Lang {
    Cat(Instances(sc, d), WS)
  }
}
