/** The fragment a schema compiles to, state by state: a function of the schema and the next free state. */
module Layouts {
  import opened Prelude
  import opened Nfas
  import opened Fragments
  import opened Bits
  import opened Json
  import opened Values
  import Numbers
  import Texts
  import Arrays

  /** Where the parts collected so far end. */
  function EndOf(xs: seq<Part>, lo: nat): nat {
    if xs == [] then lo else xs[|xs| - 1].hi
  }

  /** The first `n` literals, one after the other. */
  function LitParts(lits: seq<JsonLit>, n: nat, lo: nat): seq<Part>
    requires n <= |lits|
  {
    if n == 0 then []
    else var xs := LitParts(lits, n - 1, lo); xs + [Literal(LitText(lits[n - 1]), EndOf(xs, lo))]
  }

  /** An alternation of parts made one after the other. */
  function Branched(xs: seq<Part>, lo: nat): Part {
    Alternation(xs, lo, EndOf(xs, lo))
  }

  function Words(u: string, v: string, lo: nat): seq<Part> {
    [Literal(u, lo), Literal(v, Literal(u, lo).hi)]
  }

  /** The fragment `compile_value` makes when the next free state is `lo`. */
  function ValuePart(sc: Schema, lo: nat): Part
    decreases sc, 6, 0
  {
    match sc
    case Null => Literal("null", lo)
    case Boolean => Branched(Words("true", "false", lo), lo)
    case Integer => Numbers.NumberPart(lo, false)
    case Number => Numbers.NumberPart(lo, true)
    case String => Texts.TextPart(lo)
    case Enum(lits) => Branched(LitParts(lits, |lits|, lo), lo)
    case AnyOf(schemas) => Branched(SchemaParts(sc, |schemas|, lo), lo)
    case Array(items) => Arrays.ArrayPart(ValuePart(items, lo))
    case Object(_, _) => ObjectPart(sc, lo)
  }

  /** The first `n` alternatives, one after the other. */
  function SchemaParts(sc: Schema, n: nat, lo: nat): seq<Part>
    requires sc.AnyOf? && n <= |sc.schemas|
    decreases sc, 5, n
  {
    if n == 0 then []
    else var xs := SchemaParts(sc, n - 1, lo); xs + [ValuePart(sc.schemas[n - 1], EndOf(xs, lo))]
  }

  // ---- objects ----

  /** Edges added so far and the next free state. */
  datatype Built = Built(es: set<Edge>, hi: nat)

  /** `"key" ws : ws value` */
  function MemberPart(sc: Schema, j: nat, lo: nat): Part
    requires sc.Object? && j < |sc.properties|
    decreases sc, 1, 0
  {
    var head := Literal(Written(sc.properties[j].0, false), lo);
    var colon := Surrounded(head.hi, ':');
    Sequence(Sequence(head, colon), ValuePart(sc.properties[j].1, colon.hi))
  }

  /** The chains of the members below `j` that `mask` lacks, entered from `entry`. */
  function ChainsBuilt(sc: Schema, lo: nat, mask: nat, j: nat, entry: nat, b: Built): Built
    requires sc.Object? && j <= |sc.properties|
    decreases sc, 2, j
  {
    if j == 0 then b
    else
      var c := ChainsBuilt(sc, lo, mask, j - 1, entry, b);
      if Bit(mask, j - 1) then c
      else
        var x := MemberPart(sc, j - 1, c.hi);
        Built(c.es + x.es + {Edge(entry, Eps, x.s)} + {Edge(x.f, Eps, lo + SetBit(mask, j - 1))}, x.hi)
  }

  /** One mask: its separator, unless it is empty, and its chains. */
  function MaskBuilt(sc: Schema, lo: nat, mask: nat, b: Built): Built
    requires sc.Object?
    decreases sc, 3, 0
  {
    if mask == 0 then ChainsBuilt(sc, lo, mask, |sc.properties|, lo, b)
    else
      var sep := Surrounded(b.hi, ',');
      ChainsBuilt(sc, lo, mask, |sc.properties|, sep.f, Built(b.es + sep.es + {Edge(lo + mask, Eps, sep.s)}, sep.hi))
  }

  /** The masks below `m`. */
  function MasksBuilt(sc: Schema, lo: nat, m: nat, b: Built): Built
    requires sc.Object?
    decreases sc, 4, m
  {
    if m == 0 then b else MaskBuilt(sc, lo, m - 1, MasksBuilt(sc, lo, m - 1, b))
  }

  /** The moves from the required-complete masks below `m` to the closing brace. */
  function ClosingEdges(bits: nat, lo: nat, close: nat, m: nat): set<Edge> {
    if m == 0 then {}
    else ClosingEdges(bits, lo, close, m - 1) + if And(m - 1, bits) == bits then {Edge(lo + (m - 1), Eps, close)} else {}
  }

  function Opened(lo: nat, k: nat): Built {
    var open := OpenPart(lo + Pow2(k) + 1);
    Built(open.es + {Edge(open.f, Eps, lo)}, open.hi)
  }

  function ObjectPart(sc: Schema, lo: nat): Part
    requires sc.Object?
    decreases sc, 5, 0
  {
    var k := |sc.properties|;
    var b := MasksBuilt(sc, lo, Pow2(k), Opened(lo, k));
    var close := ClosePart(b.hi);
    var closing := ClosingEdges(BitsOf(sc.properties, sc.required, |sc.required|), lo, close.s, Pow2(k));
    Part(b.es + close.es + {Edge(close.f, Eps, lo + Pow2(k))} + closing, lo, close.hi, OpenPart(lo + Pow2(k) + 1).s, lo + Pow2(k))
  }

  /** The top level: one instance, then padding whitespace. */
  function TopPart(sc: Schema): Part {
    var x := ValuePart(sc, 0);
    Sequence(x, Arrays.WsPart(x.hi))
  }

  // ---- unfolding ----

  lemma ChainsStep(sc: Schema, lo: nat, mask: nat, j: nat, entry: nat, b: Built)
    requires sc.Object? && j < |sc.properties|
    ensures var c := ChainsBuilt(sc, lo, mask, j, entry, b);
            var x := MemberPart(sc, j, c.hi);
            ChainsBuilt(sc, lo, mask, j + 1, entry, b) ==
            if Bit(mask, j) then c
            else Built(c.es + x.es + {Edge(entry, Eps, x.s)} + {Edge(x.f, Eps, lo + SetBit(mask, j))}, x.hi)
  {
    hide MemberPart, Bit, SetBit;
  }

  lemma LitsStep(lits: seq<JsonLit>, n: nat, lo: nat)
    requires n < |lits|
    ensures var xs := LitParts(lits, n, lo); LitParts(lits, n + 1, lo) == xs + [Literal(LitText(lits[n]), EndOf(xs, lo))]
  {
    hide Literal, LitText;
  }

  lemma LitsNone(lits: seq<JsonLit>, lo: nat)
    ensures LitParts(lits, 0, lo) == []
  {
  }

  lemma ChainsNone(sc: Schema, lo: nat, mask: nat, entry: nat, b: Built)
    requires sc.Object?
    ensures ChainsBuilt(sc, lo, mask, 0, entry, b) == b
  {
  }

  lemma MasksStep(sc: Schema, lo: nat, m: nat, b: Built)
    requires sc.Object?
    ensures MasksBuilt(sc, lo, m + 1, b) == MaskBuilt(sc, lo, m, MasksBuilt(sc, lo, m, b))
    ensures MasksBuilt(sc, lo, 0, b) == b
  {
    hide MaskBuilt;
  }

  lemma PartsStep(sc: Schema, n: nat, lo: nat)
    requires sc.AnyOf? && n < |sc.schemas|
    ensures var xs := SchemaParts(sc, n, lo);
            SchemaParts(sc, n + 1, lo) == xs + [ValuePart(sc.schemas[n], EndOf(xs, lo))]
    ensures SchemaParts(sc, 0, lo) == []
  {
    hide ValuePart;
  }

  // ---- every step only adds states ----

  lemma {:induction false} Grows(sc: Schema, lo: nat)
    ensures ValuePart(sc, lo).hi >= lo
    decreases sc, 6, 0
  {
    hide Literal, Numbers.NumberEdges, Texts.TextEdges, AllEdges, Branches, ObjectPart, SchemaParts;
    match sc
    case Null => LiteralGrows("null", lo);
    case Boolean =>
      LiteralGrows("true", lo);
      LiteralGrows("false", Literal("true", lo).hi);
    case Enum(lits) => LitsGrow(lits, |lits|, lo);
    case AnyOf(schemas) =>
      PartsGrow(sc, 0, |schemas|, lo);
      PartsNone(sc, lo);
    case Array(items) => Grows(items, lo);
    case Object(_, _) => ObjectGrows(sc, lo);
    case _ =>
  }

  lemma PartsNone(sc: Schema, lo: nat)
    requires sc.AnyOf?
    ensures SchemaParts(sc, 0, lo) == []
  {
  }

  lemma LiteralGrows(text: string, lo: nat)
    ensures Literal(text, lo).hi >= lo
  {
    LiteralExact(text, lo);
  }

  lemma {:induction false} LitsGrow(lits: seq<JsonLit>, n: nat, lo: nat)
    requires n <= |lits|
    ensures EndOf(LitParts(lits, n, lo), lo) >= lo
  {
    hide Literal, LitText;
    if n > 0 {
      LitsGrow(lits, n - 1, lo);
      LiteralGrows(LitText(lits[n - 1]), EndOf(LitParts(lits, n - 1, lo), lo));
    }
  }

  lemma {:induction false} PartsGrow(sc: Schema, i: nat, n: nat, lo: nat)
    requires sc.AnyOf? && i <= n <= |sc.schemas|
    ensures EndOf(SchemaParts(sc, i, lo), lo) <= EndOf(SchemaParts(sc, n, lo), lo)
    decreases sc, 5, n
  {
    hide ValuePart, SchemaParts;
    if i < n {
      PartsGrow(sc, i, n - 1, lo);
      PartsStep(sc, n - 1, lo);
      Grows(sc.schemas[n - 1], EndOf(SchemaParts(sc, n - 1, lo), lo));
    }
  }

  lemma {:induction false} MemberGrows(sc: Schema, j: nat, lo: nat)
    requires sc.Object? && j < |sc.properties|
    ensures MemberPart(sc, j, lo).hi >= lo
    decreases sc, 1, 0
  {
    hide Literal, ValuePart, Written, Arrays.WsPart;
    var head := Literal(Written(sc.properties[j].0, false), lo);
    LiteralGrows(Written(sc.properties[j].0, false), lo);
    SurroundedEnd(head.hi, ':');
    Grows(sc.properties[j].1, Surrounded(head.hi, ':').hi);
  }

  lemma SurroundedEnd(lo: nat, c: char)
    ensures Surrounded(lo, c).hi == lo + 26
  {
    Arrays.WsEnds(lo + 14);
  }

  lemma {:induction false} ChainsGrow(sc: Schema, lo: nat, mask: nat, i: nat, n: nat, entry: nat, b: Built)
    requires sc.Object? && i <= n <= |sc.properties|
    ensures ChainsBuilt(sc, lo, mask, i, entry, b).hi <= ChainsBuilt(sc, lo, mask, n, entry, b).hi
    decreases sc, 2, n
  {
    hide ChainsBuilt, MemberPart;
    if i < n {
      ChainsGrow(sc, lo, mask, i, n - 1, entry, b);
      ChainsStep(sc, lo, mask, n - 1, entry, b);
      MemberGrows(sc, n - 1, ChainsBuilt(sc, lo, mask, n - 1, entry, b).hi);
    }
  }

  lemma {:induction false} MaskGrows(sc: Schema, lo: nat, mask: nat, b: Built)
    requires sc.Object?
    ensures b.hi <= MaskBuilt(sc, lo, mask, b).hi
    decreases sc, 3, 0
  {
    hide ChainsBuilt, Surrounded;
    var k := |sc.properties|;
    var sep := Surrounded(b.hi, ',');
    SurroundedEnd(b.hi, ',');
    var c := Built(b.es + sep.es + {Edge(lo + mask, Eps, sep.s)}, sep.hi);
    ChainsGrow(sc, lo, mask, 0, k, lo, b);
    ChainsGrow(sc, lo, mask, 0, k, sep.f, c);
    ChainsNone(sc, lo, mask, lo, b);
    ChainsNone(sc, lo, mask, sep.f, c);
  }

  lemma {:induction false} MasksGrow(sc: Schema, lo: nat, i: nat, n: nat, b: Built)
    requires sc.Object? && i <= n
    ensures MasksBuilt(sc, lo, i, b).hi <= MasksBuilt(sc, lo, n, b).hi
    decreases sc, 4, n
  {
    hide MasksBuilt, MaskBuilt;
    if i < n {
      MasksGrow(sc, lo, i, n - 1, b);
      MasksStep(sc, lo, n - 1, b);
      MaskGrows(sc, lo, n - 1, MasksBuilt(sc, lo, n - 1, b));
    }
  }

  lemma {:induction false} ObjectGrows(sc: Schema, lo: nat)
    requires sc.Object?
    ensures ObjectPart(sc, lo).hi >= lo
    ensures MasksBuilt(sc, lo, Pow2(|sc.properties|), Opened(lo, |sc.properties|)).hi <= ObjectPart(sc, lo).hi
    decreases sc, 5, 0
  {
    hide MasksBuilt, ClosingEdges, BitsOf, Arrays.WsPart;
    var k := |sc.properties|;
    var b := MasksBuilt(sc, lo, Pow2(k), Opened(lo, k));
    MasksGrow(sc, lo, 0, Pow2(k), Opened(lo, k));
    MasksStep(sc, lo, 0, Opened(lo, k));
    Arrays.WsEnds(lo + Pow2(k) + 3);
    Arrays.WsEnds(b.hi + 2);
  }
}
