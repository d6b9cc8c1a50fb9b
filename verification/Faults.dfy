/** Which refusal of a schema comes first: the checks in the order the compiler meets them. */
module Faults {
  import opened Prelude
  import opened Nfas
  import opened Fragments
  import opened Bits
  import opened Json
  import opened Values
  import opened Layouts
  import Arrays

  /** `compile_value`: the depth, then the parts, then the number of states so far. */
  function ValueFault(sc: Schema, depth: nat, lo: nat): Option<SchemaError>
    decreases sc, 9, 0
  {
    if depth > MAX_DEPTH then Some(TooDeep(depth, MAX_DEPTH))
    else if PartFault(sc, depth, lo).Some? then PartFault(sc, depth, lo)
    else if ValuePart(sc, lo).hi > MAX_NFA_STATES then Some(NfaTooLarge(ValuePart(sc, lo).hi, MAX_NFA_STATES))
    else None
  }

  function PartFault(sc: Schema, depth: nat, lo: nat): Option<SchemaError>
    decreases sc, 8, 0
  {
    match sc
    case Enum(lits) => if forall i :: 0 <= i < |lits| ==> PrintableLit(lits[i]) then None else Some(InvalidSchema(ControlChar))
    case AnyOf(schemas) => SchemasFault(sc, 0, depth, lo)
    case Array(items) => ValueFault(items, depth + 1, lo)
    case Object(properties, _) =>
      if |properties| > MAX_PROPERTIES then Some(TooManyProperties(|properties|, MAX_PROPERTIES)) else ObjectFault(sc, depth, lo)
    case _ => None
  }

  /** The alternatives from the `i`-th on, each behind the parts of those before it. */
  function SchemasFault(sc: Schema, i: nat, depth: nat, lo: nat): Option<SchemaError>
    requires sc.AnyOf? && i <= |sc.schemas|
    decreases sc, 7, |sc.schemas| - i
  {
    if i == |sc.schemas| then None
    else
      var e := ValueFault(sc.schemas[i], depth + 1, EndOf(SchemaParts(sc, i, lo), lo));
      if e.Some? then e else SchemasFault(sc, i + 1, depth, lo)
  }

  /** An object: its required names, then its masks. */
  function ObjectFault(sc: Schema, depth: nat, lo: nat): Option<SchemaError>
    requires sc.Object?
    decreases sc, 6, 0
  {
    if forall i :: 0 <= i < |sc.required| ==> PositionOf(sc.properties, sc.required[i]) < |sc.properties| then
      MasksFault(sc, 0, depth, lo, Opened(lo, |sc.properties|))
    else Some(InvalidSchema(UnknownRequired))
  }

  /** The masks from `m` on, built on top of `b`, which the opening has left. */
  function MasksFault(sc: Schema, m: nat, depth: nat, lo: nat, b: Built): Option<SchemaError>
    requires sc.Object? && m <= Pow2(|sc.properties|)
    decreases sc, 5, Pow2(|sc.properties|) - m
  {
    if m == Pow2(|sc.properties|) then None
    else
      var e := MaskFault(sc, m, depth, lo, MasksBuilt(sc, lo, m, b));
      if e.Some? then e else MasksFault(sc, m + 1, depth, lo, b)
  }

  /** One mask: its missing members in order, behind its separator. */
  function MaskFault(sc: Schema, mask: nat, depth: nat, lo: nat, b: Built): Option<SchemaError>
    requires sc.Object?
    decreases sc, 4, 0
  {
    if mask == 0 then ChainsFault(sc, 0, mask, depth, lo, lo, b)
    else
      var sep := Surrounded(b.hi, ',');
      ChainsFault(sc, 0, mask, depth, lo, sep.f, Built(b.es + sep.es + {Edge(lo + mask, Eps, sep.s)}, sep.hi))
  }

  function ChainsFault(sc: Schema, j: nat, mask: nat, depth: nat, lo: nat, entry: nat, b: Built): Option<SchemaError>
    requires sc.Object? && j <= |sc.properties|
    decreases sc, 3, |sc.properties| - j
  {
    if j == |sc.properties| then None
    else
      var e := if Bit(mask, j) then None else MemberFault(sc, j, depth, ChainsBuilt(sc, lo, mask, j, entry, b).hi);
      if e.Some? then e else ChainsFault(sc, j + 1, mask, depth, lo, entry, b)
  }

  /** A member fails with its value, which comes behind name and colon. */
  function MemberFault(sc: Schema, j: nat, depth: nat, lo: nat): Option<SchemaError>
    requires sc.Object? && j < |sc.properties|
    decreases sc, 2, 0
  {
    ValueFault(sc.properties[j].1, depth + 1, Surrounded(Literal(Written(sc.properties[j].0, false), lo).hi, ':').hi)
  }

  // ---- unfolding ----

  lemma SchemasStep(sc: Schema, i: nat, depth: nat, lo: nat)
    requires sc.AnyOf? && i <= |sc.schemas|
    ensures i == |sc.schemas| ==> SchemasFault(sc, i, depth, lo) == None
    ensures i < |sc.schemas| ==>
              var e := ValueFault(sc.schemas[i], depth + 1, EndOf(SchemaParts(sc, i, lo), lo));
              SchemasFault(sc, i, depth, lo) == if e.Some? then e else SchemasFault(sc, i + 1, depth, lo)
  {
    hide ValueFault, SchemaParts;
  }

  lemma MasksFaultStep(sc: Schema, m: nat, depth: nat, lo: nat, b: Built)
    requires sc.Object? && m <= Pow2(|sc.properties|)
    ensures m == Pow2(|sc.properties|) ==> MasksFault(sc, m, depth, lo, b) == None
    ensures m < Pow2(|sc.properties|) ==>
              var e := MaskFault(sc, m, depth, lo, MasksBuilt(sc, lo, m, b));
              MasksFault(sc, m, depth, lo, b) == if e.Some? then e else MasksFault(sc, m + 1, depth, lo, b)
  {
    hide MaskFault, MasksBuilt, Pow2;
  }

  lemma ChainsFaultStep(sc: Schema, j: nat, mask: nat, depth: nat, lo: nat, entry: nat, b: Built)
    requires sc.Object? && j <= |sc.properties|
    ensures j == |sc.properties| ==> ChainsFault(sc, j, mask, depth, lo, entry, b) == None
    ensures j < |sc.properties| ==>
              var e := if Bit(mask, j) then None else MemberFault(sc, j, depth, ChainsBuilt(sc, lo, mask, j, entry, b).hi);
              ChainsFault(sc, j, mask, depth, lo, entry, b) ==
              if e.Some? then e else ChainsFault(sc, j + 1, mask, depth, lo, entry, b)
  {
    hide MemberFault, ChainsBuilt, Bit;
  }

  // ---- no fault exactly for the schemas that compile ----

  /** Nothing is refused exactly when the schema is within bounds and its fragment no larger than the cap. */
  lemma {:induction false} FaultIff(sc: Schema, depth: nat, lo: nat)
    ensures ValueFault(sc, depth, lo) == None <==> WithinBounds(sc, depth) && ValuePart(sc, lo).hi <= MAX_NFA_STATES
    decreases sc, 9, 0
  {
    hide ValueFault, WithinBounds, ValuePart;
    match sc
    case AnyOf(schemas) =>
      SchemasIff(sc, 0, depth, lo);
      AnyOfIff(sc, depth, lo);
    case Array(items) =>
      FaultIff(items, depth + 1, lo);
      ArrayIff(items, depth, lo);
    case Object(properties, required) => ObjectIff(sc, depth, lo);
    case _ => LeafIff(sc, depth, lo);
  }

  lemma LeafIff(sc: Schema, depth: nat, lo: nat)
    requires !sc.AnyOf? && !sc.Array? && !sc.Object?
    ensures ValueFault(sc, depth, lo) == None <==> WithinBounds(sc, depth) && ValuePart(sc, lo).hi <= MAX_NFA_STATES
  {
    hide ValuePart, PrintableLit;
  }

  lemma AnyOfIff(sc: Schema, depth: nat, lo: nat)
    requires sc.AnyOf?
    requires SchemasFault(sc, 0, depth, lo) == None ==> forall h :: 0 <= h < |sc.schemas| ==> WithinBounds(sc.schemas[h], depth + 1)
    requires EndOf(SchemaParts(sc, |sc.schemas|, lo), lo) <= MAX_NFA_STATES ==>
               (forall h :: 0 <= h < |sc.schemas| ==> WithinBounds(sc.schemas[h], depth + 1)) ==> SchemasFault(sc, 0, depth, lo) == None
    ensures ValueFault(sc, depth, lo) == None <==> WithinBounds(sc, depth) && ValuePart(sc, lo).hi <= MAX_NFA_STATES
  {
    hide ValuePart, SchemaParts, SchemasFault;
    AnyOfHi(sc, lo);
    assert PartFault(sc, depth, lo) == SchemasFault(sc, 0, depth, lo);
  }

  lemma ArrayIff(items: Schema, depth: nat, lo: nat)
    requires ValueFault(items, depth + 1, lo) == None <==> WithinBounds(items, depth + 1) && ValuePart(items, lo).hi <= MAX_NFA_STATES
    ensures var sc := Schema.Array(items);
            ValueFault(sc, depth, lo) == None <==> WithinBounds(sc, depth) && ValuePart(sc, lo).hi <= MAX_NFA_STATES
  {
    hide ValuePart;
    ArrayHi(items, lo);
    assert PartFault(Schema.Array(items), depth, lo) == ValueFault(items, depth + 1, lo);
  }

  lemma AnyOfHi(sc: Schema, lo: nat)
    requires sc.AnyOf?
    ensures ValuePart(sc, lo).hi == EndOf(SchemaParts(sc, |sc.schemas|, lo), lo) + 2
  {
    hide SchemaParts, AllEdges, Branches;
  }

  lemma ArrayHi(items: Schema, lo: nat)
    ensures ValuePart(Schema.Array(items), lo).hi >= ValuePart(items, lo).hi
  {
    hide ValuePart;
    ArrayIs(Schema.Array(items), lo);
  }

  lemma ArrayIs(sc: Schema, lo: nat)
    requires sc.Array?
    ensures ValuePart(sc, lo) == Arrays.ArrayPart(ValuePart(sc.items, lo)) && ValuePart(sc.items, lo).hi <= ValuePart(sc, lo).hi
  {
    hide Arrays.ArrayPart, Literal, Branched, Words, LitParts, SchemaParts, ObjectPart;
    ArrayEnd(ValuePart(sc.items, lo));
  }

  lemma ArrayEnd(item: Part)
    ensures Arrays.ArrayPart(item).hi == item.hi + 46
  {
    hide Arrays.ArrayGlue, Arrays.WsPart;
  }

  /** The alternatives from the `i`-th on, given that the whole is to fit. */
  lemma {:induction false} SchemasIff(sc: Schema, i: nat, depth: nat, lo: nat)
    requires sc.AnyOf? && i <= |sc.schemas|
    ensures SchemasFault(sc, i, depth, lo) == None ==> forall h :: i <= h < |sc.schemas| ==> WithinBounds(sc.schemas[h], depth + 1)
    ensures EndOf(SchemaParts(sc, |sc.schemas|, lo), lo) <= MAX_NFA_STATES ==>
              (forall h :: i <= h < |sc.schemas| ==> WithinBounds(sc.schemas[h], depth + 1)) ==> SchemasFault(sc, i, depth, lo) == None
    decreases sc, 7, |sc.schemas| - i
  {
    hide ValueFault, SchemasFault, SchemaParts, ValuePart, WithinBounds;
    SchemasStep(sc, i, depth, lo);
    if i < |sc.schemas| {
      SchemasIff(sc, i + 1, depth, lo);
      FaultIff(sc.schemas[i], depth + 1, EndOf(SchemaParts(sc, i, lo), lo));
      PartsStep(sc, i, lo);
      PartsGrow(sc, i + 1, |sc.schemas|, lo);
    }
  }

  lemma {:induction false} ObjectIff(sc: Schema, depth: nat, lo: nat)
    requires sc.Object?
    ensures ValueFault(sc, depth, lo) == None <==> WithinBounds(sc, depth) && ValuePart(sc, lo).hi <= MAX_NFA_STATES
    decreases sc, 6, 0
  {
    hide MasksFault, MasksBuilt, ValuePart, ObjectPart, Pow2, Opened, WithinBounds, MembersWithin, PositionOf;
    ObjectBounds(sc, depth);
    var k := |sc.properties|;
    var initial := Opened(lo, k);
    ObjectHi(sc, lo);
    ObjectFaultIs(sc, depth, lo);
    PowPositive(k);
    if k <= MAX_PROPERTIES { MasksIff(sc, 0, depth, lo, initial); }
  }

  lemma ObjectFaultIs(sc: Schema, depth: nat, lo: nat)
    requires sc.Object?
    ensures PartFault(sc, depth, lo) ==
            if |sc.properties| > MAX_PROPERTIES then Some(TooManyProperties(|sc.properties|, MAX_PROPERTIES))
            else if forall i :: 0 <= i < |sc.required| ==> PositionOf(sc.properties, sc.required[i]) < |sc.properties| then
              MasksFault(sc, 0, depth, lo, Opened(lo, |sc.properties|))
            else Some(InvalidSchema(UnknownRequired))
  {
    hide MasksFault, Pow2, Opened, PositionOf;
    var e := ObjectFault(sc, depth, lo);
  }

  /** The members from the `j`-th on are within bounds one level deeper. */
  ghost predicate MembersWithin(sc: Schema, j: nat, depth: nat)
    requires sc.Object?
  {
    forall h :: j <= h < |sc.properties| ==> WithinBounds(sc.properties[h].1, depth + 1)
  }

  lemma ObjectBounds(sc: Schema, depth: nat)
    requires sc.Object?
    ensures WithinBounds(sc, depth) <==>
              && depth <= MAX_DEPTH && |sc.properties| <= MAX_PROPERTIES && MembersWithin(sc, 0, depth)
              && forall i :: 0 <= i < |sc.required| ==> PositionOf(sc.properties, sc.required[i]) < |sc.properties|
  {
  }

  lemma PowPositive(k: nat)
    ensures Pow2(k) > 0
  {
  }

  lemma ObjectHi(sc: Schema, lo: nat)
    requires sc.Object?
    ensures ValuePart(sc, lo) == ObjectPart(sc, lo)
    ensures MasksBuilt(sc, lo, Pow2(|sc.properties|), Opened(lo, |sc.properties|)).hi <= ObjectPart(sc, lo).hi
  {
    hide MasksBuilt, ObjectPart, Opened;
    ObjectGrows(sc, lo);
  }

  /** The masks from `m` on; the empty mask has all the members. */
  lemma {:induction false} MasksIff(sc: Schema, m: nat, depth: nat, lo: nat, b: Built)
    requires sc.Object? && m <= Pow2(|sc.properties|)
    ensures m == 0 && MasksFault(sc, m, depth, lo, b) == None ==> MembersWithin(sc, 0, depth)
    ensures MembersWithin(sc, 0, depth) && MasksBuilt(sc, lo, Pow2(|sc.properties|), b).hi <= MAX_NFA_STATES ==>
              MasksFault(sc, m, depth, lo, b) == None
    decreases sc, 5, Pow2(|sc.properties|) - m
  {
    hide MasksFault, MaskFault, MasksBuilt, MaskBuilt, Pow2, WithinBounds;
    var k := |sc.properties|;
    PowPositive(k);
    MasksFaultStep(sc, m, depth, lo, b);
    if m < Pow2(k) {
      MasksIff(sc, m + 1, depth, lo, b);
      MaskIff(sc, m, depth, lo, MasksBuilt(sc, lo, m, b));
      MasksStep(sc, lo, m, b);
      MasksGrow(sc, lo, m + 1, Pow2(k), b);
    }
  }

  lemma {:induction false} MaskIff(sc: Schema, mask: nat, depth: nat, lo: nat, b: Built)
    requires sc.Object?
    ensures mask == 0 && MaskFault(sc, mask, depth, lo, b) == None ==> MembersWithin(sc, 0, depth)
    ensures MembersWithin(sc, 0, depth) && MaskBuilt(sc, lo, mask, b).hi <= MAX_NFA_STATES ==> MaskFault(sc, mask, depth, lo, b) == None
    decreases sc, 4, 0
  {
    hide ChainsFault, ChainsBuilt, Surrounded, WithinBounds;
    var sep := Surrounded(b.hi, ',');
    var c := Built(b.es + sep.es + {Edge(lo + mask, Eps, sep.s)}, sep.hi);
    ChainsIff(sc, 0, mask, depth, lo, lo, b);
    ChainsIff(sc, 0, mask, depth, lo, sep.f, c);
  }

  lemma {:induction false} ChainsIff(sc: Schema, j: nat, mask: nat, depth: nat, lo: nat, entry: nat, b: Built)
    requires sc.Object? && j <= |sc.properties|
    ensures mask == 0 && ChainsFault(sc, j, mask, depth, lo, entry, b) == None ==> MembersWithin(sc, j, depth)
    ensures MembersWithin(sc, 0, depth) && ChainsBuilt(sc, lo, mask, |sc.properties|, entry, b).hi <= MAX_NFA_STATES ==>
              ChainsFault(sc, j, mask, depth, lo, entry, b) == None
    decreases sc, 3, |sc.properties| - j
  {
    hide ChainsFault, ChainsBuilt, MemberFault, MemberPart, WithinBounds, Bit;
    ChainsFaultStep(sc, j, mask, depth, lo, entry, b);
    if j < |sc.properties| {
      ChainsIff(sc, j + 1, mask, depth, lo, entry, b);
      MemberIff(sc, j, depth, ChainsBuilt(sc, lo, mask, j, entry, b).hi);
      ChainsStep(sc, lo, mask, j, entry, b);
      ChainsGrow(sc, lo, mask, j + 1, |sc.properties|, entry, b);
      if mask == 0 { ZeroBits(j); }
    }
  }

  lemma {:induction false} MemberIff(sc: Schema, j: nat, depth: nat, lo: nat)
    requires sc.Object? && j < |sc.properties|
    ensures MemberFault(sc, j, depth, lo) == None ==> WithinBounds(sc.properties[j].1, depth + 1)
    ensures WithinBounds(sc.properties[j].1, depth + 1) && MemberPart(sc, j, lo).hi <= MAX_NFA_STATES ==> MemberFault(sc, j, depth, lo) == None
    decreases sc, 2, 0
  {
    hide ValueFault, ValuePart, Literal, Surrounded, WithinBounds;
    FaultIff(sc.properties[j].1, depth + 1, Surrounded(Literal(Written(sc.properties[j].0, false), lo).hi, ':').hi);
  }

  // ---- what a refusal says about the schema ----

  /** `p` lies `k` levels below `sc`. */
  ghost predicate Below(p: Schema, sc: Schema, k: nat)
    decreases sc
  {
    if k == 0 then p == sc
    else
      match sc
      case AnyOf(schemas) => exists i :: 0 <= i < |schemas| && Below(p, schemas[i], k - 1)
      case Array(items) => Below(p, items, k - 1)
      case Object(properties, _) => exists i :: 0 <= i < |properties| && Below(p, properties[i].1, k - 1)
      case _ => false
  }

  /** The part `p` at depth `d` is what the refusal says: it is the first level too deep, it has that many properties, it has
      a literal with a bare control character, or it requires a name no property has. */
  ghost predicate Cause(e: SchemaError, p: Schema, d: nat) {
    match e
    case TooDeep(n, max) => n == d > 24 == max
    case TooManyProperties(n, max) => p.Object? && n == |p.properties| > 10 == max && d <= 24
    case InvalidSchema(ControlChar) => p.Enum? && d <= 24 && exists i, j :: BareControl(p.lits, i, j)
    case InvalidSchema(UnknownRequired) =>
      p.Object? && |p.properties| <= 10 && d <= 24 && exists i :: 0 <= i < |p.required| && Unlisted(p.properties, p.required[i])
    case _ => false
  }

  ghost predicate BareControl(lits: seq<JsonLit>, i: nat, j: nat) {
    && i < |lits| && lits[i].Str? && j < |lits[i].s|
    && var c := lits[i].s[j]; c < ' ' && c != '\n' && c != '\r' && c != '\t'
  }

  ghost predicate Unlisted(properties: seq<(string, Schema)>, name: string) {
    forall j :: 0 <= j < |properties| ==> properties[j].0 != name
  }

  ghost predicate CauseAt(e: SchemaError, p: Schema, sc: Schema, k: nat, depth: nat) {
    Below(p, sc, k) && Cause(e, p, depth + k) && (e.TooDeep? && k > 0 ==> depth + k == 25)
  }

  /** Either some part of the schema is at fault, or the fragment is too large and more than the reported number of states
      is not needed to see it. */
  ghost predicate Blames(e: SchemaError, sc: Schema, depth: nat, hi: nat) {
    || (exists p, k :: CauseAt(e, p, sc, k, depth))
    || (e.NfaTooLarge? && e.max == 400000 < e.n <= hi)
  }

  lemma BlamesChild(e: SchemaError, child: Schema, sc: Schema, depth: nat, hi: nat, above: nat)
    requires depth <= 24 && hi <= above && Blames(e, child, depth + 1, hi)
    requires match sc
             case AnyOf(schemas) => child in schemas
             case Array(items) => child == items
             case Object(properties, _) => exists i :: 0 <= i < |properties| && properties[i].1 == child
             case _ => false
    ensures Blames(e, sc, depth, above)
  {
    var d := depth + 1;
    if p, k: nat :| CauseAt(e, p, child, k, d) {
      assert Below(p, sc, k + 1);
      assert CauseAt(e, p, sc, k + 1, depth);
    }
  }

  /** Every refusal of a schema is true of it and names its cause. */
  lemma {:induction false} FaultBlames(sc: Schema, depth: nat, lo: nat)
    ensures var e := ValueFault(sc, depth, lo); e.Some? ==> Blames(e.value, sc, depth, ValuePart(sc, lo).hi)
    decreases sc, 9, 0
  {
    hide ValuePart, PartFault, Blames;
    var e := ValueFault(sc, depth, lo);
    if depth > MAX_DEPTH {
      OwnCause(e.value, sc, depth, ValuePart(sc, lo).hi);
    } else if PartFault(sc, depth, lo).Some? {
      PartBlames(sc, depth, lo);
    } else if e.Some? {
      TooLarge(e.value, sc, depth, ValuePart(sc, lo).hi);
    }
  }

  lemma OwnCause(e: SchemaError, sc: Schema, depth: nat, hi: nat)
    requires Cause(e, sc, depth)
    ensures Blames(e, sc, depth, hi)
  {
    assert CauseAt(e, sc, sc, 0, depth);
  }

  lemma TooLarge(e: SchemaError, sc: Schema, depth: nat, hi: nat)
    requires e == NfaTooLarge(hi, MAX_NFA_STATES) && hi > MAX_NFA_STATES
    ensures Blames(e, sc, depth, hi)
  {
  }

  lemma {:induction false} PartBlames(sc: Schema, depth: nat, lo: nat)
    requires depth <= 24
    ensures var e := PartFault(sc, depth, lo); e.Some? ==> Blames(e.value, sc, depth, ValuePart(sc, lo).hi)
    decreases sc, 8, 0
  {
    hide ValuePart, ValueFault, Blames, SchemasFault, MasksFault, Opened;
    match sc
    case Enum(lits) =>
      if PartFault(sc, depth, lo).Some? {
        var i :| 0 <= i < |lits| && !PrintableLit(lits[i]);
        var j :| 0 <= j < |lits[i].s| && !PrintableChar(lits[i].s[j], true);
        assert BareControl(lits, i, j);
        OwnCause(InvalidSchema(ControlChar), sc, depth, ValuePart(sc, lo).hi);
      }
    case AnyOf(schemas) =>
      SchemasBlame(sc, 0, depth, lo);
      AnyOfHi(sc, lo);
      if SchemasFault(sc, 0, depth, lo).Some? {
        Higher(SchemasFault(sc, 0, depth, lo).value, sc, depth, EndOf(SchemaParts(sc, |sc.schemas|, lo), lo), ValuePart(sc, lo).hi);
      }
    case Array(items) =>
      FaultBlames(items, depth + 1, lo);
      ArrayHi(items, lo);
      var e := ValueFault(items, depth + 1, lo);
      if e.Some? { BlamesChild(e.value, items, sc, depth, ValuePart(items, lo).hi, ValuePart(sc, lo).hi); }
    case Object(properties, required) => ObjectBlames(sc, depth, lo);
    case _ =>
  }

  lemma Higher(e: SchemaError, sc: Schema, depth: nat, hi: nat, above: nat)
    requires Blames(e, sc, depth, hi) && hi <= above
    ensures Blames(e, sc, depth, above)
  {
    hide Cause, Below;
  }

  lemma {:induction false} SchemasBlame(sc: Schema, i: nat, depth: nat, lo: nat)
    requires sc.AnyOf? && i <= |sc.schemas| && depth <= 24
    ensures var e := SchemasFault(sc, i, depth, lo);
            e.Some? ==> Blames(e.value, sc, depth, EndOf(SchemaParts(sc, |sc.schemas|, lo), lo))
    decreases sc, 7, |sc.schemas| - i
  {
    hide ValueFault, SchemasFault, SchemaParts, ValuePart, Blames;
    SchemasStep(sc, i, depth, lo);
    if i < |sc.schemas| {
      var at := EndOf(SchemaParts(sc, i, lo), lo);
      var e := ValueFault(sc.schemas[i], depth + 1, at);
      FaultBlames(sc.schemas[i], depth + 1, at);
      PartsStep(sc, i, lo);
      PartsGrow(sc, i + 1, |sc.schemas|, lo);
      if e.Some? {
        BlamesChild(e.value, sc.schemas[i], sc, depth, ValuePart(sc.schemas[i], at).hi, EndOf(SchemaParts(sc, |sc.schemas|, lo), lo));
      } else {
        SchemasBlame(sc, i + 1, depth, lo);
      }
    }
  }

  lemma {:induction false} ObjectBlames(sc: Schema, depth: nat, lo: nat)
    requires sc.Object? && depth <= 24
    ensures var e := PartFault(sc, depth, lo); e.Some? ==> Blames(e.value, sc, depth, ValuePart(sc, lo).hi)
    decreases sc, 6, 0
  {
    hide MasksFault, MasksBuilt, ValuePart, ObjectPart, Pow2, Opened, PositionOf, Blames, PartFault;
    var k, hi := |sc.properties|, ValuePart(sc, lo).hi;
    ObjectFaultIs(sc, depth, lo);
    ObjectHi(sc, lo);
    PowPositive(k);
    if k > MAX_PROPERTIES {
      OwnCause(TooManyProperties(k, MAX_PROPERTIES), sc, depth, hi);
    } else if i :| 0 <= i < |sc.required| && PositionOf(sc.properties, sc.required[i]) >= k {
      NoPosition(sc.properties, sc.required[i]);
      OwnCause(InvalidSchema(UnknownRequired), sc, depth, hi);
    } else {
      MasksBlame(sc, 0, depth, lo, Opened(lo, k));
      var e := MasksFault(sc, 0, depth, lo, Opened(lo, k));
      if e.Some? { Higher(e.value, sc, depth, MasksBuilt(sc, lo, Pow2(k), Opened(lo, k)).hi, hi); }
    }
  }

  lemma NoPosition(properties: seq<(string, Schema)>, name: string)
    requires PositionOf(properties, name) >= |properties|
    ensures Unlisted(properties, name)
  {
  }

  lemma {:induction false} MasksBlame(sc: Schema, m: nat, depth: nat, lo: nat, b: Built)
    requires sc.Object? && m <= Pow2(|sc.properties|) && depth <= 24
    ensures var e := MasksFault(sc, m, depth, lo, b);
            e.Some? ==> Blames(e.value, sc, depth, MasksBuilt(sc, lo, Pow2(|sc.properties|), b).hi)
    decreases sc, 5, Pow2(|sc.properties|) - m
  {
    hide MasksFault, MaskFault, MasksBuilt, MaskBuilt, Pow2, Blames;
    var k := |sc.properties|;
    MasksFaultStep(sc, m, depth, lo, b);
    if m < Pow2(k) {
      var before := MasksBuilt(sc, lo, m, b);
      var e := MaskFault(sc, m, depth, lo, before);
      MaskBlames(sc, m, depth, lo, before);
      MasksStep(sc, lo, m, b);
      MasksGrow(sc, lo, m + 1, Pow2(k), b);
      if e.Some? {
        Higher(e.value, sc, depth, MasksBuilt(sc, lo, m + 1, b).hi, MasksBuilt(sc, lo, Pow2(k), b).hi);
      } else {
        MasksBlame(sc, m + 1, depth, lo, b);
      }
    }
  }

  lemma {:induction false} MaskBlames(sc: Schema, mask: nat, depth: nat, lo: nat, b: Built)
    requires sc.Object? && depth <= 24
    ensures var e := MaskFault(sc, mask, depth, lo, b); e.Some? ==> Blames(e.value, sc, depth, MaskBuilt(sc, lo, mask, b).hi)
    decreases sc, 4, 0
  {
    hide ChainsFault, ChainsBuilt, Surrounded, Blames;
    var sep := Surrounded(b.hi, ',');
    ChainsBlame(sc, 0, mask, depth, lo, lo, b);
    ChainsBlame(sc, 0, mask, depth, lo, sep.f, Built(b.es + sep.es + {Edge(lo + mask, Eps, sep.s)}, sep.hi));
  }

  lemma {:induction false} ChainsBlame(sc: Schema, j: nat, mask: nat, depth: nat, lo: nat, entry: nat, b: Built)
    requires sc.Object? && j <= |sc.properties| && depth <= 24
    ensures var e := ChainsFault(sc, j, mask, depth, lo, entry, b);
            e.Some? ==> Blames(e.value, sc, depth, ChainsBuilt(sc, lo, mask, |sc.properties|, entry, b).hi)
    decreases sc, 3, |sc.properties| - j
  {
    hide ChainsFault, ChainsBuilt, MemberFault, MemberPart, Bit, Blames;
    ChainsFaultStep(sc, j, mask, depth, lo, entry, b);
    if j < |sc.properties| {
      var at := ChainsBuilt(sc, lo, mask, j, entry, b).hi;
      ChainsStep(sc, lo, mask, j, entry, b);
      ChainsGrow(sc, lo, mask, j + 1, |sc.properties|, entry, b);
      var e := MemberFault(sc, j, depth, at);
      if !Bit(mask, j) && e.Some? {
        MemberBlames(sc, j, depth, at);
        Higher(e.value, sc, depth, MemberPart(sc, j, at).hi, ChainsBuilt(sc, lo, mask, |sc.properties|, entry, b).hi);
      } else {
        ChainsBlame(sc, j + 1, mask, depth, lo, entry, b);
      }
    }
  }

  lemma {:induction false} MemberBlames(sc: Schema, j: nat, depth: nat, lo: nat)
    requires sc.Object? && j < |sc.properties| && depth <= 24
    ensures var e := MemberFault(sc, j, depth, lo); e.Some? ==> Blames(e.value, sc, depth, MemberPart(sc, j, lo).hi)
    decreases sc, 2, 0
  {
    hide ValueFault, ValuePart, Literal, Surrounded, Blames, Written;
    var at := Surrounded(Literal(Written(sc.properties[j].0, false), lo).hi, ':').hi;
    var e := ValueFault(sc.properties[j].1, depth + 1, at);
    FaultBlames(sc.properties[j].1, depth + 1, at);
    if e.Some? { BlamesChild(e.value, sc.properties[j].1, sc, depth, ValuePart(sc.properties[j].1, at).hi, MemberPart(sc, j, lo).hi); }
  }
}
