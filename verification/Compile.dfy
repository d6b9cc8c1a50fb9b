/** The mutually recursive compiler of schemas into character automata. */
module SchemaCompiler {
  import opened Prelude
  import opened Languages
  import opened Nfas
  import opened Fragments
  import opened NfaBuilders
  import opened Bits
  import opened Objects
  import opened Json
  import opened Spellings
  import opened Values
  import opened Layouts
  import opened Faults
  import Numbers
  import NumberLaws
  import Texts
  import Arrays

  /** A fresh `"key" ws : ws value` chain. */
  method MemberChain(b: NfaBuilder, sc: Schema, j: nat, depth: nat) returns (r: Result<(nat, nat), SchemaError>, ghost x: Part)
    requires sc.Object? && j < |sc.properties|
    modifies b
    ensures r.Ok? ==> Made(old(b.Set()), old(b.states), b.Set(), b.states, r.value, x)
    ensures r.Ok? ==> x.Accepted() == Member(COMPILED.key(sc.properties[j].0), Instances(sc.properties[j].1, COMPILED))
    ensures r.Ok? ==> WithinBounds(sc.properties[j].1, depth + 1)
    ensures r.Ok? ==> x == MemberPart(sc, j, old(b.states))
    ensures MemberFault(sc, j, depth, old(b.states)) == if r.Ok? then None else Some(r.error)
    ensures r.Err? ==> Refusal(r.error, sc.properties[j].1, depth + 1)
    ensures r.Err? && r.error.NfaTooLarge? ==> r.error.n == b.states <= MemberPart(sc, j, old(b.states)).hi
    decreases sc, 0
  {
    hide NfaBuilder.Set, Made, Part.Accepted, Instances, Cat, WithinBounds, Refusal, Links, Literal, Surrounded, ValuePart, ValueFault;
    CompiledTexts();
    var (name, schema) := sc.properties[j];
    ghost var s0, lo := b.Set(), b.states;
    var key := KeyOf(name);
    var keyFrag, colon;
    ghost var xk, xc;
    keyFrag, xk := LiteralMade(b, key);
    ghost var s1, mid := b.Set(), b.states;
    MadeParts(s0, lo, s1, mid, keyFrag, xk);
    colon, xc := Surround(b, ':');
    MadeParts(s1, mid, b.Set(), b.states, colon, xc);
    MadeSequence(s0, lo, s1, mid, b.Set(), b.states, keyFrag, colon, xk, xc);
    LinksTwo(keyFrag, colon);
    var head := b.Seq([keyFrag, colon]);
    ghost var s2, mid2 := b.Set(), b.states;
    var value;
    ghost var xv;
    value, xv := CompileValue(b, schema, depth + 1);
    if value.Err? {
      return Err(value.error), xv;
    }
    MadeSequence(s0, lo, s2, mid2, b.Set(), b.states, head, value.value, Sequence(xk, xc), xv);
    b.AddEps(head.1, value.value.0);
    return Ok((head.0, value.value.1)), Sequence(Sequence(xk, xc), xv);
  }

  /** Where the members of a mask start: at the mask itself, or behind a fresh separator. */
  method MaskEntry(b: NfaBuilder, ghost f: Frame, ghost sc: Schema, mask: nat, lo: nat, ghost s: nat, ghost s0: set<Edge>, ghost w0: Work)
    returns (entry: nat, ghost w: Work)
    requires sc.Object? && f.Valid() && f.lo == lo && f.k == |sc.properties| && mask < Pow2(f.k)
    requires Going(f, w0, b.states, s) && b.Set() == s0 + w0.es
    modifies b
    ensures Going(f, w, b.states, s) && b.Set() == s0 + w.es && w0.es <= w.es
    ensures f.EntryOf(w.es, w.r, mask, entry) && lo <= entry < b.states
    ensures MaskBuilt(sc, lo, mask, Built(w0.es, old(b.states))) ==
            ChainsBuilt(sc, lo, mask, |sc.properties|, entry, Built(w.es, b.states))
    ensures forall depth :: MaskFault(sc, mask, depth, lo, Built(w0.es, old(b.states))) ==
                            ChainsFault(sc, 0, mask, depth, lo, entry, Built(w.es, b.states))
  {
    hide NfaBuilder.Set, Made, Part.Accepted, Cat, Going, Frame.EntryOf, MaskSet, Rest, ChainsBuilt, MaskBuilt, Surrounded, MaskFault, ChainsFault;
    w := w0;
    GoingParts(f, w0, b.states, s);
    entry := lo;
    if mask == 0 {
      FirstEntry(f, w.es, b.states, w.r);
    } else {
      ghost var before, hi := b.Set(), b.states;
      var sep;
      ghost var xs;
      sep, xs := Surround(b, ',');
      MadeParts(before, hi, b.Set(), b.states, sep, xs);
      w := SeparatorMade(f, w, hi, s, mask, s0, before, b.Set(), b.states, sep, xs);
      b.AddEps(lo + mask, sep.0);
      entry := sep.1;
    }
    MaskIs(sc, lo, mask, entry, Built(w0.es, old(b.states)), Built(w.es, b.states));
  }

  /** All members still missing from one mask: a fresh separator, then one fresh chain each. */
  method MaskMembers(b: NfaBuilder, ghost f: Frame, sc: Schema, depth: nat, mask: nat, lo: nat, ghost s: nat,
                     ghost s0: set<Edge>, ghost w0: Work)
    returns (failed: Option<SchemaError>, ghost w: Work, ghost chains: nat)
    requires sc.Object? && f == Frame(lo, |sc.properties|, ShapeOf(sc.properties, sc.required)) && mask < Pow2(f.k)
    requires Going(f, w0, b.states, s) && b.Set() == s0 + w0.es
    modifies b
    ensures failed.None? ==> Going(f, w, b.states, s) && b.Set() == s0 + w.es && w0.es <= w.es && f.MaskDone(w.es, mask)
    ensures failed.None? ==> chains == Unset(mask, f.k)
    ensures failed.None? && mask == 0 ==> forall j :: 0 <= j < f.k ==> WithinBounds(sc.properties[j].1, depth + 1)
    ensures failed.None? ==> Built(w.es, b.states) == MaskBuilt(sc, lo, mask, Built(w0.es, old(b.states)))
    ensures failed == MaskFault(sc, mask, depth, lo, Built(w0.es, old(b.states)))
    ensures failed.Some? ==> exists j :: 0 <= j < f.k && Refusal(failed.value, sc.properties[j].1, depth + 1)
    ensures failed.Some? && failed.value.NfaTooLarge? ==>
              failed.value.n == b.states <= MaskBuilt(sc, lo, mask, Built(w0.es, old(b.states))).hi
    decreases sc, 1
  {
    hide NfaBuilder.Set, Made, Part.Accepted, Instances, Cat, WithinBounds, Refusal, Links, MaskSet, SetBit, Rest, Bit, Unset;
    hide Going, Frame.EntryOf, Frame.Chained, Member, COMPILED, ChainsBuilt, MemberPart, Surrounded, MaskBuilt, ShapeOf, RequiredSet, MaskFault;
    hide ChainsFault, MemberFault;
    failed, w, chains := None, w0, 0;
    GoingParts(f, w0, b.states, s);
    var entry;
    entry, w := MaskEntry(b, f, sc, mask, lo, s, s0, w0);
    UnsetNone(mask);
    ghost var start := Built(w.es, b.states);
    ChainsNone(sc, lo, mask, entry, start);
    ghost var fault := ChainsFault(sc, 0, mask, depth, lo, entry, start);
    for j := 0 to |sc.properties|
      invariant Built(w.es, b.states) == ChainsBuilt(sc, lo, mask, j, entry, start)
      invariant fault == ChainsFault(sc, j, mask, depth, lo, entry, start)
      invariant Going(f, w, b.states, s) && b.Set() == s0 + w.es && w0.es <= w.es
      invariant f.EntryOf(w.es, w.r, mask, entry) && lo <= entry < b.states
      invariant forall i: nat :: i < j && !Bit(mask, i) ==> f.Chained(w.es, mask, i)
      invariant chains == Unset(mask, j)
      invariant mask == 0 ==> forall i :: 0 <= i < j ==> WithinBounds(sc.properties[i].1, depth + 1)
    {
      UnsetStep(mask, j);
      ChainsStep(sc, lo, mask, j, entry, start);
      ChainsFaultStep(sc, j, mask, depth, lo, entry, start);
      if Bit(mask, j) {
        NotZero(mask, j);
        continue;
      }
      ghost var before, hi := b.Set(), b.states;
      var chain;
      ghost var x;
      chain, x := MemberChain(b, sc, j, depth);
      if chain.Err? {
        ChainsGrow(sc, lo, mask, j + 1, |sc.properties|, entry, start);
        return Some(chain.error), w, chains;
      }
      MadeParts(before, hi, b.Set(), b.states, chain.value, x);
      ShapeMember(sc, j);
      ghost var prev := w;
      w := MemberMade(f, w, hi, s, mask, j, entry, s0, before, b.Set(), b.states, chain.value, x);
      FactsMono(f, prev.es, w.es);
      b.AddEps(entry, chain.value.0);
      b.AddEps(chain.value.1, lo + SetBit(mask, j));
      chains := chains + 1;
    }
    ChainsFaultStep(sc, |sc.properties|, mask, depth, lo, entry, start);
  }

  lemma ShapeMember(sc: Schema, j: nat)
    requires sc.Object? && j < |sc.properties|
    ensures |ShapeOf(sc.properties, sc.required).members| == |sc.properties|
    ensures ShapeOf(sc.properties, sc.required).members[j] == Member(COMPILED.key(sc.properties[j].0), Instances(sc.properties[j].1, COMPILED))
  {
    hide COMPILED, Instances, Member;
  }

  /** The chains of a mask start behind its separator. */
  lemma MaskIs(sc: Schema, lo: nat, mask: nat, entry: nat, b: Built, start: Built)
    requires sc.Object?
    requires mask == 0 ==> entry == lo && start == b
    requires mask > 0 ==> var sep := Surrounded(b.hi, ',');
                          entry == sep.f && start == Built(b.es + sep.es + {Edge(lo + mask, Eps, sep.s)}, sep.hi)
    ensures MaskBuilt(sc, lo, mask, b) == ChainsBuilt(sc, lo, mask, |sc.properties|, entry, start)
    ensures forall depth :: MaskFault(sc, mask, depth, lo, b) == ChainsFault(sc, 0, mask, depth, lo, entry, start)
  {
    hide ChainsBuilt, Surrounded, ChainsFault;
  }

  lemma UnsetNone(mask: nat)
    ensures Unset(mask, 0) == 0
  {
  }

  lemma NotZero(mask: nat, j: nat)
    requires Bit(mask, j)
    ensures mask != 0
  {
    if mask == 0 { ZeroBits(j); }
  }

  /** The required-complete masks share one closing brace. */
  method CloseMasks(b: NfaBuilder, ghost f: Frame, k: nat, bits: nat, lo: nat, close: nat, ghost s: nat, ghost s0: set<Edge>, ghost w0: Work)
    returns (ghost w: Work)
    requires f.Valid() && f.k == k && f.lo == lo && bits < Pow2(f.k) && MaskSet(bits, f.k) == f.o.required
    requires Going(f, w0, b.states, s) && b.Set() == s0 + w0.es
    requires lo <= close < b.states && w0.r(close) == CLOSE && Reaches(w0.es, close, CLOSE, f.Fin())
    requires forall n: nat :: n < Pow2(f.k) ==> f.MaskDone(w0.es, n)
    modifies b
    ensures Going(f, w, b.states, s) && b.Set() == s0 + w.es && b.states == old(b.states)
    ensures forall n: nat :: n < Pow2(f.k) ==> f.MaskDone(w.es, n) && f.ClosesFrom(w.es, n)
    ensures w.es == w0.es + ClosingEdges(bits, lo, close, Pow2(k))
  {
    hide NfaBuilder.Set, MaskSet, And, Going, Reaches, Frame.MaskDone, Frame.ClosesFrom, CLOSE;
    w := w0;
    for mask := 0 to Pow2(k)
      invariant Going(f, w, b.states, s) && b.Set() == s0 + w.es && b.states == old(b.states)
      invariant w.r(close) == CLOSE && Reaches(w.es, close, CLOSE, f.Fin())
      invariant forall n: nat :: n < Pow2(f.k) ==> f.MaskDone(w.es, n)
      invariant forall n: nat :: n < mask ==> f.ClosesFrom(w.es, n)
      invariant w.es == w0.es + ClosingEdges(bits, lo, close, mask)
    {
      AndSubset(mask, bits, f.k);
      if And(mask, bits) == bits {
        ghost var prev := w;
        w := ClosingMade(f, w, b.states, s, mask, close);
        FactsMono(f, prev.es, w.es);
        b.AddEps(lo + mask, close);
      } else {
        NotClosing(f, w.es, mask);
      }
    }
  }

  lemma NotClosing(f: Frame, es: set<Edge>, mask: nat)
    requires !(f.o.required <= f.Done(mask))
    ensures f.ClosesFrom(es, mask)
  {
  }

  /** The mask states, the final state and the opening brace into the empty mask. */
  method OpenObject(b: NfaBuilder, ghost f: Frame, k: nat) returns (open: (nat, nat), ghost w: Work)
    requires f.Valid() && f.lo == b.states && f.k == k
    modifies b
    ensures Going(f, w, b.states, open.0) && b.Set() == old(b.Set()) + w.es
    ensures Built(w.es, b.states) == Opened(f.lo, k) && open.0 == OpenPart(f.Fin() + 1).s
  {
    hide NfaBuilder.Set, Made, Part.Accepted, Cat, Going, OpenPart;
    ghost var s0 := b.Set();
    var lo := b.states;
    for m := 0 to Pow2(k)
      invariant b.states == lo + m && b.Set() == s0
    {
      var s := b.State();
    }
    var fin := b.State();
    ghost var xo;
    open, xo := OpenBrace(b);
    MadeParts(s0, f.Fin() + 1, b.Set(), b.states, open, xo);
    w := OpenMade(f, s0, b.Set(), b.states, open, xo);
    b.AddEps(open.1, lo);
  }

  /** The closing brace, entered from the required-complete masks. */
  method CloseObject(b: NfaBuilder, ghost f: Frame, sc: Schema, bits: nat, lo: nat, open: (nat, nat), ghost s0: set<Edge>, ghost w0: Work)
    returns (ghost x: Part)
    requires sc.Object? && f == Frame(lo, |sc.properties|, ShapeOf(sc.properties, sc.required)) && f.Valid()
    requires bits == BitsOf(sc.properties, sc.required, |sc.required|) && bits < Pow2(f.k) && MaskSet(bits, f.k) == f.o.required
    requires Going(f, w0, b.states, open.0) && b.Set() == s0 + w0.es && open.0 == OpenPart(f.Fin() + 1).s
    requires forall n: nat :: n < Pow2(f.k) ==> f.MaskDone(w0.es, n)
    requires Built(w0.es, b.states) == MasksBuilt(sc, lo, Pow2(f.k), Opened(lo, f.k))
    modifies b
    ensures x == ObjectPart(sc, lo) && x.Valid() && x.lo == lo && x.hi == b.states && x.s == open.0 && x.f == lo + Pow2(f.k)
    ensures b.Set() == s0 + x.es && x.Accepted() == ObjectOf(f.o.members, ByPlace(f.o.required))
  {
    hide NfaBuilder.Set, Made, Part.Accepted, Cat, MaskSet, Rest, Pow2, ObjectOf, ShapeOf;
    hide Going, Frame.MaskDone, Frame.ClosesFrom, Reaches, CLOSE, MasksBuilt, OpenPart, ClosePart, BitsOf, ClosingEdges, ObjectPart;
    ghost var before, hi := b.Set(), b.states;
    var close;
    ghost var xc;
    close, xc := CloseBrace(b);
    MadeParts(before, hi, b.Set(), b.states, close, xc);
    ghost var w := CloseMade(f, w0, hi, open.0, s0, before, b.Set(), b.states, close, xc);
    FactsMono(f, w0.es, w.es);
    b.AddEps(close.1, lo + Pow2(|sc.properties|));
    w := CloseMasks(b, f, |sc.properties|, bits, lo, close.0, open.0, s0, w);
    x := ObjectMade(f, w, b.states, open.0);
    ObjectIs(sc, lo, x, OpenPart(f.Fin() + 1), xc, bits);
  }

  /** Nothing inside the object is refused, but the object as a whole has too many states. */
  ghost predicate OverCap(sc: Schema, depth: nat, lo: nat, e: SchemaError)
    requires sc.Object?
  {
    && ObjectFault(sc, depth, lo) == None && ObjectPart(sc, lo).hi > MAX_NFA_STATES
    && e == NfaTooLarge(ObjectPart(sc, lo).hi, MAX_NFA_STATES)
  }

  /** Any-order, at-most-once members over bitmask states; every (mask, member) pair gets its own fresh chain. */
  method CompileObject(b: NfaBuilder, sc: Schema, depth: nat)
    returns (r: Result<(nat, nat), SchemaError>, ghost x: Part, ghost chains: nat)
    requires sc.Object? && |sc.properties| <= MAX_PROPERTIES && depth <= MAX_DEPTH
    modifies b
    ensures r.Ok? ==> Made(old(b.Set()), old(b.states), b.Set(), b.states, r.value, x)
    ensures r.Ok? ==> x.Accepted() == Instances(sc, COMPILED)
    ensures r.Ok? ==> WithinBounds(sc, depth) && b.states <= MAX_NFA_STATES
    ensures r.Ok? ==> 2 * chains == |sc.properties| * Pow2(|sc.properties|)
    ensures r.Ok? ==> x == ObjectPart(sc, old(b.states)) && ObjectFault(sc, depth, old(b.states)) == None
    ensures r.Err? ==> ObjectFault(sc, depth, old(b.states)) == Some(r.error) || OverCap(sc, depth, old(b.states), r.error)
    ensures r.Err? ==> Refusal(r.error, sc, depth)
    ensures r.Err? && r.error.NfaTooLarge? ==> r.error.n == b.states <= ObjectPart(sc, old(b.states)).hi
    decreases sc, 2
  {
    hide NfaBuilder.Set, Made, Part.Accepted, Instances, Cat, Refusal, Links, MaskSet, Rest, Pow2, Pairs, Unset;
    hide Going, Frame.MaskDone, Frame.ClosesFrom, WithinBounds, Reaches, CLOSE, MasksBuilt, MaskBuilt, OpenPart, ClosePart;
    hide BitsOf, ClosingEdges, ObjectPart, MasksFault, MaskFault, ObjectFault, Opened, ShapeOf, RequiredSet, PositionOf;
    ShapeSize(sc.properties, sc.required);
    ObjectFaultSplit(sc, depth, b.states);
    var k := |sc.properties|;
    x, chains := Part({}, 0, 0, 0, 0), 0;
    var bits := RequiredBits(sc.properties, sc.required);
    if bits.Err? {
      UnknownRefused(sc, depth);
      return Err(bits.error), x, chains;
    }
    ghost var s0 := b.Set();
    var lo := b.states;
    ghost var f := Frame(lo, k, ShapeOf(sc.properties, sc.required));
    var open;
    ghost var w;
    open, w := OpenObject(b, f, k);
    PairsNone(k);
    ghost var initial := Opened(lo, k);
    MasksStep(sc, lo, 0, initial);
    ghost var fault := MasksFault(sc, 0, depth, lo, initial);
    for mask := 0 to Pow2(k)
      invariant Going(f, w, b.states, open.0) && b.Set() == s0 + w.es
      invariant Built(w.es, b.states) == MasksBuilt(sc, lo, mask, initial)
      invariant fault == MasksFault(sc, mask, depth, lo, initial)
      invariant forall n: nat :: n < mask ==> f.MaskDone(w.es, n)
      invariant chains == Pairs(k, mask)
      invariant mask > 0 ==> forall j :: 0 <= j < k ==> WithinBounds(sc.properties[j].1, depth + 1)
    {
      ghost var prev := w;
      MasksStep(sc, lo, mask, initial);
      MasksFaultStep(sc, mask, depth, lo, initial);
      var failed;
      ghost var n;
      failed, w, n := MaskMembers(b, f, sc, depth, mask, lo, open.0, s0, w);
      if failed.Some? {
        MemberRefused(sc, depth, failed.value);
        MasksGrow(sc, lo, mask + 1, Pow2(k), initial);
        ObjectGrows(sc, lo);
        return Err(failed.value), x, chains;
      }
      FactsMono(f, prev.es, w.es);
      PairsStep(k, mask);
      chains := chains + n;
    }
    PairsTotal(k);
    MasksFaultStep(sc, Pow2(k), depth, lo, initial);
    x := CloseObject(b, f, sc, bits.value, lo, open, s0, w);
    if b.states > MAX_NFA_STATES {
      TooLarge(b.states, sc, depth);
      return Err(NfaTooLarge(b.states, MAX_NFA_STATES)), x, chains;
    }
    ObjectDone(sc, depth, s0, lo, b.Set(), b.states, (open.0, lo + Pow2(k)), x);
    return Ok((open.0, lo + Pow2(k))), x, chains;
  }

  /** The finished object is the one its schema determines. */
  lemma ObjectIs(sc: Schema, lo: nat, x: Part, open: Part, close: Part, bits: nat)
    requires sc.Object? && bits == BitsOf(sc.properties, sc.required, |sc.required|)
    requires var k := |sc.properties|;
             var b := MasksBuilt(sc, lo, Pow2(k), Opened(lo, k));
             && open == OpenPart(lo + Pow2(k) + 1) && close == ClosePart(b.hi)
             && x == Part(b.es + close.es + {Edge(close.f, Eps, lo + Pow2(k))} + ClosingEdges(bits, lo, close.s, Pow2(k)),
                          lo, close.hi, open.s, lo + Pow2(k))
    ensures x == ObjectPart(sc, lo)
  {
    hide MasksBuilt, OpenPart, ClosePart, ClosingEdges, BitsOf;
  }

  lemma ShapeSize(properties: seq<(string, Schema)>, required: seq<string>)
    ensures |ShapeOf(properties, required).members| == |properties|
    ensures ShapeOf(properties, required).required == RequiredSet(properties, required)
  {
  }

  lemma ObjectFaultSplit(sc: Schema, depth: nat, lo: nat)
    requires sc.Object?
    ensures ObjectFault(sc, depth, lo) ==
            if forall i :: 0 <= i < |sc.required| ==> PositionOf(sc.properties, sc.required[i]) < |sc.properties| then
              MasksFault(sc, 0, depth, lo, Opened(lo, |sc.properties|))
            else Some(InvalidSchema(UnknownRequired))
  {
    hide MasksFault, Pow2, Opened, PositionOf;
  }

  lemma PairsNone(k: nat)
    ensures Pairs(k, 0) == 0 && Pow2(k) > 0
  {
  }

  lemma PairsStep(k: nat, n: nat)
    ensures Pairs(k, n + 1) == Pairs(k, n) + Unset(n, k)
  {
  }

  lemma UnknownRefused(sc: Schema, depth: nat)
    requires sc.Object? && !forall i :: 0 <= i < |sc.required| ==> PositionOf(sc.properties, sc.required[i]) < |sc.properties|
    ensures Refusal(InvalidSchema(UnknownRequired), sc, depth)
  {
  }

  lemma TooLarge(n: nat, sc: Schema, depth: nat)
    requires n > MAX_NFA_STATES
    ensures Refusal(NfaTooLarge(n, MAX_NFA_STATES), sc, depth)
  {
  }

  lemma MemberRefused(sc: Schema, depth: nat, e: SchemaError)
    requires sc.Object? && exists j :: 0 <= j < |sc.properties| && Refusal(e, sc.properties[j].1, depth + 1)
    ensures Refusal(e, sc, depth)
  {
  }

  lemma ObjectDone(sc: Schema, depth: nat, s0: set<Edge>, lo: nat, after: set<Edge>, hi: nat, frag: (nat, nat), x: Part)
    requires sc.Object? && |sc.properties| <= MAX_PROPERTIES && depth <= MAX_DEPTH
    requires forall i :: 0 <= i < |sc.required| ==> PositionOf(sc.properties, sc.required[i]) < |sc.properties|
    requires forall j :: 0 <= j < |sc.properties| ==> WithinBounds(sc.properties[j].1, depth + 1)
    requires x.Valid() && x.lo == lo && x.hi == hi && frag == (x.s, x.f) && after == s0 + x.es
    requires x.Accepted() == ObjectOf(ShapeOf(sc.properties, sc.required).members, ByPlace(RequiredSet(sc.properties, sc.required)))
    ensures Made(s0, lo, after, hi, frag, x) && x.Accepted() == Instances(sc, COMPILED) && WithinBounds(sc, depth)
  {
    hide Part.Accepted, ObjectOf, COMPILED;
    CompiledTexts();
  }

  // ---- values ----

  method TwoWords(b: NfaBuilder, u: string, v: string) returns (frag: (nat, nat), ghost x: Part)
    modifies b
    ensures Made(old(b.Set()), old(b.states), b.Set(), b.states, frag, x) && x.Accepted() == iset{u, v}
    ensures x == Branched(Words(u, v, old(b.states)), old(b.states))
  {
    hide NfaBuilder.Set, Made, Collected, Part.Accepted, AnyIn, Literal, Branches, AllEdges;
    ghost var s0, lo := b.Set(), b.states;
    CollectNone(s0, lo);
    var first, second;
    ghost var xu, xv;
    first, xu := LiteralMade(b, u);
    MadeParts(s0, lo, b.Set(), b.states, first, xu);
    CollectOne(s0, lo, s0, lo, [], [], b.Set(), b.states, first, xu);
    assert [] + [first] == [first] && [] + [xu] == [xu];
    ghost var s1, mid := b.Set(), b.states;
    second, xv := LiteralMade(b, v);
    MadeParts(s1, mid, b.Set(), b.states, second, xv);
    CollectOne(s0, lo, s1, mid, [first], [xu], b.Set(), b.states, second, xv);
    assert [first] + [second] == [first, second] && [xu] + [xv] == [xu, xv];
    CollectedAlt(s0, lo, b.Set(), b.states, [first, second], [xu, xv]);
    x := Alternation([xu, xv], lo, b.states);
    frag := b.Alt([first, second]);
    TwoUnion([xu, xv], u, v);
    assert Words(u, v, lo) == [xu, xv];
  }

  lemma TwoUnion(xs: seq<Part>, u: string, v: string)
    requires |xs| == 2 && xs[0].Accepted() == iset{u} && xs[1].Accepted() == iset{v}
    ensures AnyIn(AcceptedBy(xs)) == iset{u, v}
  {
    hide Part.Accepted;
    var ls := AcceptedBy(xs);
    assert ls[0] == iset{u} && ls[1] == iset{v};
    forall w ensures w in AnyIn(ls) <==> w in iset{u, v} {
      assert InNth(ls, 0, w) <==> w == u;
      assert InNth(ls, 1, w) <==> w == v;
    }
  }

  method CompileEnum(b: NfaBuilder, sc: Schema, depth: nat) returns (r: Result<(nat, nat), SchemaError>, ghost x: Part)
    requires sc.Enum? && depth <= MAX_DEPTH
    modifies b
    ensures r.Ok? ==> Made(old(b.Set()), old(b.states), b.Set(), b.states, r.value, x)
    ensures r.Ok? ==> x.Accepted() == Instances(sc, COMPILED) && WithinBounds(sc, depth)
    ensures r.Ok? ==> x == ValuePart(sc, old(b.states))
    ensures PartFault(sc, depth, old(b.states)) == if r.Ok? then None else Some(r.error)
    ensures r.Err? ==> Refusal(r.error, sc, depth) && !r.error.NfaTooLarge?
  {
    hide NfaBuilder.Set, Made, Collected, Part.Accepted, Instances, COMPILED, PrintableLit, LitText, Literal;
    hide LitParts, ValuePart, Alternation, StandsFor;
    CompiledTexts();
    EnumIs(sc, b.states);
    ghost var s0, lo := b.Set(), b.states;
    ghost var xs: seq<Part> := [];
    var frags: seq<(nat, nat)> := [];
    x := Part({}, 0, 0, 0, 0);
    CollectNone(s0, lo);
    for i := 0 to |sc.lits|
      invariant Collected(s0, lo, b.Set(), b.states, frags, xs) && |xs| == i
      invariant xs == LitParts(sc.lits, i, lo) && b.states == EndOf(xs, lo)
      invariant forall h :: 0 <= h < i ==> PrintableLit(sc.lits[h]) && xs[h].Accepted() == COMPILED.lit(sc.lits[h])
    {
      LitsStep(sc.lits, i, lo);
      ghost var s1, mid := b.Set(), b.states;
      var text := TextOf(sc.lits[i]);
      if text.Err? {
        return Err(text.error), x;
      }
      var frag;
      ghost var xi;
      frag, xi := LiteralMade(b, text.value);
      MadeParts(s1, mid, b.Set(), b.states, frag, xi);
      CollectOne(s0, lo, s1, mid, frags, xs, b.Set(), b.states, frag, xi);
      frags, xs := frags + [frag], xs + [xi];
    }
    CollectedAlt(s0, lo, b.Set(), b.states, frags, xs);
    x := Alternation(xs, lo, b.states);
    var frag := b.Alt(frags);
    EnumDone(sc, xs);
    return Ok(frag), x;
  }

  lemma EnumIs(sc: Schema, lo: nat)
    requires sc.Enum?
    ensures var xs := LitParts(sc.lits, |sc.lits|, lo);
            ValuePart(sc, lo) == Alternation(xs, lo, EndOf(xs, lo)) && LitParts(sc.lits, 0, lo) == []
  {
    hide LitParts, Alternation;
    LitsNone(sc.lits, lo);
  }

  lemma EnumDone(sc: Schema, xs: seq<Part>)
    requires sc.Enum? && |xs| == |sc.lits|
    requires forall h :: 0 <= h < |xs| ==> xs[h].Accepted() == COMPILED.lit(sc.lits[h])
    ensures AnyIn(AcceptedBy(xs)) == Instances(sc, COMPILED)
  {
    hide Part.Accepted, LitText;
    assert AcceptedBy(xs) == seq(|sc.lits|, i requires 0 <= i < |sc.lits| => COMPILED.lit(sc.lits[i]));
  }

  method CompileAnyOf(b: NfaBuilder, sc: Schema, depth: nat) returns (r: Result<(nat, nat), SchemaError>, ghost x: Part)
    requires sc.AnyOf? && depth <= MAX_DEPTH
    modifies b
    ensures r.Ok? ==> Made(old(b.Set()), old(b.states), b.Set(), b.states, r.value, x)
    ensures r.Ok? ==> x.Accepted() == Instances(sc, COMPILED) && WithinBounds(sc, depth)
    ensures r.Ok? ==> x == ValuePart(sc, old(b.states))
    ensures PartFault(sc, depth, old(b.states)) == if r.Ok? then None else Some(r.error)
    ensures r.Err? ==> Refusal(r.error, sc, depth)
    ensures r.Err? && r.error.NfaTooLarge? ==> r.error.n == b.states <= ValuePart(sc, old(b.states)).hi
    decreases sc, 2
  {
    hide NfaBuilder.Set, Made, Collected, Part.Accepted, Instances, COMPILED, WithinBounds, Refusal, ValuePart, SchemaParts;
    hide SchemasFault, ValueFault, PartFault;
    AnyOfIs(sc, b.states);
    AnyOfFaultIs(sc, depth, b.states);
    ghost var s0, lo := b.Set(), b.states;
    ghost var xs: seq<Part> := [];
    var frags: seq<(nat, nat)> := [];
    x := Part({}, 0, 0, 0, 0);
    CollectNone(s0, lo);
    for i := 0 to |sc.schemas|
      invariant Collected(s0, lo, b.Set(), b.states, frags, xs) && |xs| == i
      invariant forall h :: 0 <= h < i ==> WithinBounds(sc.schemas[h], depth + 1)
      invariant forall h :: 0 <= h < i ==> xs[h].Accepted() == Instances(sc.schemas[h], COMPILED)
      invariant xs == SchemaParts(sc, i, lo) && b.states == EndOf(xs, lo)
      invariant PartFault(sc, depth, lo) == SchemasFault(sc, i, depth, lo)
    {
      PartsStep(sc, i, lo);
      SchemasStep(sc, i, depth, lo);
      ghost var s1, mid := b.Set(), b.states;
      var frag;
      ghost var xi;
      frag, xi := CompileValue(b, sc.schemas[i], depth + 1);
      if frag.Err? {
        BranchRefused(sc, i, depth, frag.error);
        PartsGrow(sc, i + 1, |sc.schemas|, lo);
        return Err(frag.error), x;
      }
      MadeParts(s1, mid, b.Set(), b.states, frag.value, xi);
      CollectOne(s0, lo, s1, mid, frags, xs, b.Set(), b.states, frag.value, xi);
      frags, xs := frags + [frag.value], xs + [xi];
    }
    SchemasStep(sc, |sc.schemas|, depth, lo);
    CollectedAlt(s0, lo, b.Set(), b.states, frags, xs);
    x := Alternation(xs, lo, b.states);
    var frag := b.Alt(frags);
    AnyOfDone(sc, depth, xs);
    return Ok(frag), x;
  }

  lemma AnyOfFaultIs(sc: Schema, depth: nat, lo: nat)
    requires sc.AnyOf?
    ensures PartFault(sc, depth, lo) == SchemasFault(sc, 0, depth, lo)
  {
    hide SchemasFault;
  }

  lemma AnyOfIs(sc: Schema, lo: nat)
    requires sc.AnyOf?
    ensures ValuePart(sc, lo) == Branched(SchemaParts(sc, |sc.schemas|, lo), lo) && SchemaParts(sc, 0, lo) == []
  {
    hide Branched;
  }

  lemma BranchRefused(sc: Schema, i: nat, depth: nat, e: SchemaError)
    requires sc.AnyOf? && i < |sc.schemas| && Refusal(e, sc.schemas[i], depth + 1)
    ensures Refusal(e, sc, depth)
  {
  }

  lemma AnyOfDone(sc: Schema, depth: nat, xs: seq<Part>)
    requires sc.AnyOf? && |xs| == |sc.schemas| && depth <= MAX_DEPTH
    requires forall h :: 0 <= h < |xs| ==> WithinBounds(sc.schemas[h], depth + 1)
    requires forall h :: 0 <= h < |xs| ==> xs[h].Accepted() == Instances(sc.schemas[h], COMPILED)
    ensures AnyIn(AcceptedBy(xs)) == Instances(sc, COMPILED) && WithinBounds(sc, depth)
  {
    hide Part.Accepted, COMPILED;
    assert AcceptedBy(xs) == seq(|sc.schemas|, i requires 0 <= i < |sc.schemas| => Instances(sc.schemas[i], COMPILED));
  }

  method CompileArray(b: NfaBuilder, sc: Schema, depth: nat) returns (r: Result<(nat, nat), SchemaError>, ghost x: Part)
    requires sc.Array? && depth <= MAX_DEPTH
    modifies b
    ensures r.Ok? ==> Made(old(b.Set()), old(b.states), b.Set(), b.states, r.value, x)
    ensures r.Ok? ==> x.Accepted() == Instances(sc, COMPILED) && WithinBounds(sc, depth)
    ensures r.Ok? ==> x == ValuePart(sc, old(b.states))
    ensures PartFault(sc, depth, old(b.states)) == if r.Ok? then None else Some(r.error)
    ensures r.Err? ==> Refusal(r.error, sc, depth)
    ensures r.Err? && r.error.NfaTooLarge? ==> r.error.n == b.states <= ValuePart(sc, old(b.states)).hi
    decreases sc, 2
  {
    hide NfaBuilder.Set, Made, Part.Accepted, Instances, WithinBounds, Refusal, Arrays.ArrayPart, ValuePart, ValueFault, PartFault;
    ArrayIs(sc, b.states);
    ArrayFaultIs(sc, depth, b.states);
    ghost var s0, lo := b.Set(), b.states;
    var item;
    ghost var xi;
    item, xi := CompileValue(b, sc.items, depth + 1);
    x := xi;
    if item.Err? {
      ItemRefused(sc, depth, item.error);
      return Err(item.error), x;
    }
    ghost var s1, mid := b.Set(), b.states;
    MadeParts(s0, lo, s1, mid, item.value, xi);
    var frag := Arrays.ArrayFrag(b, xi, item.value);
    x := Arrays.ArrayPart(xi);
    ArrayDone(sc, depth, s0, lo, s1, b.Set(), b.states, frag, xi);
    return Ok(frag), x;
  }

  lemma ArrayFaultIs(sc: Schema, depth: nat, lo: nat)
    requires sc.Array?
    ensures PartFault(sc, depth, lo) == ValueFault(sc.items, depth + 1, lo)
  {
    hide ValueFault;
  }

  lemma ItemRefused(sc: Schema, depth: nat, e: SchemaError)
    requires sc.Array? && Refusal(e, sc.items, depth + 1)
    ensures Refusal(e, sc, depth)
  {
  }

  lemma ArrayDone(sc: Schema, depth: nat, s0: set<Edge>, lo: nat, s1: set<Edge>, after: set<Edge>, hi: nat, frag: (nat, nat), xi: Part)
    requires sc.Array? && depth <= MAX_DEPTH && WithinBounds(sc.items, depth + 1)
    requires xi.Valid() && xi.lo == lo && s1 == s0 + xi.es && xi.Accepted() == Instances(sc.items, COMPILED)
    requires after + xi.es == s1 + Arrays.ArrayPart(xi).es && xi.es <= after
    requires frag == (Arrays.ArrayPart(xi).s, Arrays.ArrayPart(xi).f) && hi == Arrays.ArrayPart(xi).hi
    ensures Made(s0, lo, after, hi, frag, Arrays.ArrayPart(xi))
    ensures Arrays.ArrayPart(xi).Accepted() == Instances(sc, COMPILED) && WithinBounds(sc, depth)
  {
    hide Part.Accepted, Arrays.WsPart, Arrays.ArrayGlue, ArrayOf;
    Arrays.ArrayExact(xi);
  }

  lemma NumberDone(sc: Schema, s0: set<Edge>, lo: nat, full: bool)
    requires sc == (if full then Schema.Number else Schema.Integer)
    ensures var x := Numbers.NumberPart(lo, full);
            Made(s0, lo, s0 + x.es, x.hi, (x.s, x.f), x) && x.Accepted() == Instances(sc, COMPILED)
  {
    hide Part.Accepted, Numbers.NumberEdges, INTEGER;
    Numbers.NumberExact(lo, full);
    if !full {
      forall w ensures w in Numbers.NumberScan(false).Texts(Numbers.NUM) <==> w in INTEGER {
        NumberLaws.IntegerExact(w);
      }
    }
  }

  lemma TextDone(s0: set<Edge>, lo: nat)
    ensures var x := Texts.TextPart(lo);
            Made(s0, lo, s0 + x.es, x.hi, (x.s, x.f), x) && x.Accepted() == Instances(Schema.String, COMPILED)
  {
    hide Part.Accepted, Texts.TextEdges;
    Texts.TextExact(lo);
  }

  /** `compile_value`: one fresh fragment reading exactly the schema's instances in the compiled dialect. */
  method CompileValue(b: NfaBuilder, sc: Schema, depth: nat) returns (r: Result<(nat, nat), SchemaError>, ghost x: Part)
    modifies b
    ensures r.Ok? ==> Made(old(b.Set()), old(b.states), b.Set(), b.states, r.value, x)
    ensures r.Ok? ==> x.Accepted() == Instances(sc, COMPILED)
    ensures r.Ok? ==> WithinBounds(sc, depth) && b.states <= MAX_NFA_STATES
    ensures r.Ok? ==> x == ValuePart(sc, old(b.states))
    ensures ValueFault(sc, depth, old(b.states)) == if r.Ok? then None else Some(r.error)
    ensures r.Err? ==> Refusal(r.error, sc, depth)
    ensures r.Err? && r.error.NfaTooLarge? ==> r.error.n == b.states <= ValuePart(sc, old(b.states)).hi
    decreases sc, 3
  {
    hide NfaBuilder.Set, Made, Part.Accepted, COMPILED, INTEGER;
    hide Numbers.NumberPart, Texts.TextPart, ValuePart, ObjectPart, Branched, Literal, ValueFault, PartFault, ObjectFault;
    SimpleIs(sc, b.states);
    ValueFaultIs(sc, depth, b.states);
    x := Part({}, 0, 0, 0, 0);
    if depth > MAX_DEPTH {
      return Err(TooDeep(depth, MAX_DEPTH)), x;
    }
    ghost var s0, lo := b.Set(), b.states;
    match sc {
      case Null =>
        var f;
        f, x := LiteralMade(b, "null");
        r := Ok(f);
      case Boolean =>
        var f;
        f, x := TwoWords(b, "true", "false");
        r := Ok(f);
      case Integer =>
        var f := Numbers.NumberFrag(b, true);
        x := Numbers.NumberPart(lo, false);
        NumberDone(sc, s0, lo, false);
        r := Ok(f);
      case Number =>
        var f := Numbers.NumberFrag(b, false);
        x := Numbers.NumberPart(lo, true);
        NumberDone(sc, s0, lo, true);
        r := Ok(f);
      case String =>
        var f := Texts.StringFrag(b);
        x := Texts.TextPart(lo);
        TextDone(s0, lo);
        r := Ok(f);
      case Enum(_) =>
        r, x := CompileEnum(b, sc, depth);
      case AnyOf(_) =>
        r, x := CompileAnyOf(b, sc, depth);
      case Array(_) =>
        r, x := CompileArray(b, sc, depth);
      case Object(properties, _) =>
        if |properties| > MAX_PROPERTIES {
          return Err(TooManyProperties(|properties|, MAX_PROPERTIES)), x;
        }
        ghost var chains;
        r, x, chains := CompileObject(b, sc, depth);
    }
    if r.Ok? { MadeParts(s0, lo, b.Set(), b.states, r.value, x); }
    if r.Ok? && b.states > MAX_NFA_STATES {
      return Err(NfaTooLarge(b.states, MAX_NFA_STATES)), x;
    }
  }

  lemma ValueFaultIs(sc: Schema, depth: nat, lo: nat)
    ensures ValueFault(sc, depth, lo) ==
            if depth > MAX_DEPTH then Some(TooDeep(depth, MAX_DEPTH))
            else if PartFault(sc, depth, lo).Some? then PartFault(sc, depth, lo)
            else if ValuePart(sc, lo).hi > MAX_NFA_STATES then Some(NfaTooLarge(ValuePart(sc, lo).hi, MAX_NFA_STATES))
            else None
    ensures !sc.Enum? && !sc.AnyOf? && !sc.Array? && !sc.Object? ==> PartFault(sc, depth, lo) == None
    ensures sc.Object? ==>
              PartFault(sc, depth, lo) ==
              if |sc.properties| > MAX_PROPERTIES then Some(TooManyProperties(|sc.properties|, MAX_PROPERTIES))
              else ObjectFault(sc, depth, lo)
  {
    hide ObjectFault, ValuePart;
  }

  /** The part of a schema without members or alternatives of its own. */
  lemma SimpleIs(sc: Schema, lo: nat)
    ensures sc.Null? ==> ValuePart(sc, lo) == Literal("null", lo)
    ensures sc.Boolean? ==> ValuePart(sc, lo) == Branched(Words("true", "false", lo), lo)
    ensures sc.Integer? || sc.Number? ==> ValuePart(sc, lo) == Numbers.NumberPart(lo, sc.Number?)
    ensures sc.String? ==> ValuePart(sc, lo) == Texts.TextPart(lo)
    ensures sc.Object? ==> ValuePart(sc, lo) == ObjectPart(sc, lo)
  {
    hide Numbers.NumberPart, Texts.TextPart, ObjectPart, Branched, Literal;
  }

  /** Exactly the schemas that compile to a character automaton. */
  predicate FitsCaps(sc: Schema) {
    WithinBounds(sc, 0) && ValuePart(sc, 0).hi <= MAX_NFA_STATES
  }

  /** `top_level`: one instance, then padding whitespace. */
  method TopLevel(b: NfaBuilder, sc: Schema) returns (r: Result<(nat, nat), SchemaError>, ghost x: Part)
    requires b.Set() == {} && b.states == 0
    modifies b
    ensures r.Ok? ==> Made({}, 0, b.Set(), b.states, r.value, x) && x.Accepted() == Padded(sc, COMPILED)
    ensures r.Ok? ==> x == TopPart(sc)
    ensures r.Ok? <==> FitsCaps(sc)
    ensures ValueFault(sc, 0, 0) == if r.Ok? then None else Some(r.error)
    ensures r.Err? ==> Refusal(r.error, sc, 0)
    ensures r.Err? && r.error.NfaTooLarge? ==> r.error.n == b.states <= ValuePart(sc, 0).hi
  {
    hide NfaBuilder.Set, Made, Part.Accepted, COMPILED, Instances, WithinBounds, Arrays.WsPart, Cat, WS, ValuePart, ValueFault;
    var value;
    ghost var xv;
    value, xv := CompileValue(b, sc, 0);
    x := xv;
    if value.Err? {
      return Err(value.error), x;
    }
    MadeParts({}, 0, b.Set(), b.states, value.value, xv);
    ghost var s1, mid := b.Set(), b.states;
    var pad := Arrays.Ws(b);
    WsMade(s1, mid, b.Set(), b.states, pad);
    MadeSequence({}, 0, s1, mid, b.Set(), b.states, value.value, pad, xv, Arrays.WsPart(mid));
    b.AddEps(value.value.1, pad.0);
    x := Sequence(xv, Arrays.WsPart(mid));
    return Ok((value.value.0, pad.1)), x;
  }

  lemma WsMade(s1: set<Edge>, mid: nat, s2: set<Edge>, hi: nat, pad: (nat, nat))
    requires var x := Arrays.WsPart(mid); s2 == s1 + x.es && pad == (x.s, x.f) && hi == x.hi
    ensures Made(s1, mid, s2, hi, pad, Arrays.WsPart(mid)) && Arrays.WsPart(mid).Accepted() == WS
  {
    hide Arrays.WsPart, Part.Accepted, WS;
    Arrays.WsExact(mid);
    Arrays.WsEnds(mid);
  }
}
