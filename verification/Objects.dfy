/** The object construction over masks: what each mask state can read, and why fresh chains make that exact. */
module Objects {
  import opened Prelude
  import opened Languages
  import opened Nfas
  import opened Bits
  import J = Json

  ghost const OPEN: Lang := Cat(Chr('{'), J.WS)
  ghost const CLOSE: Lang := Cat(J.WS, Chr('}'))

  /** The members of an object, each as the language of `"key" : value`, and the required positions. */
  datatype Shape = Shape(members: seq<Lang>, required: set<nat>)

  /** The positions `js` can still follow once `done` has been emitted. */
  ghost predicate Completes(o: Shape, done: set<nat>, js: seq<nat>) {
    && (forall i :: 0 <= i < |js| ==> js[i] < |o.members| && js[i] !in done)
    && (forall i, j :: 0 <= i < j < |js| ==> js[i] != js[j])
    && (forall r :: r in o.required ==> r in done || r in js)
  }

  ghost predicate RestBy(o: Shape, done: set<nat>, js: seq<nat>, w: string) {
    Completes(o, done, js) && w in Cat(J.Members(o.members, js, done == {}), CLOSE)
  }

  ghost predicate InRest(o: Shape, done: set<nat>, w: string) {
    exists js :: RestBy(o, done, js, w)
  }

  /** What may follow once exactly `done` has been emitted. */
  ghost function Rest(o: Shape, done: set<nat>): Lang {
    iset w: string | InRest(o, done, w)
  }

  /** One more member, with its separator unless it is the first. */
  ghost function StepLang(o: Shape, done: set<nat>, j: nat): Lang
    requires j < |o.members|
  {
    if done == {} then o.members[j] else Cat(J.SEPARATOR, o.members[j])
  }

  lemma RestClose(o: Shape, done: set<nat>)
    requires o.required <= done
    ensures CLOSE <= Rest(o, done)
  {
    hide Cat, CLOSE;
    CatEpsilon(CLOSE);
    assert J.Members(o.members, [], done == {}) == EPSILON;
    forall w | w in CLOSE ensures w in Rest(o, done) {
      assert RestBy(o, done, [], w);
    }
  }

  lemma CompletesCons(o: Shape, done: set<nat>, j: nat, js: seq<nat>)
    requires j < |o.members| && j !in done && Completes(o, done + {j}, js)
    ensures Completes(o, done, [j] + js)
  {
    var ks := [j] + js;
    forall i | 0 <= i < |js| ensures js[i] != j && js[i] !in done { assert js[i] !in done + {j}; }
    forall r | r in o.required ensures r in done || r in ks {
      if r in js { var i :| 0 <= i < |js| && js[i] == r; assert ks[i + 1] == r; }
      if r == j { assert ks[0] == r; }
    }
  }

  lemma CompletesTail(o: Shape, done: set<nat>, js: seq<nat>)
    requires Completes(o, done, js) && js != []
    ensures js[0] < |o.members| && js[0] !in done && Completes(o, done + {js[0]}, js[1..])
  {
    forall r | r in o.required ensures r in done + {js[0]} || r in js[1..] {
      if r in js && r != js[0] { var i :| 0 <= i < |js| && js[i] == r; assert js[1..][i - 1] == r; }
    }
  }

  lemma MembersCons(o: Shape, done: set<nat>, j: nat, js: seq<nat>)
    requires j < |o.members| && forall i :: 0 <= i < |js| ==> js[i] < |o.members|
    ensures J.Members(o.members, [j] + js, done == {}) == Cat(StepLang(o, done, j), J.Members(o.members, js, false))
  {
    assert ([j] + js)[1..] == js;
  }

  /** Emitting one more member stays within what may follow. */
  lemma RestStep(o: Shape, done: set<nat>, j: nat)
    requires j < |o.members| && j !in done
    ensures Cat(StepLang(o, done, j), Rest(o, done + {j})) <= Rest(o, done)
  {
    hide Cat, StepLang, J.Members, Completes;
    forall w | w in Cat(StepLang(o, done, j), Rest(o, done + {j})) ensures w in Rest(o, done) {
      var u, v := CatSplit(StepLang(o, done, j), Rest(o, done + {j}), w);
      var js :| RestBy(o, done + {j}, js, v);
      CompletesCons(o, done, j, js);
      CompletesRange(o, done + {j}, js);
      MembersCons(o, done, j, js);
      CatAssoc(StepLang(o, done, j), J.Members(o.members, js, false), CLOSE);
      CatIn(StepLang(o, done, j), Cat(J.Members(o.members, js, false), CLOSE), u, v);
      assert RestBy(o, done, [j] + js, w);
    }
  }

  lemma CompletesRange(o: Shape, done: set<nat>, js: seq<nat>)
    requires Completes(o, done, js)
    ensures forall i :: 0 <= i < |js| ==> js[i] < |o.members|
  {
  }

  /** The whole object: the opening, then everything that may follow the empty mask. */
  lemma ObjectIs(o: Shape)
    ensures J.ObjectOf(o.members, J.ByPlace(o.required)) == Cat(OPEN, Rest(o, {}))
  {
    hide Cat, J.Members;
    forall w | w in J.ObjectOf(o.members, J.ByPlace(o.required)) ensures w in Cat(OPEN, Rest(o, {})) {
      var js :| J.Picks(js, |o.members|, J.ByPlace(o.required)) && w in Cat(OPEN, Cat(J.Members(o.members, js, true), CLOSE));
      var u, v := CatSplit(OPEN, Cat(J.Members(o.members, js, true), CLOSE), w);
      assert RestBy(o, {}, js, v);
      CatIn(OPEN, Rest(o, {}), u, v);
    }
    forall w | w in Cat(OPEN, Rest(o, {})) ensures w in J.ObjectOf(o.members, J.ByPlace(o.required)) {
      var u, v := CatSplit(OPEN, Rest(o, {}), w);
      var js :| RestBy(o, {}, js, v);
      CatIn(OPEN, Cat(J.Members(o.members, js, true), CLOSE), u, v);
      assert J.Picks(js, |o.members|, J.ByPlace(o.required));
    }
  }

  // ---- the machine under construction ----

  /** The mask states `lo .. lo + 2^k` and the final state after them. */
  datatype Frame = Frame(lo: nat, k: nat, o: Shape) {
    ghost predicate Valid() {
      |o.members| == k
    }

    function Fin(): nat { lo + Pow2(k) }

    ghost function Done(m: nat): set<nat> { MaskSet(m, k) }

    /** The labelling is closed along every edge so far and is exact at the mask states. */
    ghost predicate Labelled(es: set<Edge>, hi: nat, r: nat -> Lang) {
      && Fin() < hi && Closed(es, r)
      && (forall e :: e in es ==> lo <= e.src < hi && lo <= e.dst < hi)
      && (forall m: nat :: m < Pow2(k) ==> MaskLabel(m, r))
      && r(Fin()) == EPSILON
    }

    ghost predicate MaskLabel(m: nat, r: nat -> Lang) {
      r(lo + m) == Rest(o, Done(m))
    }

    /** Member `j` can be read from mask `m` into the mask with `j` added. */
    ghost predicate Chained(es: set<Edge>, m: nat, j: nat)
      requires Valid() && j < k
    {
      Reaches(es, lo + m, StepLang(o, Done(m), j), lo + SetBit(m, j))
    }

    ghost predicate MaskDone(es: set<Edge>, m: nat)
      requires Valid()
    {
      forall j: nat :: j < k && !Bit(m, j) ==> Chained(es, m, j)
    }

    ghost predicate ClosesFrom(es: set<Edge>, m: nat) {
      o.required <= Done(m) ==> Reaches(es, lo + m, CLOSE, Fin())
    }

    /** `entry` is where the members of mask `m` start. */
    ghost predicate EntryOf(es: set<Edge>, r: nat -> Lang, m: nat, entry: nat)
      requires Valid()
    {
      && (forall i: nat :: i < k && i !in Done(m) ==> NextWithin(r, m, i, entry))
      && (if m == 0 then entry == lo else Reaches(es, lo + m, J.SEPARATOR, entry))
    }

    ghost predicate NextWithin(r: nat -> Lang, m: nat, i: nat, entry: nat)
      requires Valid() && i < k
    {
      Cat(o.members[i], Rest(o, Done(m) + {i})) <= r(entry)
    }
  }

  ghost predicate Reaches(es: set<Edge>, p: nat, l: Lang, q: nat) {
    forall u :: u in l ==> Reads(es, p, u, q)
  }

  lemma ReachesMono(es: set<Edge>, fs: set<Edge>, p: nat, l: Lang, q: nat)
    requires es <= fs && Reaches(es, p, l, q)
    ensures Reaches(fs, p, l, q)
  {
    forall u | u in l ensures Reads(fs, p, u, q) { ReadsMono(es, fs, p, u, q); }
  }

  lemma ReachesCat(es: set<Edge>, p: nat, a: Lang, q: nat, b: Lang, t: nat)
    requires Reaches(es, p, a, q) && Reaches(es, q, b, t)
    ensures Reaches(es, p, Cat(a, b), t)
  {
    hide Reads, Cat;
    forall w | w in Cat(a, b) ensures Reads(es, p, w, t) {
      var u, v := CatSplit(a, b, w);
      ReadsConcat(es, p, u, q, v, t);
    }
  }

  lemma ReachesHop(es: set<Edge>, p: nat, q: nat, l: Lang, t: nat)
    requires Edge(p, Eps, q) in es && Reaches(es, q, l, t)
    ensures Reaches(es, p, l, t)
  {
    forall u | u in l ensures Reads(es, p, u, t) { ReadsAfterEps(es, p, q, u, t); }
  }

  lemma ReachesThen(es: set<Edge>, p: nat, l: Lang, q: nat, t: nat)
    requires Reaches(es, p, l, q) && Edge(q, Eps, t) in es
    ensures Reaches(es, p, l, t)
  {
    forall u | u in l ensures Reads(es, p, u, t) { ReadsThenEps(es, p, u, q, t); }
  }

  lemma PartReaches(es: set<Edge>, x: Part)
    requires x.es <= es
    ensures Reaches(es, x.s, x.Accepted(), x.f)
  {
    forall u | u in x.Accepted() ensures Reads(es, x.s, u, x.f) { ReadsMono(x.es, es, x.s, u, x.f); }
  }

  /** Every fact about what can be read survives more edges. */
  lemma FactsMono(f: Frame, es: set<Edge>, fs: set<Edge>)
    requires f.Valid() && es <= fs
    ensures forall m: nat, j: nat :: j < f.k && f.Chained(es, m, j) ==> f.Chained(fs, m, j)
    ensures forall m: nat :: f.MaskDone(es, m) ==> f.MaskDone(fs, m)
    ensures forall m: nat :: f.ClosesFrom(es, m) ==> f.ClosesFrom(fs, m)
  {
    hide Reaches;
    forall m: nat, j: nat | j < f.k && f.Chained(es, m, j) ensures f.Chained(fs, m, j) {
      ReachesMono(es, fs, f.lo + m, StepLang(f.o, f.Done(m), j), f.lo + SetBit(m, j));
    }
    forall m: nat | f.ClosesFrom(es, m) ensures f.ClosesFrom(fs, m) {
      if f.o.required <= f.Done(m) { ReachesMono(es, fs, f.lo + m, CLOSE, f.Fin()); }
    }
  }

  ghost function Extend(r: nat -> Lang, x: Part, k: Lang): nat -> Lang {
    (p: nat) => if x.Owns(p) then x.Residual(p, k) else r(p)
  }

  /** A fresh part extends the labelling. */
  lemma AddPart(f: Frame, es: set<Edge>, hi: nat, r: nat -> Lang, x: Part, k: Lang)
    requires f.Labelled(es, hi, r) && x.Valid() && x.lo == hi
    ensures f.Labelled(es + x.es, x.hi, Extend(r, x, k))
    ensures Extend(r, x, k)(x.s) == Cat(x.Accepted(), k) && k <= Extend(r, x, k)(x.f)
    ensures forall p: nat :: p < hi ==> Extend(r, x, k)(p) == r(p)
  {
    hide Part.Accepted, Part.Residual, Rest, EdgeClosed;
    var r2 := Extend(r, x, k);
    x.ResidualClosed(k, r2);
    x.ResidualEnds(k);
    forall e | e in es ensures EdgeClosed(e, r2) {
      SameClosed(e, r, r2);
    }
    forall m: nat | m < Pow2(f.k) ensures f.MaskLabel(m, r2) {
      assert f.MaskLabel(m, r);
    }
  }

  lemma SameClosed(e: Edge, r: nat -> Lang, r2: nat -> Lang)
    requires EdgeClosed(e, r) && r(e.src) == r2(e.src) && r(e.dst) == r2(e.dst)
    ensures EdgeClosed(e, r2)
  {
  }

  lemma AddMove(f: Frame, es: set<Edge>, hi: nat, r: nat -> Lang, p: nat, q: nat)
    requires f.Labelled(es, hi, r) && f.lo <= p < hi && f.lo <= q < hi && r(q) <= r(p)
    ensures f.Labelled(es + {Edge(p, Eps, q)}, hi, r)
  {
    hide Rest;
  }

  ghost function StartLabel(f: Frame): nat -> Lang {
    (p: nat) => if f.lo <= p < f.Fin() then Rest(f.o, f.Done(p - f.lo)) else if p == f.Fin() then EPSILON else iset{}
  }

  lemma StartLabelled(f: Frame)
    ensures f.Labelled({}, f.Fin() + 1, StartLabel(f))
  {
    hide Rest, MaskSet;
    forall m: nat | m < Pow2(f.k) ensures f.MaskLabel(m, StartLabel(f)) {
      assert f.lo + m - f.lo == m && f.lo <= f.lo + m < f.Fin();
      assert StartLabel(f)(f.lo + m) == Rest(f.o, f.Done(f.lo + m - f.lo));
    }
  }

  lemma MaskLabelAt(f: Frame, es: set<Edge>, hi: nat, r: nat -> Lang, m: nat)
    requires f.Labelled(es, hi, r) && m < Pow2(f.k)
    ensures r(f.lo + m) == Rest(f.o, f.Done(m)) && f.lo + m < hi
  {
    assert f.MaskLabel(m, r);
  }

  /** The opening `{ ws`. */
  lemma OpenAdded(f: Frame, x: Part)
    requires f.Valid() && x.Valid() && x.lo == f.Fin() + 1 && x.Accepted() == OPEN
    ensures var r := Extend(StartLabel(f), x, Rest(f.o, {}));
            var es := x.es + {Edge(x.f, Eps, f.lo)};
            && f.Labelled(es, x.hi, r) && r(x.s) == Cat(OPEN, Rest(f.o, {}))
            && Reaches(es, x.s, OPEN, f.lo)
  {
    hide Rest, Part.Accepted, Reaches, Extend, StartLabel, Frame.Labelled, Cat;
    var r := Extend(StartLabel(f), x, Rest(f.o, {}));
    var es := x.es + {Edge(x.f, Eps, f.lo)};
    StartLabelled(f);
    AddPart(f, {}, f.Fin() + 1, StartLabel(f), x, Rest(f.o, {}));
    assert {} + x.es == x.es;
    MaskLabelAt(f, x.es, x.hi, r, 0);
    MaskEmpty(0, f.k);
    AddMove(f, x.es, x.hi, r, x.f, f.lo);
    PartReaches(es, x);
    ReachesThen(es, x.s, OPEN, x.f, f.lo);
  }

  /** The first member starts at the empty mask itself. */
  lemma FirstEntry(f: Frame, es: set<Edge>, hi: nat, r: nat -> Lang)
    requires f.Valid() && f.Labelled(es, hi, r)
    ensures f.EntryOf(es, r, 0, f.lo)
  {
    hide Rest, Cat;
    MaskLabelAt(f, es, hi, r, 0);
    MaskEmpty(0, f.k);
    forall i: nat | i < f.k && i !in f.Done(0) ensures f.NextWithin(r, 0, i, f.lo) {
      RestStep(f.o, {}, i);
    }
  }

  /** Everything that may follow a separator after `done`. */
  ghost predicate InNext(o: Shape, done: set<nat>, w: string) {
    exists i: nat :: NextBy(o, done, i, w)
  }

  ghost predicate NextBy(o: Shape, done: set<nat>, i: nat, w: string) {
    i < |o.members| && i !in done && w in Cat(o.members[i], Rest(o, done + {i}))
  }

  ghost function Next(o: Shape, done: set<nat>): Lang {
    iset w: string | InNext(o, done, w)
  }

  lemma SeparatorWithin(o: Shape, done: set<nat>)
    requires done != {}
    ensures Cat(J.SEPARATOR, Next(o, done)) <= Rest(o, done)
  {
    hide Cat, Rest, J.SEPARATOR;
    forall w | w in Cat(J.SEPARATOR, Next(o, done)) ensures w in Rest(o, done) {
      var u, v := CatSplit(J.SEPARATOR, Next(o, done), w);
      var i: nat :| NextBy(o, done, i, v);
      RestStep(o, done, i);
      CatAssoc(J.SEPARATOR, o.members[i], Rest(o, done + {i}));
      CatIn(J.SEPARATOR, Cat(o.members[i], Rest(o, done + {i})), u, v);
    }
  }

  /** A fresh separator before the members of a later mask. */
  lemma SeparatorAdded(f: Frame, es: set<Edge>, hi: nat, r: nat -> Lang, m: nat, x: Part)
    requires f.Valid() && f.Labelled(es, hi, r) && 0 < m < Pow2(f.k)
    requires x.Valid() && x.lo == hi && x.Accepted() == J.SEPARATOR
    ensures var r2 := Extend(r, x, Next(f.o, f.Done(m)));
            var es2 := es + x.es + {Edge(f.lo + m, Eps, x.s)};
            f.Labelled(es2, x.hi, r2) && f.EntryOf(es2, r2, m, x.f)
  {
    hide Rest, Part.Accepted, Reaches, Extend, Frame.Labelled, Cat, J.SEPARATOR;
    var r2 := Extend(r, x, Next(f.o, f.Done(m)));
    var es2 := es + x.es + {Edge(f.lo + m, Eps, x.s)};
    FinLabel(f, es, hi, r);
    AddPart(f, es, hi, r, x, Next(f.o, f.Done(m)));
    MaskLabelAt(f, es + x.es, x.hi, r2, m);
    MaskEmpty(m, f.k);
    SeparatorWithin(f.o, f.Done(m));
    AddMove(f, es + x.es, x.hi, r2, f.lo + m, x.s);
    PartReaches(es2, x);
    ReachesHop(es2, f.lo + m, x.s, J.SEPARATOR, x.f);
    forall i: nat | i < f.k && i !in f.Done(m) ensures f.NextWithin(r2, m, i, x.f) {
      forall w | w in Cat(f.o.members[i], Rest(f.o, f.Done(m) + {i})) ensures w in Next(f.o, f.Done(m)) {
        assert NextBy(f.o, f.Done(m), i, w);
      }
    }
  }

  /** A fresh chain for member `j` of mask `m`. */
  lemma MemberAdded(f: Frame, es: set<Edge>, hi: nat, r: nat -> Lang, m: nat, j: nat, entry: nat, x: Part)
    requires f.Valid() && f.Labelled(es, hi, r) && m < Pow2(f.k) && j < f.k && !Bit(m, j)
    requires f.EntryOf(es, r, m, entry) && f.lo <= entry < hi
    requires x.Valid() && x.lo == hi && x.Accepted() == f.o.members[j]
    ensures var r2 := Extend(r, x, Rest(f.o, f.Done(m) + {j}));
            var es2 := es + x.es + {Edge(entry, Eps, x.s)} + {Edge(x.f, Eps, f.lo + SetBit(m, j))};
            f.Labelled(es2, x.hi, r2) && f.EntryOf(es2, r2, m, entry) && f.Chained(es2, m, j)
  {
    hide Rest, Part.Accepted, Reaches, Extend, Frame.Labelled, Cat, J.SEPARATOR, MaskSet;
    var k := Rest(f.o, f.Done(m) + {j});
    var r2 := Extend(r, x, k);
    var es1 := es + x.es + {Edge(entry, Eps, x.s)};
    var es2 := es1 + {Edge(x.f, Eps, f.lo + SetBit(m, j))};
    AddPart(f, es, hi, r, x, k);
    NotDone(m, j, f.k);
    assert f.NextWithin(r, m, j, entry);
    AddMove(f, es + x.es, x.hi, r2, entry, x.s);
    SetBitBelow(m, j, f.k);
    SetBitSet(m, j, f.k);
    MaskLabelAt(f, es1, x.hi, r2, SetBit(m, j));
    AddMove(f, es1, x.hi, r2, x.f, f.lo + SetBit(m, j));
    MemberChained(f, es, es2, r, m, j, entry, x);
    forall i: nat | i < f.k && i !in f.Done(m) ensures f.NextWithin(r2, m, i, entry) {
      assert f.NextWithin(r, m, i, entry);
    }
    if m != 0 { ReachesMono(es, es2, f.lo + m, J.SEPARATOR, entry); }
  }

  lemma NotDone(m: nat, j: nat, k: nat)
    requires !Bit(m, j)
    ensures j !in MaskSet(m, k)
  {
  }

  lemma MemberChained(f: Frame, es: set<Edge>, es2: set<Edge>, r: nat -> Lang, m: nat, j: nat, entry: nat, x: Part)
    requires f.Valid() && m < Pow2(f.k) && j < f.k && f.EntryOf(es, r, m, entry) && x.Accepted() == f.o.members[j]
    requires es <= es2 && x.es <= es2 && Edge(entry, Eps, x.s) in es2 && Edge(x.f, Eps, f.lo + SetBit(m, j)) in es2
    ensures f.Chained(es2, m, j)
  {
    hide Rest, Part.Accepted, Reaches, Cat, J.SEPARATOR, MaskSet, Frame.NextWithin;
    var l := f.o.members[j];
    PartReaches(es2, x);
    ReachesThen(es2, x.s, l, x.f, f.lo + SetBit(m, j));
    ReachesHop(es2, entry, x.s, l, f.lo + SetBit(m, j));
    MaskEmpty(m, f.k);
    if m != 0 {
      ReachesMono(es, es2, f.lo + m, J.SEPARATOR, entry);
      ReachesCat(es2, f.lo + m, J.SEPARATOR, entry, l, f.lo + SetBit(m, j));
    }
  }

  /** The shared closing `ws }`. */
  lemma CloseAdded(f: Frame, es: set<Edge>, hi: nat, r: nat -> Lang, x: Part)
    requires f.Valid() && f.Labelled(es, hi, r) && x.Valid() && x.lo == hi && x.Accepted() == CLOSE
    ensures var r2 := Extend(r, x, EPSILON);
            var es2 := es + x.es + {Edge(x.f, Eps, f.Fin())};
            f.Labelled(es2, x.hi, r2) && r2(x.s) == CLOSE && Reaches(es2, x.s, CLOSE, f.Fin())
  {
    hide Rest, Part.Accepted, Reaches, Extend, Frame.Labelled, Cat;
    var r2 := Extend(r, x, EPSILON);
    var es2 := es + x.es + {Edge(x.f, Eps, f.Fin())};
    FinLabel(f, es, hi, r);
    AddPart(f, es, hi, r, x, EPSILON);
    CatEpsilon(CLOSE);
    FinLabel(f, es + x.es, x.hi, r2);
    AddMove(f, es + x.es, x.hi, r2, x.f, f.Fin());
    PartReaches(es2, x);
    ReachesThen(es2, x.s, CLOSE, x.f, f.Fin());
  }

  lemma FinLabel(f: Frame, es: set<Edge>, hi: nat, r: nat -> Lang)
    requires f.Labelled(es, hi, r)
    ensures r(f.Fin()) == EPSILON && f.lo <= f.Fin() < hi
  {
  }

  /** A required-complete mask may close. */
  lemma CloseLinked(f: Frame, es: set<Edge>, hi: nat, r: nat -> Lang, m: nat, s: nat)
    requires f.Valid() && f.Labelled(es, hi, r) && m < Pow2(f.k) && f.o.required <= f.Done(m)
    requires f.lo <= s < hi && r(s) == CLOSE && Reaches(es, s, CLOSE, f.Fin())
    ensures var es2 := es + {Edge(f.lo + m, Eps, s)};
            f.Labelled(es2, hi, r) && f.ClosesFrom(es2, m) && Reaches(es2, s, CLOSE, f.Fin())
  {
    hide Rest, Reaches, Frame.Labelled, Cat, MaskSet;
    var es2 := es + {Edge(f.lo + m, Eps, s)};
    MaskLabelAt(f, es, hi, r, m);
    RestClose(f.o, f.Done(m));
    AddMove(f, es, hi, r, f.lo + m, s);
    ReachesMono(es, es2, s, CLOSE, f.Fin());
    ReachesHop(es2, f.lo + m, s, CLOSE, f.Fin());
  }

  // ---- exactness ----

  lemma {:induction false} MasksRead(f: Frame, es: set<Edge>, m: nat, js: seq<nat>, w: string)
    requires f.Valid() && m < Pow2(f.k) && Completes(f.o, f.Done(m), js)
    requires forall n: nat :: n < Pow2(f.k) ==> f.MaskDone(es, n) && f.ClosesFrom(es, n)
    requires w in Cat(J.Members(f.o.members, js, f.Done(m) == {}), CLOSE)
    ensures Reads(es, f.lo + m, w, f.Fin())
    decreases |js|
  {
    hide Reads, Cat, Completes, MaskSet, J.Members;
    assert f.MaskDone(es, m) && f.ClosesFrom(es, m);
    if js == [] {
      NoneLeft(f.o, f.Done(m));
      CatEpsilon(CLOSE);
    } else {
      var j, done := js[0], f.Done(m);
      CompletesTail(f.o, done, js);
      CompletesRange(f.o, done + {j}, js[1..]);
      SetBitBelow(m, j, f.k);
      SetBitSet(m, j, f.k);
      assert js == [j] + js[1..];
      MembersCons(f.o, done, j, js[1..]);
      CatAssoc(StepLang(f.o, done, j), J.Members(f.o.members, js[1..], false), CLOSE);
      var u, v := CatSplit(StepLang(f.o, done, j), Cat(J.Members(f.o.members, js[1..], false), CLOSE), w);
      assert f.Done(SetBit(m, j)) != {} by { assert j in done + {j}; }
      MasksRead(f, es, SetBit(m, j), js[1..], v);
      NotIn(m, j, f.k);
      assert f.Chained(es, m, j);
      ReadsConcat(es, f.lo + m, u, f.lo + SetBit(m, j), v, f.Fin());
    }
  }

  lemma NoneLeft(o: Shape, done: set<nat>)
    requires Completes(o, done, [])
    ensures o.required <= done && J.Members(o.members, [], done == {}) == EPSILON
  {
  }

  lemma NotIn(m: nat, j: nat, k: nat)
    requires j !in MaskSet(m, k) && j < k
    ensures !Bit(m, j)
  {
  }

  /** The finished machine accepts exactly the objects: any order, each member at most once, every required one. */
  lemma ObjectExact(f: Frame, es: set<Edge>, hi: nat, r: nat -> Lang, s: nat)
    requires f.Valid() && f.Labelled(es, hi, r) && f.lo <= s < hi
    requires r(s) == Cat(OPEN, Rest(f.o, {})) && Reaches(es, s, OPEN, f.lo)
    requires forall n: nat :: n < Pow2(f.k) ==> f.MaskDone(es, n) && f.ClosesFrom(es, n)
    ensures var x := Part(es, f.lo, hi, s, f.Fin());
            x.Valid() && x.Accepted() == J.ObjectOf(f.o.members, J.ByPlace(f.o.required))
  {
    hide Reads, Cat, MaskSet, Completes, Frame.MaskDone, Frame.ClosesFrom, J.ObjectOf;
    var x := Part(es, f.lo, hi, s, f.Fin());
    ObjectIs(f.o);
    MaskEmpty(0, f.k);
    FinLabel(f, es, hi, r);
    forall w | w in Cat(OPEN, Rest(f.o, {})) ensures w in x.Accepted() {
      var u, v := CatSplit(OPEN, Rest(f.o, {}), w);
      var js :| RestBy(f.o, {}, js, v);
      MasksRead(f, es, 0, js, v);
      ReadsConcat(es, s, u, f.lo, v, f.Fin());
    }
    forall w | w in x.Accepted() ensures w in Cat(OPEN, Rest(f.o, {})) {
      ReadsBound(es, r, s, w, f.Fin());
    }
  }
}
