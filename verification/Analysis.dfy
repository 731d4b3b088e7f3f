/** The predicate analysis (absinterp.cc) as the type checker drives it over statements
    (typecheck.cc, sectypes.cc), on sets of hypotheses, and its soundness.

    `After` is the predicate left behind by a statement and `Obligations` the list of assignments
    it emits constraints for, each with the predicate the constraint is emitted under.
 */
module Analysis {
  import opened PForm
  import opened Powers
  import opened DumpUnique
  import opened Projection
  import opened Statements

  type Hyps = set<Expr>

  /** The constraint of an assignment and the hypotheses it assumes. */
  datatype Obligation = Obligation(line: nat, lhs: string, rhs: Expr, hyps: Hyps)

  predicate Sat(I: Interp, H: Hyps, v: Vals) {
    forall h | h in H :: True(I, h, v)
  }

  function Kill(H: Hyps, x: string): Hyps {
    set h | h in H && !ContainsExpr(h, x)
  }

  predicate Generates(T: set<string>, x: string, r: Expr) {
    (r.Number? || Dump(r) in T) && x in T
  }

  function Gen(T: set<string>, x: string, r: Expr): Hyps {
    if Generates(T, x, r) then {Binary(Eq, Ident(x), r)} else {}
  }

  function PosHyp(T: set<string>, c: Expr): Hyps {
    if IsWellformed(c, T) then {ToWellformed(c, T).value} else {}
  }

  function NegHyp(T: set<string>, c: Expr): Hyps {
    if IsNegWellformed(c, T) then {Unary(LNot, NegToWellformed(c, T).value)} else {}
  }

  /** Intersection by printed name, the elements taken from the first set. */
  function Meet(P: Hyps, Q: Hyps): Hyps {
    set h | h in P && exists k | k in Q :: Dump(k) == Dump(h)
  }

  /** The hypotheses a case item adds: the selector equals each of the guards. */
  function GuardHyps(T: set<string>, sel: Expr, item: Item): Hyps {
    if Dump(sel) in T then set g | g in item.guards :: Binary(Eq, sel, g) else {}
  }

  function After(s: Stmt, T: set<string>, H: Hyps): Hyps
    decreases s, 1
  {
    match s
    case Null => H
    case Assign(_, x, r) => Kill(H, x) + Gen(T, x, r)
    case AssignNB(_, _, _) => H
    case Block(body) => AfterSeq(body, T, H)
    case If(c, t, f) =>
      Meet(if t.Null? then H else After(t, T, H + PosHyp(T, c)),
           if f.Null? then H else After(f, T, H + NegHyp(T, c)))
    case Case(sel, items) => AfterItems(sel, items, T, H)
  }

  function AfterSeq(ss: seq<Stmt>, T: set<string>, H: Hyps): Hyps
    decreases ss, 0
  {
    if ss == [] then H else AfterSeq(ss[1..], T, After(ss[0], T, H))
  }

  /** The driver assigns the saved predicate back after each item, but `Predicate::operator=`
      leaves its left operand alone, so every item starts from what the previous one left. */
  function AfterItems(sel: Expr, items: seq<Item>, T: set<string>, H: Hyps): Hyps
    decreases items, 0
  {
    if items == [] then H else
    AfterItems(sel, items[1..], T, After(items[0].stat, T, H + GuardHyps(T, sel, items[0])))
  }

  /** A ternary right-hand side is checked leaf by leaf under the conditions that select it. */
  function LeafObligations(n: nat, x: string, r: Expr, T: set<string>, H: Hyps): seq<Obligation> {
    if r.Ternary? then
      LeafObligations(n, x, r.tru, T, H + PosHyp(T, r.cond)) + LeafObligations(n, x, r.fal, T, H + NegHyp(T, r.cond))
    else [Obligation(n, x, r, H)]
  }

  function Obligations(s: Stmt, T: set<string>, H: Hyps): seq<Obligation>
    decreases s, 1
  {
    match s
    case Null => []
    case Assign(n, x, r) => LeafObligations(n, x, r, T, H)
    case AssignNB(n, x, r) => LeafObligations(n, x, r, T, H)
    case Block(body) => ObligationsSeq(body, T, H)
    case If(c, t, f) => Obligations(t, T, H + PosHyp(T, c)) + Obligations(f, T, H + NegHyp(T, c))
    case Case(sel, items) => ObligationsItems(sel, items, T, H)
  }

  function ObligationsSeq(ss: seq<Stmt>, T: set<string>, H: Hyps): seq<Obligation>
    decreases ss, 0
  {
    if ss == [] then [] else Obligations(ss[0], T, H) + ObligationsSeq(ss[1..], T, After(ss[0], T, H))
  }

  function ObligationsItems(sel: Expr, items: seq<Item>, T: set<string>, H: Hyps): seq<Obligation>
    decreases items, 0
  {
    if items == [] then [] else
    var H0 := H + GuardHyps(T, sel, items[0]);
    Obligations(items[0].stat, T, H0) + ObligationsItems(sel, items[1..], T, After(items[0].stat, T, H0))
  }

  /** Checking the translated if/else emits the obligations of the ternary. */
  lemma {:induction false} TranslatedObligations(n: nat, x: string, r: Expr, T: set<string>, H: Hyps)
    requires r.Ternary?
    ensures Obligations(Translate(n, x, r), T, H) == LeafObligations(n, x, r, T, H)
  {
    if r.tru.Ternary? { TranslatedObligations(n, x, r.tru, T, H + PosHyp(T, r.cond)); }
    if r.fal.Ternary? { TranslatedObligations(n, x, r.fal, T, H + NegHyp(T, r.cond)); }
  }

  // ----- what soundness asks of the design -----

  /** Type-level names come from the grammar as identifiers. */
  predicate TrackedNames(T: set<string>) {
    forall x | x in T :: IdentName(x)
  }

  predicate Readables(H: Hyps) {
    forall h | h in H :: Readable(h)
  }

  /** The value of a number or signal assigned to `x` is not truncated. */
  predicate Fits(d: Design, x: string, r: Expr) {
    match r
    case Number(n) => 0 <= d.I.num(n) < Pow2(d.Width(x))
    case Ident(y) => d.Width(y) <= d.Width(x)
    case _ => false
  }

  predicate SafeCond(T: set<string>, c: Expr, hasThen: bool, hasElse: bool) {
    (hasThen && IsWellformed(c, T) ==> KeepsComparisons(c, T) && Readable(ToWellformed(c, T).value)) &&
    (hasElse && IsNegWellformed(c, T) ==> NegKeepsComparisons(c, T) && Readable(NegToWellformed(c, T).value))
  }

  predicate SafeRhs(T: set<string>, r: Expr) {
    r.Ternary? ==> SafeCond(T, r.cond, true, true) && SafeRhs(T, r.tru) && SafeRhs(T, r.fal)
  }

  predicate Safe(d: Design, T: set<string>, s: Stmt)
    decreases s, 1
  {
    match s
    case Null => true
    case Assign(_, x, r) => SafeRhs(T, r) && (Generates(T, x, r) ==> Readable(r) && Fits(d, x, r))
    case AssignNB(_, _, r) => SafeRhs(T, r)
    case Block(body) => SafeSeq(d, T, body)
    case If(c, t, f) => SafeCond(T, c, !t.Null?, !f.Null?) && Safe(d, T, t) && Safe(d, T, f)
    case Case(sel, items) => SafeItems(d, T, sel, items)
  }

  predicate SafeSeq(d: Design, T: set<string>, ss: seq<Stmt>)
    decreases ss, 0
  {
    ss == [] || (Safe(d, T, ss[0]) && SafeSeq(d, T, ss[1..]))
  }

  /** Because of the leak, a case is safe when it adds no hypothesis of its own and neither do
      the statements of its items. */
  predicate SafeItems(d: Design, T: set<string>, sel: Expr, items: seq<Item>)
    decreases items, 0
  {
    items == [] ||
    (GuardHyps(T, sel, items[0]) == {} && Safe(d, T, items[0].stat) && Quiet(T, items[0].stat) &&
     SafeItems(d, T, sel, items[1..]))
  }

  predicate Quiet(T: set<string>, s: Stmt)
    decreases s, 1
  {
    match s
    case Assign(_, x, r) => !Generates(T, x, r)
    case Block(body) => QuietSeq(T, body)
    case If(_, t, f) => Quiet(T, t) && Quiet(T, f)
    case Case(sel, items) => QuietItems(T, items)
    case _ => true
  }

  predicate QuietSeq(T: set<string>, ss: seq<Stmt>)
    decreases ss, 0
  {
    ss == [] || (Quiet(T, ss[0]) && QuietSeq(T, ss[1..]))
  }

  predicate QuietItems(T: set<string>, items: seq<Item>)
    decreases items, 0
  {
    items == [] || (Quiet(T, items[0].stat) && QuietItems(T, items[1..]))
  }

  // ----- soundness of the single steps -----

  /** On readable hypotheses, the merge by printed names is set intersection. */
  lemma MeetIsIntersection(P: Hyps, Q: Hyps)
    requires Readables(P) && Readables(Q)
    ensures Meet(P, Q) == P * Q
  {
    forall h | h in P ensures h in Meet(P, Q) <==> h in Q {
      forall k | k in Q && Dump(k) == Dump(h) ensures k == h { DumpInjective(k, h); }
    }
  }

  lemma KillSound(I: Interp, H: Hyps, x: string, v: Vals, k: int)
    requires Readables(H) && Sat(I, H, v)
    ensures Sat(I, Kill(H, x), v[x := k])
  {
    forall h | h in Kill(H, x) ensures True(I, h, v[x := k]) {
      ReadableIsPlain(h);
      ContainsExprFrame(I, h, x, v, k);
    }
  }

  lemma FitsUntruncated(d: Design, x: string, r: Expr, v: Vals)
    requires Typed(d, v) && Fits(d, x, r)
    ensures Fit(d, x, Eval(d.I, r, v)) == Eval(d.I, r, v)
  {
    if r.Ident? { Pow2Monotone(d.Width(r.name), d.Width(x)); }
    SmallMod(Eval(d.I, r, v), Pow2(d.Width(x)));
  }

  lemma SmallMod(k: int, m: int)
    requires 0 <= k < m
    ensures k % m == k
  {
  }

  /** A generated equation holds after the assignment that generates it. */
  lemma GenSound(d: Design, T: set<string>, x: string, r: Expr, v: Vals)
    requires TrackedNames(T) && Typed(d, v)
    requires Generates(T, x, r) ==> Readable(r) && Fits(d, x, r)
    ensures Sat(d.I, Gen(T, x, r), v[x := Fit(d, x, Eval(d.I, r, v))]) && Readables(Gen(T, x, r))
  {
    if Generates(T, x, r) {
      var k := Eval(d.I, r, v);
      FitsUntruncated(d, x, r, v);
      assert Eval(d.I, r, v[x := k]) == k && Eval(d.I, Ident(x), v[x := k]) == k;
      assert Eval(d.I, Binary(Eq, Ident(x), r), v[x := k]) == 1;
    }
  }

  /** In a branch, the projected condition (or the negated projection) holds. */
  lemma BranchSound(I: Interp, T: set<string>, c: Expr, v: Vals, hasThen: bool, hasElse: bool)
    requires SafeCond(T, c, hasThen, hasElse)
    ensures hasThen ==> Readables(PosHyp(T, c)) && (True(I, c, v) ==> Sat(I, PosHyp(T, c), v))
    ensures hasElse ==> Readables(NegHyp(T, c)) && (!True(I, c, v) ==> Sat(I, NegHyp(T, c), v))
  {
    if hasThen && IsWellformed(c, T) && True(I, c, v) { ProjectionWeakens(I, c, T, v); }
    if hasElse && IsNegWellformed(c, T) && True(I, NegToWellformed(c, T).value, v) { NegProjectionStrengthens(I, c, T, v); }
  }

  // ----- what a statement leaves behind -----

  lemma {:induction false} AfterReadable(d: Design, s: Stmt, T: set<string>, H: Hyps)
    requires TrackedNames(T) && Safe(d, T, s) && Readables(H)
    ensures Readables(After(s, T, H))
    decreases s, 1
  {
    match s
    case If(c, t, f) =>
      if !t.Null? { AfterReadable(d, t, T, H + PosHyp(T, c)); }
      if !f.Null? { AfterReadable(d, f, T, H + NegHyp(T, c)); }
    case Block(body) => AfterSeqReadable(d, body, T, H);
    case Case(sel, items) => AfterItemsReadable(d, sel, items, T, H);
    case _ =>
  }

  lemma {:induction false} AfterSeqReadable(d: Design, ss: seq<Stmt>, T: set<string>, H: Hyps)
    requires TrackedNames(T) && SafeSeq(d, T, ss) && Readables(H)
    ensures Readables(AfterSeq(ss, T, H))
    decreases ss, 0
  {
    if ss != [] {
      AfterReadable(d, ss[0], T, H);
      AfterSeqReadable(d, ss[1..], T, After(ss[0], T, H));
    }
  }

  lemma {:induction false} AfterItemsReadable(d: Design, sel: Expr, items: seq<Item>, T: set<string>, H: Hyps)
    requires TrackedNames(T) && SafeItems(d, T, sel, items) && Readables(H)
    ensures Readables(AfterItems(sel, items, T, H))
    decreases items, 0
  {
    if items != [] {
      assert H + GuardHyps(T, sel, items[0]) == H;
      AfterReadable(d, items[0].stat, T, H);
      AfterItemsReadable(d, sel, items[1..], T, After(items[0].stat, T, H));
    }
  }

  /** A quiet statement only loses hypotheses: what one branch adds, the other does not. */
  lemma {:induction false} QuietShrinks(d: Design, s: Stmt, T: set<string>, H: Hyps)
    requires TrackedNames(T) && Safe(d, T, s) && Quiet(T, s) && Readables(H)
    ensures After(s, T, H) <= H
    decreases s, 1
  {
    match s
    case If(c, t, f) =>
      var P := if t.Null? then H else After(t, T, H + PosHyp(T, c));
      var Q := if f.Null? then H else After(f, T, H + NegHyp(T, c));
      if !t.Null? { QuietShrinks(d, t, T, H + PosHyp(T, c)); AfterReadable(d, t, T, H + PosHyp(T, c)); }
      if !f.Null? { QuietShrinks(d, f, T, H + NegHyp(T, c)); AfterReadable(d, f, T, H + NegHyp(T, c)); }
      MeetIsIntersection(P, Q);
      if IsWellformed(c, T) && IsNegWellformed(c, T) { BranchHypothesesDiffer(c, T); }
    case Block(body) => QuietSeqShrinks(d, body, T, H);
    case Case(sel, items) => QuietItemsShrink(d, sel, items, T, H);
    case _ =>
  }

  lemma {:induction false} QuietSeqShrinks(d: Design, ss: seq<Stmt>, T: set<string>, H: Hyps)
    requires TrackedNames(T) && SafeSeq(d, T, ss) && QuietSeq(T, ss) && Readables(H)
    ensures AfterSeq(ss, T, H) <= H
    decreases ss, 0
  {
    if ss != [] {
      QuietShrinks(d, ss[0], T, H);
      QuietSeqShrinks(d, ss[1..], T, After(ss[0], T, H));
    }
  }

  lemma {:induction false} QuietItemsShrink(d: Design, sel: Expr, items: seq<Item>, T: set<string>, H: Hyps)
    requires TrackedNames(T) && SafeItems(d, T, sel, items) && Readables(H)
    ensures AfterItems(sel, items, T, H) <= H
    decreases items, 0
  {
    if items != [] {
      assert H + GuardHyps(T, sel, items[0]) == H;
      AfterReadable(d, items[0].stat, T, H);
      QuietShrinks(d, items[0].stat, T, H);
      QuietItemsShrink(d, sel, items[1..], T, After(items[0].stat, T, H));
    }
  }

  // ----- soundness over runs -----

  /** The executed assignment has an obligation, and its hypotheses held at that point. */
  ghost predicate Covers(I: Interp, obs: seq<Obligation>, e: Event) {
    exists ob | ob in obs :: ob.line == e.line && ob.lhs == e.lhs && ob.rhs == e.rhs && Sat(I, ob.hyps, e.vals)
  }

  ghost predicate CoversAll(I: Interp, obs: seq<Obligation>, events: seq<Event>) {
    forall e | e in events :: Covers(I, obs, e)
  }

  ghost predicate CoversNone(I: Interp, obs: seq<Obligation>, events: seq<Event>) {
    forall e | e in events :: !Covers(I, obs, e)
  }

  lemma CoversMore(I: Interp, a: seq<Obligation>, obs: seq<Obligation>, b: seq<Obligation>, events: seq<Event>)
    requires CoversAll(I, obs, events)
    ensures CoversAll(I, a + obs + b, events)
  {
    forall e | e in events ensures Covers(I, a + obs + b, e) {
      assert Covers(I, obs, e);
      var ob :| ob in obs && ob.line == e.line && ob.lhs == e.lhs && ob.rhs == e.rhs && Sat(I, ob.hyps, e.vals);
      assert ob in a + obs + b;
    }
  }

  lemma {:induction false} LeafCovered(I: Interp, n: nat, x: string, r: Expr, T: set<string>, H: Hyps, v: Vals)
    requires SafeRhs(T, r) && Sat(I, H, v)
    ensures Covers(I, LeafObligations(n, x, r, T, H), Event(n, x, Leaf(I, r, v), v))
  {
    if r.Ternary? {
      BranchSound(I, T, r.cond, v, true, true);
      var e := Event(n, x, Leaf(I, r, v), v);
      var a := LeafObligations(n, x, r.tru, T, H + PosHyp(T, r.cond));
      var b := LeafObligations(n, x, r.fal, T, H + NegHyp(T, r.cond));
      if True(I, r.cond, v) {
        LeafCovered(I, n, x, r.tru, T, H + PosHyp(T, r.cond), v);
        CoversMore(I, [], a, b, [e]);
        assert [] + a + b == a + b;
      } else {
        LeafCovered(I, n, x, r.fal, T, H + NegHyp(T, r.cond), v);
        CoversMore(I, a, b, [], [e]);
        assert a + b + [] == a + b;
      }
    } else {
      assert Obligation(n, x, r, H) in LeafObligations(n, x, r, T, H);
    }
  }

  /** Main result: from a state in which every incoming hypothesis holds, the run ends in a state
      in which every outgoing hypothesis holds, and each assignment executed on the way was checked
      by an obligation whose hypotheses held when it was executed. */
  ghost predicate Sound(d: Design, o: Outcome, after: Hyps, obs: seq<Obligation>) {
    Typed(d, o.st.vals) && Sat(d.I, after, o.st.vals) && CoversAll(d.I, obs, o.events)
  }

  lemma {:induction false} AnalysisSound(d: Design, T: set<string>, s: Stmt, H: Hyps, st: State)
    requires TrackedNames(T) && Safe(d, T, s) && Readables(H)
    requires Typed(d, st.vals) && Sat(d.I, H, st.vals)
    ensures Sound(d, Exec(d, s, st), After(s, T, H), Obligations(s, T, H))
    decreases s, 1
  {
    var v := st.vals;
    match s
    case Null =>
    case Assign(n, x, r) =>
      KillSound(d.I, H, x, v, Fit(d, x, Eval(d.I, r, v)));
      GenSound(d, T, x, r, v);
      LeafCovered(d.I, n, x, r, T, H, v);
    case AssignNB(n, x, r) =>
      LeafCovered(d.I, n, x, r, T, H, v);
    case Block(body) =>
      SequenceSound(d, T, body, H, st);
    case If(c, t, f) =>
      BranchAnalysisSound(d, T, c, t, f, H, st);
    case Case(sel, items) =>
      ChosenIsItem(d.I, sel, items, v);
      var chosen := Chosen(d.I, sel, items, v);
      if chosen == Null {
        QuietItemsShrink(d, sel, items, T, H);
      } else {
        var i :| 0 <= i < |items| && items[i].stat == chosen;
        ItemsSound(d, T, sel, items, H, st, i);
      }
  }

  lemma {:induction false} BranchAnalysisSound(d: Design, T: set<string>, c: Expr, t: Stmt, f: Stmt, H: Hyps, st: State)
    requires TrackedNames(T) && Safe(d, T, If(c, t, f)) && Readables(H)
    requires Typed(d, st.vals) && Sat(d.I, H, st.vals)
    ensures Sound(d, Exec(d, If(c, t, f), st), After(If(c, t, f), T, H), Obligations(If(c, t, f), T, H))
    decreases If(c, t, f), 0
  {
    var I := d.I;
    BranchSound(I, T, c, st.vals, !t.Null?, !f.Null?);
    var Ht, Hf := H + PosHyp(T, c), H + NegHyp(T, c);
    var P := if t.Null? then H else After(t, T, Ht);
    var Q := if f.Null? then H else After(f, T, Hf);
    if !t.Null? { AfterReadable(d, t, T, Ht); }
    if !f.Null? { AfterReadable(d, f, T, Hf); }
    MeetIsIntersection(P, Q);
    var a, b := Obligations(t, T, Ht), Obligations(f, T, Hf);
    assert [] + a + b == a + b && a + b + [] == a + b;
    if True(I, c, st.vals) {
      AnalysisSound(d, T, t, if t.Null? then H else Ht, st);
      CoversMore(I, [], a, b, Exec(d, t, st).events);
    } else {
      AnalysisSound(d, T, f, if f.Null? then H else Hf, st);
      CoversMore(I, a, b, [], Exec(d, f, st).events);
    }
  }

  lemma {:induction false} SequenceSound(d: Design, T: set<string>, ss: seq<Stmt>, H: Hyps, st: State)
    requires TrackedNames(T) && SafeSeq(d, T, ss) && Readables(H)
    requires Typed(d, st.vals) && Sat(d.I, H, st.vals)
    ensures Sound(d, ExecSeq(d, ss, st), AfterSeq(ss, T, H), ObligationsSeq(ss, T, H))
    decreases ss, 0
  {
    if ss != [] {
      var o := Exec(d, ss[0], st);
      var H1 := After(ss[0], T, H);
      AnalysisSound(d, T, ss[0], H, st);
      AfterReadable(d, ss[0], T, H);
      SequenceSound(d, T, ss[1..], H1, o.st);
      var a, b := Obligations(ss[0], T, H), ObligationsSeq(ss[1..], T, H1);
      assert [] + a + b == a + b && a + b + [] == a + b;
      CoversMore(d.I, [], a, b, o.events);
      CoversMore(d.I, a, b, [], ExecSeq(d, ss[1..], o.st).events);
    }
  }

  /** Item `i` runs; the items before it only lose hypotheses, and so do the ones after it. */
  lemma {:induction false} ItemsSound(d: Design, T: set<string>, sel: Expr, items: seq<Item>, H: Hyps, st: State, i: nat)
    requires TrackedNames(T) && SafeItems(d, T, sel, items) && Readables(H)
    requires Typed(d, st.vals) && Sat(d.I, H, st.vals) && i < |items|
    ensures Sound(d, Exec(d, items[i].stat, st), AfterItems(sel, items, T, H), ObligationsItems(sel, items, T, H))
    decreases items, 0
  {
    var s := items[0].stat;
    var H1 := After(s, T, H);
    assert H + GuardHyps(T, sel, items[0]) == H;
    AfterReadable(d, s, T, H);
    var a, b := Obligations(s, T, H), ObligationsItems(sel, items[1..], T, H1);
    assert [] + a + b == a + b && a + b + [] == a + b;
    if i == 0 {
      AnalysisSound(d, T, s, H, st);
      QuietItemsShrink(d, sel, items[1..], T, H1);
      CoversMore(d.I, [], a, b, Exec(d, s, st).events);
    } else {
      QuietShrinks(d, s, T, H);
      ItemsSound(d, T, sel, items[1..], H1, st, i - 1);
      assert items[1..][i - 1] == items[i];
      CoversMore(d.I, a, b, [], Exec(d, items[i].stat, st).events);
    }
  }

  /** A process is checked from the empty predicate, so whatever the other processes left in the
      signals, every assignment of every activation is covered. */
  lemma ActivationCovered(d: Design, T: set<string>, s: Stmt, st: State)
    requires TrackedNames(T) && Safe(d, T, s) && Typed(d, st.vals)
    ensures CoversAll(d.I, Obligations(s, T, {}), Exec(d, s, st).events)
  {
    AnalysisSound(d, T, s, {}, st);
  }

  // ----- the leak of the case driver -----

  function AllGuards(items: seq<Item>): set<Expr> {
    set i, g | 0 <= i < |items| && g in items[i].guards :: g
  }

  /** The names a statement assigns with a blocking assignment. */
  function Assigned(s: Stmt): set<string>
    decreases s, 1
  {
    match s
    case Assign(_, x, _) => {x}
    case Block(body) => AssignedSeq(body)
    case If(_, t, f) => Assigned(t) + Assigned(f)
    case Case(_, items) => AssignedItems(items)
    case _ => {}
  }

  function AssignedSeq(ss: seq<Stmt>): set<string>
    decreases ss, 0
  {
    if ss == [] then {} else Assigned(ss[0]) + AssignedSeq(ss[1..])
  }

  function AssignedItems(items: seq<Item>): set<string>
    decreases items, 0
  {
    if items == [] then {} else Assigned(items[0].stat) + AssignedItems(items[1..])
  }

  predicate Untouched(h: Expr, names: set<string>) {
    forall x | x in names :: !ContainsExpr(h, x)
  }

  predicate InAll(h: Expr, obs: seq<Obligation>) {
    forall ob | ob in obs :: h in ob.hyps
  }

  lemma InAllAppend(h: Expr, a: seq<Obligation>, b: seq<Obligation>)
    requires InAll(h, a) && InAll(h, b)
    ensures InAll(h, a + b)
  {
  }

  lemma {:induction false} LeafCarries(h: Expr, n: nat, x: string, r: Expr, T: set<string>, H: Hyps)
    requires h in H
    ensures InAll(h, LeafObligations(n, x, r, T, H))
  {
    if r.Ternary? {
      LeafCarries(h, n, x, r.tru, T, H + PosHyp(T, r.cond));
      LeafCarries(h, n, x, r.fal, T, H + NegHyp(T, r.cond));
    }
  }

  /** A hypothesis no blocking assignment mentions goes through a statement, and every question asked
      on the way carries it. */
  lemma {:induction false} CarriedThrough(h: Expr, s: Stmt, T: set<string>, H: Hyps)
    requires h in H && Untouched(h, Assigned(s))
    ensures h in After(s, T, H) && InAll(h, Obligations(s, T, H))
    decreases s, 1
  {
    match s
    case Assign(n, x, r) => LeafCarries(h, n, x, r, T, H);
    case AssignNB(n, x, r) => LeafCarries(h, n, x, r, T, H);
    case Block(body) => CarriedThroughSeq(h, body, T, H);
    case If(c, t, f) =>
      CarriedThrough(h, t, T, H + PosHyp(T, c));
      CarriedThrough(h, f, T, H + NegHyp(T, c));
      InAllAppend(h, Obligations(t, T, H + PosHyp(T, c)), Obligations(f, T, H + NegHyp(T, c)));
    case Case(sel, items) => CarriedThroughItems(h, sel, items, T, H);
    case Null =>
  }

  lemma {:induction false} CarriedThroughSeq(h: Expr, ss: seq<Stmt>, T: set<string>, H: Hyps)
    requires h in H && Untouched(h, AssignedSeq(ss))
    ensures h in AfterSeq(ss, T, H) && InAll(h, ObligationsSeq(ss, T, H))
    decreases ss, 0
  {
    if ss != [] {
      CarriedThrough(h, ss[0], T, H);
      CarriedThroughSeq(h, ss[1..], T, After(ss[0], T, H));
      InAllAppend(h, Obligations(ss[0], T, H), ObligationsSeq(ss[1..], T, After(ss[0], T, H)));
    }
  }

  lemma {:induction false} CarriedThroughItems(h: Expr, sel: Expr, items: seq<Item>, T: set<string>, H: Hyps)
    requires (h in H || (items != [] && h in GuardHyps(T, sel, items[0]))) && Untouched(h, AssignedItems(items))
    ensures h in AfterItems(sel, items, T, H) && InAll(h, ObligationsItems(sel, items, T, H))
    decreases items, 0
  {
    if items != [] {
      var H0 := H + GuardHyps(T, sel, items[0]);
      var H1 := After(items[0].stat, T, H0);
      CarriedThrough(h, items[0].stat, T, H0);
      CarriedThroughItems(h, sel, items[1..], T, H1);
      InAllAppend(h, Obligations(items[0].stat, T, H0), ObligationsItems(sel, items[1..], T, H1));
    }
  }

  // ----- what is known for certain -----

  /** After a blocking assignment: what was known and does not mention the target, and the equation,
      exactly when target and right-hand side are tracked, or the latter is a number. */
  lemma AssignmentLeaves(n: nat, x: string, r: Expr, T: set<string>, H: Hyps, h: Expr)
    ensures h in After(Assign(n, x, r), T, H)
            <==> (h in H && !ContainsExpr(h, x))
                 || (x in T && (r.Number? || Dump(r) in T) && h == Binary(Eq, Ident(x), r))
  {
  }

  lemma {:induction false} SequenceSplit(ss: seq<Stmt>, k: nat, T: set<string>, H: Hyps)
    requires k <= |ss|
    ensures var K := AfterSeq(ss[..k], T, H);
            AfterSeq(ss, T, H) == AfterSeq(ss[k..], T, K)
            && ObligationsSeq(ss, T, H) == ObligationsSeq(ss[..k], T, H) + ObligationsSeq(ss[k..], T, K)
    decreases k
  {
    hide After, Obligations;
    if k == 0 {
      assert ss[..0] == [] && ss[0..] == ss;
    } else {
      SequenceSplit(ss[1..], k - 1, T, After(ss[0], T, H));
      assert ss[..k][1..] == ss[1..][..k - 1] && ss[..k][0] == ss[0] && ss[1..][k - 1..] == ss[k..];
    }
  }

  /** So in a block the equation of an assignment is known at the end and in every question asked after
      it, unless a later statement assigns what it mentions. */
  lemma EquationKnown(ss: seq<Stmt>, k: nat, T: set<string>, H: Hyps)
    requires k < |ss| && ss[k].Assign? && ss[k].lhs in T && (ss[k].rhs.Number? || Dump(ss[k].rhs) in T)
    requires Untouched(Binary(Eq, Ident(ss[k].lhs), ss[k].rhs), AssignedSeq(ss[k + 1..]))
    ensures var h := Binary(Eq, Ident(ss[k].lhs), ss[k].rhs);
            h in AfterSeq(ss, T, H) && InAll(h, ObligationsSeq(ss[k + 1..], T, AfterSeq(ss[..k + 1], T, H)))
  {
    var h := Binary(Eq, Ident(ss[k].lhs), ss[k].rhs);
    SequenceSplit(ss, k, T, H);
    SequenceSplit(ss, k + 1, T, H);
    SequenceSplit(ss[..k + 1], k, T, H);
    assert ss[..k + 1][..k] == ss[..k] && ss[..k + 1][k..] == [ss[k]] && [ss[k]][1..] == [];
    var K := AfterSeq(ss[..k], T, H);
    AssignmentLeaves(ss[k].line, ss[k].lhs, ss[k].rhs, T, K, h);
    CarriedThroughSeq(h, ss[k + 1..], T, After(ss[k], T, K));
  }

  function Leaves(r: Expr): nat {
    if r.Ternary? then Leaves(r.tru) + Leaves(r.fal) else 1
  }

  /** How many questions a statement asks. */
  function Questions(s: Stmt): nat
    decreases s, 1
  {
    match s
    case Null => 0
    case Assign(_, _, r) => Leaves(r)
    case AssignNB(_, _, r) => Leaves(r)
    case Block(body) => QuestionsSeq(body)
    case If(_, t, f) => Questions(t) + Questions(f)
    case Case(_, items) => QuestionsItems(items)
  }

  function QuestionsSeq(ss: seq<Stmt>): nat
    decreases ss, 0
  {
    if ss == [] then 0 else Questions(ss[0]) + QuestionsSeq(ss[1..])
  }

  function QuestionsItems(items: seq<Item>): nat
    decreases items, 0
  {
    if items == [] then 0 else Questions(items[0].stat) + QuestionsItems(items[1..])
  }

  lemma {:induction false} LeafCount(n: nat, x: string, r: Expr, T: set<string>, H: Hyps)
    ensures |LeafObligations(n, x, r, T, H)| == Leaves(r)
  {
    if r.Ternary? {
      LeafCount(n, x, r.tru, T, H + PosHyp(T, r.cond));
      LeafCount(n, x, r.fal, T, H + NegHyp(T, r.cond));
    }
  }

  lemma {:induction false} QuestionCount(s: Stmt, T: set<string>, H: Hyps)
    ensures |Obligations(s, T, H)| == Questions(s)
    decreases s, 1
  {
    match s
    case Null =>
    case Assign(n, x, r) => LeafCount(n, x, r, T, H);
    case AssignNB(n, x, r) => LeafCount(n, x, r, T, H);
    case Block(body) => QuestionCountSeq(body, T, H);
    case If(c, t, f) => QuestionCount(t, T, H + PosHyp(T, c)); QuestionCount(f, T, H + NegHyp(T, c));
    case Case(sel, items) => QuestionCountItems(sel, items, T, H);
  }

  lemma {:induction false} QuestionCountSeq(ss: seq<Stmt>, T: set<string>, H: Hyps)
    ensures |ObligationsSeq(ss, T, H)| == QuestionsSeq(ss)
    decreases ss, 0
  {
    if ss != [] {
      QuestionCount(ss[0], T, H);
      QuestionCountSeq(ss[1..], T, After(ss[0], T, H));
    }
  }

  lemma {:induction false} QuestionCountItems(sel: Expr, items: seq<Item>, T: set<string>, H: Hyps)
    ensures |ObligationsItems(sel, items, T, H)| == QuestionsItems(items)
    decreases items, 0
  {
    if items != [] {
      var H0 := H + GuardHyps(T, sel, items[0]);
      QuestionCount(items[0].stat, T, H0);
      QuestionCountItems(sel, items[1..], T, After(items[0].stat, T, H0));
    }
  }

  /** Every question of the true branch assumes the projected condition, if there is one, and every question
      of the false branch its negated counterpart, as long as the branch assigns nothing they mention. */
  lemma ConditionKnown(c: Expr, t: Stmt, f: Stmt, T: set<string>, H: Hyps)
    ensures var obs, k := Obligations(If(c, t, f), T, H), Questions(t);
            |obs| == k + Questions(f)
            && (IsWellformed(c, T) && Untouched(ToWellformed(c, T).value, Assigned(t)) ==> InAll(ToWellformed(c, T).value, obs[..k]))
            && (IsNegWellformed(c, T) && Untouched(NegToWellformed(c, T).value, Assigned(f)) ==>
                  InAll(Unary(LNot, NegToWellformed(c, T).value), obs[k..]))
  {
    var Ht, Hf := H + PosHyp(T, c), H + NegHyp(T, c);
    QuestionCount(t, T, Ht);
    QuestionCount(f, T, Hf);
    var a, b := Obligations(t, T, Ht), Obligations(f, T, Hf);
    assert (a + b)[..|a|] == a && (a + b)[|a|..] == b;
    if IsWellformed(c, T) && Untouched(ToWellformed(c, T).value, Assigned(t)) {
      CarriedThrough(ToWellformed(c, T).value, t, T, Ht);
    }
    if IsNegWellformed(c, T) && Untouched(NegToWellformed(c, T).value, Assigned(f)) {
      CarriedThrough(Unary(LNot, NegToWellformed(c, T).value), f, T, Hf);
    }
  }

  /** The same for the leaves of a ternary, which assign nothing before they are chosen. */
  lemma LeafConditionKnown(n: nat, x: string, r: Expr, T: set<string>, H: Hyps)
    requires r.Ternary?
    ensures var obs, k := LeafObligations(n, x, r, T, H), Leaves(r.tru);
            |obs| == k + Leaves(r.fal)
            && (IsWellformed(r.cond, T) ==> InAll(ToWellformed(r.cond, T).value, obs[..k]))
            && (IsNegWellformed(r.cond, T) ==> InAll(Unary(LNot, NegToWellformed(r.cond, T).value), obs[k..]))
  {
    var Ht, Hf := H + PosHyp(T, r.cond), H + NegHyp(T, r.cond);
    LeafCount(n, x, r.tru, T, Ht);
    LeafCount(n, x, r.fal, T, Hf);
    var a, b := LeafObligations(n, x, r.tru, T, Ht), LeafObligations(n, x, r.fal, T, Hf);
    assert (a + b)[..|a|] == a && (a + b)[|a|..] == b;
    if IsWellformed(r.cond, T) { LeafCarries(ToWellformed(r.cond, T).value, n, x, r.tru, T, Ht); }
    if IsNegWellformed(r.cond, T) { LeafCarries(Unary(LNot, NegToWellformed(r.cond, T).value), n, x, r.fal, T, Hf); }
  }

  // ----- items one after the other -----

  /** Items are analysed one after the other. */
  lemma {:induction false} ItemsSplit(sel: Expr, items: seq<Item>, k: nat, T: set<string>, H: Hyps)
    requires k <= |items|
    ensures var K := AfterItems(sel, items[..k], T, H);
            AfterItems(sel, items, T, H) == AfterItems(sel, items[k..], T, K)
            && ObligationsItems(sel, items, T, H) == ObligationsItems(sel, items[..k], T, H) + ObligationsItems(sel, items[k..], T, K)
    decreases k
  {
    hide After, Obligations, GuardHyps;
    if k == 0 {
      assert items[..0] == [] && items[0..] == items;
    } else {
      var H0 := H + GuardHyps(T, sel, items[0]);
      var H1 := After(items[0].stat, T, H0);
      ItemsSplit(sel, items[1..], k - 1, T, H1);
      assert items[..k][1..] == items[1..][..k - 1] && items[..k][0] == items[0] && items[1..][k - 1..] == items[k..];
    }
  }

  /** Of a tracked selector, the equation of a guard of item `k` is still there at the end of the case,
      and every question asked for item `k` and all later items carries it, as long as none of them
      assigns what it mentions. */
  lemma GuardCarried(sel: Expr, items: seq<Item>, k: nat, g: Expr, T: set<string>, H: Hyps)
    requires Dump(sel) in T && k < |items| && g in items[k].guards
    requires Untouched(Binary(Eq, sel, g), AssignedItems(items[k..]))
    ensures Binary(Eq, sel, g) in AfterItems(sel, items, T, H)
    ensures InAll(Binary(Eq, sel, g), ObligationsItems(sel, items[k..], T, AfterItems(sel, items[..k], T, H)))
  {
    ItemsSplit(sel, items, k, T, H);
    CarriedThroughItems(Binary(Eq, sel, g), sel, items[k..], T, AfterItems(sel, items[..k], T, H));
  }

  lemma {:induction false} AssignedFrom(items: seq<Item>, k: nat)
    requires k <= |items|
    ensures AssignedItems(items[k..]) <= AssignedItems(items)
    decreases k
  {
    if k > 0 {
      AssignedFrom(items[1..], k - 1);
      assert items[1..][k - 1..] == items[k..];
    } else {
      assert items[0..] == items;
    }
  }

  lemma {:induction false} AssignedAt(items: seq<Item>, k: nat)
    requires k < |items|
    ensures Assigned(items[k].stat) <= AssignedItems(items)
    decreases k
  {
    if k > 0 { AssignedAt(items[1..], k - 1); }
  }

  /** The equations of all guards of all items. */
  function AllGuardHyps(T: set<string>, sel: Expr, items: seq<Item>): Hyps {
    if Dump(sel) in T then set g | g in AllGuards(items) :: Binary(Eq, sel, g) else {}
  }

  /** So the guards of all items stay behind as hypotheses, whatever else the items do; and nothing but
      them does when the items do nothing. */
  lemma CaseKeepsGuards(sel: Expr, items: seq<Item>, T: set<string>, H: Hyps)
    requires forall h | h in AllGuardHyps(T, sel, items) :: Untouched(h, AssignedItems(items))
    ensures AllGuardHyps(T, sel, items) <= AfterItems(sel, items, T, H)
    ensures (forall item | item in items :: item.stat.Null?) ==> AfterItems(sel, items, T, H) == H + AllGuardHyps(T, sel, items)
  {
    forall h | h in AllGuardHyps(T, sel, items) ensures h in AfterItems(sel, items, T, H) {
      var k :| 0 <= k < |items| && h.right in items[k].guards;
      AssignedFrom(items, k);
      GuardCarried(sel, items, k, h.right, T, H);
    }
    if forall item | item in items :: item.stat.Null? { NullItems(sel, items, T, H); }
  }

  lemma {:induction false} NullItems(sel: Expr, items: seq<Item>, T: set<string>, H: Hyps)
    requires forall item | item in items :: item.stat.Null?
    ensures AfterItems(sel, items, T, H) == H + AllGuardHyps(T, sel, items)
  {
    if items != [] {
      NullItems(sel, items[1..], T, H + GuardHyps(T, sel, items[0]));
      GuardsOfTail(items);
    }
  }

  lemma GuardsOfTail(items: seq<Item>)
    requires items != []
    ensures AllGuards(items) == AllGuards(items[..1]) + AllGuards(items[1..])
    ensures forall g :: g in AllGuards(items[..1]) <==> g in items[0].guards
  {
    forall g ensures g in AllGuards(items) <==> g in items[0].guards || g in AllGuards(items[1..]) {
      if g in AllGuards(items) {
        var i :| 0 <= i < |items| && g in items[i].guards;
        assert i > 0 ==> items[1..][i - 1] == items[i];
      }
      if g in AllGuards(items[1..]) {
        var i :| 0 <= i < |items[1..]| && g in items[1..][i].guards;
        assert items[i + 1] == items[1..][i];
      }
    }
    assert items[..1][0] == items[0];
  }

  // ----- when a case statement is analysed soundly -----

  lemma {:induction false} ExecFrame(d: Design, e: Expr, s: Stmt, st: State)
    requires Plain(e) && Untouched(e, Assigned(s))
    ensures Eval(d.I, e, Exec(d, s, st).st.vals) == Eval(d.I, e, st.vals)
    decreases s, 1
  {
    match s
    case Assign(_, x, r) => ContainsExprFrame(d.I, e, x, st.vals, Fit(d, x, Eval(d.I, r, st.vals)));
    case Block(body) => ExecFrameSeq(d, e, body, st);
    case If(c, t, f) => ExecFrame(d, e, t, st); ExecFrame(d, e, f, st);
    case Case(sel, items) =>
      ChosenIsItem(d.I, sel, items, st.vals);
      var c := Chosen(d.I, sel, items, st.vals);
      if c != Null {
        var i :| 0 <= i < |items| && items[i].stat == c;
        AssignedAt(items, i);
        ExecFrame(d, e, items[i].stat, st);
      }
    case _ =>
  }

  lemma {:induction false} ExecFrameSeq(d: Design, e: Expr, ss: seq<Stmt>, st: State)
    requires Plain(e) && Untouched(e, AssignedSeq(ss))
    ensures Eval(d.I, e, ExecSeq(d, ss, st).st.vals) == Eval(d.I, e, st.vals)
    decreases ss, 0
  {
    if ss != [] {
      ExecFrame(d, e, ss[0], st);
      ExecFrameSeq(d, e, ss[1..], Exec(d, ss[0], st).st);
    }
  }

  lemma {:induction false} AfterMonotone(s: Stmt, T: set<string>, H: Hyps, K: Hyps)
    requires H <= K
    ensures After(s, T, H) <= After(s, T, K)
    decreases s, 1
  {
    match s
    case Block(body) => AfterSeqMonotone(body, T, H, K);
    case If(c, t, f) =>
      AfterMonotone(t, T, H + PosHyp(T, c), K + PosHyp(T, c));
      AfterMonotone(f, T, H + NegHyp(T, c), K + NegHyp(T, c));
    case Case(sel, items) => AfterItemsMonotone(sel, items, T, H, K);
    case _ =>
  }

  lemma {:induction false} AfterSeqMonotone(ss: seq<Stmt>, T: set<string>, H: Hyps, K: Hyps)
    requires H <= K
    ensures AfterSeq(ss, T, H) <= AfterSeq(ss, T, K)
    decreases ss, 0
  {
    if ss != [] {
      AfterMonotone(ss[0], T, H, K);
      AfterSeqMonotone(ss[1..], T, After(ss[0], T, H), After(ss[0], T, K));
    }
  }

  lemma {:induction false} AfterItemsMonotone(sel: Expr, items: seq<Item>, T: set<string>, H: Hyps, K: Hyps)
    requires H <= K
    ensures AfterItems(sel, items, T, H) <= AfterItems(sel, items, T, K)
    decreases items, 0
  {
    if items != [] {
      var g := GuardHyps(T, sel, items[0]);
      AfterMonotone(items[0].stat, T, H + g, K + g);
      AfterItemsMonotone(sel, items[1..], T, After(items[0].stat, T, H + g), After(items[0].stat, T, K + g));
    }
  }

  /** Case statements whose bodies are safe and generate nothing, over a selector and guards that they do
      not assign. */
  ghost predicate PlainCase(d: Design, sel: Expr, items: seq<Item>, T: set<string>) {
    TrackedNames(T)
    && (forall item | item in items :: Safe(d, T, item.stat) && Quiet(T, item.stat))
    && (forall h | h in AllGuardHyps(T, sel, items) :: Readable(h) && Untouched(h, AssignedItems(items)))
  }

  lemma GuardHypsIn(sel: Expr, items: seq<Item>, T: set<string>)
    requires items != []
    ensures AllGuardHyps(T, sel, items) == GuardHyps(T, sel, items[0]) + AllGuardHyps(T, sel, items[1..])
  {
    GuardsOfTail(items);
  }

  lemma {:induction false} ItemsWithin(d: Design, sel: Expr, items: seq<Item>, T: set<string>, K: Hyps, M: Hyps)
    requires TrackedNames(T) && forall item | item in items :: Safe(d, T, item.stat) && Quiet(T, item.stat)
    requires K <= M && AllGuardHyps(T, sel, items) <= M && Readables(M)
    ensures AfterItems(sel, items, T, K) <= M
    decreases items
  {
    if items != [] {
      GuardHypsIn(sel, items, T);
      var H0 := K + GuardHyps(T, sel, items[0]);
      assert items[0] in items;
      QuietShrinks(d, items[0].stat, T, H0);
      ItemsWithin(d, sel, items[1..], T, After(items[0].stat, T, H0), M);
    }
  }

  lemma GuardHypsPart(sel: Expr, items: seq<Item>, k: nat, T: set<string>)
    requires k <= |items|
    ensures AllGuardHyps(T, sel, items[..k]) <= AllGuardHyps(T, sel, items)
    ensures AllGuardHyps(T, sel, items[k..]) <= AllGuardHyps(T, sel, items)
  {
    forall g | g in AllGuards(items[..k]) ensures g in AllGuards(items) {
      var i :| 0 <= i < k && g in items[..k][i].guards;
      assert g in items[i].guards;
    }
    forall g | g in AllGuards(items[k..]) ensures g in AllGuards(items) {
      var i :| 0 <= i < |items| - k && g in items[k..][i].guards;
      assert g in items[k + i].guards;
    }
  }

  /** What the whole case leaves behind is left by the item that runs, from the hypotheses and all guard
      equations. */
  lemma CaseWithinItem(d: Design, sel: Expr, items: seq<Item>, T: set<string>, H: Hyps, i: nat)
    requires PlainCase(d, sel, items, T) && Readables(H) && i < |items|
    ensures AfterItems(sel, items, T, H) <= After(items[i].stat, T, H + AllGuardHyps(T, sel, items))
  {
    var E := AllGuardHyps(T, sel, items);
    var s, K := items[i].stat, AfterItems(sel, items[..i], T, H);
    var M := After(s, T, H + E);
    GuardHypsPart(sel, items, i, T);
    ItemsWithin(d, sel, items[..i], T, H, H + E);
    ItemsSplit(sel, items, i, T, H);
    GuardHypsIn(sel, items[i..], T);
    assert items[i..][0] == items[i] && items[i..][1..] == items[i + 1..] && items[i] in items;
    AfterMonotone(s, T, K + GuardHyps(T, sel, items[i]), H + E);
    AfterReadable(d, s, T, H + E);
    AssignedAt(items, i);
    forall h | h in E ensures h in M { CarriedThrough(h, s, T, H + E); }
    GuardHypsPart(sel, items, i + 1, T);
    ItemsWithin(d, sel, items[i + 1..], T, After(s, T, K + GuardHyps(T, sel, items[i])), M);
  }

  /** In a state that satisfies the incoming hypotheses, such a case ends in a state that satisfies the
      outgoing ones exactly when its selector is not tracked or equals every guard of every item. */
  lemma CaseSoundAt(d: Design, sel: Expr, items: seq<Item>, T: set<string>, H: Hyps, st: State)
    requires PlainCase(d, sel, items, T) && Readables(H) && Typed(d, st.vals) && Sat(d.I, H, st.vals)
    ensures Sat(d.I, After(Case(sel, items), T, H), Exec(d, Case(sel, items), st).st.vals)
            <==> Sat(d.I, AllGuardHyps(T, sel, items), st.vals)
  {
    var s, E := Case(sel, items), AllGuardHyps(T, sel, items);
    var after, end := After(s, T, H), Exec(d, s, st).st.vals;
    if Sat(d.I, E, st.vals) { CaseHolds(d, sel, items, T, H, st); }
    if Sat(d.I, after, end) {
      CaseKeepsGuards(sel, items, T, H);
      forall h | h in E ensures True(d.I, h, st.vals) {
        assert h in after && True(d.I, h, end);
        ReadableIsPlain(h);
        ExecFrame(d, h, s, st);
      }
    }
  }

  lemma CaseHolds(d: Design, sel: Expr, items: seq<Item>, T: set<string>, H: Hyps, st: State)
    requires PlainCase(d, sel, items, T) && Readables(H) && Typed(d, st.vals)
    requires Sat(d.I, H, st.vals) && Sat(d.I, AllGuardHyps(T, sel, items), st.vals)
    ensures Sat(d.I, After(Case(sel, items), T, H), Exec(d, Case(sel, items), st).st.vals)
  {
    hide Safe, Quiet, AllGuardHyps, AfterItems;
    var E := AllGuardHyps(T, sel, items);
    ChosenIsItem(d.I, sel, items, st.vals);
    var c := Chosen(d.I, sel, items, st.vals);
    if c == Null {
      ItemsWithin(d, sel, items, T, H, H + E);
    } else {
      var i :| 0 <= i < |items| && items[i].stat == c;
      assert items[i] in items;
      CaseWithinItem(d, sel, items, T, H, i);
      AnalysisSound(d, T, items[i].stat, H + E, st);
    }
  }

  /** From every state of the incoming hypotheses the outgoing ones hold at the end. */
  ghost predicate CaseSound(d: Design, sel: Expr, items: seq<Item>, T: set<string>, H: Hyps) {
    forall st: State | Typed(d, st.vals) && Sat(d.I, H, st.vals) ::
      Sat(d.I, After(Case(sel, items), T, H), Exec(d, Case(sel, items), st).st.vals)
  }

  /** The incoming hypotheses already say that the selector equals every guard. */
  ghost predicate GuardsKnown(d: Design, sel: Expr, items: seq<Item>, T: set<string>, H: Hyps) {
    forall v | Typed(d, v) && Sat(d.I, H, v) :: Sat(d.I, AllGuardHyps(T, sel, items), v)
  }

  lemma CaseSoundExactly(d: Design, sel: Expr, items: seq<Item>, T: set<string>, H: Hyps)
    requires PlainCase(d, sel, items, T) && Readables(H)
    ensures CaseSound(d, sel, items, T, H) <==> GuardsKnown(d, sel, items, T, H)
  {
    if CaseSound(d, sel, items, T, H) {
      forall v | Typed(d, v) && Sat(d.I, H, v) ensures Sat(d.I, AllGuardHyps(T, sel, items), v) {
        var st := State(v, []);
        assert Sat(d.I, After(Case(sel, items), T, H), Exec(d, Case(sel, items), st).st.vals);
        CaseSoundAt(d, sel, items, T, H, st);
      }
    }
    if GuardsKnown(d, sel, items, T, H) {
      forall st: State | Typed(d, st.vals) && Sat(d.I, H, st.vals)
        ensures Sat(d.I, After(Case(sel, items), T, H), Exec(d, Case(sel, items), st).st.vals)
      {
        CaseSoundAt(d, sel, items, T, H, st);
      }
    }
  }

  /** At the start of a process, over a signal with literal guards, that is: exactly when the signal is
      not tracked or no item has a guard. */
  lemma CaseSoundFromNothing(d: Design, x: string, items: seq<Item>, T: set<string>)
    requires PlainCase(d, Ident(x), items, T) && d.Width(x) > 0 && forall g | g in AllGuards(items) :: g.Number?
    ensures CaseSound(d, Ident(x), items, T, {}) <==> x !in T || AllGuards(items) == {}
  {
    var sel := Ident(x);
    CaseSoundExactly(d, sel, items, T, {});
    if x in T && AllGuards(items) != {} {
      var g :| g in AllGuards(items);
      var h := Binary(Eq, sel, g);
      var v: Vals := map[x := if d.I.num(g.digits) == 0 then 1 else 0];
      assert Typed(d, v) && Sat(d.I, {}, v);
      assert h in AllGuardHyps(T, sel, items);
      assert Eval(d.I, sel, v) != Eval(d.I, g, v);
      assert !True(d.I, h, v);
    }
  }

  // ----- when an executed item was checked under what held -----

  lemma {:induction false} EventFrame(d: Design, e: Expr, s: Stmt, st: State)
    requires Plain(e) && Untouched(e, Assigned(s))
    ensures forall ev | ev in Exec(d, s, st).events :: Eval(d.I, e, ev.vals) == Eval(d.I, e, st.vals)
    decreases s, 1
  {
    match s
    case Block(body) => EventFrameSeq(d, e, body, st);
    case If(c, t, f) => EventFrame(d, e, t, st); EventFrame(d, e, f, st);
    case Case(sel, items) =>
      ChosenIsItem(d.I, sel, items, st.vals);
      var c := Chosen(d.I, sel, items, st.vals);
      if c != Null {
        var i :| 0 <= i < |items| && items[i].stat == c;
        AssignedAt(items, i);
        EventFrame(d, e, items[i].stat, st);
      }
    case _ =>
  }

  lemma {:induction false} EventFrameSeq(d: Design, e: Expr, ss: seq<Stmt>, st: State)
    requires Plain(e) && Untouched(e, AssignedSeq(ss))
    ensures forall ev | ev in ExecSeq(d, ss, st).events :: Eval(d.I, e, ev.vals) == Eval(d.I, e, st.vals)
    decreases ss, 0
  {
    if ss != [] {
      EventFrame(d, e, ss[0], st);
      ExecFrame(d, e, ss[0], st);
      EventFrameSeq(d, e, ss[1..], Exec(d, ss[0], st).st);
    }
  }

  /** A statement that assigns nothing the incoming hypotheses mention: if they hold, everything it
      executes is checked under hypotheses that hold, and if not, nothing is. */
  lemma StatementCoveredExactly(d: Design, T: set<string>, s: Stmt, H: Hyps, st: State)
    requires TrackedNames(T) && Safe(d, T, s) && Readables(H) && Typed(d, st.vals)
    requires forall h | h in H :: Untouched(h, Assigned(s))
    ensures Sat(d.I, H, st.vals) ==> CoversAll(d.I, Obligations(s, T, H), Exec(d, s, st).events)
    ensures !Sat(d.I, H, st.vals) ==> CoversNone(d.I, Obligations(s, T, H), Exec(d, s, st).events)
  {
    if Sat(d.I, H, st.vals) {
      AnalysisSound(d, T, s, H, st);
    } else {
      var h :| h in H && !True(d.I, h, st.vals);
      CarriedThrough(h, s, T, H);
      FalseCoversNone(d, Obligations(s, T, H), h, s, st);
    }
  }

  /** A false hypothesis in every question that could be about an executed assignment. */
  lemma FalseCoversNone(d: Design, obs: seq<Obligation>, h: Expr, s: Stmt, st: State)
    requires Readable(h) && Untouched(h, Assigned(s)) && !True(d.I, h, st.vals)
    requires forall ob, e | ob in obs && e in Exec(d, s, st).events && ob.line == e.line :: h in ob.hyps
    ensures CoversNone(d.I, obs, Exec(d, s, st).events)
  {
    hide Exec;
    ReadableIsPlain(h);
    EventFrame(d, h, s, st);
    forall e | e in Exec(d, s, st).events ensures !Covers(d.I, obs, e) {
      assert !True(d.I, h, e.vals);
      assert forall ob | ob in obs && ob.line == e.line :: !Sat(d.I, ob.hyps, e.vals);
    }
  }

  /** The items up to `i` are safe, those before it generate nothing, and no item assigns what the
      guards up to `i` mention. */
  ghost predicate PlainUpTo(d: Design, sel: Expr, items: seq<Item>, T: set<string>, i: nat)
    requires i < |items|
  {
    TrackedNames(T)
    && (forall k | 0 <= k <= i :: Safe(d, T, items[k].stat) && (k < i ==> Quiet(T, items[k].stat)))
    && (forall h | h in AllGuardHyps(T, sel, items[..i + 1]) :: Readable(h) && Untouched(h, AssignedItems(items)))
  }

  /** No question of the items before item `i` is about a line that item executes. */
  ghost predicate OwnLines(sel: Expr, items: seq<Item>, i: nat, T: set<string>, H: Hyps, events: seq<Event>)
    requires i < |items|
  {
    forall ob, e | ob in ObligationsItems(sel, items[..i], T, H) && e in events :: ob.line != e.line
  }

  /** Everything item `i` executes was checked under hypotheses that held if the state it starts in
      satisfies the guard equations of all items up to and including it; otherwise nothing was. */
  lemma ItemCoveredExactly(d: Design, sel: Expr, items: seq<Item>, T: set<string>, H: Hyps, st: State, i: nat)
    requires i < |items| && PlainUpTo(d, sel, items, T, i) && Readables(H) && Typed(d, st.vals) && Sat(d.I, H, st.vals)
    requires OwnLines(sel, items, i, T, H, Exec(d, items[i].stat, st).events)
    ensures var E := AllGuardHyps(T, sel, items[..i + 1]);
            var obs, events := ObligationsItems(sel, items, T, H), Exec(d, items[i].stat, st).events;
            if Sat(d.I, E, st.vals) then CoversAll(d.I, obs, events) else CoversNone(d.I, obs, events)
  {
    if Sat(d.I, AllGuardHyps(T, sel, items[..i + 1]), st.vals) {
      ItemCovered(d, sel, items, T, H, st, i);
    } else {
      var h :| h in AllGuardHyps(T, sel, items[..i + 1]) && !True(d.I, h, st.vals);
      CaseChecksUnderContradiction(d, sel, items, T, H, st, i, h);
    }
  }

  lemma ItemCovered(d: Design, sel: Expr, items: seq<Item>, T: set<string>, H: Hyps, st: State, i: nat)
    requires i < |items| && PlainUpTo(d, sel, items, T, i) && Readables(H) && Typed(d, st.vals) && Sat(d.I, H, st.vals)
    requires Sat(d.I, AllGuardHyps(T, sel, items[..i + 1]), st.vals)
    ensures CoversAll(d.I, ObligationsItems(sel, items, T, H), Exec(d, items[i].stat, st).events)
  {
    hide Exec, CoversAll, Safe;
    var s, K := items[i].stat, AfterItems(sel, items[..i], T, H);
    var H0 := K + GuardHyps(T, sel, items[i]);
    HypsAtItem(d, sel, items, T, H, i);
    AnalysisSound(d, T, s, H0, st);
    ItemsSplit(sel, items, i, T, H);
    assert items[i..][0] == items[i];
    var a, b := ObligationsItems(sel, items[..i], T, H), ObligationsItems(sel, items[i..][1..], T, After(s, T, H0));
    CoversMore(d.I, a, Obligations(s, T, H0), b, Exec(d, s, st).events);
    assert a + Obligations(s, T, H0) + b == a + (Obligations(s, T, H0) + b);
  }

  /** Item `i` is analysed from no more than the incoming hypotheses and the guard equations so far. */
  lemma HypsAtItem(d: Design, sel: Expr, items: seq<Item>, T: set<string>, H: Hyps, i: nat)
    requires i < |items| && PlainUpTo(d, sel, items, T, i) && Readables(H)
    ensures AfterItems(sel, items[..i], T, H) + GuardHyps(T, sel, items[i]) <= H + AllGuardHyps(T, sel, items[..i + 1])
  {
    hide Safe, Quiet, AfterItems;
    GuardHypsSnoc(T, sel, items, i);
    forall item | item in items[..i] ensures Safe(d, T, item.stat) && Quiet(T, item.stat) {
      var k :| 0 <= k < i && item == items[k];
    }
    ItemsWithin(d, sel, items[..i], T, H, H + AllGuardHyps(T, sel, items[..i]));
  }

  lemma GuardsSnoc(items: seq<Item>, i: nat)
    requires i < |items|
    ensures AllGuards(items[..i + 1]) == AllGuards(items[..i]) + set g | g in items[i].guards
  {
    forall g ensures g in AllGuards(items[..i + 1]) <==> g in AllGuards(items[..i]) || g in items[i].guards {
      if g in AllGuards(items[..i + 1]) {
        var j :| 0 <= j <= i && g in items[..i + 1][j].guards;
        assert j < i ==> items[..i][j] == items[j];
      }
      if g in AllGuards(items[..i]) {
        var j :| 0 <= j < i && g in items[..i][j].guards;
        assert items[..i + 1][j] == items[j];
      }
      assert items[..i + 1][i] == items[i];
    }
  }

  lemma GuardHypsSnoc(T: set<string>, sel: Expr, items: seq<Item>, i: nat)
    requires i < |items|
    ensures AllGuardHyps(T, sel, items[..i + 1]) == AllGuardHyps(T, sel, items[..i]) + GuardHyps(T, sel, items[i])
  {
    hide AllGuards;
    GuardsSnoc(items, i);
  }

  /** An item behind a guard that does not equal the selector is checked under a hypothesis that is
      false whenever the item runs, so nothing it executes is covered. */
  lemma CaseChecksUnderContradiction(d: Design, sel: Expr, items: seq<Item>, T: set<string>, H: Hyps, st: State, i: nat, h: Expr)
    requires i < |items| && h in AllGuardHyps(T, sel, items[..i + 1]) && !True(d.I, h, st.vals)
    requires Readable(h) && Untouched(h, AssignedItems(items))
    requires OwnLines(sel, items, i, T, H, Exec(d, items[i].stat, st).events)
    ensures CoversNone(d.I, ObligationsItems(sel, items, T, H), Exec(d, items[i].stat, st).events)
  {
    hide Exec, CoversNone;
    var j :| 0 <= j <= i && h.right in items[..i + 1][j].guards;
    LaterCarry(sel, items, j, i, h.right, T, H);
    ItemsSplit(sel, items, i, T, H);
    AssignedAt(items, i);
    FalseCoversNone(d, ObligationsItems(sel, items, T, H), h, items[i].stat, st);
  }

  /** Every question asked from item `i` on carries the guard equations of item `j` before it. */
  lemma LaterCarry(sel: Expr, items: seq<Item>, j: nat, i: nat, g: Expr, T: set<string>, H: Hyps)
    requires Dump(sel) in T && j <= i < |items| && g in items[j].guards
    requires Untouched(Binary(Eq, sel, g), AssignedItems(items))
    ensures InAll(Binary(Eq, sel, g), ObligationsItems(sel, items[i..], T, AfterItems(sel, items[..i], T, H)))
  {
    AssignedFrom(items, j);
    GuardCarried(sel, items, j, g, T, H);
    ItemsSplit(sel, items[j..], i - j, T, AfterItems(sel, items[..j], T, H));
    ItemsSplit(sel, items[..i], j, T, H);
    assert items[..i][..j] == items[..j] && items[..i][j..] == items[j..][..i - j] && items[j..][i - j..] == items[i..];
  }

  /** Item `i` is the one that runs: the first with a matching guard, or else the last default item. */
  predicate Runs(I: Interp, sel: Expr, items: seq<Item>, v: Vals, i: nat) {
    i < |items|
    && (if Matches(I, sel, items[i], v) then forall j | 0 <= j < i :: !Matches(I, sel, items[j], v)
        else (forall j | 0 <= j < |items| :: !Matches(I, sel, items[j], v))
             && items[i].guards == [] && forall j | i < j < |items| :: items[j].guards != [])
  }

  lemma {:induction false} LastDefault(items: seq<Item>, i: nat)
    requires i < |items| && items[i].guards == [] && forall j | i < j < |items| :: items[j].guards != []
    ensures DefaultOf(items) == items[i].stat
    decreases |items|
  {
    if i < |items| - 1 { LastDefault(items[..|items| - 1], i); }
  }

  lemma RunsIsChosen(I: Interp, sel: Expr, items: seq<Item>, v: Vals, i: nat)
    requires Runs(I, sel, items, v, i)
    ensures Chosen(I, sel, items, v) == items[i].stat
  {
    if Matches(I, sel, items[i], v) {
      assert exists k :: 0 <= k < |items| && Matches(I, sel, items[k], v);
    } else {
      LastDefault(items, i);
    }
  }

  /** So over a tracked selector the item that runs was checked under what held exactly when no item
      before it has a guard and all its own guards equal the selector, otherwise always. If not, none of
      the assignments it executes was. */
  lemma RunCoveredExactly(d: Design, sel: Expr, items: seq<Item>, T: set<string>, H: Hyps, st: State, i: nat)
    requires Runs(d.I, sel, items, st.vals, i)
    requires PlainUpTo(d, sel, items, T, i) && Readables(H) && Typed(d, st.vals) && Sat(d.I, H, st.vals)
    requires OwnLines(sel, items, i, T, H, Exec(d, items[i].stat, st).events)
    ensures var obs, events := Obligations(Case(sel, items), T, H), Exec(d, Case(sel, items), st).events;
            if Dump(sel) in T ==> AllGuards(items[..i]) == {} && AllEqual(d.I, sel, items[i], st.vals)
            then CoversAll(d.I, obs, events) else CoversNone(d.I, obs, events)
  {
    RunsIsChosen(d.I, sel, items, st.vals, i);
    assert Exec(d, Case(sel, items), st) == Exec(d, items[i].stat, st);
    hide Exec, CoversAll, CoversNone, PlainUpTo, OwnLines, Runs;
    ItemCoveredExactly(d, sel, items, T, H, st, i);
    EquationsOfRun(d.I, sel, items, T, st.vals, i);
  }

  predicate AllEqual(I: Interp, sel: Expr, item: Item, v: Vals) {
    forall g | g in item.guards :: Eval(I, g, v) == Eval(I, sel, v)
  }

  lemma EquationsOfRun(I: Interp, sel: Expr, items: seq<Item>, T: set<string>, v: Vals, i: nat)
    requires Runs(I, sel, items, v, i)
    ensures Sat(I, AllGuardHyps(T, sel, items[..i + 1]), v)
            <==> (Dump(sel) in T ==> AllGuards(items[..i]) == {} && AllEqual(I, sel, items[i], v))
  {
    GuardHypsSnoc(T, sel, items, i);
    forall g | g in AllGuards(items[..i]) ensures !True(I, Binary(Eq, sel, g), v) {
      var j :| 0 <= j < i && g in items[..i][j].guards;
      assert !Matches(I, sel, items[j], v);
    }
    if Dump(sel) in T {
      forall g | g in AllGuards(items[..i]) ensures Binary(Eq, sel, g) in AllGuardHyps(T, sel, items[..i]) {}
      forall g | g in items[i].guards ensures Binary(Eq, sel, g) in GuardHyps(T, sel, items[i]) {}
    }
  }

  /** An ordinary case statement whose second item is checked under what did not hold: `case (s) 0: ;
      1: y = 1;` with s tracked and equal to 1. */
  lemma SecondItemUncovered(d: Design, st: State)
    requires d.I.num("0") == 0 && d.I.num("1") == 1 && st.vals == map["s" := 1] && d.Width("s") > 0
    ensures var s := Case(Ident("s"), [Item([Number("0")], Null), Item([Number("1")], Assign(7, "y", Number("1")))]);
            Exec(d, s, st).events == [Event(7, "y", Number("1"), st.vals)]
            && CoversNone(d.I, Obligations(s, {"s"}, {}), Exec(d, s, st).events)
  {
    var zero, one := Item([Number("0")], Null), Item([Number("1")], Assign(7, "y", Number("1")));
    var items := [zero, one];
    var v := st.vals;
    assert Number("0") in zero.guards && Number("1") in one.guards;
    assert !Matches(d.I, Ident("s"), zero, v) && Matches(d.I, Ident("s"), one, v);
    assert items[0] == zero && items[1] == one && Runs(d.I, Ident("s"), items, v, 1);
    assert items[..1] == [zero] && items[..1][1..] == [] && Number("0") in items[..1][0].guards;
    assert Number("0") in AllGuards(items[..1]);
    assert Obligations(Null, {"s"}, {} + GuardHyps({"s"}, Ident("s"), zero)) == [];
    assert ObligationsItems(Ident("s"), items[..1], {"s"}, {}) == [];
    RunsIsChosen(d.I, Ident("s"), items, v, 1);
    SecondItemPlain(d, zero, one);
    RunCoveredExactly(d, Ident("s"), items, {"s"}, {}, st, 1);
  }

  lemma SecondItemPlain(d: Design, zero: Item, one: Item)
    requires zero == Item([Number("0")], Null) && one == Item([Number("1")], Assign(7, "y", Number("1")))
    ensures PlainUpTo(d, Ident("s"), [zero, one], {"s"}, 1)
  {
    var items := [zero, one];
    assert items[1..] == [one] && items[1..][1..] == [];
    assert AssignedItems(items) == Assigned(zero.stat) + (Assigned(one.stat) + AssignedItems([]));
    assert "s"[0] != "y"[0] && "0"[0] != "y"[0] && "1"[0] != "y"[0];
    assert items[..2] == items;
    forall h | h in AllGuardHyps({"s"}, Ident("s"), items) ensures Readable(h) && Untouched(h, AssignedItems(items)) {
      var i :| 0 <= i < 2 && h.right in items[i].guards;
      assert h == Binary(Eq, Ident("s"), Number("0")) || h == Binary(Eq, Ident("s"), Number("1"));
    }
  }

  /** Hypotheses generated inside an item leak as well: without a match the item does not run, yet
      its equation is left behind. */
  lemma CaseLeaksAssignments(d: Design, T: set<string>, H: Hyps, sel: Expr, g: Expr, n: nat, x: string, k: string, st: State)
    requires Dump(sel) !in T && x in T && Sat(d.I, H, st.vals)
    requires Eval(d.I, g, st.vals) != Eval(d.I, sel, st.vals) && Val(st.vals, x) != d.I.num(k)
    ensures var s := Case(sel, [Item([g], Assign(n, x, Number(k)))]);
            Exec(d, s, st).st == st && !Sat(d.I, After(s, T, H), st.vals)
  {
    var item := Item([g], Assign(n, x, Number(k)));
    var s := Case(sel, [item]);
    assert !Matches(d.I, sel, item, st.vals);
    assert DefaultOf([item]) == DefaultOf([item][..0]);
    assert AfterItems(sel, [item], T, H) == AfterItems(sel, [], T, After(item.stat, T, H + GuardHyps(T, sel, item)));
    var h := Binary(Eq, Ident(x), Number(k));
    assert h in After(s, T, H);
    assert Eval(d.I, Ident(x), st.vals) != Eval(d.I, Number(k), st.vals);
    assert Eval(d.I, h, st.vals) == 0;
  }
}
