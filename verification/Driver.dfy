/** The type-checking driver over statements (typecheck.cc) and `mustmodify` (Statement.cc) as
    they update the predicate and the variable set they are handed.
 */
module Driver {
  import opened PForm
  import opened DumpUnique
  import opened Projection
  import opened Statements
  import opened Analysis
  import opened Absint

  // ----- what one run of the driver may do -----

  /** The result of a merge when the two sides come in some order of addresses. */
  ghost predicate Merged(P: Hyps, Q: Hyps, R: Hyps) {
    exists a, b :: Elems(a) == P && Elems(b) == Q && R == Elems(MergeWalk(a, b))
  }

  /** The driver turns `H` into `R` and emits `obs`. Only merges leave a choice. */
  ghost predicate Checks(s: Stmt, T: set<string>, H: Hyps, R: Hyps, obs: seq<Obligation>)
    decreases s, 1
  {
    match s
    case Null => R == H && obs == []
    case Assign(n, x, r) => R == Kill(H, x) + Gen(T, x, r) && obs == LeafObligations(n, x, r, T, H)
    case AssignNB(n, x, r) => R == H && obs == LeafObligations(n, x, r, T, H)
    case Block(body) => ChecksSeq(body, T, H, R, obs)
    case If(c, t, f) =>
      exists P, Q, a, b ::
        ChecksBranch(t, T, H, PosHyp(T, c), P, a) && ChecksBranch(f, T, H, NegHyp(T, c), Q, b) &&
        Merged(P, Q, R) && obs == a + b
    case Case(sel, items) => ChecksItems(sel, items, T, H, R, obs)
  }

  ghost predicate ChecksBranch(s: Stmt, T: set<string>, H: Hyps, added: Hyps, R: Hyps, obs: seq<Obligation>)
    decreases s, 2
  {
    if s.Null? then R == H && obs == [] else Checks(s, T, H + added, R, obs)
  }

  ghost predicate ChecksSeq(ss: seq<Stmt>, T: set<string>, H: Hyps, R: Hyps, obs: seq<Obligation>)
    decreases ss, 0
  {
    if ss == [] then R == H && obs == [] else
    exists M, a, b :: Checks(ss[0], T, H, M, a) && ChecksSeq(ss[1..], T, M, R, b) && obs == a + b
  }

  ghost predicate ChecksItems(sel: Expr, items: seq<Item>, T: set<string>, H: Hyps, R: Hyps, obs: seq<Obligation>)
    decreases items, 0
  {
    if items == [] then R == H && obs == [] else
    exists M, a, b ::
      Checks(items[0].stat, T, H + GuardHyps(T, sel, items[0]), M, a) && ChecksItems(sel, items[1..], T, M, R, b) && obs == a + b
  }

  // ----- the driver refines the analysis -----

  /** The same assignments, each under no more hypotheses. */
  ghost predicate Refines(a: seq<Obligation>, b: seq<Obligation>) {
    |a| == |b| && forall i | 0 <= i < |a| ::
      a[i].line == b[i].line && a[i].lhs == b[i].lhs && a[i].rhs == b[i].rhs && a[i].hyps <= b[i].hyps
  }

  lemma RefinesAppend(a: seq<Obligation>, b: seq<Obligation>, c: seq<Obligation>, d: seq<Obligation>)
    requires Refines(a, c) && Refines(b, d)
    ensures Refines(a + b, c + d)
  {
  }

  lemma {:induction false} LeafMonotone(n: nat, x: string, r: Expr, T: set<string>, H: Hyps, K: Hyps)
    requires H <= K
    ensures Refines(LeafObligations(n, x, r, T, H), LeafObligations(n, x, r, T, K))
  {
    if r.Ternary? {
      LeafMonotone(n, x, r.tru, T, H + PosHyp(T, r.cond), K + PosHyp(T, r.cond));
      LeafMonotone(n, x, r.fal, T, H + NegHyp(T, r.cond), K + NegHyp(T, r.cond));
      RefinesAppend(LeafObligations(n, x, r.tru, T, H + PosHyp(T, r.cond)), LeafObligations(n, x, r.fal, T, H + NegHyp(T, r.cond)),
                    LeafObligations(n, x, r.tru, T, K + PosHyp(T, r.cond)), LeafObligations(n, x, r.fal, T, K + NegHyp(T, r.cond)));
    }
  }

  /** Whatever the addresses, the predicate the driver ends with and those it emits constraints
      under stay within the analysis on sets. */
  lemma {:induction false} ChecksWithinAnalysis(s: Stmt, T: set<string>, H: Hyps, K: Hyps, R: Hyps, obs: seq<Obligation>)
    requires Checks(s, T, H, R, obs) && H <= K
    ensures R <= After(s, T, K) && Refines(obs, Obligations(s, T, K))
    decreases s, 1
  {
    match s
    case Null =>
    case Assign(n, x, r) => LeafMonotone(n, x, r, T, H, K);
    case AssignNB(n, x, r) => LeafMonotone(n, x, r, T, H, K);
    case Block(body) => ChecksSeqWithinAnalysis(body, T, H, K, R, obs);
    case If(c, t, f) =>
      var P, Q, a, b :|
        ChecksBranch(t, T, H, PosHyp(T, c), P, a) && ChecksBranch(f, T, H, NegHyp(T, c), Q, b) &&
        Merged(P, Q, R) && obs == a + b;
      if !t.Null? { ChecksWithinAnalysis(t, T, H + PosHyp(T, c), K + PosHyp(T, c), P, a); }
      if !f.Null? { ChecksWithinAnalysis(f, T, H + NegHyp(T, c), K + NegHyp(T, c), Q, b); }
      var p, q :| Elems(p) == P && Elems(q) == Q && R == Elems(MergeWalk(p, q));
      MergeWalkWithinMeet(p, q);
    case Case(sel, items) => ChecksItemsWithinAnalysis(sel, items, T, H, K, R, obs);
  }

  lemma {:induction false} ChecksSeqWithinAnalysis(ss: seq<Stmt>, T: set<string>, H: Hyps, K: Hyps, R: Hyps, obs: seq<Obligation>)
    requires ChecksSeq(ss, T, H, R, obs) && H <= K
    ensures R <= AfterSeq(ss, T, K) && Refines(obs, ObligationsSeq(ss, T, K))
    decreases ss, 0
  {
    if ss != [] {
      var M, a, b :| Checks(ss[0], T, H, M, a) && ChecksSeq(ss[1..], T, M, R, b) && obs == a + b;
      ChecksWithinAnalysis(ss[0], T, H, K, M, a);
      ChecksSeqWithinAnalysis(ss[1..], T, M, After(ss[0], T, K), R, b);
      RefinesAppend(a, b, Obligations(ss[0], T, K), ObligationsSeq(ss[1..], T, After(ss[0], T, K)));
    }
  }

  lemma {:induction false} ChecksItemsWithinAnalysis(sel: Expr, items: seq<Item>, T: set<string>, H: Hyps, K: Hyps, R: Hyps, obs: seq<Obligation>)
    requires ChecksItems(sel, items, T, H, R, obs) && H <= K
    ensures R <= AfterItems(sel, items, T, K) && Refines(obs, ObligationsItems(sel, items, T, K))
    decreases items, 0
  {
    if items != [] {
      var g := GuardHyps(T, sel, items[0]);
      var M, a, b :| Checks(items[0].stat, T, H + g, M, a) && ChecksItems(sel, items[1..], T, M, R, b) && obs == a + b;
      ChecksWithinAnalysis(items[0].stat, T, H + g, K + g, M, a);
      ChecksItemsWithinAnalysis(sel, items[1..], T, M, After(items[0].stat, T, K + g), R, b);
      RefinesAppend(a, b, Obligations(items[0].stat, T, K + g), ObligationsItems(sel, items[1..], T, After(items[0].stat, T, K + g)));
    }
  }

  /** Some addresses lose nothing in a merge of readable hypotheses. */
  lemma MergedFully(P: Hyps, Q: Hyps)
    requires Readables(P)
    ensures Merged(P, Q, Meet(P, Q))
  {
    var a := SortedList(P);
    var b := SortedList(Q);
    forall i, j | 0 <= i < |a| && 0 <= j < |a| && Dump(a[i]) == Dump(a[j]) ensures a[i] == a[j] {
      assert a[i] in Elems(a) && a[j] in Elems(a);
      DumpInjective(a[i], a[j]);
    }
    MergeWalkComplete(a, b);
  }

  /** And the bound is reached: at some addresses the driver leaves and asks all that the analysis says. */
  lemma {:induction false} AnalysisReached(d: Design, s: Stmt, T: set<string>, H: Hyps)
    requires TrackedNames(T) && Safe(d, T, s) && Readables(H)
    ensures Checks(s, T, H, After(s, T, H), Obligations(s, T, H))
    decreases s, 1
  {
    match s
    case Block(body) => AnalysisReachedSeq(d, body, T, H);
    case If(c, t, f) =>
      var Ht, Hf := H + PosHyp(T, c), H + NegHyp(T, c);
      var P, Q := if t.Null? then H else After(t, T, Ht), if f.Null? then H else After(f, T, Hf);
      if !t.Null? { AnalysisReached(d, t, T, Ht); AfterReadable(d, t, T, Ht); }
      if !f.Null? { AnalysisReached(d, f, T, Hf); }
      assert ChecksBranch(t, T, H, PosHyp(T, c), P, Obligations(t, T, Ht));
      assert ChecksBranch(f, T, H, NegHyp(T, c), Q, Obligations(f, T, Hf));
      MergedFully(P, Q);
    case Case(sel, items) => AnalysisReachedItems(d, sel, items, T, H);
    case _ =>
  }

  lemma {:induction false} AnalysisReachedSeq(d: Design, ss: seq<Stmt>, T: set<string>, H: Hyps)
    requires TrackedNames(T) && SafeSeq(d, T, ss) && Readables(H)
    ensures ChecksSeq(ss, T, H, AfterSeq(ss, T, H), ObligationsSeq(ss, T, H))
    decreases ss, 0
  {
    if ss != [] {
      AnalysisReached(d, ss[0], T, H);
      AfterReadable(d, ss[0], T, H);
      AnalysisReachedSeq(d, ss[1..], T, After(ss[0], T, H));
    }
  }

  lemma {:induction false} AnalysisReachedItems(d: Design, sel: Expr, items: seq<Item>, T: set<string>, H: Hyps)
    requires TrackedNames(T) && SafeItems(d, T, sel, items) && Readables(H)
    ensures ChecksItems(sel, items, T, H, AfterItems(sel, items, T, H), ObligationsItems(sel, items, T, H))
    decreases items, 0
  {
    if items != [] {
      assert H + GuardHyps(T, sel, items[0]) == H;
      AnalysisReached(d, items[0].stat, T, H);
      AfterReadable(d, items[0].stat, T, H);
      AnalysisReachedItems(d, sel, items[1..], T, After(items[0].stat, T, H));
    }
  }

  /** What the driver knows after a blocking assignment: what it knew that does not mention the target,
      and the equation, exactly when target and right-hand side are tracked, or the latter is a number. */
  lemma AssignmentKnownExactly(n: nat, x: string, r: Expr, T: set<string>, H: Hyps, R: Hyps, obs: seq<Obligation>, h: Expr)
    requires Checks(Assign(n, x, r), T, H, R, obs)
    ensures h in R <==> (h in H && !ContainsExpr(h, x))
                        || (x in T && (r.Number? || Dump(r) in T) && h == Binary(Eq, Ident(x), r))
  {
    AssignmentLeaves(n, x, r, T, H, h);
    ChecksExactly(Assign(n, x, r), T, H, R, obs);
  }

  /** No merge, no choice: on statements without if the driver leaves and asks exactly what the analysis
      says, so what the case driver leaks in the analysis it leaks in the driver. */
  lemma {:induction false} ChecksExactly(s: Stmt, T: set<string>, H: Hyps, R: Hyps, obs: seq<Obligation>)
    requires NoMerge(s)
    ensures Checks(s, T, H, R, obs) <==> R == After(s, T, H) && obs == Obligations(s, T, H)
    decreases s, 1
  {
    match s
    case Block(body) => ChecksSeqExactly(body, T, H, R, obs);
    case Case(sel, items) => ChecksItemsExactly(sel, items, T, H, R, obs);
    case _ =>
  }

  predicate NoMerge(s: Stmt)
    decreases s, 1
  {
    match s
    case Block(body) => NoMergeSeq(body)
    case If(_, _, _) => false
    case Case(_, items) => NoMergeItems(items)
    case _ => true
  }

  predicate NoMergeSeq(ss: seq<Stmt>)
    decreases ss, 0
  {
    ss == [] || (NoMerge(ss[0]) && NoMergeSeq(ss[1..]))
  }

  predicate NoMergeItems(items: seq<Item>)
    decreases items, 0
  {
    items == [] || (NoMerge(items[0].stat) && NoMergeItems(items[1..]))
  }

  lemma {:induction false} ChecksSeqExactly(ss: seq<Stmt>, T: set<string>, H: Hyps, R: Hyps, obs: seq<Obligation>)
    requires NoMergeSeq(ss)
    ensures ChecksSeq(ss, T, H, R, obs) <==> R == AfterSeq(ss, T, H) && obs == ObligationsSeq(ss, T, H)
    decreases ss, 0
  {
    if ss != [] {
      var M0, a0 := After(ss[0], T, H), Obligations(ss[0], T, H);
      ChecksExactly(ss[0], T, H, M0, a0);
      ChecksSeqExactly(ss[1..], T, M0, AfterSeq(ss, T, H), ObligationsSeq(ss[1..], T, M0));
      if M, a, b :| Checks(ss[0], T, H, M, a) && ChecksSeq(ss[1..], T, M, R, b) && obs == a + b {
        ChecksExactly(ss[0], T, H, M, a);
        ChecksSeqExactly(ss[1..], T, M, R, b);
      }
    }
  }

  lemma {:induction false} ChecksItemsExactly(sel: Expr, items: seq<Item>, T: set<string>, H: Hyps, R: Hyps, obs: seq<Obligation>)
    requires NoMergeItems(items)
    ensures ChecksItems(sel, items, T, H, R, obs) <==> R == AfterItems(sel, items, T, H) && obs == ObligationsItems(sel, items, T, H)
    decreases items, 0
  {
    if items != [] {
      var s, H0 := items[0].stat, H + GuardHyps(T, sel, items[0]);
      var M0, a0 := After(s, T, H0), Obligations(s, T, H0);
      ChecksExactly(s, T, H0, M0, a0);
      ChecksItemsExactly(sel, items[1..], T, M0, AfterItems(sel, items, T, H), ObligationsItems(sel, items[1..], T, M0));
      if M, a, b :| Checks(s, T, H0, M, a) && ChecksItems(sel, items[1..], T, M, R, b) && obs == a + b {
        ChecksExactly(s, T, H0, M, a);
        ChecksItemsExactly(sel, items[1..], T, M, R, b);
      }
    }
  }

  /** So the driver is sound whatever the addresses of its hypotheses: every assignment executed in
      an activation of a checked process was covered by an emitted obligation. */
  lemma DriverSound(d: Design, T: set<string>, s: Stmt, R: Hyps, obs: seq<Obligation>, st: State)
    requires TrackedNames(T) && Safe(d, T, s) && Typed(d, st.vals) && Checks(s, T, {}, R, obs)
    ensures CoversAll(d.I, obs, Exec(d, s, st).events) && Sat(d.I, R, Exec(d, s, st).st.vals)
  {
    AnalysisSound(d, T, s, {}, st);
    ChecksWithinAnalysis(s, T, {}, {}, R, obs);
    RefinesCovers(d.I, obs, Obligations(s, T, {}), Exec(d, s, st).events);
  }

  lemma RefinesCovers(I: Interp, obs: seq<Obligation>, full: seq<Obligation>, events: seq<Event>)
    requires Refines(obs, full) && CoversAll(I, full, events)
    ensures CoversAll(I, obs, events)
  {
    forall e | e in events ensures Covers(I, obs, e) {
      assert Covers(I, full, e);
      var ob :| ob in full && ob.line == e.line && ob.lhs == e.lhs && ob.rhs == e.rhs && Sat(I, ob.hyps, e.vals);
      var i :| 0 <= i < |full| && full[i] == ob;
      assert obs[i] in obs && Sat(I, obs[i].hyps, e.vals);
    }
  }

  /** And for a case statement: when the selector is not tracked, or no item before the one that runs has
      a guard and its own guards equal the selector, every assignment it executes was covered; otherwise,
      when no merge has lost a hypothesis, none was. */
  lemma CaseRunChecked(d: Design, sel: Expr, items: seq<Item>, T: set<string>, H: Hyps, R: Hyps, obs: seq<Obligation>, st: State, i: nat)
    requires Checks(Case(sel, items), T, H, R, obs) && Runs(d.I, sel, items, st.vals, i)
    requires PlainUpTo(d, sel, items, T, i) && Readables(H) && Typed(d, st.vals) && Sat(d.I, H, st.vals)
    requires OwnLines(sel, items, i, T, H, Exec(d, items[i].stat, st).events)
    ensures var events := Exec(d, Case(sel, items), st).events;
            if Dump(sel) in T ==> AllGuards(items[..i]) == {} && AllEqual(d.I, sel, items[i], st.vals)
            then CoversAll(d.I, obs, events) else NoMergeItems(items) ==> CoversNone(d.I, obs, events)
  {
    hide Exec, Checks, PlainUpTo, OwnLines, Runs, CoversAll, CoversNone;
    var s := Case(sel, items);
    RunCoveredExactly(d, sel, items, T, H, st, i);
    ChecksWithinAnalysis(s, T, H, H, R, obs);
    if CoversAll(d.I, Obligations(s, T, H), Exec(d, s, st).events) {
      RefinesCovers(d.I, obs, Obligations(s, T, H), Exec(d, s, st).events);
    }
    if NoMergeItems(items) { ChecksExactly(s, T, H, R, obs); }
  }

  // ----- the driver -----

  function Weight(s: Stmt): nat
    decreases s, 1
  {
    match s
    case Null => 0
    case Assign(_, _, r) => 1 + Ternaries(r)
    case AssignNB(_, _, r) => 1 + Ternaries(r)
    case Block(body) => 1 + WeightSeq(body)
    case If(_, t, f) => 1 + Weight(t) + Weight(f)
    case Case(_, items) => 1 + WeightItems(items)
  }

  function WeightSeq(ss: seq<Stmt>): nat
    decreases ss, 0
  {
    if ss == [] then 0 else Weight(ss[0]) + WeightSeq(ss[1..])
  }

  function WeightItems(items: seq<Item>): nat
    decreases items, 0
  {
    if items == [] then 0 else Weight(items[0].stat) + WeightItems(items[1..])
  }

  function Ternaries(r: Expr): nat {
    if r.Ternary? then 3 + Ternaries(r.tru) + Ternaries(r.fal) else 0
  }

  lemma {:induction false} TranslateWeight(n: nat, x: string, r: Expr)
    requires r.Ternary?
    ensures Weight(Translate(n, x, r)) <= Ternaries(r)
  {
    if r.tru.Ternary? { TranslateWeight(n, x, r.tru); }
    if r.fal.Ternary? { TranslateWeight(n, x, r.fal); }
  }

  /** Obligations of a translated ternary do not depend on the merges. */
  lemma {:induction false} ChecksTranslated(n: nat, x: string, r: Expr, T: set<string>, H: Hyps, R: Hyps, obs: seq<Obligation>)
    requires r.Ternary? && Checks(Translate(n, x, r), T, H, R, obs)
    ensures obs == LeafObligations(n, x, r, T, H)
  {
    var s := Translate(n, x, r);
    var P, Q, a, b :|
      ChecksBranch(s.thn, T, H, PosHyp(T, s.cond), P, a) && ChecksBranch(s.els, T, H, NegHyp(T, s.cond), Q, b) &&
      Merged(P, Q, R) && obs == a + b;
    assert Checks(s.thn, T, H + PosHyp(T, r.cond), P, a) && Checks(s.els, T, H + NegHyp(T, r.cond), Q, b);
    if r.tru.Ternary? { ChecksTranslated(n, x, r.tru, T, H + PosHyp(T, r.cond), P, a); }
    if r.fal.Ternary? { ChecksTranslated(n, x, r.fal, T, H + NegHyp(T, r.cond), Q, b); }
    assert a == LeafObligations(n, x, r.tru, T, H + PosHyp(T, r.cond));
    assert b == LeafObligations(n, x, r.fal, T, H + NegHyp(T, r.cond));
  }

  /** `typecheck` of a statement: updates the predicate in place and returns the emitted
      obligations. */
  method Typecheck(s: Stmt, T: set<string>, pred: Predicate) returns (obs: seq<Obligation>)
    requires !s.Null?
    modifies pred
    ensures Checks(s, T, old(Elems(pred.hypotheses)), Elems(pred.hypotheses), obs)
    decreases Weight(s), 1
  {
    match s
    case Assign(n, x, r) =>
      obs := TypecheckBlocking(n, x, r, T, pred);
    case AssignNB(n, x, r) =>
      obs := TypecheckNonblocking(n, x, r, T, pred);
    case Block(body) =>
      obs := TypecheckBlock(body, T, pred);
    case If(c, t, f) =>
      obs := TypecheckCondit(c, t, f, T, pred);
    case Case(sel, items) =>
      obs := TypecheckCase(sel, items, T, pred);
  }

  method TypecheckBlocking(n: nat, x: string, r: Expr, T: set<string>, pred: Predicate) returns (obs: seq<Obligation>)
    modifies pred
    ensures Elems(pred.hypotheses) == Kill(old(Elems(pred.hypotheses)), x) + Gen(T, x, r)
    ensures obs == LeafObligations(n, x, r, T, old(Elems(pred.hypotheses)))
    decreases 1 + Ternaries(r), 0
  {
    var precond := new Predicate.Copy(pred);
    pred.Invalidate(x);
    if Generates(T, x, r) {
      pred.Insert(Binary(Eq, Ident(x), r));
    }
    obs := TypecheckAssignment(n, x, r, T, precond);
  }

  /** The update is not visible in this time step, so the predicate stays. */
  method TypecheckNonblocking(n: nat, x: string, r: Expr, T: set<string>, pred: Predicate) returns (obs: seq<Obligation>)
    ensures obs == LeafObligations(n, x, r, T, Elems(pred.hypotheses))
    decreases 1 + Ternaries(r), 0
  {
    var precond := new Predicate.Copy(pred);
    obs := TypecheckAssignment(n, x, r, T, precond);
  }

  /** A ternary right-hand side is checked as the equivalent if/else, on a copy. */
  method TypecheckAssignment(n: nat, x: string, r: Expr, T: set<string>, precond: Predicate) returns (obs: seq<Obligation>)
    modifies precond
    ensures obs == LeafObligations(n, x, r, T, old(Elems(precond.hypotheses)))
    decreases Ternaries(r), 2
  {
    if r.Ternary? {
      TranslateWeight(n, x, r);
      ghost var H := Elems(precond.hypotheses);
      obs := Typecheck(Translate(n, x, r), T, precond);
      ChecksTranslated(n, x, r, T, H, Elems(precond.hypotheses), obs);
    } else {
      obs := [Obligation(n, x, r, Elems(precond.hypotheses))];
    }
  }

  lemma {:induction false} WeightOfPart(ss: seq<Stmt>, i: nat)
    requires i < |ss|
    ensures Weight(ss[i]) <= WeightSeq(ss)
  {
    if i > 0 { WeightOfPart(ss[1..], i - 1); }
  }

  /** What remains of the block completes the check of the whole block. */
  ghost predicate Completes(body: seq<Stmt>, idx: nat, T: set<string>, H: Hyps, M: Hyps, obs: seq<Obligation>)
    requires idx <= |body|
  {
    forall R, b :: ChecksSeq(body[idx..], T, M, R, b) ==> ChecksSeq(body, T, H, R, obs + b)
  }

  lemma CompletesStep(body: seq<Stmt>, idx: nat, T: set<string>, H: Hyps, M: Hyps, M': Hyps, obs: seq<Obligation>, a: seq<Obligation>)
    requires idx < |body| && Completes(body, idx, T, H, M, obs) && Checks(body[idx], T, M, M', a)
    ensures Completes(body, idx + 1, T, H, M', obs + a)
  {
    assert body[idx..][0] == body[idx] && body[idx..][1..] == body[idx + 1..];
    forall R, b | ChecksSeq(body[idx + 1..], T, M', R, b) ensures ChecksSeq(body, T, H, R, obs + a + b) {
      assert ChecksSeq(body[idx..], T, M, R, a + b);
      assert obs + (a + b) == obs + a + b;
    }
  }

  method TypecheckBlock(body: seq<Stmt>, T: set<string>, pred: Predicate) returns (obs: seq<Obligation>)
    modifies pred
    ensures ChecksSeq(body, T, old(Elems(pred.hypotheses)), Elems(pred.hypotheses), obs)
    decreases 1 + WeightSeq(body), 0
  {
    obs := [];
    ghost var H := Elems(pred.hypotheses);
    assert Completes(body, 0, T, H, H, []);
    var idx := 0;
    while idx < |body|
      invariant idx <= |body|
      invariant Completes(body, idx, T, H, Elems(pred.hypotheses), obs)
    {
      ghost var M := Elems(pred.hypotheses);
      var a := [];
      if !body[idx].Null? {
        WeightOfPart(body, idx);
        a := Typecheck(body[idx], T, pred);
      }
      CompletesStep(body, idx, T, H, M, Elems(pred.hypotheses), obs, a);
      obs := obs + a;
      idx := idx + 1;
    }
    assert ChecksSeq(body[idx..], T, Elems(pred.hypotheses), Elems(pred.hypotheses), []);
    assert obs + [] == obs;
  }

  /** `PCondit::absintp`: add the projected condition, or the negated projection. */
  method AbsintpCondit(c: Expr, t: Stmt, f: Stmt, T: set<string>, istrue: bool, pred: Predicate)
    modifies pred
    ensures Elems(pred.hypotheses) == old(Elems(pred.hypotheses)) +
            (if istrue && !t.Null? then PosHyp(T, c) else if !f.Null? then NegHyp(T, c) else {})
  {
    if istrue && !t.Null? {
      if IsWellformed(c, T) {
        pred.Insert(ToWellformed(c, T).value);
      }
    } else if !f.Null? {
      if IsNegWellformed(c, T) {
        pred.Insert(Unary(LNot, NegToWellformed(c, T).value));
      }
    }
  }

  method TypecheckCondit(c: Expr, t: Stmt, f: Stmt, T: set<string>, pred: Predicate) returns (obs: seq<Obligation>)
    modifies pred
    ensures Checks(If(c, t, f), T, old(Elems(pred.hypotheses)), Elems(pred.hypotheses), obs)
    decreases Weight(If(c, t, f)), 0
  {
    var beforeif := pred.hypotheses;
    var a, b := [], [];
    if !t.Null? {
      AbsintpCondit(c, t, f, T, true, pred);
      a := Typecheck(t, T, pred);
    }
    var afterif := pred.hypotheses;
    pred.hypotheses := beforeif;
    if !f.Null? {
      AbsintpCondit(c, t, f, T, false, pred);
      b := Typecheck(f, T, pred);
    }
    var afterelse := pred.hypotheses;
    pred.hypotheses := [];
    pred.Merge(afterif, afterelse);
    assert Elems(pred.hypotheses) == Elems(MergeWalk(afterif, afterelse));
    obs := a + b;
    ChecksIf(c, t, f, T, Elems(beforeif), afterif, afterelse, a, b);
  }

  lemma ChecksIf(c: Expr, t: Stmt, f: Stmt, T: set<string>, H: Hyps, p: seq<Expr>, q: seq<Expr>, a: seq<Obligation>, b: seq<Obligation>)
    requires ChecksBranch(t, T, H, PosHyp(T, c), Elems(p), a) && ChecksBranch(f, T, H, NegHyp(T, c), Elems(q), b)
    ensures Checks(If(c, t, f), T, H, Elems(MergeWalk(p, q)), a + b)
  {
    assert Merged(Elems(p), Elems(q), Elems(MergeWalk(p, q)));
  }

  lemma {:induction false} WeightOfItem(items: seq<Item>, i: nat)
    requires i < |items|
    ensures Weight(items[i].stat) <= WeightItems(items)
  {
    if i > 0 { WeightOfItem(items[1..], i - 1); }
  }

  ghost predicate CompletesItems(sel: Expr, items: seq<Item>, idx: nat, T: set<string>, H: Hyps, M: Hyps, obs: seq<Obligation>)
    requires idx <= |items|
  {
    forall R, b :: ChecksItems(sel, items[idx..], T, M, R, b) ==> ChecksItems(sel, items, T, H, R, obs + b)
  }

  lemma CompletesItemsStep(sel: Expr, items: seq<Item>, idx: nat, T: set<string>, H: Hyps, M: Hyps, M': Hyps, obs: seq<Obligation>, a: seq<Obligation>)
    requires idx < |items| && CompletesItems(sel, items, idx, T, H, M, obs)
    requires Checks(items[idx].stat, T, M + GuardHyps(T, sel, items[idx]), M', a)
    ensures CompletesItems(sel, items, idx + 1, T, H, M', obs + a)
  {
    assert items[idx..][0] == items[idx] && items[idx..][1..] == items[idx + 1..];
    forall R, b | ChecksItems(sel, items[idx + 1..], T, M', R, b) ensures ChecksItems(sel, items, T, H, R, obs + a + b) {
      assert ChecksItems(sel, items[idx..], T, M, R, a + b);
      assert obs + (a + b) == obs + a + b;
    }
  }

  /** The saved predicate is "assigned back" after each item, which changes nothing. */
  method TypecheckCase(sel: Expr, items: seq<Item>, T: set<string>, pred: Predicate) returns (obs: seq<Obligation>)
    modifies pred
    ensures ChecksItems(sel, items, T, old(Elems(pred.hypotheses)), Elems(pred.hypotheses), obs)
    decreases 1 + WeightItems(items), 0
  {
    obs := [];
    ghost var H := Elems(pred.hypotheses);
    assert CompletesItems(sel, items, 0, T, H, H, []);
    var idx := 0;
    while idx < |items|
      invariant idx <= |items|
      invariant CompletesItems(sel, items, idx, T, H, Elems(pred.hypotheses), obs)
    {
      ghost var M := Elems(pred.hypotheses);
      var cur := items[idx];
      var oldh := new Predicate.Copy(pred);
      if Dump(sel) in T {
        InsertGuards(sel, cur.guards, pred);
      }
      assert Elems(pred.hypotheses) == M + GuardHyps(T, sel, cur);
      var a := [];
      if !cur.stat.Null? {
        WeightOfItem(items, idx);
        a := Typecheck(cur.stat, T, pred);
      }
      var unused := pred.Assign(oldh);
      CompletesItemsStep(sel, items, idx, T, H, M, Elems(pred.hypotheses), obs, a);
      obs := obs + a;
      idx := idx + 1;
    }
    assert ChecksItems(sel, items[idx..], T, Elems(pred.hypotheses), Elems(pred.hypotheses), []);
    assert obs + [] == obs;
  }

  method InsertGuards(sel: Expr, guards: seq<Expr>, pred: Predicate)
    modifies pred
    ensures Elems(pred.hypotheses) == old(Elems(pred.hypotheses)) + set g | g in guards :: Binary(Eq, sel, g)
  {
    for e := 0 to |guards|
      invariant Elems(pred.hypotheses) == old(Elems(pred.hypotheses)) + set g | g in guards[..e] :: Binary(Eq, sel, g)
    {
      pred.Insert(Binary(Eq, sel, guards[e]));
      assert guards[..e + 1] == guards[..e] + [guards[e]];
    }
  }

  // ----- mustmodify -----

  /** The set of assigned variables a statement fills in. */
  class VarSet {
    var names: set<string>

    constructor ()
      ensures names == {}
    {
      names := {};
    }
  }

  method FillMustModify(s: Stmt, tracked: set<string>, vars: VarSet)
    modifies vars
    ensures vars.names == old(vars.names) + MustModify(s, tracked)
    decreases s, 1
  {
    match s {
      case Assign(_, x, _) =>
        if x in tracked { vars.names := vars.names + {x}; }
      case AssignNB(_, x, _) =>
        if x in tracked { vars.names := vars.names + {x}; }
      case Block(body) =>
        FillMustModifyBlock(body, tracked, vars);
      case If(_, t, f) =>
        FillMustModifyCondit(s, t, f, tracked, vars);
      case _ =>
    }
  }

  method FillMustModifyBlock(body: seq<Stmt>, tracked: set<string>, vars: VarSet)
    modifies vars
    ensures vars.names == old(vars.names) + MustModifySeq(body, tracked)
    decreases body, 0
  {
    for idx := 0 to |body|
      invariant vars.names + MustModifySeq(body[idx..], tracked) == old(vars.names) + MustModifySeq(body, tracked)
    {
      assert body[idx..][1..] == body[idx + 1..];
      if !body[idx].Null? {
        FillMustModify(body[idx], tracked, vars);
      }
    }
  }

  method FillMustModifyCondit(ghost s: Stmt, t: Stmt, f: Stmt, tracked: set<string>, vars: VarSet)
    requires s.If? && s.thn == t && s.els == f
    modifies vars
    ensures vars.names == old(vars.names) + MustModify(t, tracked) * MustModify(f, tracked)
    decreases s, 0
  {
    var ifModified := new VarSet();
    var elseModified := new VarSet();
    if !t.Null? { FillMustModify(t, tracked, ifModified); }
    if !f.Null? { FillMustModify(f, tracked, elseModified); }
    vars.names := vars.names + ifModified.names * elseModified.names;
  }
}
