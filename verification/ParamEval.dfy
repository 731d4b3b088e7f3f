/** Evaluation of parameter expressions (`NetEParam::eval_tree` in eval_tree.cc, with net_expr.cc,
    net_scope.cc and net_design.cc). References are evaluated on a copy of the table entry, results
    are written back to the table, and a `solving` flag is meant to stop recursion.

    The flag belongs to the reference node, and `dup_expr` copies it. Only the entry that is being
    evaluated in place shows a raised flag to the copies made from it.
 */
module ParamEval {
  import opened Wrappers

  /** Parameter expressions: constants, references with their flag, and sums standing for the
      strict operators, which evaluate both operands whatever comes of the first. */
  datatype Expr = Const(v: int) | Ref(name: string, solving: bool) | Add(l: Expr, r: Expr)

  /** The parameter table; a name without an entry has a null expression. */
  type Table = map<string, Expr>

  /** OutOfFuel stands for a recursion deeper than the fuel. */
  datatype Res<+T> = OutOfFuel | Done(value: T)

  // ----- evaluation with write-back -----

  datatype Answer = Answer(table: Table, val: Option<int>)

  function Plus(a: Option<int>, b: Option<int>): Option<int> {
    if a.Some? && b.Some? then Some(a.value + b.value) else None
  }

  /** Evaluate a private copy of an expression. */
  function EvalCopy(T: Table, e: Expr, fuel: nat): Res<Answer>
    decreases fuel, 1, e
  {
    match e
    case Const(v) => Done(Answer(T, Some(v)))
    case Ref(n, s) => if s then Done(Answer(T, None)) else EvalName(T, n, fuel)
    case Add(l, r) =>
      var a := EvalCopy(T, l, fuel);
      if a.OutOfFuel? then OutOfFuel else
      var b := EvalCopy(a.value.table, r, fuel);
      if b.OutOfFuel? then OutOfFuel else
      Done(Answer(b.value.table, Plus(a.value.val, b.value.val)))
  }

  /** Evaluate a reference to `n`: a null entry fails, a constant is returned, anything else is
      copied, evaluated, and replaced by its value. */
  function EvalName(T: Table, n: string, fuel: nat): Res<Answer>
    decreases fuel, 0
  {
    if n !in T then Done(Answer(T, None))
    else if T[n].Const? then Done(Answer(T, Some(T[n].v)))
    else if fuel == 0 then OutOfFuel
    else
      var a := EvalCopy(T, T[n], fuel - 1);
      if a.OutOfFuel? then OutOfFuel
      else if a.value.val.None? then a
      else Done(Answer(a.value.table[n := Const(a.value.val.value)], a.value.val))
  }

  // ----- the meaning of a table -----

  /** Direct recursive value, without write-back. */
  function Value(T: Table, e: Expr, fuel: nat): Res<Option<int>>
    decreases fuel, 1, e
  {
    match e
    case Const(v) => Done(Some(v))
    case Ref(n, s) => if s then Done(None) else Denotes(T, n, fuel)
    case Add(l, r) =>
      var a, b := Value(T, l, fuel), Value(T, r, fuel);
      if a.OutOfFuel? || b.OutOfFuel? then OutOfFuel else Done(Plus(a.value, b.value))
  }

  function Denotes(T: Table, n: string, fuel: nat): Res<Option<int>>
    decreases fuel, 0
  {
    if n !in T then Done(None)
    else if T[n].Const? then Done(Some(T[n].v))
    else if fuel == 0 then OutOfFuel
    else Value(T, T[n], fuel - 1)
  }

  lemma {:induction false} ValueFuel(T: Table, e: Expr, f: nat, g: nat)
    requires f <= g && Value(T, e, f).Done?
    ensures Value(T, e, g) == Value(T, e, f)
    decreases f, 1, e
  {
    match e
    case Ref(n, s) => if !s { DenotesFuel(T, n, f, g); }
    case Add(l, r) => ValueFuel(T, l, f, g); ValueFuel(T, r, f, g);
    case _ =>
  }

  lemma {:induction false} DenotesFuel(T: Table, n: string, f: nat, g: nat)
    requires f <= g && Denotes(T, n, f).Done?
    ensures Denotes(T, n, g) == Denotes(T, n, f)
    decreases f, 0
  {
    if n in T && !T[n].Const? { ValueFuel(T, T[n], f - 1, g - 1); }
  }

  /** `U` is `T` with some entries settled: replaced by the constant they denote, or made null
      when they denote nothing. */
  ghost predicate Settled(T: Table, U: Table) {
    U.Keys <= T.Keys && forall m | m in T :: SettledAt(T, U, m)
  }

  ghost predicate SettledAt(T: Table, U: Table, m: string)
    requires m in T
  {
    if m !in U then exists f: nat :: Denotes(T, m, f) == Done(None)
    else U[m] == T[m] || IsValueOf(T, m, U[m])
  }

  ghost predicate IsValueOf(T: Table, m: string, e: Expr) {
    e.Const? && exists f: nat :: Denotes(T, m, f) == Done(Some(e.v))
  }

  /** Two results for one name are the same. */
  lemma DenotesUnique(T: Table, n: string, f: nat, g: nat)
    requires Denotes(T, n, f).Done? && Denotes(T, n, g).Done?
    ensures Denotes(T, n, f) == Denotes(T, n, g)
  {
    if f <= g { DenotesFuel(T, n, f, g); } else { DenotesFuel(T, n, g, f); }
  }

  /** Settling neither changes values nor makes recursions deeper. */
  lemma {:induction false} SettledValue(T: Table, U: Table, e: Expr, f: nat)
    requires Settled(T, U) && Value(T, e, f).Done?
    ensures Value(U, e, f) == Value(T, e, f)
    decreases f, 1, e
  {
    match e
    case Ref(n, s) => if !s { SettledDenotes(T, U, n, f); }
    case Add(l, r) => SettledValue(T, U, l, f); SettledValue(T, U, r, f);
    case _ =>
  }

  lemma {:induction false} SettledDenotes(T: Table, U: Table, n: string, f: nat)
    requires Settled(T, U) && Denotes(T, n, f).Done?
    ensures Denotes(U, n, f) == Denotes(T, n, f)
    decreases f, 0
  {
    if n in T {
      assert SettledAt(T, U, n);
      if n !in U {
        var g: nat :| Denotes(T, n, g) == Done(None);
        DenotesUnique(T, n, f, g);
      } else if U[n] == T[n] {
        if !T[n].Const? { SettledValue(T, U, T[n], f - 1); }
      } else {
        var g: nat :| Denotes(T, n, g) == Done(Some(U[n].v));
        DenotesUnique(T, n, f, g);
      }
    }
  }

  /** What a settled table computes, the original computes as well, given enough fuel. */
  lemma {:induction false} UnsettledValue(T: Table, U: Table, e: Expr, f: nat) returns (g: nat)
    requires Settled(T, U) && Value(U, e, f).Done?
    ensures Value(T, e, g) == Value(U, e, f)
    decreases f, 1, e
  {
    match e
    case Const(_) => g := 0;
    case Ref(n, s) => g := 0; if !s { g := UnsettledDenotes(T, U, n, f); }
    case Add(l, r) =>
      var a := UnsettledValue(T, U, l, f);
      var b := UnsettledValue(T, U, r, f);
      g := if a <= b then b else a;
      ValueFuel(T, l, a, g);
      ValueFuel(T, r, b, g);
  }

  lemma {:induction false} UnsettledDenotes(T: Table, U: Table, n: string, f: nat) returns (g: nat)
    requires Settled(T, U) && Denotes(U, n, f).Done?
    ensures Denotes(T, n, g) == Denotes(U, n, f)
    decreases f, 0
  {
    g := 0;
    if n in T {
      assert SettledAt(T, U, n);
      if n !in U {
        g :| Denotes(T, n, g) == Done(None);
      } else if U[n] != T[n] {
        g :| Denotes(T, n, g) == Done(Some(U[n].v));
      } else if !T[n].Const? {
        g := UnsettledValue(T, U, T[n], f - 1);
        g := g + 1;
      }
    }
  }

  lemma SettledTransitive(T: Table, U: Table, W: Table)
    requires Settled(T, U) && Settled(U, W)
    ensures Settled(T, W)
  {
    forall m | m in T ensures SettledAt(T, W, m) {
      assert SettledAt(T, U, m);
      if m in U {
        assert SettledAt(U, W, m);
        if m !in W {
          var f: nat :| Denotes(U, m, f) == Done(None);
          var g := UnsettledDenotes(T, U, m, f);
        } else if W[m] != U[m] {
          var f: nat :| Denotes(U, m, f) == Done(Some(W[m].v));
          var g := UnsettledDenotes(T, U, m, f);
        }
      }
    }
  }

  // ----- evaluation with write-back computes the direct value -----

  lemma {:induction false} EvalCopyCorrect(T: Table, e: Expr, f: nat)
    requires EvalCopy(T, e, f).Done?
    ensures var a := EvalCopy(T, e, f).value;
            Settled(T, a.table) && a.table.Keys == T.Keys && exists g: nat :: Value(T, e, g) == Done(a.val)
    decreases f, 1, e
  {
    match e
    case Const(v) => assert Value(T, e, 0) == Done(Some(v));
    case Ref(n, s) =>
      if s {
        assert Value(T, e, 0) == Done(None);
      } else {
        EvalNameCorrect(T, n, f);
        var g: nat :| Denotes(T, n, g) == Done(EvalName(T, n, f).value.val);
        assert Value(T, e, g) == Denotes(T, n, g);
      }
    case Add(l, r) =>
      EvalCopyCorrect(T, l, f);
      var a := EvalCopy(T, l, f).value;
      EvalCopyCorrect(a.table, r, f);
      var b := EvalCopy(a.table, r, f).value;
      SettledTransitive(T, a.table, b.table);
      var g1: nat :| Value(T, l, g1) == Done(a.val);
      var g2: nat :| Value(a.table, r, g2) == Done(b.val);
      var g3 := UnsettledValue(T, a.table, r, g2);
      var g := if g1 <= g3 then g3 else g1;
      ValueFuel(T, l, g1, g);
      ValueFuel(T, r, g3, g);
      assert Value(T, e, g) == Done(Plus(a.val, b.val));
  }

  /** A reference that is evaluated gets its direct value, and every table entry that was
      overwritten became the constant it denoted. */
  lemma {:induction false} EvalNameCorrect(T: Table, n: string, f: nat)
    requires EvalName(T, n, f).Done?
    ensures var a := EvalName(T, n, f).value;
            Settled(T, a.table) && a.table.Keys == T.Keys && exists g: nat :: Denotes(T, n, g) == Done(a.val)
    decreases f, 0
  {
    if n !in T {
      assert Denotes(T, n, 0) == Done(None);
    } else if T[n].Const? {
      assert Denotes(T, n, 0) == Done(Some(T[n].v));
    } else {
      EvalCopyCorrect(T, T[n], f - 1);
      var a := EvalCopy(T, T[n], f - 1).value;
      var g: nat :| Value(T, T[n], g) == Done(a.val);
      assert Denotes(T, n, g + 1) == Done(a.val);
    }
  }

  /** Evaluation needs no more fuel than the direct value. */
  lemma {:induction false} EvalCopyEnough(T: Table, e: Expr, f: nat)
    requires Value(T, e, f).Done?
    ensures EvalCopy(T, e, f).Done?
    decreases f, 1, e
  {
    match e
    case Ref(n, s) => if !s { EvalNameEnough(T, n, f); }
    case Add(l, r) =>
      EvalCopyEnough(T, l, f);
      EvalCopyCorrect(T, l, f);
      var U := EvalCopy(T, l, f).value.table;
      SettledValue(T, U, r, f);
      EvalCopyEnough(U, r, f);
    case _ =>
  }

  lemma {:induction false} EvalNameEnough(T: Table, n: string, f: nat)
    requires Denotes(T, n, f).Done?
    ensures EvalName(T, n, f).Done?
    decreases f, 0
  {
    if n in T && !T[n].Const? { EvalCopyEnough(T, T[n], f - 1); }
  }

  // ----- when evaluation terminates -----

  /** Names an expression refers to through nodes whose flag is down. */
  function Refs(e: Expr): set<string> {
    match e
    case Const(_) => {}
    case Ref(n, s) => if s then {} else {n}
    case Add(l, r) => Refs(l) + Refs(r)
  }

  /** The entries whose evaluation starts from `n`. */
  function Next(T: Table, n: string): set<string> {
    if n in T then Refs(T[n]) else {}
  }

  /** A walk along unflagged references. */
  predicate Walk(T: Table, w: seq<string>) {
    w != [] && forall i | 0 <= i < |w| - 1 :: w[i + 1] in Next(T, w[i])
  }

  /** Some walk from `n` comes back to a name it has passed. */
  ghost predicate ReachesCycle(T: Table, n: string) {
    exists w, i, j :: Walk(T, w) && w[0] == n && 0 <= i < j < |w| && w[i] == w[j]
  }

  /** The direct value is there exactly when the walks from the name are bounded. */
  lemma {:induction false} ValueBoundsWalks(T: Table, e: Expr, f: nat, w: seq<string>)
    requires Value(T, e, f).Done? && Walk(T, w) && w[0] in Refs(e)
    ensures |w| <= f + 1
    decreases f, 1, e
  {
    match e
    case Ref(n, s) => DenotesBoundsWalks(T, n, f, w);
    case Add(l, r) => if w[0] in Refs(l) { ValueBoundsWalks(T, l, f, w); } else { ValueBoundsWalks(T, r, f, w); }
    case Const(_) =>
  }

  lemma {:induction false} DenotesBoundsWalks(T: Table, n: string, f: nat, w: seq<string>)
    requires Denotes(T, n, f).Done? && Walk(T, w) && w[0] == n
    ensures |w| <= f + 1
    decreases f, 0
  {
    if |w| > 1 {
      assert w[1] in Next(T, n);
      assert Walk(T, w[1..]) by {
        forall i | 0 <= i < |w[1..]| - 1 ensures w[1..][i + 1] in Next(T, w[1..][i]) { assert w[i + 2] in Next(T, w[i + 1]); }
      }
      ValueBoundsWalks(T, T[n], f - 1, w[1..]);
    }
  }

  lemma {:induction false} BoundedWalksGiveValue(T: Table, e: Expr, f: nat)
    requires forall w | Walk(T, w) && w[0] in Refs(e) :: |w| <= f + 1
    ensures Value(T, e, f + 1).Done?
    decreases f, 1, e
  {
    match e
    case Ref(n, s) =>
      if !s {
        assert forall w | Walk(T, w) && w[0] == n :: w[0] in Refs(e);
        BoundedWalksDenote(T, n, f);
      }
    case Add(l, r) => BoundedWalksGiveValue(T, l, f); BoundedWalksGiveValue(T, r, f);
    case Const(_) =>
  }

  lemma ShortWalksNoRefs(T: Table, n: string)
    requires forall w | Walk(T, w) && w[0] == n :: |w| <= 1
    ensures Next(T, n) == {}
  {
    forall m ensures m !in Next(T, n) {
      var w := [n, m];
      assert m in Next(T, n) ==> Walk(T, w);
    }
  }

  lemma {:induction false} BoundedWalksDenote(T: Table, n: string, f: nat)
    requires forall w | Walk(T, w) && w[0] == n :: |w| <= f + 1
    ensures Denotes(T, n, f + 1).Done?
    decreases f, 0
  {
    if n in T && !T[n].Const? {
      if f == 0 {
        ShortWalksNoRefs(T, n);
        NoRefsNoRecursion(T, T[n]);
      } else {
        forall w | Walk(T, w) && w[0] in Refs(T[n]) ensures |w| <= f {
          var nw := [n] + w;
          assert Walk(T, nw) by {
            forall i | 0 <= i < |nw| - 1 ensures nw[i + 1] in Next(T, nw[i]) {
              if i > 0 { assert w[i] in Next(T, w[i - 1]); }
            }
          }
        }
        BoundedWalksGiveValue(T, T[n], f - 1);
      }
    }
  }

  lemma {:induction false} NoRefsNoRecursion(T: Table, e: Expr)
    requires Refs(e) == {}
    ensures Value(T, e, 0).Done?
  {
    match e
    case Add(l, r) => NoRefsNoRecursion(T, l); NoRefsNoRecursion(T, r);
    case _ =>
  }

  lemma {:induction false} DistinctBound(w: seq<string>, S: set<string>)
    requires forall i, j | 0 <= i < j < |w| :: w[i] != w[j]
    requires forall i | 0 <= i < |w| :: w[i] in S
    ensures |w| <= |S|
  {
    if w != [] {
      var n := |w| - 1;
      DistinctBound(w[..n], S - {w[n]});
    }
  }

  /** Without cycles a walk visits each entry once, and only its last name may lack an entry. */
  lemma AcyclicBoundsWalks(T: Table, n: string, w: seq<string>)
    requires !ReachesCycle(T, n) && Walk(T, w) && w[0] == n
    ensures |w| <= |T| + 1
  {
    var k := |w| - 1;
    forall i | 0 <= i < k ensures w[i] in T.Keys { assert w[i + 1] in Next(T, w[i]); }
    forall i, j | 0 <= i < j < k ensures w[i] != w[j] { assert Walk(T, w) && w[0] == n; }
    DistinctBound(w[..k], T.Keys);
  }

  /** A cycle can be walked any number of times. */
  lemma {:induction false} CycleGivesLongWalk(T: Table, w: seq<string>, i: nat, j: nat, k: nat) returns (long: seq<string>)
    requires Walk(T, w) && i < j < |w| && w[i] == w[j]
    ensures Walk(T, long) && |long| > k && long[|long| - 1] == w[j] && w[..j + 1] <= long
    decreases k
  {
    if k == 0 {
      long := w[..j + 1];
    } else {
      var short := CycleGivesLongWalk(T, w, i, j, k - 1);
      var lap := w[i + 1..j + 1];
      long := short + lap;
      forall q | 0 <= q < |long| - 1 ensures long[q + 1] in Next(T, long[q]) {
        if q >= |short| - 1 {
          var p := i + 1 + (q - |short|);
          assert w[p + 1] in Next(T, w[p]);
          assert long[q + 1] == lap[q + 1 - |short|];
          assert q >= |short| ==> long[q] == lap[q - |short|];
        }
      }
    }
  }

  /** No name on the way into a cycle, or on it, has a direct value. */
  lemma NeverDenoted(T: Table, w: seq<string>, i: nat, j: nat, k: nat, g: nat)
    requires Walk(T, w) && i < j < |w| && w[i] == w[j] && k <= j
    ensures !Denotes(T, w[k], g).Done?
  {
    var long := CycleGivesLongWalk(T, w, i, j, g + 1 + k);
    var tail := long[k..];
    assert long[k] == w[..j + 1][k];
    assert Walk(T, tail) by {
      forall q | 0 <= q < |tail| - 1 ensures tail[q + 1] in Next(T, tail[q]) { assert long[k + q + 1] in Next(T, long[k + q]); }
    }
    if Denotes(T, w[k], g).Done? { DenotesBoundsWalks(T, w[k], g, tail); }
  }

  /** Evaluating a reference terminates exactly when no cycle of unflagged references can be reached
      from it; fuel for one level per table entry is then enough. */
  lemma TerminatesExactly(T: Table, n: string)
    ensures (exists f: nat :: EvalName(T, n, f).Done?) <==> !ReachesCycle(T, n)
    ensures !ReachesCycle(T, n) ==> EvalName(T, n, |T| + 1).Done? && Denotes(T, n, |T| + 1).Done?
  {
    if ReachesCycle(T, n) {
      if f: nat :| EvalName(T, n, f).Done? {
        EvalNameCorrect(T, n, f);
        var g: nat :| Denotes(T, n, g) == Done(EvalName(T, n, f).value.val);
        var w, i, j :| Walk(T, w) && w[0] == n && 0 <= i < j < |w| && w[i] == w[j];
        NeverDenoted(T, w, i, j, 0, g);
      }
    } else {
      forall w | Walk(T, w) && w[0] == n ensures |w| <= |T| + 1 { AcyclicBoundsWalks(T, n, w); }
      BoundedWalksDenote(T, n, |T|);
      EvalNameEnough(T, n, |T| + 1);
    }
  }

  // ----- evaluation of a table entry in place -----

  /** Where in its entry the node under evaluation sits. */
  datatype Ctx = Top | InLeft(up: Ctx, r: Expr) | InRight(l: Expr, up: Ctx)

  function Plug(c: Ctx, e: Expr): Expr {
    match c
    case Top => e
    case InLeft(up, r) => Plug(up, Add(e, r))
    case InRight(l, up) => Plug(up, Add(l, e))
  }

  datatype Placed = Placed(table: Table, e: Expr)

  function Sum(l: Expr, r: Expr): Expr {
    if l.Const? && r.Const? then Const(l.v + r.v) else Add(l, r)
  }

  /** Evaluate the node `e` of entry `p`. While a reference is being solved, the table shows the
      entry with the flag of that node up and the operands before it already replaced. */
  function InPlace(T: Table, p: string, c: Ctx, e: Expr, fuel: nat): Res<Placed>
    decreases e
  {
    match e
    case Const(_) => Done(Placed(T, e))
    case Ref(n, s) =>
      if s then Done(Placed(T, e)) else
      var a := EvalName(T[p := Plug(c, Ref(n, true))], n, fuel);
      if a.OutOfFuel? then OutOfFuel else
      Done(Placed(a.value.table, if a.value.val.Some? then Const(a.value.val.value) else e))
    case Add(l, r) =>
      var a := InPlace(T, p, InLeft(c, r), l, fuel);
      if a.OutOfFuel? then OutOfFuel else
      var b := InPlace(a.value.table, p, InRight(a.value.e, c), r, fuel);
      if b.OutOfFuel? then OutOfFuel else
      Done(Placed(b.value.table, Sum(a.value.e, b.value.e)))
  }

  /** The entry becomes its constant; if there is none its expression is made null. */
  function EvalEntry(T: Table, p: string, fuel: nat): Res<Table> {
    if p !in T then Done(T) else
    var a := InPlace(T, p, Top, T[p], fuel);
    if a.OutOfFuel? then OutOfFuel
    else if a.value.e.Const? then Done(a.value.table[p := a.value.e])
    else Done(a.value.table - {p})
  }

  /** Every entry of a scope in the order of the names. */
  function EvalAll(T: Table, names: seq<string>, fuel: nat): Res<Table>
    decreases |names|
  {
    if names == [] then Done(T) else
    var U := EvalEntry(T, names[0], fuel);
    if U.OutOfFuel? then OutOfFuel else EvalAll(U.value, names[1..], fuel)
  }

  predicate Unflagged(e: Expr) {
    match e
    case Const(_) => true
    case Ref(_, s) => !s
    case Add(l, r) => Unflagged(l) && Unflagged(r)
  }

  predicate NoFlags(T: Table) {
    forall m | m in T :: Unflagged(T[m])
  }

  /** An expression with a flagged node has no value. */
  lemma {:induction false} FlaggedHasNoValue(T: Table, e: Expr, f: nat)
    requires !Unflagged(e)
    ensures !(Value(T, e, f).Done? && Value(T, e, f).value.Some?)
  {
    match e
    case Add(l, r) => if !Unflagged(l) { FlaggedHasNoValue(T, l, f); } else { FlaggedHasNoValue(T, r, f); }
    case _ =>
  }

  lemma {:induction false} PlugFlagged(c: Ctx, e: Expr)
    requires !Unflagged(e)
    ensures !Unflagged(Plug(c, e))
  {
    match c
    case Top =>
    case InLeft(up, r) => PlugFlagged(up, Add(e, r));
    case InRight(l, up) => PlugFlagged(up, Add(l, e));
  }

  /** A value found while entry `p` shows a flag does not depend on `p`. */
  lemma {:induction false} ValueIgnoresFlagged(T: Table, U: Table, p: string, e: Expr, f: nat)
    requires p in T && !Unflagged(T[p]) && p in U && U == T[p := U[p]]
    requires Value(T, e, f).Done? && Value(T, e, f).value.Some?
    ensures Value(U, e, f) == Value(T, e, f)
    decreases f, 1, e
  {
    match e
    case Ref(n, s) => DenotesIgnoresFlagged(T, U, p, n, f);
    case Add(l, r) => ValueIgnoresFlagged(T, U, p, l, f); ValueIgnoresFlagged(T, U, p, r, f);
    case _ =>
  }

  lemma {:induction false} DenotesIgnoresFlagged(T: Table, U: Table, p: string, n: string, f: nat)
    requires p in T && !Unflagged(T[p]) && p in U && U == T[p := U[p]]
    requires Denotes(T, n, f).Done? && Denotes(T, n, f).value.Some?
    ensures Denotes(U, n, f) == Denotes(T, n, f)
    decreases f, 0
  {
    if !T[n].Const? {
      if n == p {
        FlaggedHasNoValue(T, T[p], f - 1);
      } else {
        ValueIgnoresFlagged(T, U, p, T[n], f - 1);
      }
    }
  }

  /** Names whose walks avoid `p` have the same value whatever stands at `p`. */
  lemma {:induction false} ValueAvoids(T: Table, U: Table, p: string, e: Expr, f: nat)
    requires p in T && p in U && U == T[p := U[p]]
    requires forall w | Walk(T, w) && w[0] in Refs(e) :: p !in w
    ensures Value(U, e, f) == Value(T, e, f)
    decreases f, 1, e
  {
    match e
    case Ref(n, s) =>
      if !s {
        assert forall w | Walk(T, w) && w[0] == n :: w[0] in Refs(e);
        DenotesAvoids(T, U, p, n, f);
      }
    case Add(l, r) => ValueAvoids(T, U, p, l, f); ValueAvoids(T, U, p, r, f);
    case _ =>
  }

  lemma {:induction false} DenotesAvoids(T: Table, U: Table, p: string, n: string, f: nat)
    requires p in T && p in U && U == T[p := U[p]]
    requires forall w | Walk(T, w) && w[0] == n :: p !in w
    ensures Denotes(U, n, f) == Denotes(T, n, f)
    decreases f, 0
  {
    assert Walk(T, [n]) && [n][0] == n;
    assert n != p;
    if n in T && !T[n].Const? && f > 0 {
      forall w | Walk(T, w) && w[0] in Refs(T[n]) ensures p !in w {
        var nw := Prepend(T, n, w);
        assert p !in nw;
      }
      ValueAvoids(T, U, p, T[n], f - 1);
    }
  }

  lemma Prepend(T: Table, n: string, w: seq<string>) returns (nw: seq<string>)
    requires Walk(T, w) && w[0] in Next(T, n)
    ensures nw == [n] + w && Walk(T, nw)
  {
    nw := [n] + w;
    forall i | 0 <= i < |nw| - 1 ensures nw[i + 1] in Next(T, nw[i]) {
      if i > 0 { assert w[i] in Next(T, w[i - 1]); }
    }
  }

  /** No walk at all comes back to a name it has passed. */
  ghost predicate Acyclic(T: Table) {
    forall n :: !ReachesCycle(T, n)
  }

  /** Settling only removes references. */
  lemma SettledWalks(T: Table, U: Table, w: seq<string>)
    requires Settled(T, U) && Walk(U, w)
    ensures Walk(T, w)
  {
    forall i | 0 <= i < |w| - 1 ensures w[i + 1] in Next(T, w[i]) {
      assert w[i + 1] in Next(U, w[i]);
      assert SettledAt(T, U, w[i]);
    }
  }

  /** A walk from a reference of `p` back to `p` makes a cycle. */
  lemma ReturningWalk(T: Table, p: string, w: seq<string>)
    requires p in T && Walk(T, w) && w[0] in Refs(T[p])
    ensures p in w ==> ReachesCycle(T, p)
  {
    var pw := Prepend(T, p, w);
    if p in w {
      var i :| 0 <= i < |w| && w[i] == p;
      assert pw[0] == pw[i + 1] && Walk(T, pw);
    }
  }

  /** Write-backs made while `p` shows a flag settle the table without the flag. */
  lemma WriteBackSettled(T0: Table, U: Table, T1: Table, A: Table, p: string)
    requires p in T0 && p in U && U[p] == T0[p] && Settled(T0, U)
    requires p in T1 && !Unflagged(T1[p]) && T1 == U[p := T1[p]] && Settled(T1, A) && A.Keys == T1.Keys
    ensures Settled(T0, A[p := T0[p]])
  {
    var B := A[p := T0[p]];
    forall m | m in T0 ensures SettledAt(T0, B, m) {
      assert SettledAt(T0, U, m);
      if m in U && m != p {
        assert SettledAt(T1, A, m);
        if A[m] != T1[m] {
          var f: nat :| Denotes(T1, m, f) == Done(Some(A[m].v));
          DenotesIgnoresFlagged(T1, U, p, m, f);
          var g := UnsettledDenotes(T0, U, m, f);
          assert IsValueOf(T0, m, B[m]);
        }
      }
    }
  }

  lemma {:induction false} KeysBound(a: set<string>, b: set<string>)
    requires a <= b
    ensures |a| <= |b|
  {
    if a != {} {
      var x :| x in a;
      KeysBound(a - {x}, b - {x});
    }
  }

  // ----- tables with cycles -----

  /** Every entry but `p` is as it was, or a constant. */
  predicate ReducedOff(T: Table, U: Table, p: string) {
    T.Keys == U.Keys && forall m | m in T && m != p :: U[m] == T[m] || U[m].Const?
  }

  /** The same place, with the operands before it evaluated. */
  predicate Fewer(c: Ctx, d: Ctx) {
    match (c, d)
    case (Top, Top) => true
    case (InLeft(up, r), InLeft(up', r')) => r == r' && Fewer(up, up')
    case (InRight(l, up), InRight(l', up')) => Refs(l') <= Refs(l) && Fewer(up, up')
    case _ => false
  }

  lemma {:induction false} FewerRefs(c: Ctx, d: Ctx, e: Expr, f: Expr)
    requires Fewer(c, d) && Refs(f) <= Refs(e)
    ensures Refs(Plug(d, f)) <= Refs(Plug(c, e))
  {
    match (c, d)
    case (InLeft(up, r), InLeft(up', r')) => FewerRefs(up, up', Add(e, r), Add(f, r'));
    case (InRight(l, up), InRight(l', up')) => FewerRefs(up, up', Add(l, e), Add(l', f));
    case _ =>
  }

  /** At no place of entry `p` can a cycle be reached with the flag of that one node up. */
  ghost predicate NoCycleAtAnyNode(T: Table, p: string)
    requires p in T
  {
    forall c, n | Plug(c, Ref(n, false)) == T[p] :: !ReachesCycle(T[p := Plug(c, Ref(n, true))], n)
  }

  /** Evaluation only takes references away, so places without cycles are evaluated to the end. */
  lemma {:induction false} InPlaceTerminates(T: Table, U: Table, p: string, c: Ctx, d: Ctx, e: Expr, F: nat)
    requires p in T && NoCycleAtAnyNode(T, p) && F > |T|
    requires ReducedOff(T, U, p) && Fewer(c, d) && Plug(c, e) == T[p]
    ensures var a := InPlace(U, p, d, e, F);
            a.Done? && ReducedOff(T, a.value.table, p) && Refs(a.value.e) <= Refs(e)
    decreases e
  {
    match e
    case Const(_) =>
    case Ref(n, s) => if !s { RefTerminates(T, U, p, c, d, n, F); }
    case Add(l, r) =>
      InPlaceTerminates(T, U, p, InLeft(c, r), InLeft(d, r), l, F);
      var a := InPlace(U, p, InLeft(d, r), l, F).value;
      InPlaceTerminates(T, a.table, p, InRight(l, c), InRight(a.e, d), r, F);
  }

  lemma RefTerminates(T: Table, U: Table, p: string, c: Ctx, d: Ctx, n: string, F: nat)
    requires p in T && NoCycleAtAnyNode(T, p) && F > |T|
    requires ReducedOff(T, U, p) && Fewer(c, d) && Plug(c, Ref(n, false)) == T[p]
    ensures var a := EvalName(U[p := Plug(d, Ref(n, true))], n, F);
            a.Done? && ReducedOff(T, a.value.table, p)
  {
    var X, Y := T[p := Plug(c, Ref(n, true))], U[p := Plug(d, Ref(n, true))];
    FewerRefs(c, d, Ref(n, true), Ref(n, true));
    CycleFromAbove(X, Y, n);
    TerminatesExactly(Y, n);
    assert Y.Keys == T.Keys;
    EvalNameMore(Y, n, |Y| + 1, F);
    EvalNameCorrect(Y, n, F);
    var A := EvalName(Y, n, F).value.table;
    forall m | m in T && m != p ensures A[m] == T[m] || A[m].Const? { assert SettledAt(Y, A, m); }
  }

  lemma EvalNameMore(T: Table, n: string, f: nat, g: nat)
    requires f <= g && Denotes(T, n, f).Done?
    ensures EvalName(T, n, g).Done?
  {
    DenotesFuel(T, n, f, g);
    EvalNameEnough(T, n, g);
  }

  // ----- and only those -----

  /** References have gone only where they denoted something. */
  ghost predicate Dropped(T: Table, e: Expr, f: Expr) {
    forall m | m in Refs(e) :: m in Refs(f) || exists g: nat :: Denotes(T, m, g).Done?
  }

  ghost predicate CtxDropped(T: Table, c: Ctx, d: Ctx) {
    match (c, d)
    case (Top, Top) => true
    case (InLeft(up, r), InLeft(up', r')) => r == r' && CtxDropped(T, up, up')
    case (InRight(l, up), InRight(l', up')) => Dropped(T, l, l') && CtxDropped(T, up, up')
    case _ => false
  }

  lemma {:induction false} PlugDropped(T: Table, c: Ctx, d: Ctx, e: Expr, f: Expr)
    requires CtxDropped(T, c, d) && Dropped(T, e, f)
    ensures Dropped(T, Plug(c, e), Plug(d, f))
  {
    match (c, d)
    case (InLeft(up, r), InLeft(up', r')) => PlugDropped(T, up, up', Add(e, r), Add(f, r'));
    case (InRight(l, up), InRight(l', up')) => PlugDropped(T, up, up', Add(l, e), Add(l', f));
    case _ =>
  }

  /** Evaluating one node while its flag is up settles the table whatever stands at `p`, and its value,
      if it has one, is the direct one. */
  lemma RefSettles(T: Table, U: Table, p: string, d: Ctx, n: string, f: nat)
    requires p in T && p in U && Settled(T, U[p := T[p]])
    requires EvalName(U[p := Plug(d, Ref(n, true))], n, f).Done?
    ensures var a := EvalName(U[p := Plug(d, Ref(n, true))], n, f).value;
            p in a.table && Settled(T, a.table[p := T[p]])
            && (a.val.Some? ==> exists g: nat :: Denotes(T, n, g) == Done(a.val))
  {
    var V, X := U[p := T[p]], U[p := Plug(d, Ref(n, true))];
    PlugFlagged(d, Ref(n, true));
    EvalNameCorrect(X, n, f);
    var a := EvalName(X, n, f).value;
    assert X == V[p := X[p]] && V == X[p := V[p]];
    WriteBackSettled(T, V, X, a.table, p);
    if a.val.Some? {
      var g: nat :| Denotes(X, n, g) == Done(a.val);
      DenotesIgnoresFlagged(X, V, p, n, g);
      var h := UnsettledDenotes(T, V, n, g);
    }
  }

  lemma {:induction false} InPlaceSettles(T: Table, U: Table, p: string, d: Ctx, e: Expr, f: nat)
    requires p in T && p in U && Settled(T, U[p := T[p]]) && InPlace(U, p, d, e, f).Done?
    ensures var a := InPlace(U, p, d, e, f).value;
            p in a.table && Settled(T, a.table[p := T[p]]) && Dropped(T, e, a.e)
            && (a.e.Const? ==> exists g: nat :: Value(T, e, g) == Done(Some(a.e.v)))
    decreases e
  {
    match e
    case Const(v) => assert Value(T, e, 0) == Done(Some(v));
    case Ref(n, s) =>
      if !s {
        RefSettles(T, U, p, d, n, f);
        var a := EvalName(U[p := Plug(d, Ref(n, true))], n, f).value;
        if a.val.Some? {
          var g: nat :| Denotes(T, n, g) == Done(a.val);
          assert Value(T, e, g) == Done(a.val);
        }
      }
    case Add(l, r) =>
      InPlaceSettles(T, U, p, InLeft(d, r), l, f);
      var a := InPlace(U, p, InLeft(d, r), l, f).value;
      InPlaceSettles(T, a.table, p, InRight(a.e, d), r, f);
      var b := InPlace(a.table, p, InRight(a.e, d), r, f).value;
      if a.e.Const? && b.e.Const? {
        var g: nat :| Value(T, l, g) == Done(Some(a.e.v));
        var h: nat :| Value(T, r, h) == Done(Some(b.e.v));
        var k := if g <= h then h else g;
        ValueFuel(T, l, g, k);
        ValueFuel(T, r, h, k);
        assert Value(T, e, k) == Done(Some(a.e.v + b.e.v));
      }
  }

  /** The evaluation of an entry comes by every one of its nodes; `S` may hold anything at `p`. */
  lemma {:induction false} ComesBy(T: Table, S: Table, p: string, c: Ctx, e: Expr, f: nat) returns (U: Table, d: Ctx)
    requires p in T && p in S && S == T[p := S[p]] && Plug(c, e) == T[p] && InPlace(T, p, Top, T[p], f).Done?
    ensures p in U && Settled(S, U[p := S[p]]) && CtxDropped(S, c, d) && InPlace(U, p, d, e, f).Done?
    decreases c
  {
    match c
    case Top =>
      U, d := T, Top;
      assert T[p := S[p]] == S;
      forall m | m in S ensures SettledAt(S, S, m) {}
    case InLeft(up, r) =>
      U, d := ComesBy(T, S, p, up, Add(e, r), f);
      d := InLeft(d, r);
    case InRight(l, up) =>
      U, d := ComesBy(T, S, p, up, Add(l, e), f);
      InPlaceSettles(S, U, p, InLeft(d, e), l, f);
      var a := InPlace(U, p, InLeft(d, e), l, f).value;
      U, d := a.table, InRight(a.e, d);
  }

  /** A cycle that the original table shows at a node is still there when evaluation comes by. */
  lemma CycleStays(S: Table, U: Table, p: string, c: Ctx, d: Ctx, n: string)
    requires p in S && p in U && S[p] == Plug(c, Ref(n, true)) && Settled(S, U[p := S[p]]) && CtxDropped(S, c, d)
    ensures ReachesCycle(S, n) ==> ReachesCycle(U[p := Plug(d, Ref(n, true))], n)
  {
    var V, X := U[p := S[p]], U[p := Plug(d, Ref(n, true))];
    PlugDropped(S, c, d, Ref(n, true), Ref(n, true));
    if ReachesCycle(S, n) {
      var w, i, j :| Walk(S, w) && w[0] == n && 0 <= i < j < |w| && w[i] == w[j];
      var v := w[..j + 1];
      assert Walk(X, v) by {
        forall q | 0 <= q < |v| - 1 ensures v[q + 1] in Next(X, v[q]) {
          assert w[q + 1] in Next(S, w[q]);
          StaysOnCycle(S, V, w, i, j, q);
          if w[q] == p {
            StaysOnCycle(S, V, w, i, j, q + 1);
          }
        }
      }
      assert v[i] == v[j];
    }
  }

  lemma StaysOnCycle(S: Table, V: Table, w: seq<string>, i: nat, j: nat, q: nat)
    requires Settled(S, V) && Walk(S, w) && i < j < |w| && w[i] == w[j] && q <= j
    ensures w[q] in S ==> w[q] in V && V[w[q]] == S[w[q]]
    ensures forall g: nat :: !Denotes(S, w[q], g).Done?
  {
    forall g: nat ensures !Denotes(S, w[q], g).Done? { NeverDenoted(S, w, i, j, q, g); }
    if w[q] in S { assert SettledAt(S, V, w[q]); }
  }

  lemma NoCycleMet(T: Table, p: string, c: Ctx, n: string, f: nat)
    requires p in T && EvalEntry(T, p, f).Done? && Plug(c, Ref(n, false)) == T[p]
    ensures !ReachesCycle(T[p := Plug(c, Ref(n, true))], n)
  {
    var S := T[p := Plug(c, Ref(n, true))];
    var U, d := ComesBy(T, S, p, c, Ref(n, false), f);
    var X := U[p := Plug(d, Ref(n, true))];
    assert EvalName(X, n, f).Done?;
    TerminatesExactly(X, n);
    CycleStays(S, U, p, c, d, n);
  }

  /** An entry is evaluated in finitely many steps exactly when, for each of its reference nodes, no
      cycle is reachable from the node while its own flag is up. One level per entry is then enough. */
  lemma EntryTerminatesExactly(T: Table, p: string)
    requires p in T
    ensures (exists f: nat :: EvalEntry(T, p, f).Done?) <==> NoCycleAtAnyNode(T, p)
    ensures NoCycleAtAnyNode(T, p) ==> EvalEntry(T, p, |T| + 1).Done?
  {
    if NoCycleAtAnyNode(T, p) {
      InPlaceTerminates(T, T, p, Top, Top, T[p], |T| + 1);
      assert EvalEntry(T, p, |T| + 1).Done?;
    }
    if f: nat :| EvalEntry(T, p, f).Done? {
      forall c, n | Plug(c, Ref(n, false)) == T[p] ensures !ReachesCycle(T[p := Plug(c, Ref(n, true))], n) {
        NoCycleMet(T, p, c, n, f);
      }
    }
  }

  // ----- when the evaluation of a scope terminates -----

  function Names(ns: seq<string>): set<string> {
    set n | n in ns
  }

  /** At the turn of each name, with the names before it gone, no cycle may be reachable at any node of its
      entry. A name that is listed again has been evaluated. */
  ghost predicate NoCycleInTurn(T: Table, names: seq<string>) {
    forall k | 0 <= k < |names| && names[k] in T && names[k] !in names[..k] ::
      NoCycleAtAnyNode(T - Names(names[..k]), names[k])
  }

  /** `U` is `T` after the evaluation of entry `q`: what was written on the way had a direct value. */
  ghost predicate Written(T: Table, U: Table, q: string) {
    U.Keys <= T.Keys && (q in U ==> U[q].Const?)
    && forall m | m in T && m != q :: m in U && (U[m] == T[m] || IsValueOf(T, m, U[m]))
  }

  lemma EntryWritten(T: Table, q: string, f: nat)
    requires EvalEntry(T, q, f).Done?
    ensures Written(T, EvalEntry(T, q, f).value, q)
  {
    if q in T {
      assert T[q := T[q]] == T;
      forall m | m in T ensures SettledAt(T, T, m) {}
      InPlaceSettles(T, T, q, Top, T[q], f);
      InPlaceKeys(T, q, Top, T[q], f);
      var A := InPlace(T, q, Top, T[q], f).value.table;
      forall m | m in T && m != q ensures m in A && (A[m] == T[m] || IsValueOf(T, m, A[m])) {
        assert SettledAt(T, A[q := T[q]], m);
      }
    }
  }

  lemma {:induction false} InPlaceKeys(T: Table, p: string, c: Ctx, e: Expr, f: nat)
    requires p in T && InPlace(T, p, c, e, f).Done?
    ensures InPlace(T, p, c, e, f).value.table.Keys == T.Keys
    decreases e
  {
    match e
    case Const(_) =>
    case Ref(n, s) => if !s { EvalNameCorrect(T[p := Plug(c, Ref(n, true))], n, f); }
    case Add(l, r) =>
      InPlaceKeys(T, p, InLeft(c, r), l, f);
      var a := InPlace(T, p, InLeft(c, r), l, f).value;
      InPlaceKeys(a.table, p, InRight(a.e, c), r, f);
  }

  /** `A` shows, up to the flag of one node of entry `p`, a part of `T`. */
  ghost predicate PartOf(T: Table, A: Table, p: string) {
    p in T && forall m | m in A :: m in T && (if m == p then Refs(A[m]) <= Refs(T[m]) else A[m] == T[m])
  }

  lemma PartWalk(T: Table, A: Table, p: string, w: seq<string>)
    requires PartOf(T, A, p) && Walk(A, w)
    ensures Walk(T, w)
  {
    forall i | 0 <= i < |w| - 1 ensures w[i + 1] in Next(T, w[i]) { assert w[i + 1] in Next(A, w[i]); }
  }

  lemma {:induction false} PlugRefs(c: Ctx, n: string)
    ensures !Plug(c, Ref(n, false)).Const?
    ensures Refs(Plug(c, Ref(n, true))) <= Refs(Plug(c, Ref(n, false))) && n in Refs(Plug(c, Ref(n, false)))
  {
    PlugGrows(c, Ref(n, true), Ref(n, false));
  }

  lemma {:induction false} PlugGrows(c: Ctx, e: Expr, f: Expr)
    requires Refs(e) <= Refs(f) && !f.Const?
    ensures Refs(Plug(c, e)) <= Refs(Plug(c, f)) && Refs(f) <= Refs(Plug(c, f)) && !Plug(c, f).Const?
  {
    match c
    case Top =>
    case InLeft(up, r) => PlugGrows(up, Add(e, r), Add(f, r));
    case InRight(l, up) => PlugGrows(up, Add(l, e), Add(l, f));
  }

  ghost predicate Retains(T: Table, A: Table, B: Table, m: string)
    requires m in A
  {
    Refs(A[m]) <= Next(B, m) || exists g: nat :: Denotes(T, m, g).Done?
  }

  /** Entries that were written on the way lie on no way into a cycle, so a cycle of `A` stays in `B`. */
  lemma CycleSurvives(T: Table, A: Table, B: Table, p: string, n: string)
    requires PartOf(T, A, p)
    requires forall m | m in A :: Retains(T, A, B, m)
    ensures ReachesCycle(A, n) ==> ReachesCycle(B, n)
  {
    if ReachesCycle(A, n) {
      var w, i, j :| Walk(A, w) && w[0] == n && 0 <= i < j < |w| && w[i] == w[j];
      var v := w[..j + 1];
      PartWalk(T, A, p, w);
      assert Walk(B, v) by {
        forall k | 0 <= k < |v| - 1 ensures v[k + 1] in Next(B, v[k]) {
          assert w[k + 1] in Next(A, w[k]) && Retains(T, A, B, w[k]);
          if g: nat :| Denotes(T, w[k], g).Done? { NeverDenoted(T, w, i, j, k, g); }
        }
      }
      assert v[i] == v[j];
    }
  }

  lemma CycleFromAbove(A: Table, B: Table, n: string)
    requires forall m | m in B :: Refs(B[m]) <= Next(A, m)
    ensures ReachesCycle(B, n) ==> ReachesCycle(A, n)
  {
    if ReachesCycle(B, n) {
      var w, i, j :| Walk(B, w) && w[0] == n && 0 <= i < j < |w| && w[i] == w[j];
      assert Walk(A, w) by {
        forall k | 0 <= k < |w| - 1 ensures w[k + 1] in Next(A, w[k]) { assert w[k + 1] in Next(B, w[k]); }
      }
    }
  }

  /** Evaluating entry `q` is for every other entry as good as taking `q` away. */
  lemma EvaluatedIsGone(T: Table, U: Table, q: string, S: set<string>, p: string)
    requires Written(T, U, q) && p in T && p != q && p !in S
    ensures p in U && (NoCycleAtAnyNode(U - S, p) <==> NoCycleAtAnyNode(T - (S + {q}), p))
  {
    var A, B := T - (S + {q}), U - S;
    if U[p] == T[p] {
      forall c, n | Plug(c, Ref(n, false)) == T[p]
        ensures ReachesCycle(A[p := Plug(c, Ref(n, true))], n) <==> ReachesCycle(B[p := Plug(c, Ref(n, true))], n)
      {
        var A', B' := A[p := Plug(c, Ref(n, true))], B[p := Plug(c, Ref(n, true))];
        PlugRefs(c, n);
        forall m | m in A' ensures Retains(T, A', B', m) {
          if m != p && U[m] != T[m] {
            var g: nat :| Denotes(T, m, g) == Done(Some(U[m].v));
          } else {
            assert m in B' && B'[m] == A'[m];
          }
        }
        CycleSurvives(T, A', B', p, n);
        CycleFromAbove(A', B', n);
      }
    } else {
      forall c, n | Plug(c, Ref(n, false)) == T[p] ensures !ReachesCycle(A[p := Plug(c, Ref(n, true))], n) {
        WrittenHasNoCycle(T, A[p := Plug(c, Ref(n, true))], p, c, n);
      }
      forall c, n ensures Plug(c, Ref(n, false)) != U[p] { PlugRefs(c, n); }
    }
  }

  lemma WrittenHasNoCycle(T: Table, A: Table, p: string, c: Ctx, n: string)
    requires p in T && Plug(c, Ref(n, false)) == T[p] && exists g: nat :: Denotes(T, p, g).Done?
    requires p in A && A[p] == Plug(c, Ref(n, true)) && forall m | m in A && m != p :: m in T && A[m] == T[m]
    ensures !ReachesCycle(A, n)
  {
    PlugRefs(c, n);
    if ReachesCycle(A, n) {
      var g: nat :| Denotes(T, p, g).Done?;
      var w, i, j :| Walk(A, w) && w[0] == n && 0 <= i < j < |w| && w[i] == w[j];
      PartWalk(T, A, p, w);
      var pw := Prepend(T, p, w);
      assert pw[i + 1] == pw[j + 1];
      NeverDenoted(T, pw, i + 1, j + 1, 0, g);
    }
  }

  /** One turn of the loop. */
  lemma TurnTaken(T: Table, U: Table, names: seq<string>)
    requires names != [] && Written(T, U, names[0])
    ensures NoCycleInTurn(T, names) <==> (names[0] in T ==> NoCycleAtAnyNode(T, names[0])) && NoCycleInTurn(U, names[1..])
  {
    var q, rest := names[0], names[1..];
    assert T - Names(names[..0]) == T;
    forall k | 0 < k < |names| && names[k] in T && names[k] !in names[..k]
      ensures NoCycleAtAnyNode(U - Names(rest[..k - 1]), names[k]) <==> NoCycleAtAnyNode(T - Names(names[..k]), names[k])
    {
      NamesFrom(names, k);
      EvaluatedIsGone(T, U, q, Names(rest[..k - 1]), names[k]);
    }
    if NoCycleInTurn(T, names) {
      assert q in T ==> NoCycleAtAnyNode(T - Names(names[..0]), names[0]);
      forall k | 0 <= k < |rest| && rest[k] in U && rest[k] !in rest[..k]
        ensures NoCycleAtAnyNode(U - Names(rest[..k]), rest[k])
      {
        NamesFrom(names, k + 1);
        if rest[k] == q {
          forall c, n ensures Plug(c, Ref(n, false)) != U[q] { PlugRefs(c, n); }
        } else {
          assert names[k + 1] == rest[k] && names[k + 1] !in names[..k + 1];
        }
      }
    }
    if (q in T ==> NoCycleAtAnyNode(T, q)) && NoCycleInTurn(U, rest) {
      forall k | 0 <= k < |names| && names[k] in T && names[k] !in names[..k]
        ensures NoCycleAtAnyNode(T - Names(names[..k]), names[k])
      {
        if k > 0 {
          NamesFrom(names, k);
          assert names[k] == rest[k - 1] && names[k] != q && names[k] in U;
        }
      }
    }
  }

  lemma NamesFrom(names: seq<string>, k: nat)
    requires 0 < k <= |names|
    ensures names[..k] == [names[0]] + names[1..][..k - 1]
    ensures Names(names[..k]) == Names(names[1..][..k - 1]) + {names[0]}
  {
    var front := [names[0]] + names[1..][..k - 1];
    assert names[..k] == front;
    assert forall n :: n in front <==> n == names[0] || n in names[1..][..k - 1];
  }

  lemma {:induction false} EvalAllEnds(T: Table, names: seq<string>, F: nat)
    requires NoCycleInTurn(T, names) && F > |T|
    ensures EvalAll(T, names, F).Done?
    decreases |names|
  {
    if names != [] {
      var q := names[0];
      assert T - Names(names[..0]) == T;
      if q in T {
        assert names[0] !in names[..0];
        InPlaceTerminates(T, T, q, Top, Top, T[q], F);
      }
      var U := EvalEntry(T, q, F).value;
      EntryWritten(T, q, F);
      TurnTaken(T, U, names);
      KeysBound(U.Keys, T.Keys);
      EvalAllEnds(U, names[1..], F);
    }
  }

  lemma {:induction false} EvalAllMeetsNoCycle(T: Table, names: seq<string>, f: nat)
    requires EvalAll(T, names, f).Done?
    ensures NoCycleInTurn(T, names)
    decreases |names|
  {
    if names != [] {
      var U := EvalEntry(T, names[0], f).value;
      EntryWritten(T, names[0], f);
      EvalAllMeetsNoCycle(U, names[1..], f);
      if names[0] in T { EntryTerminatesExactly(T, names[0]); }
      TurnTaken(T, U, names);
    }
  }

  /** Main result on the scope loop: it ends exactly when, at the turn of each entry and with the entries
      before it taken away, no cycle can be reached from any of its nodes with that node's flag up. One
      level of recursion per entry is then enough. */
  lemma EvalAllTerminatesExactly(T: Table, names: seq<string>)
    ensures (exists f: nat :: EvalAll(T, names, f).Done?) <==> NoCycleInTurn(T, names)
    ensures NoCycleInTurn(T, names) ==> EvalAll(T, names, |T| + 1).Done?
  {
    if NoCycleInTurn(T, names) { EvalAllEnds(T, names, |T| + 1); }
    if f: nat :| EvalAll(T, names, f).Done? { EvalAllMeetsNoCycle(T, names, f); }
  }

  /** A scope in which no walk comes back always ends. */
  lemma AcyclicEnds(T: Table, names: seq<string>, F: nat)
    requires Acyclic(T) && F > |T|
    ensures EvalAll(T, names, F).Done?
  {
    forall k | 0 <= k < |names| && names[k] in T && names[k] !in names[..k]
      ensures NoCycleAtAnyNode(T - Names(names[..k]), names[k])
    {
      var A, p := T - Names(names[..k]), names[k];
      forall c, n | Plug(c, Ref(n, false)) == A[p] ensures !ReachesCycle(A[p := Plug(c, Ref(n, true))], n) {
        PlugRefs(c, n);
        CycleFromAbove(T, A[p := Plug(c, Ref(n, true))], n);
      }
    }
    EvalAllEnds(T, names, F);
  }

  // ----- what is remembered -----

  /** `n` has been evaluated: its entry is a constant. */
  predicate Known(T: Table, n: string) {
    n in T && T[n].Const?
  }

  /** Whatever has become a constant, so has everything it refers to. */
  ghost predicate Remembered(T: Table, U: Table) {
    forall m | Known(U, m) && !Known(T, m) :: m in T && forall k | k in Refs(T[m]) :: Known(U, k)
  }

  lemma RememberedTransitive(T: Table, U: Table, W: Table)
    requires Settled(T, U) && Settled(U, W) && U.Keys == T.Keys && Remembered(T, U) && Remembered(U, W)
    ensures Remembered(T, W)
  {
    forall m | Known(W, m) && !Known(T, m) ensures m in T && forall k | k in Refs(T[m]) :: Known(W, k) {
      assert SettledAt(U, W, m);
      if Known(U, m) {
        forall k | k in Refs(T[m]) ensures Known(W, k) { KnownStays(U, W, k); }
      } else {
        assert SettledAt(T, U, m);
      }
    }
  }

  lemma KnownStays(U: Table, W: Table, k: string)
    requires Settled(U, W) && Known(U, k)
    ensures Known(W, k) && W[k] == U[k]
  {
    assert SettledAt(U, W, k);
    assert Denotes(U, k, 0) == Done(Some(U[k].v));
  }

  /** A private copy that is evaluated to a value leaves every entry it refers to evaluated; and even one
      that is not leaves evaluated whatever it refers to that has a value. */
  lemma {:induction false} CopyRemembers(T: Table, e: Expr, f: nat)
    requires EvalCopy(T, e, f).Done?
    ensures var a := EvalCopy(T, e, f).value;
            Remembered(T, a.table) && (a.val.Some? ==> forall k | k in Refs(e) :: Known(a.table, k))
            && forall k, g: nat | k in Refs(e) && Denotes(T, k, g).Done? && Denotes(T, k, g).value.Some? :: Known(a.table, k)
    decreases f, 1, e
  {
    match e
    case Const(_) =>
    case Ref(n, s) =>
      if !s {
        NameRemembers(T, n, f);
        EvalNameCorrect(T, n, f);
        var h: nat :| Denotes(T, n, h) == Done(EvalName(T, n, f).value.val);
        forall g: nat | Denotes(T, n, g).Done? ensures Denotes(T, n, g) == Denotes(T, n, h) { DenotesUnique(T, n, g, h); }
      }
    case Add(l, r) =>
      CopyRemembers(T, l, f);
      var a := EvalCopy(T, l, f).value;
      CopyRemembers(a.table, r, f);
      var b := EvalCopy(a.table, r, f).value;
      EvalCopyCorrect(T, l, f);
      EvalCopyCorrect(a.table, r, f);
      RememberedTransitive(T, a.table, b.table);
      forall k | Known(a.table, k) ensures Known(b.table, k) { KnownStays(a.table, b.table, k); }
      forall k, g: nat | k in Refs(r) && Denotes(T, k, g).Done? && Denotes(T, k, g).value.Some? ensures Known(b.table, k) {
        SettledDenotes(T, a.table, k, g);
      }
  }

  /** A reference that is evaluated to a value leaves that value in its entry, and with it every entry
      its evaluation went through. */
  lemma {:induction false} NameRemembers(T: Table, n: string, f: nat)
    requires EvalName(T, n, f).Done?
    ensures var a := EvalName(T, n, f).value;
            Remembered(T, a.table) && (a.val.Some? ==> n in a.table && a.table[n] == Const(a.val.value))
    decreases f, 0
  {
    if n in T && !T[n].Const? {
      CopyRemembers(T, T[n], f - 1);
      var a := EvalCopy(T, T[n], f - 1).value;
      EvalCopyCorrect(T, T[n], f - 1);
      if a.val.Some? {
        var U := a.table[n := Const(a.val.value)];
        forall m | Known(U, m) && !Known(T, m) ensures m in T && forall k | k in Refs(T[m]) :: Known(U, k) {
          assert m == n || Known(a.table, m);
        }
      }
    }
  }

  /** So after the evaluation of a reference to a value, every name on a walk from it has been evaluated,
      and asking again takes no recursion and changes nothing. */
  lemma EvaluatedOnce(T: Table, n: string, f: nat, w: seq<string>)
    requires EvalName(T, n, f).Done? && EvalName(T, n, f).value.val.Some? && Walk(T, w) && w[0] == n
    ensures var a := EvalName(T, n, f).value;
            Known(a.table, w[|w| - 1]) && EvalName(a.table, n, 0) == Done(a)
  {
    NameRemembers(T, n, f);
    WalkRemembered(T, EvalName(T, n, f).value.table, w);
  }

  lemma {:induction false} WalkRemembered(T: Table, U: Table, w: seq<string>)
    requires Remembered(T, U) && Walk(T, w) && Known(U, w[0])
    ensures Known(U, w[|w| - 1])
    decreases |w|
  {
    if |w| > 1 {
      assert w[1] in Next(T, w[0]);
      var rest := w[1..];
      assert Walk(T, rest) by {
        forall i | 0 <= i < |rest| - 1 ensures rest[i + 1] in Next(T, rest[i]) { assert w[i + 2] in Next(T, w[i + 1]); }
      }
      WalkRemembered(T, U, rest);
    }
  }

  /** In place, every reference that went away, because it had a value, left its entry evaluated. */
  lemma {:induction false} InPlaceRemembers(T: Table, p: string, c: Ctx, e: Expr, f: nat)
    requires p in T && InPlace(T, p, c, e, f).Done?
    ensures var a := InPlace(T, p, c, e, f).value;
            (forall k | k != p && Known(T, k) :: Known(a.table, k))
            && forall k | k in Refs(e) && k !in Refs(a.e) :: k != p && Known(a.table, k)
    decreases e
  {
    match e
    case Const(_) =>
    case Ref(n, s) =>
      if !s {
        var U := T[p := Plug(c, Ref(n, true))];
        NameRemembers(U, n, f);
        EvalNameCorrect(U, n, f);
        forall k | k != p && Known(T, k) ensures Known(EvalName(U, n, f).value.table, k) {
          KnownStays(U, EvalName(U, n, f).value.table, k);
        }
        if n == p {
          PlugFlagged(c, Ref(n, true));
          FlaggedEntryFails(U, p, f);
        }
      }
    case Add(l, r) =>
      InPlaceRemembers(T, p, InLeft(c, r), l, f);
      var a := InPlace(T, p, InLeft(c, r), l, f).value;
      InPlaceKeys(T, p, InLeft(c, r), l, f);
      InPlaceRemembers(a.table, p, InRight(a.e, c), r, f);
  }

  lemma FlaggedEntryFails(T: Table, p: string, f: nat)
    requires p in T && !Unflagged(T[p]) && EvalName(T, p, f).Done?
    ensures EvalName(T, p, f).value.val.None?
  {
    EvalNameCorrect(T, p, f);
    var g: nat :| Denotes(T, p, g) == Done(EvalName(T, p, f).value.val);
    if g > 0 && Denotes(T, p, g).value.Some? { FlaggedHasNoValue(T, T[p], g - 1); }
  }

  /** So an entry that ends as a constant has left everything it referred to evaluated. */
  lemma EntryRemembers(T: Table, p: string, f: nat)
    requires p in T && EvalEntry(T, p, f).Done?
    ensures var U := EvalEntry(T, p, f).value;
            p in U ==> Known(U, p) && forall k | k in Refs(T[p]) :: Known(U, k)
  {
    InPlaceRemembers(T, p, Top, T[p], f);
  }

  // ----- what evaluation leaves, whatever the table -----

  /** A name without a direct value: null somewhere below, or recursive without end. */
  ghost predicate Never(T: Table, m: string) {
    forall g: nat :: !(Denotes(T, m, g).Done? && Denotes(T, m, g).value.Some?)
  }

  /** `U` is `T` with some entries replaced by the constants they denote, and some that denote nothing
      made null. */
  ghost predicate Kept(T: Table, U: Table) {
    U.Keys <= T.Keys && forall m | m in T :: KeptAt(T, U, m)
  }

  ghost predicate KeptAt(T: Table, U: Table, m: string)
    requires m in T
  {
    if m !in U then Never(T, m) else U[m] == T[m] || IsValueOf(T, m, U[m])
  }

  lemma {:induction false} KeptValue(T: Table, U: Table, e: Expr, f: nat)
    requires Kept(T, U) && Value(T, e, f).Done? && Value(T, e, f).value.Some?
    ensures Value(U, e, f) == Value(T, e, f)
    decreases f, 1, e
  {
    match e
    case Ref(n, s) => KeptDenotes(T, U, n, f);
    case Add(l, r) => KeptValue(T, U, l, f); KeptValue(T, U, r, f);
    case _ =>
  }

  lemma {:induction false} KeptDenotes(T: Table, U: Table, n: string, f: nat)
    requires Kept(T, U) && Denotes(T, n, f).Done? && Denotes(T, n, f).value.Some?
    ensures Denotes(U, n, f) == Denotes(T, n, f)
    decreases f, 0
  {
    assert KeptAt(T, U, n);
    if U[n] == T[n] {
      if !T[n].Const? { KeptValue(T, U, T[n], f - 1); }
    } else {
      var g: nat :| Denotes(T, n, g) == Done(Some(U[n].v));
      DenotesUnique(T, n, f, g);
    }
  }

  lemma {:induction false} UnkeptValue(T: Table, U: Table, e: Expr, f: nat) returns (g: nat)
    requires Kept(T, U) && Value(U, e, f).Done? && Value(U, e, f).value.Some?
    ensures Value(T, e, g) == Value(U, e, f)
    decreases f, 1, e
  {
    match e
    case Const(_) => g := 0;
    case Ref(n, s) => g := UnkeptDenotes(T, U, n, f);
    case Add(l, r) =>
      var a := UnkeptValue(T, U, l, f);
      var b := UnkeptValue(T, U, r, f);
      g := if a <= b then b else a;
      ValueFuel(T, l, a, g);
      ValueFuel(T, r, b, g);
  }

  lemma {:induction false} UnkeptDenotes(T: Table, U: Table, n: string, f: nat) returns (g: nat)
    requires Kept(T, U) && Denotes(U, n, f).Done? && Denotes(U, n, f).value.Some?
    ensures Denotes(T, n, g) == Denotes(U, n, f)
    decreases f, 0
  {
    g := 0;
    assert KeptAt(T, U, n);
    if U[n] != T[n] {
      g :| Denotes(T, n, g) == Done(Some(U[n].v));
    } else if !T[n].Const? {
      g := UnkeptValue(T, U, T[n], f - 1);
      g := g + 1;
    }
  }

  lemma KeptTransitive(T: Table, U: Table, W: Table)
    requires Kept(T, U) && Kept(U, W)
    ensures Kept(T, W)
  {
    forall m | m in T ensures KeptAt(T, W, m) {
      assert KeptAt(T, U, m);
      if m in U {
        assert KeptAt(U, W, m);
        if m !in W {
          forall g: nat ensures !(Denotes(T, m, g).Done? && Denotes(T, m, g).value.Some?) {
            if Denotes(T, m, g).Done? && Denotes(T, m, g).value.Some? { KeptDenotes(T, U, m, g); }
          }
        } else if W[m] != U[m] {
          var f: nat :| Denotes(U, m, f) == Done(Some(W[m].v));
          var g := UnkeptDenotes(T, U, m, f);
        }
      }
    }
  }

  /** A node of an entry that has a direct value is evaluated to its own. */
  lemma RefGivesValue(T: Table, U: Table, p: string, d: Ctx, n: string, f: nat, g: nat, h: nat)
    requires p in T && p in U && Settled(T, U[p := T[p]]) && n in Refs(T[p])
    requires Denotes(T, p, h).Done? && Denotes(T, n, g).Done?
    requires EvalName(U[p := Plug(d, Ref(n, true))], n, f).Done?
    ensures Denotes(T, n, g) == Done(EvalName(U[p := Plug(d, Ref(n, true))], n, f).value.val)
  {
    var V, X := U[p := T[p]], U[p := Plug(d, Ref(n, true))];
    forall w | Walk(V, w) && w[0] == n ensures p !in w {
      SettledWalks(T, V, w);
      ReturningWalk(T, p, w);
      DenotedHasNoCycle(T, p, h);
    }
    SettledDenotes(T, V, n, g);
    assert X == V[p := X[p]];
    DenotesAvoids(V, X, p, n, g);
    EvalNameCorrect(X, n, f);
    var k: nat :| Denotes(X, n, k) == Done(EvalName(X, n, f).value.val);
    DenotesUnique(X, n, g, k);
  }

  lemma DenotedHasNoCycle(T: Table, n: string, h: nat)
    requires Denotes(T, n, h).Done?
    ensures !ReachesCycle(T, n)
  {
    if ReachesCycle(T, n) {
      var w, i, j :| Walk(T, w) && w[0] == n && 0 <= i < j < |w| && w[i] == w[j];
      NeverDenoted(T, w, i, j, 0, h);
    }
  }

  lemma {:induction false} InPlaceGivesValue(T: Table, U: Table, p: string, d: Ctx, e: Expr, f: nat, g: nat, h: nat)
    requires p in T && p in U && Settled(T, U[p := T[p]]) && Refs(e) <= Refs(T[p])
    requires Denotes(T, p, h).Done? && Value(T, e, g).Done? && Value(T, e, g).value.Some?
    requires InPlace(U, p, d, e, f).Done?
    ensures InPlace(U, p, d, e, f).value.e.Const?
    decreases e
  {
    match e
    case Const(_) =>
    case Ref(n, s) => RefGivesValue(T, U, p, d, n, f, g, h);
    case Add(l, r) =>
      InPlaceGivesValue(T, U, p, InLeft(d, r), l, f, g, h);
      InPlaceSettles(T, U, p, InLeft(d, r), l, f);
      var a := InPlace(U, p, InLeft(d, r), l, f).value;
      InPlaceGivesValue(T, a.table, p, InRight(a.e, d), r, f, g, h);
  }

  /** An evaluated entry is the constant it denotes, or null because it denotes nothing. */
  ghost predicate Rightly(T: Table, U: Table, p: string) {
    if p in U then U[p].Const? && exists g: nat :: Denotes(T, p, g) == Done(Some(U[p].v)) else Never(T, p)
  }

  /** Whatever the table, an entry whose evaluation ends is left right, and so is every entry written on
      the way; it ends where no cycle is reachable from any of its nodes. */
  lemma EvalEntryCorrect(T: Table, p: string, F: nat)
    ensures EvalEntry(T, p, F).Done? ==> Kept(T, EvalEntry(T, p, F).value) && Rightly(T, EvalEntry(T, p, F).value, p)
    ensures F > |T| && (p in T ==> NoCycleAtAnyNode(T, p)) ==> EvalEntry(T, p, F).Done?
  {
    if F > |T| && p in T && NoCycleAtAnyNode(T, p) { InPlaceTerminates(T, T, p, Top, Top, T[p], F); }
    if EvalEntry(T, p, F).Done? {
      if p in T {
        EntryKept(T, p, F);
      } else {
        forall m | m in T ensures KeptAt(T, T, m) {}
      }
    }
  }

  lemma EntryKept(T: Table, p: string, F: nat)
    requires p in T && EvalEntry(T, p, F).Done?
    ensures Kept(T, EvalEntry(T, p, F).value) && Rightly(T, EvalEntry(T, p, F).value, p)
  {
    var a, U := InPlace(T, p, Top, T[p], F).value, EvalEntry(T, p, F).value;
    assert T[p := T[p]] == T;
    forall m | m in T ensures SettledAt(T, T, m) {}
    InPlaceSettles(T, T, p, Top, T[p], F);
    forall m | m in T && m != p ensures KeptAt(T, U, m) {
      assert SettledAt(T, a.table[p := T[p]], m);
      SettledIsKept(T, a.table[p := T[p]], m);
    }
    if a.e.Const? {
      var g: nat :| Value(T, T[p], g) == Done(Some(a.e.v));
      assert Denotes(T, p, g + 1) == Done(Some(a.e.v));
    } else {
      forall g: nat ensures !(Denotes(T, p, g).Done? && Denotes(T, p, g).value.Some?) {
        if Denotes(T, p, g).Done? && Denotes(T, p, g).value.Some? && !T[p].Const? {
          InPlaceGivesValue(T, T, p, Top, T[p], F, g - 1, g);
        }
      }
    }
  }

  lemma SettledIsKept(T: Table, U: Table, m: string)
    requires m in T && SettledAt(T, U, m)
    ensures KeptAt(T, U, m)
  {
    if m !in U {
      var f: nat :| Denotes(T, m, f) == Done(None);
      forall g: nat ensures !(Denotes(T, m, g).Done? && Denotes(T, m, g).value.Some?) {
        if Denotes(T, m, g).Done? { DenotesUnique(T, m, f, g); }
      }
    }
  }

  lemma KeptStays(T: Table, U: Table, W: Table, p: string)
    requires Kept(T, U) && Kept(U, W) && Rightly(T, U, p)
    ensures Rightly(T, W, p)
  {
    if p in U {
      assert KeptAt(U, W, p);
      var g: nat :| Denotes(T, p, g) == Done(Some(U[p].v));
      assert Denotes(U, p, 0) == Done(Some(U[p].v));
    }
  }

  /** Main result on a scope. Whatever the table: if the evaluation ends, every listed entry is the
      constant it denotes or null because it denotes nothing, no other entry is changed into anything but
      the constant it denotes or null, and no flag is left up. It ends where no cycle is reachable at any turn. */
  lemma {:induction false} EvalAllCorrect(T: Table, names: seq<string>, F: nat)
    ensures EvalAll(T, names, F).Done? ==>
              var U := EvalAll(T, names, F).value;
              Kept(T, U) && (NoFlags(T) ==> NoFlags(U)) && forall p | p in names :: Rightly(T, U, p)
    ensures F > |T| && (Acyclic(T) || NoCycleInTurn(T, names)) ==> EvalAll(T, names, F).Done?
    decreases |names|
  {
    if F > |T| && Acyclic(T) { AcyclicEnds(T, names, F); }
    if F > |T| && NoCycleInTurn(T, names) { EvalAllEnds(T, names, F); }
    if EvalAll(T, names, F).Done? {
      if names == [] {
        forall m | m in T ensures KeptAt(T, T, m) {}
      } else {
        EvalAllStep(T, names, F);
      }
    }
  }

  lemma {:induction false} EvalAllStep(T: Table, names: seq<string>, F: nat)
    requires names != [] && EvalAll(T, names, F).Done?
    ensures var U := EvalAll(T, names, F).value;
            Kept(T, U) && (NoFlags(T) ==> NoFlags(U)) && forall p | p in names :: Rightly(T, U, p)
    decreases |names|, 0
  {
    var U := EvalEntry(T, names[0], F).value;
    var W := EvalAll(T, names, F).value;
    EvalEntryCorrect(T, names[0], F);
    EvalAllCorrect(U, names[1..], F);
    KeptTransitive(T, U, W);
    forall m | m in W ensures W[m] == T[m] || W[m].Const? { assert KeptAt(T, W, m); }
    forall p | p in names ensures Rightly(T, W, p) {
      if p == names[0] {
        KeptStays(T, U, W, p);
      } else {
        assert p in names[1..];
        RightlyFrom(T, U, W, p);
      }
    }
  }

  lemma RightlyFrom(T: Table, U: Table, W: Table, p: string)
    requires Kept(T, U) && Rightly(U, W, p)
    ensures Rightly(T, W, p)
  {
    if p in W {
      var g: nat :| Denotes(U, p, g) == Done(Some(W[p].v));
      var h := UnkeptDenotes(T, U, p, g);
    } else {
      forall g: nat ensures !(Denotes(T, p, g).Done? && Denotes(T, p, g).value.Some?) {
        if Denotes(T, p, g).Done? && Denotes(T, p, g).value.Some? { KeptDenotes(T, U, p, g); }
      }
    }
  }

  /** A cycle through the entry under evaluation is detected: both entries end up null. */
  lemma CycleThroughEntryDetected(f: nat)
    requires f >= 2
    ensures EvalAll(map["P" := Ref("Q", false), "Q" := Ref("P", false)], ["P", "Q"], f) == Done(map[])
  {
    var T: Table := map["P" := Ref("Q", false), "Q" := Ref("P", false)];
    assert "P"[0] != "Q"[0];
    var T1 := T["P" := Ref("Q", true)];
    assert EvalName(T1, "P", f - 1) == Done(Answer(T1, None));
    assert EvalName(T1, "Q", f) == Done(Answer(T1, None));
    var U := EvalEntry(T, "P", f).value;
    assert U == T1 - {"P"};
    var U1 := U["Q" := Ref("P", true)];
    assert EvalName(U1, "P", f) == Done(Answer(U1, None));
    assert EvalEntry(U, "Q", f).value == map[];
    assert ["P", "Q"][1..] == ["Q"] && ["Q"][1..] == [];
    assert EvalAll(U, ["Q"], f) == EvalAll(map[], [], f);
  }

  /** Nor is a cycle through the entry always detected: with `P := Q + R`, `Q := P`, `R := P` every cycle
      passes through P, but while the node Q is solved the node R of P is open. */
  lemma SecondNodeDiverges(T: Table, f: nat)
    requires T == map["P" := Add(Ref("Q", false), Ref("R", false)), "Q" := Ref("P", false), "R" := Ref("P", false)]
    ensures EvalEntry(T, "P", f).OutOfFuel?
  {
    var c := InLeft(Top, Ref("R", false));
    assert "P"[0] != "Q"[0] && "P"[0] != "R"[0] && "Q"[0] != "R"[0];
    assert Plug(c, Ref("Q", false)) == T["P"];
    var S := T["P" := Plug(c, Ref("Q", true))];
    assert S["P"] == Add(Ref("Q", true), Ref("R", false));
    var w := ["Q", "P", "R", "P"];
    assert Walk(S, w) by {
      forall i | 0 <= i < |w| - 1 ensures w[i + 1] in Next(S, w[i]) { assert i == 0 || i == 1 || i == 2; }
    }
    assert w[1] == w[3];
    EntryTerminatesExactly(T, "P");
    assert ReachesCycle(S, "Q");
  }

  /** A cycle that does not pass through it is not: the entry `A := P` with `P := P` recurses
      without end, because the copies made of entry P never show a raised flag. */
  lemma CycleBehindEntryDiverges(f: nat)
    ensures EvalAll(map["A" := Ref("P", false), "P" := Ref("P", false)], ["A", "P"], f).OutOfFuel?
  {
    var T: Table := map["A" := Ref("P", false), "P" := Ref("P", false)];
    assert "A"[0] != "P"[0];
    SelfReferenceDiverges(T["A" := Ref("P", true)], f);
    assert EvalEntry(T, "A", f).OutOfFuel?;
  }

  lemma {:induction false} SelfReferenceDiverges(T: Table, f: nat)
    requires "P" in T && T["P"] == Ref("P", false)
    ensures EvalName(T, "P", f).OutOfFuel?
  {
    if f > 0 { SelfReferenceDiverges(T, f - 1); }
  }

  // ----- the table in the scope -----

  class Scope {
    var parameters: Table

    constructor (T: Table)
      ensures parameters == T
    {
      parameters := T;
    }

    method ReplaceParameter(key: string, e: Expr) returns (flag: bool)
      modifies this
      ensures flag <==> key in old(parameters)
      ensures parameters == if flag then old(parameters)[key := e] else old(parameters)
    {
      flag := key in parameters;
      if flag {
        parameters := parameters[key := e];
      }
    }

    /** Evaluate a private copy. */
    method EvalTree(e: Expr, fuel: nat) returns (r: Res<Option<int>>)
      modifies this
      ensures var a := EvalCopy(old(parameters), e, fuel);
              if a.OutOfFuel? then r.OutOfFuel? else r == Done(a.value.val) && parameters == a.value.table
      decreases fuel, 1, e
    {
      match e
      case Const(v) => r := Done(Some(v));
      case Ref(n, solving) =>
        if solving {
          r := Done(None);
        } else {
          r := EvalParam(n, fuel);
        }
      case Add(left, right) =>
        r := EvalTree(left, fuel);
        if r.OutOfFuel? { return; }
        var b := EvalTree(right, fuel);
        if b.OutOfFuel? { return OutOfFuel; }
        r := Done(Plus(r.value, b.value));
    }

    /** `NetEParam::eval_tree` on an unflagged reference. */
    method EvalParam(n: string, fuel: nat) returns (r: Res<Option<int>>)
      modifies this
      ensures var a := EvalName(old(parameters), n, fuel);
              if a.OutOfFuel? then r.OutOfFuel? else r == Done(a.value.val) && parameters == a.value.table
      decreases fuel, 0
    {
      if n !in parameters { return Done(None); }
      if parameters[n].Const? { return Done(Some(parameters[n].v)); }
      if fuel == 0 { return OutOfFuel; }
      ghost var T := parameters;
      r := EvalTree(parameters[n], fuel - 1);
      if r.Done? && r.value.Some? {
        EvalNameCorrect(T, n, fuel);
        EvalCopyCorrect(T, T[n], fuel - 1);
        var flag := ReplaceParameter(n, Const(r.value.value));
      }
    }

    /** Evaluate a node of entry `p` in place, raising its flag while it is solved. */
    method EvalInPlace(p: string, c: Ctx, e: Expr, fuel: nat) returns (r: Res<Expr>)
      modifies this
      ensures var a := InPlace(old(parameters), p, c, e, fuel);
              if a.OutOfFuel? then r.OutOfFuel? else r == Done(a.value.e) && parameters == a.value.table
      decreases e
    {
      match e
      case Const(_) => r := Done(e);
      case Ref(n, solving) =>
        if solving { return Done(e); }
        parameters := parameters[p := Plug(c, Ref(n, true))];
        var a := EvalParam(n, fuel);
        r := if a.OutOfFuel? then OutOfFuel else Done(if a.value.Some? then Const(a.value.value) else e);
      case Add(left, right) =>
        r := EvalInPlace(p, InLeft(c, right), left, fuel);
        if r.OutOfFuel? { return; }
        var b := EvalInPlace(p, InRight(r.value, c), right, fuel);
        if b.OutOfFuel? { return OutOfFuel; }
        r := Done(Sum(r.value, b.value));
    }

    /** `evaluate_parameters`: every entry in the order of the names. */
    method EvaluateParameters(names: seq<string>, fuel: nat) returns (ok: bool)
      modifies this
      ensures var U := EvalAll(old(parameters), names, fuel);
              ok == U.Done? && (ok ==> parameters == U.value)
    {
      for k := 0 to |names|
        invariant EvalAll(parameters, names[k..], fuel) == EvalAll(old(parameters), names, fuel)
      {
        var p := names[k];
        assert names[k..][1..] == names[k + 1..];
        if p in parameters {
          var r := EvalInPlace(p, Top, parameters[p], fuel);
          if r.OutOfFuel? { return false; }
          parameters := if r.value.Const? then parameters[p := r.value] else parameters - {p};
        }
      }
      ok := true;
    }
  }
}
