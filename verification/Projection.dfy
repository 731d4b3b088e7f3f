/** Projection of a branch condition onto the tracked names (PExpr.cc, PExpr.h): `is_wellformed`,
    `to_wellformed` and their counterparts for the negated condition.
 */
module Projection {
  import opened Wrappers
  import opened PForm
  import opened DumpUnique

  predicate IsWellformed(e: Expr, s: set<string>) {
    match e
    case Ident(n) => n in s
    case Number(_) => true
    case Unary(op, _) => op.LNot?
    case Binary(op, l, r) =>
      if op.Eq? || op.Or? || op.Leq? || op.Neq? then IsWellformed(l, s) && IsWellformed(r, s)
      else op.And? && (IsWellformed(l, s) || IsWellformed(r, s))
    case _ => false
  }

  /** The projection: conjuncts that are not well-formed are dropped. It is null exactly when the
      condition is not well-formed, so no node is ever built over a null operand. */
  function ToWellformed(e: Expr, s: set<string>): (r: Option<Expr>)
    ensures r.Some? <==> IsWellformed(e, s)
  {
    match e
    case Ident(n) => if n in s then Some(e) else None
    case Number(_) => Some(e)
    case Unary(op, _) => if op.LNot? then Some(e) else None
    case Binary(op, l, r) =>
      if op.Infix? then None
      else if IsWellformed(l, s) && IsWellformed(r, s) then
        Some(Binary(op, ToWellformed(l, s).value, ToWellformed(r, s).value))
      else if !op.And? then None
      else if IsWellformed(l, s) then ToWellformed(l, s)
      else if IsWellformed(r, s) then ToWellformed(r, s)
      else None
    case _ => None
  }

  predicate IsNegWellformed(e: Expr, s: set<string>) {
    match e
    case Binary(op, l, r) =>
      if op.Eq? || op.And? || op.Leq? || op.Neq? then IsNegWellformed(l, s) && IsNegWellformed(r, s)
      else op.Or? && (IsNegWellformed(l, s) || IsNegWellformed(r, s))
    case _ => IsWellformed(e, s)
  }

  /** The projection used under a negation: disjuncts are dropped. */
  function NegToWellformed(e: Expr, s: set<string>): (r: Option<Expr>)
    ensures r.Some? <==> IsNegWellformed(e, s)
  {
    match e
    case Binary(op, l, r) =>
      if op.Infix? then None
      else if IsNegWellformed(l, s) && IsNegWellformed(r, s) then
        Some(Binary(op, NegToWellformed(l, s).value, NegToWellformed(r, s).value))
      else if !op.Or? then None
      else if IsNegWellformed(l, s) then NegToWellformed(l, s)
      else if IsNegWellformed(r, s) then NegToWellformed(r, s)
      else None
    case _ => ToWellformed(e, s)
  }

  // ----- shape of the projections -----

  /** Names that occur outside unary nodes. */
  function OuterNames(e: Expr): set<string> {
    match e
    case Ident(n) => {n}
    case Binary(_, l, r) => OuterNames(l) + OuterNames(r)
    case _ => {}
  }

  lemma {:induction false} ProjectionIdempotent(e: Expr, s: set<string>)
    requires IsWellformed(e, s)
    ensures var p := ToWellformed(e, s).value;
            ToWellformed(p, s) == Some(p) && OuterNames(p) <= s
  {
    match e
    case Binary(op, l, r) =>
      if IsWellformed(l, s) { ProjectionIdempotent(l, s); }
      if IsWellformed(r, s) { ProjectionIdempotent(r, s); }
    case _ =>
  }

  function Conjuncts(e: Expr): seq<Expr> {
    if e.Binary? && e.op.And? then Conjuncts(e.left) + Conjuncts(e.right) else [e]
  }

  function Disjuncts(e: Expr): seq<Expr> {
    if e.Binary? && e.op.Or? then Disjuncts(e.left) + Disjuncts(e.right) else [e]
  }

  function Listed(e: Option<Expr>): seq<Expr> {
    if e.Some? then [e.value] else []
  }

  /** The well-formed ones of a list, projected. */
  function Projected(es: seq<Expr>, s: set<string>): seq<Expr> {
    if es == [] then []
    else Listed(ToWellformed(es[0], s)) + Projected(es[1..], s)
  }

  function NegProjected(es: seq<Expr>, s: set<string>): seq<Expr> {
    if es == [] then []
    else Listed(NegToWellformed(es[0], s)) + NegProjected(es[1..], s)
  }

  lemma {:induction false} ProjectedAppend(a: seq<Expr>, b: seq<Expr>, s: set<string>)
    ensures Projected(a + b, s) == Projected(a, s) + Projected(b, s)
  {
    hide Listed, ToWellformed;
    if a == [] {
      assert a + b == b;
    } else {
      assert (a + b)[1..] == a[1..] + b && (a + b)[0] == a[0];
      ProjectedAppend(a[1..], b, s);
    }
  }

  lemma {:induction false} NegProjectedAppend(a: seq<Expr>, b: seq<Expr>, s: set<string>)
    ensures NegProjected(a + b, s) == NegProjected(a, s) + NegProjected(b, s)
  {
    hide Listed, NegToWellformed;
    if a == [] {
      assert a + b == b;
    } else {
      assert (a + b)[1..] == a[1..] + b && (a + b)[0] == a[0];
      NegProjectedAppend(a[1..], b, s);
    }
  }

  /** The projection keeps every conjunct that is well-formed, in order, and no other; there is one exactly
      when some conjunct is. */
  lemma {:induction false} ConjunctsKept(e: Expr, s: set<string>)
    ensures IsWellformed(e, s) <==> Projected(Conjuncts(e), s) != []
    ensures IsWellformed(e, s) ==> Conjuncts(ToWellformed(e, s).value) == Projected(Conjuncts(e), s)
  {
    if e.Binary? && e.op.And? {
      ConjunctsKept(e.left, s);
      ConjunctsKept(e.right, s);
      ProjectedAppend(Conjuncts(e.left), Conjuncts(e.right), s);
    } else {
      assert [e][1..] == [] && Projected([], s) == [];
    }
  }

  /** The same for the disjuncts under a negation. */
  lemma {:induction false} DisjunctsKept(e: Expr, s: set<string>)
    ensures IsNegWellformed(e, s) <==> NegProjected(Disjuncts(e), s) != []
    ensures IsNegWellformed(e, s) ==> Disjuncts(NegToWellformed(e, s).value) == NegProjected(Disjuncts(e), s)
  {
    if e.Binary? && e.op.Or? {
      DisjunctsKept(e.left, s);
      DisjunctsKept(e.right, s);
      NegProjectedAppend(Disjuncts(e.left), Disjuncts(e.right), s);
    } else {
      assert [e][1..] == [] && NegProjected([], s) == [];
    }
  }

  /** Names, numbers and negations, joined by the operators that have a letter of their own. */
  predicate Simple(e: Expr) {
    match e
    case Ident(_) => true
    case Number(_) => true
    case Unary(op, _) => op.LNot?
    case Binary(op, l, r) => !op.Infix? && Simple(l) && Simple(r)
    case _ => false
  }

  /** Of such a condition over tracked names nothing is dropped, and over anything else it is projected
      to something else or not at all. */
  lemma {:induction false} KeptExactly(e: Expr, s: set<string>)
    ensures ToWellformed(e, s) == Some(e) <==> Simple(e) && OuterNames(e) <= s
    ensures NegToWellformed(e, s) == Some(e) <==> Simple(e) && OuterNames(e) <= s
  {
    match e
    case Binary(op, l, r) =>
      KeptExactly(l, s);
      KeptExactly(r, s);
      ProjectionShrinks(l, s);
      ProjectionShrinks(r, s);
    case _ =>
  }

  lemma {:induction false} ProjectionShrinks(e: Expr, s: set<string>)
    ensures IsWellformed(e, s) ==> Size(ToWellformed(e, s).value) <= Size(e)
    ensures IsNegWellformed(e, s) ==> Size(NegToWellformed(e, s).value) <= Size(e)
  {
    match e
    case Binary(op, l, r) =>
      ProjectionShrinks(l, s);
      ProjectionShrinks(r, s);
    case _ =>
  }

  /** Exchange && and || outside unary nodes. */
  function Swap(e: Expr): Expr {
    match e
    case Binary(op, l, r) =>
      Binary(if op.And? then Or else if op.Or? then And else op, Swap(l), Swap(r))
    case _ => e
  }

  function SwapOption(e: Option<Expr>): Option<Expr> {
    if e.Some? then Some(Swap(e.value)) else None
  }

  /** The two projections are De Morgan duals. */
  lemma {:induction false} NegationIsDual(e: Expr, s: set<string>)
    ensures IsNegWellformed(e, s) == IsWellformed(Swap(e), s)
    ensures NegToWellformed(e, s) == SwapOption(ToWellformed(Swap(e), s))
  {
    match e
    case Binary(op, l, r) =>
      NegationIsDual(l, s);
      NegationIsDual(r, s);
    case _ =>
  }

  lemma {:induction false} ProjectionReadable(e: Expr, s: set<string>)
    requires Readable(e)
    ensures IsWellformed(e, s) ==> Readable(ToWellformed(e, s).value)
    ensures IsNegWellformed(e, s) ==> Readable(NegToWellformed(e, s).value)
  {
    match e
    case Binary(op, l, r) =>
      ProjectionReadable(l, s);
      ProjectionReadable(r, s);
    case _ =>
  }

  // ----- meaning of the projections -----

  /** Nothing is dropped inside a comparison. */
  predicate KeepsComparisons(e: Expr, s: set<string>) {
    match e
    case Binary(op, l, r) =>
      if op.And? || op.Or? then KeepsComparisons(l, s) && KeepsComparisons(r, s)
      else !op.Infix? && IsWellformed(e, s) ==> ToWellformed(l, s) == Some(l) && ToWellformed(r, s) == Some(r)
    case _ => true
  }

  predicate NegKeepsComparisons(e: Expr, s: set<string>) {
    match e
    case Binary(op, l, r) =>
      if op.And? || op.Or? then NegKeepsComparisons(l, s) && NegKeepsComparisons(r, s)
      else !op.Infix? && IsNegWellformed(e, s) ==> NegToWellformed(l, s) == Some(l) && NegToWellformed(r, s) == Some(r)
    case _ => true
  }

  /** A condition implies its projection. */
  lemma {:induction false} ProjectionWeakens(I: Interp, e: Expr, s: set<string>, v: Vals)
    requires IsWellformed(e, s) && KeepsComparisons(e, s) && True(I, e, v)
    ensures True(I, ToWellformed(e, s).value, v)
  {
    match e
    case Binary(op, l, r) =>
      if op.And? || op.Or? {
        if IsWellformed(l, s) && True(I, l, v) { ProjectionWeakens(I, l, s, v); }
        if IsWellformed(r, s) && True(I, r, v) { ProjectionWeakens(I, r, s, v); }
      }
    case _ =>
  }

  /** The projection for a negation implies the condition, so it fails whenever the condition
      does. */
  lemma {:induction false} NegProjectionStrengthens(I: Interp, e: Expr, s: set<string>, v: Vals)
    requires IsNegWellformed(e, s) && NegKeepsComparisons(e, s) && True(I, NegToWellformed(e, s).value, v)
    ensures True(I, e, v)
  {
    match e
    case Binary(op, l, r) =>
      if op.And? || op.Or? {
        if IsNegWellformed(l, s) && True(I, NegToWellformed(l, s).value, v) { NegProjectionStrengthens(I, l, s, v); }
        if IsNegWellformed(r, s) && True(I, NegToWellformed(r, s).value, v) { NegProjectionStrengthens(I, r, s, v); }
      }
    case _ =>
  }

  /** `op` does not occur outside unary nodes. */
  predicate Without(e: Expr, op: BinOp) {
    match e
    case Binary(o, l, r) => o != op && Without(l, op) && Without(r, op)
    case _ => true
  }

  lemma {:induction false} WithoutAndIsKept(e: Expr, s: set<string>)
    requires Without(e, And) && IsWellformed(e, s)
    ensures ToWellformed(e, s) == Some(e)
  {
    match e
    case Binary(op, l, r) => WithoutAndIsKept(l, s); WithoutAndIsKept(r, s);
    case _ =>
  }

  lemma {:induction false} WithoutOrIsKept(e: Expr, s: set<string>)
    requires Without(e, Or) && IsNegWellformed(e, s)
    ensures NegToWellformed(e, s) == Some(e)
  {
    match e
    case Binary(op, l, r) => WithoutOrIsKept(l, s); WithoutOrIsKept(r, s);
    case _ =>
  }

  /** No && (no ||) below a comparison: a shape that makes the projections one-sided whatever
      is tracked. */
  predicate FlatBelowComparisons(e: Expr, op: BinOp) {
    match e
    case Binary(o, l, r) =>
      if o.And? || o.Or? then FlatBelowComparisons(l, op) && FlatBelowComparisons(r, op)
      else Without(l, op) && Without(r, op)
    case _ => true
  }

  lemma {:induction false} FlatKeepsComparisons(e: Expr, s: set<string>)
    ensures FlatBelowComparisons(e, And) ==> KeepsComparisons(e, s)
    ensures FlatBelowComparisons(e, Or) ==> NegKeepsComparisons(e, s)
  {
    match e
    case Binary(op, l, r) =>
      if op.And? || op.Or? {
        FlatKeepsComparisons(l, s);
        FlatKeepsComparisons(r, s);
      } else {
        if FlatBelowComparisons(e, And) && !op.Infix? && IsWellformed(e, s) { WithoutAndIsKept(l, s); WithoutAndIsKept(r, s); }
        if FlatBelowComparisons(e, Or) && !op.Infix? && IsNegWellformed(e, s) { WithoutOrIsKept(l, s); WithoutOrIsKept(r, s); }
      }
    case _ =>
  }

  /** A conjunct dropped below a comparison breaks the implication. */
  lemma DroppedBelowComparison(I: Interp)
    ensures var e := Binary(Eq, Binary(And, Ident("a"), Ident("b")), Ident("c"));
            var v: Vals := map["a" := 1, "b" := 0, "c" := 0];
            IsWellformed(e, {"a", "c"}) && True(I, e, v) && !True(I, ToWellformed(e, {"a", "c"}).value, v)
  {
    var v: Vals := map["a" := 1, "b" := 0, "c" := 0];
    assert "a"[0] != "b"[0] && "b"[0] != "c"[0] && "a"[0] != "c"[0];
    var l := Binary(And, Ident("a"), Ident("b"));
    var e := Binary(Eq, l, Ident("c"));
    assert ToWellformed(l, {"a", "c"}) == Some(Ident("a"));
    assert Eval(I, Ident("a"), v) == 1 && Eval(I, Ident("b"), v) == 0 && Eval(I, Ident("c"), v) == 0;
    assert Eval(I, l, v) == 0;
    assert Eval(I, e, v) == 1;
    assert ToWellformed(e, {"a", "c"}) == Some(Binary(Eq, Ident("a"), Ident("c")));
  }

  /** So does a disjunct dropped there, for the projection used under a negation: the projection holds
      and the condition does not. */
  lemma NegDroppedBelowComparison(I: Interp)
    ensures var e := Binary(Eq, Binary(Or, Ident("a"), Ident("b")), Ident("c"));
            var v: Vals := map["a" := 0, "b" := 1, "c" := 0];
            IsNegWellformed(e, {"a", "c"}) && !True(I, e, v) && True(I, NegToWellformed(e, {"a", "c"}).value, v)
  {
    var v: Vals := map["a" := 0, "b" := 1, "c" := 0];
    assert "a"[0] != "b"[0] && "b"[0] != "c"[0] && "a"[0] != "c"[0];
    var l := Binary(Or, Ident("a"), Ident("b"));
    var e := Binary(Eq, l, Ident("c"));
    assert NegToWellformed(l, {"a", "c"}) == Some(Ident("a"));
    assert Eval(I, Ident("a"), v) == 0 && Eval(I, Ident("b"), v) == 1 && Eval(I, Ident("c"), v) == 0;
    assert Eval(I, l, v) == 1;
    assert NegToWellformed(e, {"a", "c"}) == Some(Binary(Eq, Ident("a"), Ident("c")));
  }

  // ----- the two hypotheses of a branch are different -----

  function Size(e: Expr): nat {
    match e
    case Unary(_, a) => 1 + Size(a)
    case Binary(_, l, r) => 1 + Size(l) + Size(r)
    case _ => 1
  }

  lemma {:induction false} UnaryProjectionIsSmall(e: Expr, s: set<string>)
    requires IsWellformed(e, s) && IsNegWellformed(e, s) && ToWellformed(e, s).value.Unary?
    ensures Size(ToWellformed(e, s).value) <= Size(NegToWellformed(e, s).value)
  {
    match e
    case Binary(op, l, r) =>
      if IsWellformed(l, s) { UnaryProjectionIsSmall(l, s); } else { UnaryProjectionIsSmall(r, s); }
    case _ =>
  }

  lemma BranchHypothesesDiffer(e: Expr, s: set<string>)
    requires IsWellformed(e, s) && IsNegWellformed(e, s)
    ensures ToWellformed(e, s).value != Unary(LNot, NegToWellformed(e, s).value)
  {
    if ToWellformed(e, s).value.Unary? {
      UnaryProjectionIsSmall(e, s);
    }
  }
}
