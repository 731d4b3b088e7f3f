/** The parse form of expressions (PExpr.h, PExpr.cc) as the predicate analysis sees it: the
    printed name of an expression, the `contains_expr` test, and the value of an expression
    in a state of the signals.
 */
module PForm {
  import opened Wrappers

  /** Binary operators with the letters of the source: Eq 'e', Or 'o', And 'a', Leq 'L', Neq 'n'.
      Every other operator is Infix and carries the text that is printed for it. */
  datatype BinOp = Eq | Or | And | Leq | Neq | Infix(symbol: string)

  /** LNot is the letter 'N'; every other unary operator carries its printed text. */
  datatype UnOp = LNot | Prefix(symbol: string)

  /** Ident is a scalar signal, Number a constant known by its printed text, and Other stands
      for the expression classes that keep every inherited default (calls, concatenations,
      strings). */
  datatype Expr =
    | Ident(name: string)
    | Number(digits: string)
    | Unary(uop: UnOp, arg: Expr)
    | Binary(op: BinOp, left: Expr, right: Expr)
    | Ternary(cond: Expr, tru: Expr, fal: Expr)
    | Other(text: string)

  /** How an operator with a letter is printed: the text up to the left operand, between the
      operands, and after the right one. */
  function Open(op: BinOp): string
    requires !op.Infix?
  {
    match op case Eq => "= " case Or => "or (" case And => "and (" case Leq => "<= (" case Neq => "not( = "
  }

  function Mid(op: BinOp): string {
    if op.Eq? || op.Neq? then " " else ") ("
  }

  function Close(op: BinOp): string {
    if op.Eq? then "" else ")"
  }

  /** The text an expression prints as; `get_name` returns it, so it is also the key under which
      hypotheses and expressions are compared. */
  function Dump(e: Expr): string {
    match e
    case Ident(n) => n
    case Number(d) => d
    case Unary(LNot, a) => "not(" + Dump(a) + ")"
    case Unary(Prefix(s), a) => s + "(" + Dump(a) + ")"
    case Binary(Infix(s), l, r) => "(" + Dump(l) + ")" + s + "(" + Dump(r) + ")"
    case Binary(op, l, r) => Open(op) + Dump(l) + Mid(op) + Dump(r) + Close(op)
    case Ternary(c, t, f) => "(" + Dump(c) + ")?(" + Dump(t) + "):(" + Dump(f) + ")"
    case Other(t) => t
  }

  /** Does the expression mention the expression printed as `that`? Only unary and binary nodes
      look at their operands; the other classes compare their own printed name. */
  predicate ContainsExpr(e: Expr, that: string) {
    match e
    case Unary(_, a) => ContainsExpr(a, that)
    case Binary(_, l, r) => ContainsExpr(l, that) || ContainsExpr(r, that)
    case _ => Dump(e) == that
  }

  /** Signal values; an absent signal reads 0. */
  type Vals = map<string, int>

  function Val(v: Vals, x: string): int {
    if x in v then v[x] else 0
  }

  /** The meaning of what the model leaves open: numerals, the operators without a letter of
      their own, and the opaque expression classes. Every result holds for all of them. */
  datatype Interp = Interp(
    num: string -> int,
    prefix: (string, int) -> int,
    infix: (string, int, int) -> int,
    other: (string, Vals) -> int)

  function Bit(b: bool): int {
    if b then 1 else 0
  }

  function Eval(I: Interp, e: Expr, v: Vals): int {
    match e
    case Ident(n) => Val(v, n)
    case Number(d) => I.num(d)
    case Unary(LNot, a) => Bit(Eval(I, a, v) == 0)
    case Unary(Prefix(s), a) => I.prefix(s, Eval(I, a, v))
    case Binary(op, l, r) => Apply(I, op, Eval(I, l, v), Eval(I, r, v))
    case Ternary(c, t, f) => if Eval(I, c, v) != 0 then Eval(I, t, v) else Eval(I, f, v)
    case Other(t) => I.other(t, v)
  }

  function Apply(I: Interp, op: BinOp, l: int, r: int): int {
    match op
    case Eq => Bit(l == r)
    case Or => Bit(l != 0 || r != 0)
    case And => Bit(l != 0 && r != 0)
    case Leq => Bit(l <= r)
    case Neq => Bit(l != r)
    case Infix(s) => I.infix(s, l, r)
  }

  predicate True(I: Interp, e: Expr, v: Vals) {
    Eval(I, e, v) != 0
  }

  /** Built from identifiers, numbers, unary and binary nodes only: the shape for which
      `contains_expr` looks at every leaf. */
  predicate Plain(e: Expr) {
    match e
    case Ident(_) => true
    case Number(_) => true
    case Unary(_, a) => Plain(a)
    case Binary(_, l, r) => Plain(l) && Plain(r)
    case Ternary(_, _, _) => false
    case Other(_) => false
  }

  /** Frame property behind invalidation: an expression that does not contain `x` keeps its
      value when `x` is assigned. */
  lemma {:induction false} ContainsExprFrame(I: Interp, e: Expr, x: string, v: Vals, k: int)
    requires Plain(e) && !ContainsExpr(e, x)
    ensures Eval(I, e, v[x := k]) == Eval(I, e, v)
  {
    match e
    case Ident(_) =>
    case Number(_) =>
    case Unary(_, a) => ContainsExprFrame(I, a, x, v, k);
    case Binary(_, l, r) => ContainsExprFrame(I, l, x, v, k); ContainsExprFrame(I, r, x, v, k);
  }

  /** The names and numerals of a plain expression. */
  function LeafNames(e: Expr): set<string> {
    match e
    case Ident(n) => {n}
    case Number(d) => {d}
    case Unary(_, a) => LeafNames(a)
    case Binary(_, l, r) => LeafNames(l) + LeafNames(r)
    case _ => {}
  }

  /** Of plain expressions the test reports the leaves and nothing else. */
  lemma {:induction false} ContainsExactly(e: Expr, x: string)
    requires Plain(e)
    ensures ContainsExpr(e, x) <==> x in LeafNames(e)
  {
    match e
    case Ident(_) =>
    case Number(_) =>
    case Unary(_, a) => ContainsExactly(a, x);
    case Binary(_, l, r) => ContainsExactly(l, x); ContainsExactly(r, x);
  }

  /** The restriction to plain expressions is needed: a ternary does not report its operands. */
  lemma TernaryEscapesContainsExpr(I: Interp)
    ensures var e := Ternary(Ident("c"), Ident("a"), Ident("b"));
            !ContainsExpr(e, "a") &&
            Eval(I, e, map["c" := 1, "a" := 0]["a" := 7]) != Eval(I, e, map["c" := 1, "a" := 0])
  {
    var e := Ternary(Ident("c"), Ident("a"), Ident("b"));
    assert Dump(e)[0] == '(';
    var v: Vals := map["c" := 1, "a" := 0];
    assert Eval(I, e, v) == 0;
    assert Eval(I, e, v["a" := 7]) == 7;
  }
}
