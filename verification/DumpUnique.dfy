/** Unique readability of printed expressions (pform_dump.cc). The comparators of hypotheses and
    of assigned variables look at printed names only; on the expressions hypotheses are built
    from, equal names mean equal expressions.
 */
module DumpUnique {
  import opened Wrappers
  import opened PForm

  predicate Plainchar(c: char) {
    c != ' ' && c != '(' && c != ')'
  }

  predicate Token(s: string) {
    s != [] && forall i | 0 <= i < |s| :: Plainchar(s[i])
  }

  /** Numerals start with a digit, a minus sign or a quote; identifiers do not. */
  predicate NumeralStart(c: char) {
    '0' <= c <= '9' || c == '-' || c == '\''
  }

  predicate Reserved(s: string) {
    s == "=" || s == "or" || s == "and" || s == "<="
  }

  predicate IdentName(s: string) {
    Token(s) && !NumeralStart(s[0]) && !Reserved(s)
  }

  /** The expressions whose printed form can be read back. */
  predicate Readable(e: Expr) {
    match e
    case Ident(n) => IdentName(n)
    case Number(d) => Token(d) && NumeralStart(d[0])
    case Unary(LNot, a) => Readable(a)
    case Unary(Prefix(s), a) => Token(s) && !Reserved(s) && s != "not" && Readable(a)
    case Binary(Infix(s), l, r) => Token(s) && Readable(l) && Readable(r)
    case Binary(_, l, r) => Readable(l) && Readable(r)
    case _ => false
  }

  lemma {:induction false} ReadableIsPlain(e: Expr)
    requires Readable(e)
    ensures Plain(e)
  {
    match e
    case Ident(_) =>
    case Number(_) =>
    case Unary(_, a) => ReadableIsPlain(a);
    case Binary(_, l, r) => ReadableIsPlain(l); ReadableIsPlain(r);
  }

  /** Length of the longest prefix free of blanks and parentheses. */
  function TokLen(s: string): (k: nat)
    ensures k <= |s|
  {
    if s == [] || !Plainchar(s[0]) then 0 else 1 + TokLen(s[1..])
  }

  lemma {:induction false} TokLenOf(t: string, rest: string)
    requires forall i | 0 <= i < |t| :: Plainchar(t[i])
    requires rest == [] || !Plainchar(rest[0])
    ensures TokLen(t + rest) == |t| && (t + rest)[..|t|] == t && (t + rest)[|t|..] == rest
  {
    if t == [] {
      assert t + rest == rest;
    } else {
      assert (t + rest)[1..] == t[1..] + rest;
      TokLenOf(t[1..], rest);
    }
  }

  /** Strip an expected prefix. */
  function Strip(s: string, p: string): (r: Option<string>)
    ensures r.Some? ==> |r.value| == |s| - |p|
  {
    if p <= s then Some(s[|p|..]) else None
  }

  lemma StripOf(p: string, rest: string)
    ensures Strip(p + rest, p) == Some(rest)
  {
    assert (p + rest)[|p|..] == rest;
  }

  type Reading = Option<(Expr, string)>

  /** The leading word of an operator printed in front of its operands. */
  function Word(op: BinOp): (w: string)
    requires !op.Infix?
    ensures Token(w) && w < Open(op) && !Plainchar(Open(op)[|w|])
  {
    match op case Eq => "=" case Or => "or" case And => "and" case Leq => "<=" case Neq => "not"
  }

  /** A reader for printed expressions: the expression at the head of `s` and what follows it. */
  function Read(s: string): (r: Reading)
    ensures r.Some? ==> |r.value.1| < |s|
    decreases |s|, 1
  {
    var k := TokLen(s);
    var t, u := s[..k], s[k..];
    if t == "" then
      ReadInfix(s)
    else if t == "=" then
      ReadTwo(s, Eq)
    else if t == "or" then
      ReadTwo(s, Or)
    else if t == "and" then
      ReadTwo(s, And)
    else if t == "<=" then
      ReadTwo(s, Leq)
    else if t == "not" && "( = " <= u then
      ReadTwo(s, Neq)
    else if "(" <= u then
      ReadCall(t, u)
    else if NumeralStart(t[0]) then Some((Number(t), u))
    else Some((Ident(t), u))
  }

  /** Read the operand of a unary node printed `t(operand)`; `u` starts at the parenthesis. */
  function ReadCall(t: string, u: string): (r: Reading)
    ensures r.Some? ==> |r.value.1| < |u|
    decreases |u|, 0
  {
    var s0 := Strip(u, "(");
    if s0.None? then None else
    var a := Read(s0.value);
    if a.None? then None else
    var rest := Strip(a.value.1, ")");
    if rest.None? then None else
    Some((Unary(if t == "not" then LNot else Prefix(t), a.value.0), rest.value))
  }

  /** Read a node of the lettered operator `op`. */
  function ReadTwo(s: string, op: BinOp): (r: Reading)
    requires !op.Infix?
    ensures r.Some? ==> |r.value.1| < |s|
    decreases |s|, 0
  {
    var s0 := Strip(s, Open(op));
    if s0.None? then None else
    var l := Read(s0.value);
    if l.None? then None else
    var s1 := Strip(l.value.1, Mid(op));
    if s1.None? then None else
    var r := Read(s1.value);
    if r.None? then None else
    var s2 := Strip(r.value.1, Close(op));
    if s2.None? then None else
    Some((Binary(op, l.value.0, r.value.0), s2.value))
  }

  /** Read `(l)symbol(r)`. */
  function ReadInfix(s: string): (r: Reading)
    ensures r.Some? ==> |r.value.1| < |s|
    decreases |s|, 0
  {
    var s0 := Strip(s, "(");
    if s0.None? then None else
    var l := Read(s0.value);
    if l.None? then None else
    var s1 := Strip(l.value.1, ")");
    if s1.None? then None else
    var k := TokLen(s1.value);
    var s2 := Strip(s1.value[k..], "(");
    if s2.None? then None else
    var r := Read(s2.value);
    if r.None? then None else
    var s3 := Strip(r.value.1, ")");
    if s3.None? then None else
    Some((Binary(Infix(s1.value[..k]), l.value.0, r.value.0), s3.value))
  }

  // ----- the reader inverts the printer -----

  predicate Delimited(rest: string) {
    rest == [] || rest[0] == ' ' || rest[0] == ')'
  }

  lemma FirstNotBlank(e: Expr)
    requires Readable(e)
    ensures Dump(e) != "" && Dump(e)[0] != ' '
  {
  }

  lemma DumpLettered(op: BinOp, l: Expr, r: Expr, rest: string)
    requires !op.Infix?
    ensures Dump(Binary(op, l, r)) + rest
         == Open(op) + (Dump(l) + (Mid(op) + (Dump(r) + (Close(op) + rest))))
  {
    Flatten(Open(op), Dump(l), Mid(op), Dump(r), Close(op), rest);
  }

  lemma Flatten(a: string, b: string, c: string, d: string, e: string, f: string)
    ensures a + b + c + d + e + f == a + (b + (c + (d + (e + f))))
  {
    assert a + b + c + d + e + f == (a + b + c) + (d + (e + f));
  }

  lemma ReadTwoOf(op: BinOp, dl: string, dr: string, rest: string, l: Expr, r: Expr)
    requires !op.Infix?
    requires Read(dl + (Mid(op) + (dr + (Close(op) + rest)))) == Some((l, Mid(op) + (dr + (Close(op) + rest))))
    requires Read(dr + (Close(op) + rest)) == Some((r, Close(op) + rest))
    ensures ReadTwo(Open(op) + (dl + (Mid(op) + (dr + (Close(op) + rest)))), op) == Some((Binary(op, l, r), rest))
  {
    StripOf(Open(op), dl + (Mid(op) + (dr + (Close(op) + rest))));
    StripOf(Mid(op), dr + (Close(op) + rest));
    StripOf(Close(op), rest);
  }

  /** The leading word decides which reader is used. */
  lemma ReadDispatch(op: BinOp, body: string)
    requires !op.Infix?
    ensures Read(Open(op) + body) == ReadTwo(Open(op) + body, op)
  {
    var w := Word(op);
    var tail := Open(op)[|w|..];
    assert Open(op) == w + tail && tail[0] == Open(op)[|w|];
    assert Open(op) + body == w + (tail + body);
    TokLenOf(w, tail + body);
    assert op.Neq? ==> "( = " <= tail + body;
  }

  lemma ReadLettered(op: BinOp, l: Expr, r: Expr, rest: string)
    requires !op.Infix?
    requires var t := Mid(op) + (Dump(r) + (Close(op) + rest)); Read(Dump(l) + t) == Some((l, t))
    requires Read(Dump(r) + (Close(op) + rest)) == Some((r, Close(op) + rest))
    ensures Read(Dump(Binary(op, l, r)) + rest) == Some((Binary(op, l, r), rest))
  {
    DumpLettered(op, l, r, rest);
    ReadDispatch(op, Dump(l) + (Mid(op) + (Dump(r) + (Close(op) + rest))));
    ReadTwoOf(op, Dump(l), Dump(r), rest, l, r);
  }

  lemma ReadCallOf(uop: UnOp, a: Expr, da: string, rest: string)
    requires uop.Prefix? ==> uop.symbol != "not"
    requires Read(da + (")" + rest)) == Some((a, ")" + rest))
    ensures ReadCall(if uop.LNot? then "not" else uop.symbol, "(" + (da + (")" + rest))) == Some((Unary(uop, a), rest))
  {
    StripOf("(", da + (")" + rest));
    StripOf(")", rest);
  }

  lemma ReadUnary(uop: UnOp, a: Expr, rest: string)
    requires Readable(Unary(uop, a)) && Read(Dump(a) + (")" + rest)) == Some((a, ")" + rest))
    ensures Read(Dump(Unary(uop, a)) + rest) == Some((Unary(uop, a), rest))
  {
    var t := if uop.LNot? then "not" else uop.symbol;
    var tail := "(" + (Dump(a) + (")" + rest));
    DumpUnary(uop, a, rest);
    FirstNotBlank(a);
    assert tail[1] == Dump(a)[0];
    ReadUnaryDispatch(t, tail);
    ReadCallOf(uop, a, Dump(a), rest);
  }

  lemma DumpUnary(uop: UnOp, a: Expr, rest: string)
    ensures Dump(Unary(uop, a)) + rest
         == (if uop.LNot? then "not" else uop.symbol) + ("(" + (Dump(a) + (")" + rest)))
  {
    var t := if uop.LNot? then "not" else uop.symbol;
    assert Dump(Unary(uop, a)) == t + "(" + Dump(a) + ")";
    Flatten(t, "(", Dump(a), ")", rest, "");
  }

  lemma ReadUnaryDispatch(t: string, tail: string)
    requires Token(t) && !Reserved(t) && |tail| > 1 && tail[0] == '(' && tail[1] != ' '
    ensures Read(t + tail) == ReadCall(t, tail)
  {
    TokLenOf(t, tail);
  }

  lemma ReadInfixOf(sym: string, l: Expr, r: Expr, dl: string, dr: string, rest: string)
    requires Token(sym)
    requires var t1 := ")" + (sym + ("(" + (dr + (")" + rest)))); Read(dl + t1) == Some((l, t1))
    requires Read(dr + (")" + rest)) == Some((r, ")" + rest))
    ensures ReadInfix("(" + (dl + (")" + (sym + ("(" + (dr + (")" + rest)))))))
         == Some((Binary(Infix(sym), l, r), rest))
  {
    var t2 := "(" + (dr + (")" + rest));
    StripOf("(", dl + (")" + (sym + t2)));
    StripOf(")", sym + t2);
    TokLenOf(sym, t2);
    StripOf("(", dr + (")" + rest));
    StripOf(")", rest);
  }

  lemma ReadParenDispatch(s: string)
    requires s != "" && s[0] == '('
    ensures Read(s) == ReadInfix(s)
  {
  }

  lemma DumpInfix(sym: string, l: Expr, r: Expr, rest: string)
    ensures Dump(Binary(Infix(sym), l, r)) + rest
         == "(" + (Dump(l) + (")" + (sym + ("(" + (Dump(r) + (")" + rest))))))
  {
  }

  lemma {:induction false} ReadDump(e: Expr, rest: string)
    requires Readable(e) && Delimited(rest)
    ensures Read(Dump(e) + rest) == Some((e, rest))
  {
    match e
    case Ident(n) =>
      TokLenOf(n, rest);
    case Number(d) =>
      TokLenOf(d, rest);
    case Unary(uop, a) =>
      ReadDump(a, ")" + rest);
      ReadUnary(uop, a, rest);
    case Binary(Infix(sym), l, r) =>
      ReadDump(l, ")" + (sym + ("(" + (Dump(r) + (")" + rest)))));
      ReadDump(r, ")" + rest);
      ReadInfixOf(sym, l, r, Dump(l), Dump(r), rest);
      DumpInfix(sym, l, r, rest);
      ReadParenDispatch(Dump(e) + rest);
    case Binary(op, l, r) =>
      ReadDump(l, Mid(op) + (Dump(r) + (Close(op) + rest)));
      ReadDump(r, Close(op) + rest);
      ReadLettered(op, l, r, rest);
  }

  /** Printed names are unambiguous: the name comparisons of the analysis identify exactly the
      equal expressions. */
  lemma DumpInjective(a: Expr, b: Expr)
    requires Readable(a) && Readable(b)
    ensures Dump(a) == Dump(b) <==> a == b
  {
    ReadDump(a, "");
    ReadDump(b, "");
    assert Dump(a) + "" == Dump(a) && Dump(b) + "" == Dump(b);
  }

  /** Identifiers must not be called `=`, which only an escaped identifier can be: with such a
      name two different hypotheses print alike. */
  lemma EscapedNamesCollide()
    ensures var eq := Ident("="); var a, b := Ident("a"), Ident("b");
            var h1, h2 := Binary(Eq, eq, Binary(Eq, a, b)), Binary(Eq, Binary(Eq, eq, a), b);
            h1 != h2 && Dump(h1) == Dump(h2)
  {
    var eq := Ident("="); var a, b := Ident("a"), Ident("b");
    assert Dump(Binary(Eq, eq, Binary(Eq, a, b))) == "= = = a b";
    assert Dump(Binary(Eq, Binary(Eq, eq, a), b)) == "= = = a b";
  }
}
