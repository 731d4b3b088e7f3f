/** Elaboration of procedural statements (elaborate.cc): source statements become netlist
    processes. Both sides get a fuelled semantics in which only loop iterations spend fuel, so
    equal results for every fuel mean equal final states and equal divergence.
 */
module StmtElab {
  import opened Wrappers
  import opened Powers
  import opened Verinums
  import opened Wrapping

  type Store = map<string, Bits>

  datatype CaseKind = CaseEq | CaseX | CaseZ

  /** Source expressions are known by number. `eval` gives their value, `fold` the constant the
      expression elaborates to if it does, `fit` what an assignment stores, and `same` compares a
      case selector with a guard. */
  datatype Sem = Sem(
    eval: (nat, Store) -> Bits,
    fold: nat -> Option<Verinum>,
    width: nat -> nat,
    fit: (string, Bits) -> Bits,
    same: (CaseKind, Bits, Bits) -> bool)

  /** What elaborated expressions guarantee: they have a width, and a folded expression has its
      constant as value in every state. */
  ghost predicate Sensible(I: Sem) {
    (forall e, s :: |I.eval(e, s)| == I.width(e) > 0) &&
    (forall e, s :: I.fold(e).Some? ==> I.eval(e, s) == I.fold(e).value.bits)
  }

  datatype Stmt =
    | Null
    | Assign(x: string, e: nat)
    | Block(named: bool, body: seq<Stmt>)
    | If(cond: nat, thn: Stmt, els: Stmt)
    | While(cond: nat, loop: Stmt)
    | For(x1: string, e1: nat, cond: nat, x2: string, e2: nat, loop: Stmt)
    | Repeat(count: nat, signed: bool, loop: Stmt)
    | Case(kind: CaseKind, sel: nat, items: seq<Item>)

  /** Without guards: the default item. */
  datatype Item = Item(guards: seq<nat>, stat: Stmt)

  datatype NExpr = NConst(val: Verinum) | NDyn(e: nat) | NNonzero(arg: NExpr)

  datatype Net =
    | NNull
    | NAssign(x: string, e: NExpr)
    | NBlock(body: seq<Net>)
    | NCondit(cond: NExpr, thn: Net, els: Net)
    | NWhile(cond: NExpr, loop: Net)
    | NRepeat(count: NExpr, signed: bool, loop: Net)
    | NCase(kind: CaseKind, sel: NExpr, items: seq<NItem>)

  datatype NItem = NItem(guard: Option<NExpr>, stat: Net)

  // ----- conditions and counts -----

  /** A condition is taken when some bit is 1. */
  predicate Truth(b: Bits) {
    V1 in b
  }

  /** How often a repeat runs: undefined and negative counts count as zero. */
  function Times(b: Bits, signed: bool): nat {
    if !Defined(b) || (signed && Sign(b)) then 0 else Val(b)
  }

  /** Result of `e != 0` with four-state bits. */
  function NonzeroBits(b: Bits): Bits {
    if V1 in b then [V1] else if Defined(b) then [V0] else [Vx]
  }

  /** OR of all bits, as the loop over a constant condition computes it. */
  function Reduce(b: Bits, acc: V): V
    decreases |b|
  {
    if b == [] then acc else Reduce(b[1..], OrBit(acc, b[0]))
  }

  lemma {:induction false} ReduceIsTruth(b: Bits, acc: V)
    ensures Reduce(b, acc) == V1 <==> acc == V1 || Truth(b)
    decreases |b|
  {
    if b != [] {
      ReduceIsTruth(b[1..], OrBit(acc, b[0]));
      assert b == [b[0]] + b[1..];
    }
  }

  // ----- source semantics -----

  function Exec(I: Sem, s: Stmt, st: Store, fuel: nat): Option<Store>
    decreases fuel, s, 2, 0
  {
    match s
    case Null => Some(st)
    case Assign(x, e) => Some(st[x := I.fit(x, I.eval(e, st))])
    case Block(_, body) => ExecSeq(I, body, st, fuel)
    case If(c, t, f) => if Truth(I.eval(c, st)) then Exec(I, t, st, fuel) else Exec(I, f, st, fuel)
    case While(_, _) => Loop(I, s, st, fuel)
    case For(x1, e1, _, _, _, _) => Loop(I, s, st[x1 := I.fit(x1, I.eval(e1, st))], fuel)
    case Repeat(e, signed, body) => ExecTimes(I, body, Times(I.eval(e, st), signed), st, fuel)
    case Case(k, sel, items) =>
      var c := Choose(I, k, I.eval(sel, st), items, st);
      if c.None? then Some(st) else Exec(I, c.value, st, fuel)
  }

  /** Iterations of a while loop, or of a for loop with its step. */
  function Loop(I: Sem, s: Stmt, st: Store, fuel: nat): Option<Store>
    requires s.While? || s.For?
    decreases fuel, s, 1, 0
  {
    if !Truth(I.eval(s.cond, st)) then Some(st)
    else if fuel == 0 then None
    else
      var r := Exec(I, s.loop, st, fuel - 1);
      if r.None? then None
      else if s.While? then Loop(I, s, r.value, fuel - 1)
      else Loop(I, s, r.value[s.x2 := I.fit(s.x2, I.eval(s.e2, r.value))], fuel - 1)
  }

  function ExecTimes(I: Sem, s: Stmt, n: nat, st: Store, fuel: nat): Option<Store>
    decreases fuel, s, 3, n
  {
    if n == 0 then Some(st) else
    var r := Exec(I, s, st, fuel);
    if r.None? then None else ExecTimes(I, s, n - 1, r.value, fuel)
  }

  function ExecSeq(I: Sem, ss: seq<Stmt>, st: Store, fuel: nat): Option<Store>
    decreases fuel, ss, 0, 0
  {
    if ss == [] then Some(st) else
    var r := Exec(I, ss[0], st, fuel);
    if r.None? then None else ExecSeq(I, ss[1..], r.value, fuel)
  }

  /** The statement of the first item with a matching guard, else of the last default item. */
  function Choose(I: Sem, k: CaseKind, v: Bits, items: seq<Item>, st: Store): (r: Option<Stmt>)
    ensures r.Some? ==> exists i :: 0 <= i < |items| && items[i].stat == r.value
  {
    var r := Find(I, k, v, items, st);
    if r.Some? then r else Default(items)
  }

  predicate GuardMatches(I: Sem, k: CaseKind, v: Bits, guards: seq<nat>, st: Store) {
    guards != [] && (I.same(k, v, I.eval(guards[0], st)) || GuardMatches(I, k, v, guards[1..], st))
  }

  function Find(I: Sem, k: CaseKind, v: Bits, items: seq<Item>, st: Store): (r: Option<Stmt>)
    ensures r.Some? ==> exists i :: 0 <= i < |items| && items[i].stat == r.value
  {
    if items == [] then None
    else if GuardMatches(I, k, v, items[0].guards, st) then Some(items[0].stat)
    else
      var r := Find(I, k, v, items[1..], st);
      assert forall i | 0 <= i < |items[1..]| :: items[1..][i] == items[i + 1];
      r
  }

  function Default(items: seq<Item>): (r: Option<Stmt>)
    ensures r.Some? ==> exists i :: 0 <= i < |items| && items[i].stat == r.value
  {
    if items == [] then None else
    var r := Default(items[1..]);
    assert forall i | 0 <= i < |items[1..]| :: items[1..][i] == items[i + 1];
    if r.Some? then r else if items[0].guards == [] then Some(items[0].stat) else None
  }

  // ----- netlist semantics -----

  function NEval(I: Sem, e: NExpr, st: Store): Bits {
    match e
    case NConst(v) => v.bits
    case NDyn(n) => I.eval(n, st)
    case NNonzero(a) => NonzeroBits(NEval(I, a, st))
  }

  function NExec(I: Sem, p: Net, st: Store, fuel: nat): Option<Store>
    decreases fuel, p, 2, 0
  {
    match p
    case NNull => Some(st)
    case NAssign(x, e) => Some(st[x := I.fit(x, NEval(I, e, st))])
    case NBlock(body) => NExecSeq(I, body, st, fuel)
    case NCondit(c, t, f) => if NEval(I, c, st) == [V1] then NExec(I, t, st, fuel) else NExec(I, f, st, fuel)
    case NWhile(_, _) => NLoop(I, p, st, fuel)
    case NRepeat(e, signed, body) => NExecTimes(I, body, Times(NEval(I, e, st), signed), st, fuel)
    case NCase(k, sel, items) =>
      var c := NChoose(I, k, NEval(I, sel, st), items, st);
      if c.None? then Some(st) else NExec(I, c.value, st, fuel)
  }

  function NLoop(I: Sem, p: Net, st: Store, fuel: nat): Option<Store>
    requires p.NWhile?
    decreases fuel, p, 1, 0
  {
    if !Truth(NEval(I, p.cond, st)) then Some(st)
    else if fuel == 0 then None
    else
      var r := NExec(I, p.loop, st, fuel - 1);
      if r.None? then None else NLoop(I, p, r.value, fuel - 1)
  }

  function NExecTimes(I: Sem, p: Net, n: nat, st: Store, fuel: nat): Option<Store>
    decreases fuel, p, 3, n
  {
    if n == 0 then Some(st) else
    var r := NExec(I, p, st, fuel);
    if r.None? then None else NExecTimes(I, p, n - 1, r.value, fuel)
  }

  function NExecSeq(I: Sem, ps: seq<Net>, st: Store, fuel: nat): Option<Store>
    decreases fuel, ps, 0, 0
  {
    if ps == [] then Some(st) else
    var r := NExec(I, ps[0], st, fuel);
    if r.None? then None else NExecSeq(I, ps[1..], r.value, fuel)
  }

  /** The code generator tests the guards in order and falls through to the last default. */
  function NChoose(I: Sem, k: CaseKind, v: Bits, items: seq<NItem>, st: Store): (r: Option<Net>)
    ensures r.Some? ==> exists i :: 0 <= i < |items| && items[i].stat == r.value
  {
    var r := NFind(I, k, v, items, st);
    if r.Some? then r else NDefault(items)
  }

  function NFind(I: Sem, k: CaseKind, v: Bits, items: seq<NItem>, st: Store): (r: Option<Net>)
    ensures r.Some? ==> exists i :: 0 <= i < |items| && items[i].stat == r.value
  {
    if items == [] then None
    else if items[0].guard.Some? && I.same(k, v, NEval(I, items[0].guard.value, st)) then Some(items[0].stat)
    else
      var r := NFind(I, k, v, items[1..], st);
      assert forall i | 0 <= i < |items[1..]| :: items[1..][i] == items[i + 1];
      r
  }

  function NDefault(items: seq<NItem>): (r: Option<Net>)
    ensures r.Some? ==> exists i :: 0 <= i < |items| && items[i].stat == r.value
  {
    if items == [] then None else
    var r := NDefault(items[1..]);
    assert forall i | 0 <= i < |items[1..]| :: items[1..][i] == items[i + 1];
    if r.Some? then r else if items[0].guard.None? then Some(items[0].stat) else None
  }

  // ----- elaboration -----

  function ElabExpr(I: Sem, e: nat): NExpr {
    if I.fold(e).Some? then NConst(I.fold(e).value) else NDyn(e)
  }

  /** `condition_reduce`: a condition wider than one bit is compared with zero. */
  function ConditionReduce(I: Sem, e: nat): NExpr {
    if I.width(e) == 1 then ElabExpr(I, e) else NNonzero(ElabExpr(I, e))
  }

  predicate EmptyBlock(p: Net) {
    p.NBlock? && p.body == []
  }

  function Elab(I: Sem, s: Stmt): Net
    decreases s, 1
  {
    match s
    case Null => NNull
    case Assign(x, e) => NAssign(x, ElabExpr(I, e))
    case Block(named, body) => if |body| == 1 && !named then Elab(I, body[0]) else NBlock(ElabSeq(I, body))
    case If(c, t, f) =>
      if I.fold(c).Some? then
        var branch := if Reduce(I.fold(c).value.bits, V0) == V1 then t else f;
        if branch.Null? then NBlock([]) else Elab(I, branch)
      else
        var i, e := Elab(I, t), Elab(I, f);
        NCondit(ConditionReduce(I, c), if EmptyBlock(i) then NNull else i, if EmptyBlock(e) then NNull else e)
    case While(c, body) => NWhile(ElabExpr(I, c), Elab(I, body))
    case For(x1, e1, c, x2, e2, body) =>
      NBlock([NAssign(x1, ElabExpr(I, e1)),
              NWhile(ElabExpr(I, c), NBlock([Elab(I, body), NAssign(x2, ElabExpr(I, e2))]))])
    case Repeat(e, signed, body) =>
      var stat := Elab(I, body);
      if I.fold(e).Some? && AsLong(I.fold(e).value.(hasSign := signed)) <= 0 then NBlock([])
      else if I.fold(e).Some? && AsLong(I.fold(e).value.(hasSign := signed)) == 1 then stat
      else NRepeat(ElabExpr(I, e), signed, stat)
    case Case(k, sel, items) => NCase(k, ElabExpr(I, sel), ElabItems(I, items))
  }

  /** Statements that elaborate to empty blocks are dropped. */
  function ElabSeq(I: Sem, ss: seq<Stmt>): seq<Net>
    decreases ss, 0
  {
    if ss == [] then [] else
    var p := Elab(I, ss[0]);
    (if EmptyBlock(p) then [] else [p]) + ElabSeq(I, ss[1..])
  }

  /** One item per guard, each with its own copy of the statement. */
  function ElabItems(I: Sem, items: seq<Item>): seq<NItem>
    decreases items, 0
  {
    if items == [] then [] else
    ElabGuards(I, items[0].guards, Elab(I, items[0].stat)) + ElabItems(I, items[1..])
  }

  function ElabGuards(I: Sem, guards: seq<nat>, p: Net): seq<NItem> {
    if guards == [] then [NItem(None, p)] else Guarded(I, guards, p)
  }

  function Guarded(I: Sem, guards: seq<nat>, p: Net): (r: seq<NItem>)
    ensures |r| == |guards|
  {
    if guards == [] then [] else [NItem(Some(ElabExpr(I, guards[0])), p)] + Guarded(I, guards[1..], p)
  }

  // ----- what elaboration leaves out -----

  /** A condition that is not a constant. */
  predicate Dynamic(c: NExpr) {
    match c
    case NConst(_) => false
    case NDyn(_) => true
    case NNonzero(a) => Dynamic(a)
  }

  /** A block of a statement and an assignment, as the loop of a for is. */
  predicate Stepped(p: Net) {
    p.NBlock? && |p.body| == 2 && p.body[1].NAssign?
  }

  /** No condition is a constant, no constant repeat count is below two, and no empty block stands in a
      block, except before the step of a for, or as the branch of a condition. */
  predicate Tidy(p: Net)
    decreases p, 1
  {
    match p
    case NBlock(body) => TidySeq(body)
    case NCondit(c, t, f) => Dynamic(c) && !EmptyBlock(t) && !EmptyBlock(f) && Tidy(t) && Tidy(f)
    case NWhile(_, loop) => if Stepped(loop) then Tidy(loop.body[0]) else Tidy(loop)
    case NRepeat(n, signed, loop) => (n.NConst? ==> AsLong(n.val.(hasSign := signed)) > 1) && Tidy(loop)
    case NCase(_, _, items) => forall k | 0 <= k < |items| :: Tidy(items[k].stat)
    case _ => true
  }

  predicate TidySeq(ps: seq<Net>)
    decreases ps, 0
  {
    ps == [] || (!EmptyBlock(ps[0]) && Tidy(ps[0]) && TidySeq(ps[1..]))
  }

  /** Elaborated statements are tidy, and a single statement needs no block unless it is named. */
  lemma {:induction false} ElabTidy(I: Sem, s: Stmt)
    ensures Tidy(Elab(I, s))
    ensures s.Block? && |s.body| == 1 ==> if s.named then Elab(I, s).NBlock? else Elab(I, s) == Elab(I, s.body[0])
    decreases s, 1
  {
    match s
    case Block(named, body) =>
      if |body| == 1 && !named { ElabTidy(I, body[0]); } else { ElabSeqTidy(I, body); }
    case If(c, t, f) =>
      ElabTidy(I, t);
      ElabTidy(I, f);
    case While(c, body) =>
      ElabTidy(I, body);
      LoopTidy(ElabExpr(I, c), Elab(I, body));
    case For(x1, e1, c, x2, e2, body) =>
      ElabTidy(I, body);
      ForTidy(NAssign(x1, ElabExpr(I, e1)), ElabExpr(I, c), Elab(I, body), NAssign(x2, ElabExpr(I, e2)));
    case Repeat(_, _, body) => ElabTidy(I, body);
    case Case(_, _, items) => ElabItemsTidy(I, items);
    case _ =>
  }

  lemma LoopTidy(c: NExpr, loop: Net)
    requires Tidy(loop)
    ensures Tidy(NWhile(c, loop))
  {
  }

  lemma ForTidy(init: Net, c: NExpr, body: Net, step: Net)
    requires Tidy(body) && init.NAssign? && step.NAssign?
    ensures Tidy(NBlock([init, NWhile(c, NBlock([body, step]))]))
  {
    var loop := NWhile(c, NBlock([body, step]));
    assert Stepped(NBlock([body, step])) && Tidy(loop);
    assert [init, loop][1..] == [loop] && [loop][1..] == [];
    assert TidySeq([loop]);
  }

  lemma {:induction false} ElabSeqTidy(I: Sem, ss: seq<Stmt>)
    ensures TidySeq(ElabSeq(I, ss))
    decreases ss, 0
  {
    if ss != [] {
      ElabTidy(I, ss[0]);
      ElabSeqTidy(I, ss[1..]);
      var p, rest := Elab(I, ss[0]), ElabSeq(I, ss[1..]);
      assert ([p] + rest)[1..] == rest && [] + rest == rest;
    }
  }

  lemma {:induction false} ElabItemsTidy(I: Sem, items: seq<Item>)
    ensures forall q | q in ElabItems(I, items) :: Tidy(q.stat)
    decreases items, 0
  {
    if items != [] {
      ElabTidy(I, items[0].stat);
      GuardedStat(I, items[0].guards, Elab(I, items[0].stat));
      ElabItemsTidy(I, items[1..]);
    }
  }

  lemma {:induction false} GuardedStat(I: Sem, guards: seq<nat>, p: Net)
    ensures forall q | q in ElabGuards(I, guards, p) || q in Guarded(I, guards, p) :: q.stat == p
  {
    if guards != [] { GuardedStat(I, guards[1..], p); }
  }

  // ----- constant repeat counts -----

  /** The 63-bit count that elaboration looks at agrees with the real one on zero and one. */
  predicate CountKept(n: Verinum) {
    var t := Times(n.bits, n.hasSign);
    (AsLong(n) <= 0 ==> t == 0) && (AsLong(n) == 1 ==> t == 1)
  }

  /** That is: unless the count is at least 2^63 and its low 63 bits are zero or one. */
  lemma CountKeptExactly(n: Verinum)
    ensures var t := Times(n.bits, n.hasSign);
            CountKept(n) <==> (t < Pow2(63) || t % Pow2(63) >= 2)
  {
    if n.bits != [] && Defined(n.bits) { AsLongIsLowPart(n); }
  }

  lemma AsLongIsLowPart(n: Verinum)
    requires n.bits != [] && Defined(n.bits)
    ensures var t := Times(n.bits, n.hasSign);
            if n.hasSign && Sign(n.bits) then AsLong(n) < 0 else AsLong(n) == t % Pow2(63)
    ensures var t := Times(n.bits, n.hasSign); t < Pow2(63) ==> t % Pow2(63) == t
  {
    var top := if |n.bits| > 63 then 63 else |n.bits|;
    var t := Times(n.bits, n.hasSign);
    ValDivMod(n.bits, top);
    ValBound(n.bits[..top]);
    ValBound(n.bits);
    Pow2Monotone(top, 63);
    if |n.bits| <= 63 { assert n.bits[..top] == n.bits; }
    if t < Pow2(63) { DivModUnique(0, t, Pow2(63), t); }
  }

  predicate CountsKept(I: Sem, s: Stmt)
    decreases s, 1
  {
    match s
    case Block(_, body) => CountsKeptSeq(I, body)
    case If(_, t, f) => CountsKept(I, t) && CountsKept(I, f)
    case While(_, body) => CountsKept(I, body)
    case For(_, _, _, _, _, body) => CountsKept(I, body)
    case Repeat(e, signed, body) =>
      CountsKept(I, body) && (I.fold(e).Some? ==> CountKept(I.fold(e).value.(hasSign := signed)))
    case Case(_, _, items) => forall i | 0 <= i < |items| :: CountsKept(I, items[i].stat)
    case _ => true
  }

  predicate CountsKeptSeq(I: Sem, ss: seq<Stmt>)
    decreases ss, 0
  {
    ss == [] || (CountsKept(I, ss[0]) && CountsKeptSeq(I, ss[1..]))
  }

  // ----- elaboration preserves meaning -----

  lemma ExprKept(I: Sem, e: nat, st: Store)
    requires Sensible(I)
    ensures NEval(I, ElabExpr(I, e), st) == I.eval(e, st)
  {
  }

  lemma ConditionKept(I: Sem, e: nat, st: Store)
    requires Sensible(I)
    ensures NEval(I, ConditionReduce(I, e), st) == [V1] <==> Truth(I.eval(e, st))
  {
    ExprKept(I, e, st);
    assert |I.eval(e, st)| == I.width(e);
    if I.width(e) == 1 {
      assert I.eval(e, st) == [I.eval(e, st)[0]];
    }
  }

  /** Main result: for every program whose constant repeat counts are kept, every state and every
      fuel, the elaborated program has the result of the source program. */
  lemma {:induction false} ElabCorrect(I: Sem, s: Stmt, st: Store, fuel: nat)
    requires Sensible(I) && CountsKept(I, s)
    ensures NExec(I, Elab(I, s), st, fuel) == Exec(I, s, st, fuel)
    decreases fuel, s, 2, 0
  {
    match s
    case Null =>
    case Assign(x, e) => ExprKept(I, e, st);
    case Block(named, body) => BlockCorrect(I, named, body, st, fuel);
    case If(c, t, f) =>
      ElabCorrect(I, t, st, fuel);
      ElabCorrect(I, f, st, fuel);
      ConditCorrect(I, c, t, f, st, fuel);
    case While(_, _) => WhileCorrect(I, s, st, fuel);
    case For(x1, e1, _, _, _, _) =>
      ExprKept(I, e1, st);
      var st1 := st[x1 := I.fit(x1, I.eval(e1, st))];
      ForCorrect(I, s, st1, fuel);
      ForUnfolds(I, s, st, st1, fuel);
    case Repeat(e, signed, body) =>
      TimesCorrect(I, body, Times(I.eval(e, st), signed), st, fuel);
      ElabCorrect(I, body, st, fuel);
      RepeatCorrect(I, e, signed, body, st, fuel);
    case Case(k, sel, items) =>
      ChosenCorrect(I, k, sel, items, st, fuel);
  }

  lemma ConditCorrect(I: Sem, c: nat, t: Stmt, f: Stmt, st: Store, fuel: nat)
    requires Sensible(I)
    requires NExec(I, Elab(I, t), st, fuel) == Exec(I, t, st, fuel)
    requires NExec(I, Elab(I, f), st, fuel) == Exec(I, f, st, fuel)
    ensures NExec(I, Elab(I, If(c, t, f)), st, fuel) == Exec(I, If(c, t, f), st, fuel)
  {
    ConditionKept(I, c, st);
    if I.fold(c).Some? { ReduceIsTruth(I.fold(c).value.bits, V0); }
  }

  lemma RepeatCorrect(I: Sem, e: nat, signed: bool, body: Stmt, st: Store, fuel: nat)
    requires Sensible(I) && CountsKept(I, Repeat(e, signed, body))
    requires var n := Times(I.eval(e, st), signed);
             NExecTimes(I, Elab(I, body), n, st, fuel) == ExecTimes(I, body, n, st, fuel)
    requires NExec(I, Elab(I, body), st, fuel) == Exec(I, body, st, fuel)
    ensures NExec(I, Elab(I, Repeat(e, signed, body)), st, fuel) == Exec(I, Repeat(e, signed, body), st, fuel)
  {
    ExprKept(I, e, st);
    assert ExecTimes(I, body, 1, st, fuel) == Exec(I, body, st, fuel);
  }

  function LoopNet(I: Sem, s: Stmt): Net
    requires s.While? || s.For?
  {
    NWhile(ElabExpr(I, s.cond),
           if s.While? then Elab(I, s.loop) else NBlock([Elab(I, s.loop), NAssign(s.x2, ElabExpr(I, s.e2))]))
  }

  lemma ForUnfolds(I: Sem, s: Stmt, st: Store, st1: Store, fuel: nat)
    requires s.For? && st1 == st[s.x1 := I.fit(s.x1, NEval(I, ElabExpr(I, s.e1), st))]
    ensures NExec(I, Elab(I, s), st, fuel) == NLoop(I, LoopNet(I, s), st1, fuel)
  {
    var init, w := NAssign(s.x1, ElabExpr(I, s.e1)), LoopNet(I, s);
    assert [init, w][1..] == [w] && [w][1..] == [];
    assert NExecSeq(I, [w], st1, fuel) == NExec(I, w, st1, fuel);
    assert NExecSeq(I, [init, w], st, fuel) == NExecSeq(I, [w], st1, fuel);
  }

  lemma {:induction false} WhileCorrect(I: Sem, s: Stmt, st: Store, fuel: nat)
    requires s.While? && Sensible(I) && CountsKept(I, s)
    ensures NLoop(I, LoopNet(I, s), st, fuel) == Loop(I, s, st, fuel)
    decreases fuel, s, 1, 0
  {
    ExprKept(I, s.cond, st);
    if Truth(I.eval(s.cond, st)) && fuel > 0 {
      ElabCorrect(I, s.loop, st, fuel - 1);
      var r := Exec(I, s.loop, st, fuel - 1);
      if r.Some? { WhileCorrect(I, s, r.value, fuel - 1); }
    }
  }

  lemma {:induction false} ForCorrect(I: Sem, s: Stmt, st: Store, fuel: nat)
    requires s.For? && Sensible(I) && CountsKept(I, s)
    ensures NLoop(I, LoopNet(I, s), st, fuel) == Loop(I, s, st, fuel)
    decreases fuel, s, 1, 0
  {
    ExprKept(I, s.cond, st);
    if Truth(I.eval(s.cond, st)) && fuel > 0 {
      ElabCorrect(I, s.loop, st, fuel - 1);
      var r := Exec(I, s.loop, st, fuel - 1);
      StepUnfolds(I, Elab(I, s.loop), s.x2, ElabExpr(I, s.e2), st, fuel - 1);
      if r.Some? {
        ExprKept(I, s.e2, r.value);
        ForCorrect(I, s, r.value[s.x2 := I.fit(s.x2, I.eval(s.e2, r.value))], fuel - 1);
      }
    }
  }

  lemma StepUnfolds(I: Sem, p: Net, x: string, e: NExpr, st: Store, fuel: nat)
    ensures var r := NExec(I, p, st, fuel);
            NExec(I, NBlock([p, NAssign(x, e)]), st, fuel)
            == (if r.None? then None else Some(r.value[x := I.fit(x, NEval(I, e, r.value))]))
  {
    var r, step := NExec(I, p, st, fuel), NAssign(x, e);
    assert [p, step][1..] == [step] && [step][1..] == [];
    if r.Some? {
      assert NExecSeq(I, [step], r.value, fuel) == NExec(I, step, r.value, fuel);
    }
  }

  lemma {:induction false} TimesCorrect(I: Sem, s: Stmt, n: nat, st: Store, fuel: nat)
    requires Sensible(I) && CountsKept(I, s)
    ensures NExecTimes(I, Elab(I, s), n, st, fuel) == ExecTimes(I, s, n, st, fuel)
    decreases fuel, s, 3, n
  {
    if n > 0 {
      ElabCorrect(I, s, st, fuel);
      var r := Exec(I, s, st, fuel);
      if r.Some? { TimesCorrect(I, s, n - 1, r.value, fuel); }
    }
  }

  lemma {:induction false} BlockCorrect(I: Sem, named: bool, ss: seq<Stmt>, st: Store, fuel: nat)
    requires Sensible(I) && CountsKeptSeq(I, ss)
    ensures NExec(I, Elab(I, Block(named, ss)), st, fuel) == ExecSeq(I, ss, st, fuel)
    decreases fuel, ss, 1, 0
  {
    SeqCorrect(I, ss, st, fuel);
    if |ss| == 1 {
      ElabCorrect(I, ss[0], st, fuel);
      assert ss[1..] == [];
    }
  }

  lemma {:induction false} SeqCorrect(I: Sem, ss: seq<Stmt>, st: Store, fuel: nat)
    requires Sensible(I) && CountsKeptSeq(I, ss)
    ensures NExecSeq(I, ElabSeq(I, ss), st, fuel) == ExecSeq(I, ss, st, fuel)
    decreases fuel, ss, 0, 0
  {
    if ss != [] {
      ElabCorrect(I, ss[0], st, fuel);
      var p := Elab(I, ss[0]);
      var rest := ElabSeq(I, ss[1..]);
      var r := Exec(I, ss[0], st, fuel);
      if r.Some? { SeqCorrect(I, ss[1..], r.value, fuel); }
      if EmptyBlock(p) {
        assert ElabSeq(I, ss) == rest;
      } else {
        assert ElabSeq(I, ss) == [p] + rest && ([p] + rest)[1..] == rest;
      }
    }
  }

  // ----- expansion of case items -----

  function Orelse<T>(a: Option<T>, b: Option<T>): Option<T> {
    if a.Some? then a else b
  }

  lemma {:induction false} NFindAppend(I: Sem, k: CaseKind, v: Bits, a: seq<NItem>, b: seq<NItem>, st: Store)
    ensures NFind(I, k, v, a + b, st) == Orelse(NFind(I, k, v, a, st), NFind(I, k, v, b, st))
  {
    if a == [] {
      assert a + b == b;
    } else {
      assert (a + b)[1..] == a[1..] + b;
      NFindAppend(I, k, v, a[1..], b, st);
    }
  }

  lemma {:induction false} NDefaultAppend(a: seq<NItem>, b: seq<NItem>)
    ensures NDefault(a + b) == Orelse(NDefault(b), NDefault(a))
  {
    if a == [] {
      assert a + b == b;
    } else {
      assert (a + b)[1..] == a[1..] + b;
      NDefaultAppend(a[1..], b);
    }
  }

  lemma {:induction false} GuardedFinds(I: Sem, k: CaseKind, v: Bits, guards: seq<nat>, p: Net, st: Store)
    requires Sensible(I)
    ensures NFind(I, k, v, Guarded(I, guards, p), st) == if GuardMatches(I, k, v, guards, st) then Some(p) else None
    ensures NDefault(Guarded(I, guards, p)) == None
  {
    if guards != [] {
      ExprKept(I, guards[0], st);
      GuardedFinds(I, k, v, guards[1..], p, st);
      assert Guarded(I, guards, p)[1..] == Guarded(I, guards[1..], p);
    }
  }

  function ElabOption(I: Sem, s: Option<Stmt>): Option<Net> {
    if s.None? then None else Some(Elab(I, s.value))
  }

  /** Over the expanded items the same statement is found and the same default. */
  lemma {:induction false} ExpansionChooses(I: Sem, k: CaseKind, v: Bits, items: seq<Item>, st: Store)
    requires Sensible(I)
    ensures NFind(I, k, v, ElabItems(I, items), st) == ElabOption(I, Find(I, k, v, items, st))
    ensures NDefault(ElabItems(I, items)) == ElabOption(I, Default(items))
  {
    if items != [] {
      var gs, p := items[0].guards, Elab(I, items[0].stat);
      var head, rest := ElabGuards(I, gs, p), ElabItems(I, items[1..]);
      ExpansionChooses(I, k, v, items[1..], st);
      NFindAppend(I, k, v, head, rest, st);
      NDefaultAppend(head, rest);
      if gs == [] {
        assert head[1..] == [];
      } else {
        GuardedFinds(I, k, v, gs, p, st);
      }
    }
  }

  lemma {:induction false} ChosenCorrect(I: Sem, k: CaseKind, sel: nat, items: seq<Item>, st: Store, fuel: nat)
    requires Sensible(I) && forall i | 0 <= i < |items| :: CountsKept(I, items[i].stat)
    ensures var c := Choose(I, k, I.eval(sel, st), items, st);
            && NChoose(I, k, NEval(I, ElabExpr(I, sel), st), ElabItems(I, items), st) == ElabOption(I, c)
            && (c.Some? ==> NExec(I, Elab(I, c.value), st, fuel) == Exec(I, c.value, st, fuel))
    decreases fuel, items, 1, 0
  {
    ExprKept(I, sel, st);
    var v := I.eval(sel, st);
    ExpansionChooses(I, k, v, items, st);
    var c := Choose(I, k, v, items, st);
    if c.Some? {
      var i :| 0 <= i < |items| && items[i].stat == c.value;
      ElabCorrect(I, items[i].stat, st, fuel);
    }
  }

  // ----- fuel -----

  /** A result does not depend on the fuel once there is enough of it, so a program either ends in
      one state or diverges. */
  lemma {:induction false} FuelEnough(I: Sem, s: Stmt, st: Store, f: nat, g: nat)
    requires f <= g && Exec(I, s, st, f).Some?
    ensures Exec(I, s, st, g) == Exec(I, s, st, f)
    decreases f, s, 2, 0
  {
    match s
    case Block(_, body) => SeqFuelEnough(I, body, st, f, g);
    case If(c, t, e) => if Truth(I.eval(c, st)) { FuelEnough(I, t, st, f, g); } else { FuelEnough(I, e, st, f, g); }
    case While(_, _) => LoopFuelEnough(I, s, st, f, g);
    case For(x1, e1, _, _, _, _) => LoopFuelEnough(I, s, st[x1 := I.fit(x1, I.eval(e1, st))], f, g);
    case Repeat(e, signed, body) => TimesFuelEnough(I, body, Times(I.eval(e, st), signed), st, f, g);
    case Case(k, sel, items) =>
      var c := Choose(I, k, I.eval(sel, st), items, st);
      if c.Some? {
        var i :| 0 <= i < |items| && items[i].stat == c.value;
        FuelEnough(I, items[i].stat, st, f, g);
      }
    case _ =>
  }

  lemma {:induction false} LoopFuelEnough(I: Sem, s: Stmt, st: Store, f: nat, g: nat)
    requires (s.While? || s.For?) && f <= g && Loop(I, s, st, f).Some?
    ensures Loop(I, s, st, g) == Loop(I, s, st, f)
    decreases f, s, 1, 0
  {
    if Truth(I.eval(s.cond, st)) {
      FuelEnough(I, s.loop, st, f - 1, g - 1);
      var r := Exec(I, s.loop, st, f - 1).value;
      LoopFuelEnough(I, s, if s.While? then r else r[s.x2 := I.fit(s.x2, I.eval(s.e2, r))], f - 1, g - 1);
    }
  }

  lemma {:induction false} TimesFuelEnough(I: Sem, s: Stmt, n: nat, st: Store, f: nat, g: nat)
    requires f <= g && ExecTimes(I, s, n, st, f).Some?
    ensures ExecTimes(I, s, n, st, g) == ExecTimes(I, s, n, st, f)
    decreases f, s, 3, n
  {
    if n > 0 {
      FuelEnough(I, s, st, f, g);
      TimesFuelEnough(I, s, n - 1, Exec(I, s, st, f).value, f, g);
    }
  }

  lemma {:induction false} SeqFuelEnough(I: Sem, ss: seq<Stmt>, st: Store, f: nat, g: nat)
    requires f <= g && ExecSeq(I, ss, st, f).Some?
    ensures ExecSeq(I, ss, st, g) == ExecSeq(I, ss, st, f)
    decreases f, ss, 0, 0
  {
    if ss != [] {
      FuelEnough(I, ss[0], st, f, g);
      SeqFuelEnough(I, ss[1..], Exec(I, ss[0], st, f).value, f, g);
    }
  }

  /** Source and elaborated program end in the same states. */
  lemma SameOutcome(I: Sem, s: Stmt, st: Store, r: Store)
    requires Sensible(I) && CountsKept(I, s)
    ensures (exists f: nat :: Exec(I, s, st, f) == Some(r)) <==> (exists f: nat :: NExec(I, Elab(I, s), st, f) == Some(r))
  {
    if f: nat :| Exec(I, s, st, f) == Some(r) {
      ElabCorrect(I, s, st, f);
      assert NExec(I, Elab(I, s), st, f) == Some(r);
    }
    if f: nat :| NExec(I, Elab(I, s), st, f) == Some(r) {
      ElabCorrect(I, s, st, f);
      assert Exec(I, s, st, f) == Some(r);
    }
  }

  // ----- counts that are not kept -----

  /** Expression 0 counts zero, one, many in two bits; expression 1 is the repeat count. */
  function Counter(n: Verinum): Sem {
    Sem((e, s) => if e == 1 then n.bits else if "c" in s && s["c"] == [V0, V0] then [V1, V0] else [V1, V1],
        e => if e == 1 then Some(n) else None,
        e => if e == 1 then |n.bits| else 2,
        (x, b) => b, (k, v, g) => v == g)
  }

  lemma {:induction false} CounterCounts(n: Verinum, k: nat, st: Store, f: nat)
    requires "c" in st && k > 0
    ensures var r := ExecTimes(Counter(n), Assign("c", 0), k, st, f);
            r.Some? && "c" in r.value && r.value["c"] == (if k == 1 && st["c"] == [V0, V0] then [V1, V0] else [V1, V1])
    decreases k
  {
    var I, body := Counter(n), Assign("c", 0);
    var st1 := st["c" := I.eval(0, st)];
    assert Exec(I, body, st, f) == Some(st1);
    assert ExecTimes(I, body, k, st, f) == ExecTimes(I, body, k - 1, st1, f);
    if k > 1 { CounterCounts(n, k - 1, st1, f); }
  }

  /** When a constant count is not kept, the elaborated repeat of a counting body ends with a
      different count. */
  lemma LostCountShows(n: Verinum, f: nat)
    requires !CountKept(n)
    ensures var I := Counter(n); var s := Repeat(1, n.hasSign, Assign("c", 0)); var st: Store := map["c" := [V0, V0]];
            Sensible(I) && NExec(I, Elab(I, s), st, f) != Exec(I, s, st, f)
  {
    var I, body := Counter(n), Assign("c", 0);
    var s := Repeat(1, n.hasSign, body);
    var st: Store := map["c" := [V0, V0]];
    var t := Times(n.bits, n.hasSign);
    CountKeptExactly(n);
    assert Pow2(63) >= 2;
    assert n.bits != [];
    CounterCounts(n, t, st, f);
    assert Exec(I, s, st, f) == ExecTimes(I, body, t, st, f);
    LostCountElaborated(n, f);
  }

  lemma LostCountElaborated(n: Verinum, f: nat)
    requires AsLong(n) <= 1
    ensures var I := Counter(n); var st: Store := map["c" := [V0, V0]];
            NExec(I, Elab(I, Repeat(1, n.hasSign, Assign("c", 0))), st, f) == Some(if AsLong(n) == 1 then map["c" := [V1, V0]] else st)
  {
    var I, st: Store := Counter(n), map["c" := [V0, V0]];
    assert I.fold(1).value.(hasSign := n.hasSign) == n;
    if AsLong(n) == 1 {
      assert Elab(I, Repeat(1, n.hasSign, Assign("c", 0))) == NAssign("c", NDyn(0));
      assert st["c" := [V1, V0]] == map["c" := [V1, V0]];
    }
  }

  // ----- the elaborator -----

  method Elaborate(I: Sem, s: Stmt) returns (p: Net)
    ensures p == Elab(I, s)
    decreases s, 1
  {
    match s {
      case Null => p := NNull;
      case Assign(x, e) => p := NAssign(x, ElabExpr(I, e));
      case Block(named, body) => p := ElaborateBlock(I, named, body);
      case If(c, t, f) =>
        if I.fold(c).Some? {
          var reduced := ReduceAll(I.fold(c).value.bits);
          if reduced == V1 && !t.Null? {
            p := Elaborate(I, t);
          } else if reduced != V1 && !f.Null? {
            p := Elaborate(I, f);
          } else {
            p := NBlock([]);
          }
        } else {
          var i, e := NNull, NNull;
          if !t.Null? { i := Elaborate(I, t); }
          if !f.Null? { e := Elaborate(I, f); }
          if EmptyBlock(i) { i := NNull; }
          if EmptyBlock(e) { e := NNull; }
          p := NCondit(ConditionReduce(I, c), i, e);
        }
      case While(c, body) =>
        var b := Elaborate(I, body);
        p := NWhile(ElabExpr(I, c), b);
      case For(x1, e1, c, x2, e2, body) =>
        var top := [NAssign(x1, ElabExpr(I, e1))];
        var tmp := Elaborate(I, body);
        var inner := [tmp];
        inner := inner + [NAssign(x2, ElabExpr(I, e2))];
        assert inner == [tmp, NAssign(x2, ElabExpr(I, e2))];
        top := top + [NWhile(ElabExpr(I, c), NBlock(inner))];
        assert top == [top[0], top[1]];
        p := NBlock(top);
      case Repeat(e, signed, body) =>
        var stat := Elaborate(I, body);
        p := NRepeat(ElabExpr(I, e), signed, stat);
        if I.fold(e).Some? {
          var val := AsLong(I.fold(e).value.(hasSign := signed));
          if val <= 0 {
            p := NBlock([]);
          } else if val == 1 {
            p := stat;
          }
        }
      case Case(k, sel, items) =>
        var res := ElaborateItems(I, items);
        p := NCase(k, ElabExpr(I, sel), res);
    }
  }

  /** The OR over the bits of a constant condition. */
  method ReduceAll(b: Bits) returns (reduced: V)
    ensures reduced == V1 <==> Truth(b)
    ensures reduced == Reduce(b, V0)
  {
    reduced := V0;
    for idx := 0 to |b|
      invariant Reduce(b[idx..], reduced) == Reduce(b, V0)
    {
      assert b[idx..][1..] == b[idx + 1..];
      reduced := OrBit(reduced, b[idx]);
    }
    ReduceIsTruth(b, V0);
  }

  lemma ElabSeqStep(I: Sem, cur: seq<Net>, body: seq<Stmt>, idx: nat)
    requires idx < |body|
    ensures var p := Elab(I, body[idx]);
            cur + ElabSeq(I, body[idx..]) == (if EmptyBlock(p) then cur else cur + [p]) + ElabSeq(I, body[idx + 1..])
  {
    assert body[idx..][1..] == body[idx + 1..];
  }

  method ElaborateBlock(I: Sem, named: bool, body: seq<Stmt>) returns (p: Net)
    ensures p == if |body| == 1 && !named then Elab(I, body[0]) else NBlock(ElabSeq(I, body))
    decreases body, 0
  {
    if |body| == 1 && !named {
      p := Elaborate(I, body[0]);
      return;
    }
    var cur: seq<Net> := [];
    for idx := 0 to |body|
      invariant cur + ElabSeq(I, body[idx..]) == ElabSeq(I, body)
    {
      var tmp := Elaborate(I, body[idx]);
      ElabSeqStep(I, cur, body, idx);
      if !EmptyBlock(tmp) {
        cur := cur + [tmp];
      }
    }
    p := NBlock(cur);
  }

  method CountCases(I: Sem, items: seq<Item>) returns (icount: nat)
    ensures icount == |ElabItems(I, items)|
  {
    icount := 0;
    for idx := 0 to |items|
      invariant icount + |ElabItems(I, items[idx..])| == |ElabItems(I, items)|
    {
      assert items[idx..][1..] == items[idx + 1..];
      icount := icount + if |items[idx].guards| == 0 then 1 else |items[idx].guards|;
    }
  }

  /** Count the guards, then fill the item array; the last slot used is the last slot there is. */
  method ElaborateItems(I: Sem, items: seq<Item>) returns (res: seq<NItem>)
    ensures res == ElabItems(I, items)
    decreases items, 0
  {
    var icount := CountCases(I, items);
    var slots := new NItem[icount](_ => NItem(None, NNull));
    var inum := 0;
    ghost var all, done := ElabItems(I, items), [];
    assert items[0..] == items;
    for idx := 0 to |items|
      invariant inum == |done| && slots.Length == |all| && all == done + ElabItems(I, items[idx..])
      invariant slots[..|done|] == done
    {
      var st := Elaborate(I, items[idx].stat);
      ghost var copies, rest := ElabGuards(I, items[idx].guards, st), ElabItems(I, items[idx + 1..]);
      ElabItemsStep(I, items, idx);
      assert all == (done + copies) + rest;
      inum := SetCases(I, slots, inum, items[idx].guards, st);
      done := done + copies;
    }
    assert items[|items|..] == [];
    assert all == done;
    res := slots[..];
  }

  lemma ElabItemsStep(I: Sem, items: seq<Item>, idx: nat)
    requires idx < |items|
    ensures ElabItems(I, items[idx..]) == ElabGuards(I, items[idx].guards, Elab(I, items[idx].stat)) + ElabItems(I, items[idx + 1..])
  {
    assert items[idx..][1..] == items[idx + 1..];
  }

  lemma GuardedStep(I: Sem, done: seq<NItem>, guards: seq<nat>, e: nat, st: Net)
    requires e < |guards|
    ensures done + Guarded(I, guards[e..], st)
         == done + [NItem(Some(ElabExpr(I, guards[e])), st)] + Guarded(I, guards[e + 1..], st)
  {
    assert guards[e..][1..] == guards[e + 1..];
  }

  /** Fill the slots of one item: one for a default item, otherwise one per guard. */
  method SetCases(I: Sem, slots: array<NItem>, inum: nat, guards: seq<nat>, st: Net) returns (next: nat)
    requires inum + |ElabGuards(I, guards, st)| <= slots.Length
    modifies slots
    ensures next == inum + |ElabGuards(I, guards, st)|
    ensures slots[..next] == old(slots[..inum]) + ElabGuards(I, guards, st)
  {
    next := inum;
    if |guards| == 0 {
      slots[next] := NItem(None, st);
      next := next + 1;
    } else {
      for e := 0 to |guards|
        invariant next == inum + e
        invariant slots[..next] + Guarded(I, guards[e..], st) == old(slots[..inum]) + Guarded(I, guards, st)
      {
        ghost var done := slots[..next];
        GuardedStep(I, done, guards, e, st);
        slots[next] := NItem(Some(ElabExpr(I, guards[e])), st);
        assert slots[..next + 1] == done + [slots[next]];
        next := next + 1;
      }
      assert slots[..next] + [] == slots[..next];
    }
  }
}
