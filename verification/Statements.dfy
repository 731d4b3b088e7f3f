/** Procedural statements (Statement.h): how they run, `mustmodify` (Statement.cc), and the
    translation of a ternary right-hand side to if/else (PExpr.cc).
 */
module Statements {
  import opened PForm
  import opened Powers

  /** Null is a null statement pointer. Left-hand sides are scalar signals, given by name; `line`
      is the source line of an assignment. */
  datatype Stmt =
    | Null
    | Assign(line: nat, lhs: string, rhs: Expr)
    | AssignNB(line: nat, lhs: string, rhs: Expr)
    | Block(body: seq<Stmt>)
    | If(cond: Expr, thn: Stmt, els: Stmt)
    | Case(sel: Expr, items: seq<Item>)

  /** A case item; without guards it is the default item. */
  datatype Item = Item(guards: seq<Expr>, stat: Stmt)

  // ----- running statements -----

  /** Signal widths; an undeclared net is one bit wide. */
  datatype Design = Design(I: Interp, width: map<string, nat>) {
    function Width(x: string): nat {
      if x in width then width[x] else 1
    }
  }

  /** Current values, and the non-blocking updates that wait for the end of the time step. */
  datatype State = State(vals: Vals, pending: seq<(string, int)>)

  /** An executed assignment: what was assigned, and the values it was executed under. */
  datatype Event = Event(line: nat, lhs: string, rhs: Expr, vals: Vals)

  datatype Outcome = Outcome(st: State, events: seq<Event>)

  function Fit(d: Design, x: string, k: int): int {
    k % Pow2(d.Width(x))
  }

  /** Every signal holds a value of its width. */
  ghost predicate Typed(d: Design, v: Vals) {
    forall x | x in v :: 0 <= v[x] < Pow2(d.Width(x))
  }

  /** The operand a nested ternary selects. */
  function Leaf(I: Interp, e: Expr, v: Vals): Expr {
    if e.Ternary? then if True(I, e.cond, v) then Leaf(I, e.tru, v) else Leaf(I, e.fal, v) else e
  }

  /** The statement of the first item with a matching guard, otherwise of the default item. */
  function Chosen(I: Interp, sel: Expr, items: seq<Item>, v: Vals): Stmt {
    if exists i :: 0 <= i < |items| && Matches(I, sel, items[i], v) then items[FirstMatch(I, sel, items, v)].stat
    else DefaultOf(items)
  }

  predicate Matches(I: Interp, sel: Expr, item: Item, v: Vals) {
    exists g | g in item.guards :: Eval(I, g, v) == Eval(I, sel, v)
  }

  function FirstMatch(I: Interp, sel: Expr, items: seq<Item>, v: Vals): (i: nat)
    requires exists i :: 0 <= i < |items| && Matches(I, sel, items[i], v)
    ensures i < |items| && Matches(I, sel, items[i], v)
    ensures forall j | 0 <= j < i :: !Matches(I, sel, items[j], v)
  {
    if Matches(I, sel, items[0], v) then 0 else
    assert exists i :: 0 <= i < |items[1..]| && Matches(I, sel, items[1..][i], v) by {
      var i :| 0 <= i < |items| && Matches(I, sel, items[i], v);
      assert items[1..][i - 1] == items[i];
    }
    1 + FirstMatch(I, sel, items[1..], v)
  }

  /** The code generator keeps the last default item. */
  function DefaultOf(items: seq<Item>): Stmt {
    var n := |items| - 1;
    if items == [] then Null
    else if items[n].guards == [] then items[n].stat
    else DefaultOf(items[..n])
  }

  lemma {:induction false} DefaultIsItem(items: seq<Item>)
    ensures DefaultOf(items) == Null || exists i :: 0 <= i < |items| && items[i].stat == DefaultOf(items)
  {
    var n := |items| - 1;
    if items != [] {
      DefaultIsItem(items[..n]);
      assert items[n].guards == [] ==> items[n].stat == DefaultOf(items);
      if items[n].guards != [] && DefaultOf(items) != Null {
        var i :| 0 <= i < |items[..n]| && items[..n][i].stat == DefaultOf(items);
        assert items[i].stat == DefaultOf(items);
      }
    }
  }

  lemma ChosenIsItem(I: Interp, sel: Expr, items: seq<Item>, v: Vals)
    ensures var c := Chosen(I, sel, items, v);
            c == Null || exists i :: 0 <= i < |items| && items[i].stat == c
  {
    DefaultIsItem(items);
  }

  function Exec(d: Design, s: Stmt, st: State): Outcome
    decreases s, 1
  {
    match s
    case Null => Outcome(st, [])
    case Assign(n, x, r) =>
      Outcome(st.(vals := st.vals[x := Fit(d, x, Eval(d.I, r, st.vals))]), [Event(n, x, Leaf(d.I, r, st.vals), st.vals)])
    case AssignNB(n, x, r) =>
      Outcome(st.(pending := st.pending + [(x, Fit(d, x, Eval(d.I, r, st.vals)))]), [Event(n, x, Leaf(d.I, r, st.vals), st.vals)])
    case Block(body) => ExecSeq(d, body, st)
    case If(c, t, f) => if True(d.I, c, st.vals) then Exec(d, t, st) else Exec(d, f, st)
    case Case(sel, items) =>
      ChosenIsItem(d.I, sel, items, st.vals);
      var c := Chosen(d.I, sel, items, st.vals);
      if c == Null then Outcome(st, []) else Exec(d, c, st)
  }

  function ExecSeq(d: Design, ss: seq<Stmt>, st: State): Outcome
    decreases ss, 0
  {
    if ss == [] then Outcome(st, []) else
    var o := Exec(d, ss[0], st);
    var p := ExecSeq(d, ss[1..], o.st);
    Outcome(p.st, o.events + p.events)
  }

  // ----- definite assignment -----

  /** The tracked left-hand sides every path assigns. Case statements inherit the empty default. */
  function MustModify(s: Stmt, tracked: set<string>): set<string>
    decreases s, 1
  {
    match s
    case Assign(_, x, _) => {x} * tracked
    case AssignNB(_, x, _) => {x} * tracked
    case Block(body) => MustModifySeq(body, tracked)
    case If(_, t, f) => MustModify(t, tracked) * MustModify(f, tracked)
    case _ => {}
  }

  function MustModifySeq(ss: seq<Stmt>, tracked: set<string>): set<string>
    decreases ss, 0
  {
    if ss == [] then {} else MustModify(ss[0], tracked) + MustModifySeq(ss[1..], tracked)
  }

  /** The syntactic paths through a statement, each as the sequence of names it assigns. */
  ghost function Paths(s: Stmt): set<seq<string>>
    decreases s, 1
  {
    match s
    case Null => {[]}
    case Assign(_, x, _) => {[x]}
    case AssignNB(_, x, _) => {[x]}
    case Block(body) => PathsSeq(body)
    case If(_, t, f) => Paths(t) + Paths(f)
    case Case(_, items) => {[]} + set i: nat, p | i < |items| && p in Paths(items[i].stat) :: p
  }

  ghost function PathsSeq(ss: seq<Stmt>): set<seq<string>>
    decreases ss, 0
  {
    if ss == [] then {[]} else
    set p, q | p in Paths(ss[0]) && q in PathsSeq(ss[1..]) :: p + q
  }

  predicate CaseFree(s: Stmt)
    decreases s, 1
  {
    match s
    case Block(body) => CaseFreeSeq(body)
    case If(_, t, f) => CaseFree(t) && CaseFree(f)
    case Case(_, _) => false
    case _ => true
  }

  predicate CaseFreeSeq(ss: seq<Stmt>)
    decreases ss, 0
  {
    ss == [] || (CaseFree(ss[0]) && CaseFreeSeq(ss[1..]))
  }

  ghost predicate OnEveryPath(x: string, paths: set<seq<string>>) {
    forall p | p in paths :: x in p
  }

  /** `mustmodify` reports only names that every path assigns, and without case statements it
      reports all of the tracked ones. */
  lemma {:induction false} MustModifyExact(s: Stmt, tracked: set<string>, x: string)
    ensures x in MustModify(s, tracked) ==> x in tracked && OnEveryPath(x, Paths(s))
    ensures CaseFree(s) && x in tracked && OnEveryPath(x, Paths(s)) ==> x in MustModify(s, tracked)
    decreases s, 1
  {
    match s
    case Null => assert [] in Paths(s) && x !in [];
    case Assign(_, y, _) => assert [y] in Paths(s);
    case AssignNB(_, y, _) => assert [y] in Paths(s);
    case Block(body) => MustModifySeqExact(body, tracked, x);
    case If(_, t, f) => MustModifyExact(t, tracked, x); MustModifyExact(f, tracked, x);
    case Case(_, _) =>
  }

  lemma {:induction false} MustModifySeqExact(ss: seq<Stmt>, tracked: set<string>, x: string)
    ensures x in MustModifySeq(ss, tracked) ==> x in tracked && OnEveryPath(x, PathsSeq(ss))
    ensures CaseFreeSeq(ss) && x in tracked && OnEveryPath(x, PathsSeq(ss)) ==> x in MustModifySeq(ss, tracked)
    decreases ss, 0
  {
    if ss == [] {
      assert [] in PathsSeq(ss) && x !in [];
    } else {
      MustModifyExact(ss[0], tracked, x);
      MustModifySeqExact(ss[1..], tracked, x);
      if !OnEveryPath(x, Paths(ss[0])) && !OnEveryPath(x, PathsSeq(ss[1..])) {
        var p :| p in Paths(ss[0]) && x !in p;
        var q :| q in PathsSeq(ss[1..]) && x !in q;
        assert p + q in PathsSeq(ss) && x !in p + q;
      }
    }
  }

  function Targets(events: seq<Event>): (t: seq<string>)
    ensures |t| == |events| && forall i | 0 <= i < |t| :: t[i] == events[i].lhs
  {
    seq(|events|, i requires 0 <= i < |events| => events[i].lhs)
  }

  /** Every run follows one of the syntactic paths. */
  lemma {:induction false} ExecFollowsPath(d: Design, s: Stmt, st: State)
    ensures Targets(Exec(d, s, st).events) in Paths(s)
    decreases s, 1
  {
    match s
    case Null => assert Targets([]) == [];
    case Assign(n, x, r) => assert Targets(Exec(d, s, st).events) == [x];
    case AssignNB(n, x, r) => assert Targets(Exec(d, s, st).events) == [x];
    case Block(body) => ExecSeqFollowsPath(d, body, st);
    case If(c, t, f) =>
      if True(d.I, c, st.vals) { ExecFollowsPath(d, t, st); } else { ExecFollowsPath(d, f, st); }
    case Case(sel, items) =>
      ChosenIsItem(d.I, sel, items, st.vals);
      var c := Chosen(d.I, sel, items, st.vals);
      if c == Null {
        assert Targets([]) == [];
      } else {
        var i :| 0 <= i < |items| && items[i].stat == c;
        ExecFollowsPath(d, items[i].stat, st);
      }
  }

  lemma {:induction false} ExecSeqFollowsPath(d: Design, ss: seq<Stmt>, st: State)
    ensures Targets(ExecSeq(d, ss, st).events) in PathsSeq(ss)
    decreases ss, 0
  {
    if ss == [] {
      assert Targets([]) == [];
    } else {
      var o := Exec(d, ss[0], st);
      ExecFollowsPath(d, ss[0], st);
      ExecSeqFollowsPath(d, ss[1..], o.st);
      var p := ExecSeq(d, ss[1..], o.st);
      assert Targets(o.events + p.events) == Targets(o.events) + Targets(p.events);
    }
  }

  /** Every run assigns every reported name. */
  lemma RunsAssignReported(d: Design, s: Stmt, st: State, tracked: set<string>, x: string)
    requires x in MustModify(s, tracked)
    ensures exists k :: 0 <= k < |Exec(d, s, st).events| && Exec(d, s, st).events[k].lhs == x
  {
    MustModifyExact(s, tracked, x);
    ExecFollowsPath(d, s, st);
    var t := Targets(Exec(d, s, st).events);
    assert x in t;
    var k :| 0 <= k < |t| && t[k] == x;
    assert Exec(d, s, st).events[k].lhs == x;
  }

  // ----- ternary right-hand sides -----

  /** `translate`: nested ternaries in branch position become nested if/else. */
  function Translate(n: nat, x: string, e: Expr): (s: Stmt)
    requires e.Ternary?
    ensures s.If?
  {
    If(e.cond,
       if e.tru.Ternary? then Translate(n, x, e.tru) else Assign(n, x, e.tru),
       if e.fal.Ternary? then Translate(n, x, e.fal) else Assign(n, x, e.fal))
  }

  /** Running the translation is assigning the ternary: same state, same executed assignment. */
  lemma {:induction false} TranslateCorrect(d: Design, n: nat, x: string, e: Expr, st: State)
    requires e.Ternary?
    ensures Exec(d, Translate(n, x, e), st) == Exec(d, Assign(n, x, e), st)
  {
    if e.tru.Ternary? { TranslateCorrect(d, n, x, e.tru, st); }
    if e.fal.Ternary? { TranslateCorrect(d, n, x, e.fal, st); }
  }

  predicate NoTernaryAssigned(s: Stmt) {
    match s
    case Assign(_, _, r) => !r.Ternary?
    case If(_, t, f) => NoTernaryAssigned(t) && NoTernaryAssigned(f)
    case _ => false
  }

  /** Each path of the translation assigns the target once and nothing else, no ternary is left
      at the root of a right-hand side, and the target is what `mustmodify` reports. */
  lemma {:induction false} TranslateShape(n: nat, x: string, e: Expr, tracked: set<string>)
    requires e.Ternary?
    ensures Paths(Translate(n, x, e)) == {[x]} && NoTernaryAssigned(Translate(n, x, e))
    ensures MustModify(Translate(n, x, e), tracked) == {x} * tracked
  {
    if e.tru.Ternary? { TranslateShape(n, x, e.tru, tracked); }
    if e.fal.Ternary? { TranslateShape(n, x, e.fal, tracked); }
  }
}
