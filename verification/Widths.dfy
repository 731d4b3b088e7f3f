/** Width discovery (the `test_width` methods of elab_expr.cc). A literal without a length, or a
    parameter without a range, makes the whole expression unsized; the traversal learns this midway
    and tests operands again.
 */
module Widths {
  import opened Powers

  const INTEGER_WIDTH: nat := 32

  datatype Op = Plus | Minus | Times | Bitwise

  /** Expressions of vector type; `id` names the node whose `expr_width_` is recorded. */
  datatype Expr =
    | Number(id: nat, len: nat, hasLen: bool)
    | Signal(id: nat, len: nat)
    | Parameter(id: nat, len: nat, ranged: bool)
    | Unary(id: nat, sub: Expr)
    | Binary(id: nat, op: Op, left: Expr, right: Expr)
    | Ternary(id: nat, tru: Expr, fal: Expr)

  function Max(a: nat, b: nat): (m: nat)
    ensures m >= a && m >= b && (m == a || m == b)
  {
    if a < b then b else a
  }

  /** Width of an operator node from its operands' widths. */
  function Combine(op: Op, min: nat, wl: nat, wr: nat, unsized: bool): nat {
    match op
    case Plus => Max(min, Max(wl, wr)) + if unsized then 1 else 0
    case Minus => Max(min, Max(wl, wr)) + if unsized then 1 else 0
    case Times =>
      var both := if wl + wr > INTEGER_WIDTH then INTEGER_WIDTH else wl + wr;
      Max(if unsized then Max(min, both) else min, Max(wl, wr))
    case Bitwise => Max(min, Max(wl, wr))
  }

  /** Width of a literal: at least the minimum, at most the l-value if there is one. */
  function NumberWidth(len: nat, min: nat, lval: nat): nat {
    var w := Max(min, len);
    if 0 < lval < w then lval else w
  }

  // ----- the traversal -----

  type Record = map<nat, nat>

  /** Outcome of a test: the width, the flag as it is left, and the recorded widths of all nodes. */
  datatype Tested = Tested(width: nat, flag: bool, rec: Record)

  function Test(e: Expr, min: nat, lval: nat, flag: bool, m: Record): Tested
    decreases e, 1
  {
    match e
    case Number(id, len, hasLen) =>
      var w := NumberWidth(len, min, lval);
      Tested(w, flag || !hasLen, m[id := w])
    case Signal(id, len) => Tested(Max(len, min), flag, m[id := Max(len, min)])
    case Parameter(id, len, ranged) => Tested(len, flag || !ranged, m[id := len])
    case Unary(id, sub) =>
      var t := Test(sub, min, lval, flag, m);
      Tested(Max(min, t.width), t.flag, t.rec[id := Max(min, t.width)])
    case Binary(id, op, l, r) =>
      var l0 := Test(l, min, 0, flag, m);
      var r0 := Test(r, min, 0, flag, l0.rec);
      var l1 := Retested(l, min, 0, r0.flag && !flag, l0.width, r0.rec);
      var r1 := Retested(r, min, 0, l0.flag && !flag, r0.width, l1.rec);
      var w := Combine(op, min, l1.width, r1.width, flag || l0.flag || r0.flag);
      Tested(w, flag || l0.flag || r0.flag, r1.rec[id := w])
    case Ternary(id, tru, fal) =>
      var t0 := Test(tru, min, lval, flag, m);
      var f := Test(fal, min, lval, t0.flag, t0.rec);
      var t1 := Retested(tru, Max(min, f.width), lval, !t0.flag && f.flag, t0.width, f.rec);
      var w := Max(t1.width, f.width);
      Tested(w, f.flag, t1.rec[id := w])
  }

  /** A second test with the flag set, if need be; otherwise the first width stands. */
  function Retested(e: Expr, min: nat, lval: nat, again: bool, first: nat, m: Record): Tested
    decreases e, 2
  {
    if again then Test(e, min, lval, true, m) else Tested(first, true, m)
  }

  /** The nodes' `expr_width_` fields. */
  class Fields {
    var width: Record

    constructor ()
      ensures width == map[]
    {
      width := map[];
    }

    method TestNumber(id: nat, len: nat, hasLen: bool, min: nat, lval: nat, flag: bool) returns (useWid: nat, unsizedFlag: bool)
      modifies this
      ensures useWid == NumberWidth(len, min, lval) && unsizedFlag == (flag || !hasLen) && width == old(width)[id := useWid]
    {
      useWid, unsizedFlag := len, flag;
      if min > useWid { useWid := min; }
      if !hasLen { unsizedFlag := true; }
      if lval > 0 && lval < useWid { useWid := lval; }
      width := width[id := useWid];
    }

    method CombineWidths(op: Op, min: nat, wl: nat, wr: nat, unsizedFlag: bool) returns (w: nat)
      ensures w == Combine(op, min, wl, wr, unsizedFlag)
    {
      w := min;
      if op == Times && unsizedFlag {
        var useWid := wl + wr;
        if useWid > INTEGER_WIDTH { useWid := INTEGER_WIDTH; }
        if useWid > w { w := useWid; }
      }
      if wl > w { w := wl; }
      if wr > w { w := wr; }
      if (op == Plus || op == Minus) && unsizedFlag { w := w + 1; }
    }

    /** Test again with the flag set, if need be. */
    method Retest(e: Expr, min: nat, lval: nat, again: bool, first: nat) returns (w: nat)
      modifies this
      ensures var t := Retested(e, min, lval, again, first, old(width)); w == t.width && width == t.rec
      decreases e, 2
    {
      w := first;
      if again {
        var flag;
        w, flag := TestWidth(e, min, lval, true);
      }
    }

    method TestWidth(e: Expr, min: nat, lval: nat, flag: bool) returns (w: nat, unsizedFlag: bool)
      modifies this
      ensures Tested(w, unsizedFlag, width) == Test(e, min, lval, flag, old(width))
      decreases e, 1
    {
      match e {
        case Number(id, len, hasLen) =>
          w, unsizedFlag := TestNumber(id, len, hasLen, min, lval, flag);
        case Signal(id, len) =>
          w, unsizedFlag := Max(len, min), flag;
          width := width[id := w];
        case Parameter(id, len, ranged) =>
          w, unsizedFlag := len, flag || !ranged;
          width := width[id := w];
        case Unary(id, sub) =>
          w, unsizedFlag := TestWidth(sub, min, lval, flag);
          if w < min { w := min; }
          width := width[id := w];
        case Binary(id, op, left, right) =>
          var wl, flagLeft := TestWidth(left, min, 0, flag);
          var wr, flagRight := TestWidth(right, min, 0, flag);
          unsizedFlag := flag || flagLeft || flagRight;
          wl := Retest(left, min, 0, flagRight && !flag, wl);
          wr := Retest(right, min, 0, flagLeft && !flag, wr);
          w := CombineWidths(op, min, wl, wr, unsizedFlag);
          width := width[id := w];
        case Ternary(id, tru, fal) =>
          var wt, initialFlag := TestWidth(tru, min, lval, flag);
          var wf, after := TestWidth(fal, min, lval, initialFlag);
          unsizedFlag := after;
          wt := Retest(tru, Max(min, wf), lval, !initialFlag && unsizedFlag, wt);
          w := Max(wt, wf);
          width := width[id := w];
      }
    }
  }

  // ----- one visit to every node -----

  predicate HasUnsized(e: Expr) {
    match e
    case Number(_, _, hasLen) => !hasLen
    case Signal(_, _) => false
    case Parameter(_, _, ranged) => !ranged
    case Unary(_, sub) => HasUnsized(sub)
    case Binary(_, _, l, r) => HasUnsized(l) || HasUnsized(r)
    case Ternary(_, tru, fal) => HasUnsized(tru) || HasUnsized(fal)
  }

  /** A conditional is late when only its false branch is unsized: its true branch then gets the false
      branch's width as its minimum. */
  predicate Late(tru: Expr, fal: Expr, flag: bool) {
    !flag && !HasUnsized(tru) && HasUnsized(fal)
  }

  /** The width of every node in one visit: an operand's flag is the context's or its sibling's, and a
      late conditional visits its false branch first. */
  function Once(e: Expr, min: nat, lval: nat, flag: bool): nat {
    match e
    case Number(_, len, _) => NumberWidth(len, min, lval)
    case Signal(_, len) => Max(len, min)
    case Parameter(_, len, _) => len
    case Unary(_, sub) => Max(min, Once(sub, min, lval, flag))
    case Binary(_, op, l, r) =>
      Combine(op, min, Once(l, min, 0, flag || HasUnsized(r)), Once(r, min, 0, flag || HasUnsized(l)), flag || HasUnsized(e))
    case Ternary(_, tru, fal) =>
      var wf := Once(fal, min, lval, flag || HasUnsized(tru));
      Max(if Late(tru, fal, flag) then Once(tru, Max(min, wf), lval, true) else Once(tru, min, lval, flag), wf)
  }

  /** The widths that visit records. */
  function Annotations(e: Expr, min: nat, lval: nat, flag: bool): Record {
    var own := map[e.id := Once(e, min, lval, flag)];
    match e
    case Unary(_, sub) => Annotations(sub, min, lval, flag) + own
    case Binary(_, _, l, r) =>
      Annotations(l, min, 0, flag || HasUnsized(r)) + Annotations(r, min, 0, flag || HasUnsized(l)) + own
    case Ternary(_, tru, fal) =>
      var wf := Once(fal, min, lval, flag || HasUnsized(tru));
      (if Late(tru, fal, flag) then Annotations(tru, Max(min, wf), lval, true) else Annotations(tru, min, lval, flag))
      + Annotations(fal, min, lval, flag || HasUnsized(tru)) + own
    case _ => own
  }

  function Ids(e: Expr): set<nat> {
    {e.id} + match e
    case Unary(_, sub) => Ids(sub)
    case Binary(_, _, l, r) => Ids(l) + Ids(r)
    case Ternary(_, tru, fal) => Ids(tru) + Ids(fal)
    case _ => {}
  }

  lemma {:induction false} AnnotationKeys(e: Expr, min: nat, lval: nat, flag: bool)
    ensures Annotations(e, min, lval, flag).Keys == Ids(e)
  {
    match e
    case Unary(_, sub) => AnnotationKeys(sub, min, lval, flag);
    case Binary(_, _, l, r) =>
      AnnotationKeys(l, min, 0, flag || HasUnsized(r));
      AnnotationKeys(r, min, 0, flag || HasUnsized(l));
    case Ternary(_, tru, fal) =>
      AnnotationKeys(fal, min, lval, flag || HasUnsized(tru));
      AnnotationKeys(tru, Max(min, Once(fal, min, lval, flag || HasUnsized(tru))), lval, true);
      AnnotationKeys(tru, min, lval, flag);
    case _ =>
  }

  /** Every node has a place of its own. */
  predicate Distinct(e: Expr) {
    match e
    case Unary(_, sub) => Distinct(sub)
    case Binary(_, _, l, r) => Distinct(l) && Distinct(r) && Ids(l) !! Ids(r)
    case Ternary(_, tru, fal) => Distinct(tru) && Distinct(fal) && Ids(tru) !! Ids(fal)
    case _ => true
  }

  lemma Overwrite(m: Record, a0: Record, b0: Record, a1: Record)
    requires a0.Keys == a1.Keys && a1.Keys !! b0.Keys
    ensures m + a0 + b0 + a1 == m + a1 + b0
  {
  }

  lemma OverwriteSame(m: Record, b0: Record, b1: Record)
    requires b0.Keys == b1.Keys
    ensures m + b0 + b1 == m + b1
  {
  }

  lemma Associate(m: Record, a: Record, b: Record, id: nat, w: nat)
    ensures (m + a + b)[id := w] == m + (a + b + map[id := w])
  {
  }

  lemma AssociateOne(m: Record, a: Record, id: nat, w: nat)
    ensures (m + a)[id := w] == m + (a + map[id := w])
  {
  }

  ghost predicate VisitsOnce(e: Expr, min: nat, lval: nat, flag: bool, m: Record) {
    Test(e, min, lval, flag, m)
    == Tested(Once(e, min, lval, flag), flag || HasUnsized(e), m + Annotations(e, min, lval, flag))
  }

  /** Whatever is tested again, the traversal returns the width and the flag of one visit to every node,
      and leaves that visit's widths recorded. */
  lemma {:induction false} TraversalIsOneVisit(e: Expr, min: nat, lval: nat, flag: bool, m: Record)
    requires Distinct(e)
    ensures VisitsOnce(e, min, lval, flag, m)
    decreases e, 1
  {
    match e
    case Unary(_, sub) =>
      TraversalIsOneVisit(sub, min, lval, flag, m);
      AssociateOne(m, Annotations(sub, min, lval, flag), e.id, Once(e, min, lval, flag));
    case Binary(_, _, _, _) => OneVisitBinary(e, min, lval, flag, m);
    case Ternary(_, _, _) => OneVisitTernary(e, min, lval, flag, m);
    case _ =>
  }

  lemma {:induction false} OneVisitBinary(e: Expr, min: nat, lval: nat, flag: bool, m: Record)
    requires e.Binary? && Distinct(e)
    ensures VisitsOnce(e, min, lval, flag, m)
    decreases e, 0
  {
    var l, r := e.left, e.right;
    var fl, fr := flag || HasUnsized(r), flag || HasUnsized(l);
    var a0, b0 := Annotations(l, min, 0, flag), Annotations(r, min, 0, flag);
    var a1, b1 := Annotations(l, min, 0, fl), Annotations(r, min, 0, fr);
    TraversalIsOneVisit(l, min, 0, flag, m);
    TraversalIsOneVisit(r, min, 0, flag, m + a0);
    TraversalIsOneVisit(l, min, 0, true, m + a0 + b0);
    AnnotationKeys(l, min, 0, flag);
    AnnotationKeys(l, min, 0, fl);
    AnnotationKeys(r, min, 0, flag);
    AnnotationKeys(r, min, 0, fr);
    Overwrite(m, a0, b0, a1);
    TraversalIsOneVisit(r, min, 0, true, m + a1 + b0);
    OverwriteSame(m + a1, b0, b1);
    Associate(m, a1, b1, e.id, Once(e, min, lval, flag));
  }

  lemma {:induction false} OneVisitTernary(e: Expr, min: nat, lval: nat, flag: bool, m: Record)
    requires e.Ternary? && Distinct(e)
    ensures VisitsOnce(e, min, lval, flag, m)
    decreases e, 0
  {
    var tru, fal := e.tru, e.fal;
    var ff := flag || HasUnsized(tru);
    var wf, a0, b := Once(fal, min, lval, ff), Annotations(tru, min, lval, flag), Annotations(fal, min, lval, ff);
    TraversalIsOneVisit(tru, min, lval, flag, m);
    TraversalIsOneVisit(fal, min, lval, ff, m + a0);
    if Late(tru, fal, flag) {
      var a1 := Annotations(tru, Max(min, wf), lval, true);
      TraversalIsOneVisit(tru, Max(min, wf), lval, true, m + a0 + b);
      AnnotationKeys(tru, min, lval, flag);
      AnnotationKeys(tru, Max(min, wf), lval, true);
      AnnotationKeys(fal, min, lval, ff);
      Overwrite(m, a0, b, a1);
      Associate(m, a1, b, e.id, Once(e, min, lval, flag));
    } else {
      Associate(m, a0, b, e.id, Once(e, min, lval, flag));
    }
  }

  // ----- one pass that knows the flag -----

  /** What a pass would give that knows in advance whether anything is unsized. */
  function Width(e: Expr, min: nat, lval: nat, unsized: bool): nat {
    match e
    case Number(_, len, _) => NumberWidth(len, min, lval)
    case Signal(_, len) => Max(len, min)
    case Parameter(_, len, _) => len
    case Unary(_, sub) => Max(min, Width(sub, min, lval, unsized))
    case Binary(_, op, l, r) => Combine(op, min, Width(l, min, 0, unsized), Width(r, min, 0, unsized), unsized)
    case Ternary(_, tru, fal) => Max(Width(tru, min, lval, unsized), Width(fal, min, lval, unsized))
  }

  predicate NoLateBranch(e: Expr, flag: bool) {
    match e
    case Unary(_, sub) => NoLateBranch(sub, flag)
    case Binary(_, _, l, r) => NoLateBranch(l, flag || HasUnsized(r)) && NoLateBranch(r, flag || HasUnsized(l))
    case Ternary(_, tru, fal) =>
      !Late(tru, fal, flag) && NoLateBranch(tru, flag) && NoLateBranch(fal, flag || HasUnsized(tru))
    case _ => true
  }

  lemma {:induction false} OnceIsWidth(e: Expr, min: nat, lval: nat, flag: bool)
    requires NoLateBranch(e, flag)
    ensures Once(e, min, lval, flag) == Width(e, min, lval, flag || HasUnsized(e))
  {
    match e
    case Unary(_, sub) => OnceIsWidth(sub, min, lval, flag);
    case Binary(_, _, l, r) =>
      OnceIsWidth(l, min, 0, flag || HasUnsized(r));
      OnceIsWidth(r, min, 0, flag || HasUnsized(l));
    case Ternary(_, tru, fal) =>
      OnceIsWidth(tru, min, lval, flag);
      OnceIsWidth(fal, min, lval, flag || HasUnsized(tru));
    case _ =>
  }

  /** Without late conditionals the two-pass traversal returns what the one pass returns that knows in
      advance. */
  lemma TwoPassIsOnePass(e: Expr, min: nat, lval: nat, flag: bool, m: Record)
    requires Distinct(e) && NoLateBranch(e, flag)
    ensures var t := Test(e, min, lval, flag, m);
            t.flag == (flag || HasUnsized(e)) && t.width == Width(e, min, lval, t.flag)
  {
    TraversalIsOneVisit(e, min, lval, flag, m);
    OnceIsWidth(e, min, lval, flag);
  }

  /** No node is its own operand's. */
  predicate OwnIds(e: Expr) {
    match e
    case Unary(id, sub) => id !in Ids(sub) && OwnIds(sub)
    case Binary(id, _, l, r) => id !in Ids(l) + Ids(r) && OwnIds(l) && OwnIds(r)
    case Ternary(id, tru, fal) => id !in Ids(tru) + Ids(fal) && OwnIds(tru) && OwnIds(fal)
    case _ => true
  }

  /** Every node has the width of the one pass recorded. */
  predicate Recorded(e: Expr, min: nat, lval: nat, unsized: bool, rec: Record) {
    e.id in rec && rec[e.id] == Width(e, min, lval, unsized)
    && match e
       case Unary(_, sub) => Recorded(sub, min, lval, unsized, rec)
       case Binary(_, _, l, r) => Recorded(l, min, 0, unsized, rec) && Recorded(r, min, 0, unsized, rec)
       case Ternary(_, tru, fal) => Recorded(tru, min, lval, unsized, rec) && Recorded(fal, min, lval, unsized, rec)
       case _ => true
  }

  lemma {:induction false} RecordedFrame(e: Expr, min: nat, lval: nat, unsized: bool, a: Record, b: Record)
    requires Recorded(e, min, lval, unsized, a)
    requires forall i | i in Ids(e) && i in a :: i in b && b[i] == a[i]
    ensures Recorded(e, min, lval, unsized, b)
  {
    match e
    case Unary(_, sub) => RecordedFrame(sub, min, lval, unsized, a, b);
    case Binary(_, _, l, r) => RecordedFrame(l, min, 0, unsized, a, b); RecordedFrame(r, min, 0, unsized, a, b);
    case Ternary(_, tru, fal) => RecordedFrame(tru, min, lval, unsized, a, b); RecordedFrame(fal, min, lval, unsized, a, b);
    case _ =>
  }

  lemma ParentId(e: Expr)
    requires Distinct(e) && OwnIds(e)
    ensures match e
            case Unary(id, sub) => id !in Ids(sub)
            case Binary(id, _, l, r) => id !in Ids(l) && id !in Ids(r) && Ids(l) !! Ids(r)
            case Ternary(id, tru, fal) => id !in Ids(tru) && id !in Ids(fal) && Ids(tru) !! Ids(fal)
            case _ => true
  {
  }

  lemma {:induction false} AnnotationsRecord(e: Expr, min: nat, lval: nat, flag: bool)
    requires Distinct(e) && OwnIds(e) && NoLateBranch(e, flag)
    ensures Recorded(e, min, lval, flag || HasUnsized(e), Annotations(e, min, lval, flag))
  {
    hide Width, Once, Combine, NumberWidth, Max, Ids;
    OnceIsWidth(e, min, lval, flag);
    AnnotationKeys(e, min, lval, flag);
    ParentId(e);
    var all := Annotations(e, min, lval, flag);
    match e
    case Unary(_, sub) =>
      AnnotationsRecord(sub, min, lval, flag);
      RecordedFrame(sub, min, lval, flag || HasUnsized(e), Annotations(sub, min, lval, flag), all);
    case Binary(_, _, l, r) =>
      var a, b := Annotations(l, min, 0, flag || HasUnsized(r)), Annotations(r, min, 0, flag || HasUnsized(l));
      AnnotationsRecord(l, min, 0, flag || HasUnsized(r));
      AnnotationsRecord(r, min, 0, flag || HasUnsized(l));
      AnnotationKeys(l, min, 0, flag || HasUnsized(r));
      AnnotationKeys(r, min, 0, flag || HasUnsized(l));
      RecordedFrame(l, min, 0, flag || HasUnsized(e), a, all);
      RecordedFrame(r, min, 0, flag || HasUnsized(e), b, all);
    case Ternary(_, tru, fal) =>
      var a, b := Annotations(tru, min, lval, flag), Annotations(fal, min, lval, flag || HasUnsized(tru));
      AnnotationsRecord(tru, min, lval, flag);
      AnnotationsRecord(fal, min, lval, flag || HasUnsized(tru));
      AnnotationKeys(tru, min, lval, flag);
      AnnotationKeys(fal, min, lval, flag || HasUnsized(tru));
      RecordedFrame(tru, min, lval, flag || HasUnsized(e), a, all);
      RecordedFrame(fal, min, lval, flag || HasUnsized(e), b, all);
    case _ =>
  }

  /** And it leaves that pass's width recorded in every node. */
  lemma TwoPassRecords(e: Expr, min: nat, lval: nat, flag: bool, m: Record)
    requires Distinct(e) && OwnIds(e) && NoLateBranch(e, flag)
    ensures var t := Test(e, min, lval, flag, m); Recorded(e, min, lval, t.flag, t.rec)
  {
    TraversalIsOneVisit(e, min, lval, flag, m);
    AnnotationsRecord(e, min, lval, flag);
    RecordedFrame(e, min, lval, flag || HasUnsized(e), Annotations(e, min, lval, flag), m + Annotations(e, min, lval, flag));
  }

  lemma CombineMonotone(op: Op, m: nat, a: nat, b: nat, n: nat, c: nat, d: nat, unsized: bool)
    requires m <= n && a <= c && b <= d
    ensures Combine(op, m, a, b, unsized) <= Combine(op, n, c, d, unsized)
  {
  }

  /** A larger minimum never makes an expression narrower. */
  lemma {:induction false} WidthMonotone(e: Expr, m: nat, n: nat, lval: nat, unsized: bool)
    requires m <= n
    ensures Width(e, m, lval, unsized) <= Width(e, n, lval, unsized)
  {
    match e
    case Unary(_, sub) => WidthMonotone(sub, m, n, lval, unsized);
    case Binary(_, op, l, r) =>
      WidthMonotone(l, m, n, 0, unsized);
      WidthMonotone(r, m, n, 0, unsized);
      CombineMonotone(op, m, Width(l, m, 0, unsized), Width(r, m, 0, unsized), n, Width(l, n, 0, unsized), Width(r, n, 0, unsized), unsized);
    case Ternary(_, tru, fal) => WidthMonotone(tru, m, n, lval, unsized); WidthMonotone(fal, m, n, lval, unsized);
    case _ =>
  }

  // ----- how much wider a late conditional gets -----

  /** The longest chain of sums and differences, each of which adds a bit to an unsized expression. */
  function Depth(e: Expr): nat {
    match e
    case Unary(_, sub) => Depth(sub)
    case Binary(_, op, l, r) => Max(Depth(l), Depth(r)) + if op == Plus || op == Minus then 1 else 0
    case Ternary(_, tru, fal) => Max(Depth(tru), Depth(fal))
    case _ => 0
  }

  /** The width that the lengths of the leaves ask for. */
  function Need(e: Expr, lval: nat): nat {
    match e
    case Number(_, len, _) => NumberWidth(len, 0, lval)
    case Signal(_, len) => len
    case Parameter(_, len, _) => len
    case Unary(_, sub) => Need(sub, lval)
    case Binary(_, op, l, r) => Max(Need(l, 0), Need(r, 0)) + if op == Plus || op == Minus then 1 else 0
    case Ternary(_, tru, fal) => Max(Need(tru, lval), Need(fal, lval))
  }

  predicate NoProduct(e: Expr) {
    match e
    case Unary(_, sub) => NoProduct(sub)
    case Binary(_, op, l, r) => op != Times && NoProduct(l) && NoProduct(r)
    case Ternary(_, tru, fal) => NoProduct(tru) && NoProduct(fal)
    case _ => true
  }

  /** A width at minimum `m` for depth `d` and need `n`. A parameter alone, or a literal limited by the
      l-value, may stay below the minimum. */
  predicate Closed(w: nat, m: nat, d: nat, n: nat) {
    Max(w, m + d) == Max(m + d, n) && (d > 0 ==> w == Max(m + d, n))
  }

  lemma ClosedSum(m: nat, w: nat, d: nat, n: nat, x: nat, c: nat, k: nat)
    requires Closed(w, m, d, n) && Closed(x, m, c, k)
    ensures Closed(Max(m, Max(w, x)) + 1, m, Max(d, c) + 1, Max(n, k) + 1)
  {
    assert w <= Max(m + d, n) && x <= Max(m + c, k);
    assert Max(m, Max(w, x)) == Max(m + Max(d, c), Max(n, k));
  }

  lemma ClosedMax(m: nat, w: nat, d: nat, n: nat, x: nat, c: nat, k: nat)
    requires Closed(w, m, d, n) && Closed(x, m, c, k)
    ensures Closed(Max(w, x), m, Max(d, c), Max(n, k))
  {
  }

  lemma ClosedRaised(m: nat, w: nat, d: nat, n: nat)
    requires Closed(w, m, d, n)
    ensures Closed(Max(m, w), m, d, n)
  {
  }

  lemma ClosedLeaf(e: Expr, m: nat, lval: nat)
    requires e.Number? || e.Signal? || e.Parameter?
    ensures Closed(Width(e, m, lval, true), m, Depth(e), Need(e, lval))
  {
  }

  /** Without products an unsized expression takes its minimum and a bit for each level of sums, or what
      its leaves need. */
  lemma {:induction false} WidthClosed(e: Expr, m: nat, lval: nat)
    requires NoProduct(e)
    ensures Closed(Width(e, m, lval, true), m, Depth(e), Need(e, lval))
  {
    hide Closed;
    match e
    case Unary(_, sub) =>
      WidthClosed(sub, m, lval);
      ClosedRaised(m, Width(sub, m, lval, true), Depth(sub), Need(sub, lval));
    case Binary(_, op, l, r) =>
      WidthClosed(l, m, 0);
      WidthClosed(r, m, 0);
      ClosedBinary(e, m, lval);
    case Ternary(_, tru, fal) =>
      WidthClosed(tru, m, lval);
      WidthClosed(fal, m, lval);
      ClosedMax(m, Width(tru, m, lval, true), Depth(tru), Need(tru, lval), Width(fal, m, lval, true), Depth(fal), Need(fal, lval));
    case _ => ClosedLeaf(e, m, lval);
  }

  lemma ClosedBinary(e: Expr, m: nat, lval: nat)
    requires e.Binary? && e.op != Times
    requires Closed(Width(e.left, m, 0, true), m, Depth(e.left), Need(e.left, 0))
    requires Closed(Width(e.right, m, 0, true), m, Depth(e.right), Need(e.right, 0))
    ensures Closed(Width(e, m, lval, true), m, Depth(e), Need(e, lval))
  {
    hide Closed;
    var l, r := e.left, e.right;
    var w, x := Width(l, m, 0, true), Width(r, m, 0, true);
    if e.op == Bitwise {
      ClosedMax(m, w, Depth(l), Need(l, 0), x, Depth(r), Need(r, 0));
      ClosedRaised(m, Max(w, x), Max(Depth(l), Depth(r)), Max(Need(l, 0), Need(r, 0)));
    } else {
      ClosedSum(m, w, Depth(l), Need(l, 0), x, Depth(r), Need(r, 0));
    }
  }

  /** Without sums a larger minimum adds nothing to itself. */
  lemma {:induction false} FlatAbsorbs(e: Expr, min: nat, wf: nat, lval: nat)
    requires NoProduct(e) && Depth(e) == 0
    ensures Max(Width(e, Max(min, wf), lval, true), wf) == Max(Width(e, min, lval, true), wf)
  {
    match e
    case Unary(_, sub) => FlatAbsorbs(sub, min, wf, lval);
    case Binary(_, op, l, r) => FlatAbsorbs(l, min, wf, 0); FlatAbsorbs(r, min, wf, 0);
    case Ternary(_, tru, fal) => FlatAbsorbs(tru, min, wf, lval); FlatAbsorbs(fal, min, wf, lval);
    case _ =>
  }

  /** The order of the branches does not matter exactly when the true branch has no sum, or the false
      branch is no wider than the minimum, or the leaves of the true branch need as much anyway. */
  predicate OrderIrrelevant(tru: Expr, min: nat, wf: nat, lval: nat) {
    Depth(tru) == 0 || wf <= min || wf + Depth(tru) <= Need(tru, lval)
  }

  lemma SecondTestClosed(tru: Expr, min: nat, wf: nat, lval: nat)
    requires NoProduct(tru)
    ensures Max(Width(tru, Max(min, wf), lval, true), wf) == Max(Width(tru, min, lval, true), wf)
            <==> OrderIrrelevant(tru, min, wf, lval)
  {
    hide Width, Depth, Need, NoProduct;
    if Depth(tru) == 0 {
      FlatAbsorbs(tru, min, wf, lval);
    } else {
      WidthClosed(tru, min, lval);
      WidthClosed(tru, Max(min, wf), lval);
    }
  }

  /** A late conditional over branches without late conditionals: the exact width found, never less than
      what the one pass gives. It is the same for a true branch without products exactly under the
      condition above, and in general exactly when the larger minimum does not take the true branch above
      both branches' one-pass widths; for a sum it does at least whenever the false branch is as wide. */
  lemma LateConditional(e: Expr, min: nat, lval: nat, m: Record)
    requires e.Ternary? && Distinct(e) && Late(e.tru, e.fal, false)
    requires NoLateBranch(e.tru, true) && NoLateBranch(e.fal, false)
    ensures var wf := Width(e.fal, min, lval, true);
            var wt := Width(e.tru, Max(min, wf), lval, true);
            var t, one := Test(e, min, lval, false, m), Width(e, min, lval, true);
            t.flag && t.width == Max(wt, wf) && t.width >= one
            && (NoProduct(e.tru) ==> (t.width == one <==> OrderIrrelevant(e.tru, min, wf, lval)))
            && (t.width == one <==> wt <= one)
            && (e.tru.Binary? && e.tru.op in {Plus, Minus} && Width(e.tru, min, lval, true) <= wf ==> t.width > one)
  {
    var wf := Width(e.fal, min, lval, true);
    TraversalIsOneVisit(e, min, lval, false, m);
    OnceIsWidth(e.fal, min, lval, false);
    OnceIsWidth(e.tru, Max(min, wf), lval, true);
    WidthMonotone(e.tru, min, Max(min, wf), lval, true);
    if NoProduct(e.tru) { SecondTestClosed(e.tru, min, wf, lval); }
  }

  // ----- sized expressions -----

  /** The greatest length of a leaf; literals are limited by the l-value. */
  function Longest(e: Expr, lval: nat): nat {
    match e
    case Number(_, len, _) => if 0 < lval < len then lval else len
    case Signal(_, len) => len
    case Parameter(_, len, _) => len
    case Unary(_, sub) => Longest(sub, lval)
    case Binary(_, _, l, r) => Max(Longest(l, 0), Longest(r, 0))
    case Ternary(_, tru, fal) => Max(Longest(tru, lval), Longest(fal, lval))
  }

  /** A sized expression, products included, takes its minimum or its longest leaf, and no more. */
  lemma {:induction false} SizedClosed(e: Expr, min: nat, lval: nat)
    ensures Max(min, Width(e, min, lval, false)) == Max(min, Longest(e, lval))
    ensures e.Binary? || e.Unary? || e.Signal? ==> Width(e, min, lval, false) == Max(min, Longest(e, lval))
  {
    match e
    case Unary(_, sub) => SizedClosed(sub, min, lval);
    case Binary(_, op, l, r) =>
      SizedClosed(l, min, 0);
      SizedClosed(r, min, 0);
      SizedCombine(op, min, Width(l, min, 0, false), Width(r, min, 0, false));
    case Ternary(_, tru, fal) => SizedClosed(tru, min, lval); SizedClosed(fal, min, lval);
    case _ =>
  }

  lemma SizedCombine(op: Op, min: nat, wl: nat, wr: nat)
    ensures Combine(op, min, wl, wr, false) == Max(Max(min, wl), Max(min, wr))
  {
  }

  lemma {:induction false} SizedHasNoLate(e: Expr)
    requires !HasUnsized(e)
    ensures NoLateBranch(e, false)
  {
    match e
    case Unary(_, sub) => SizedHasNoLate(sub);
    case Binary(_, _, l, r) => SizedHasNoLate(l); SizedHasNoLate(r);
    case Ternary(_, tru, fal) => SizedHasNoLate(tru); SizedHasNoLate(fal);
    case _ =>
  }

  /** So does the traversal whenever the flag ends down. */
  lemma SizedTraversal(e: Expr, min: nat, lval: nat, flag: bool, m: Record)
    requires Distinct(e)
    ensures var t := Test(e, min, lval, flag, m);
            !t.flag ==> Max(min, t.width) == Max(min, Longest(e, lval))
                        && (e.Binary? || e.Unary? || e.Signal? ==> t.width == Max(min, Longest(e, lval)))
  {
    TraversalIsOneVisit(e, min, lval, flag, m);
    if !flag && !HasUnsized(e) {
      SizedHasNoLate(e);
      OnceIsWidth(e, min, lval, false);
      SizedClosed(e, min, lval);
    }
  }

  // ----- widths and values -----

  /** The exact value under a valuation of the leaves. */
  function Value(e: Expr, env: nat -> int): int
    requires Chain(e)
  {
    match e
    case Binary(_, op, l, r) => if op == Plus then Value(l, env) + Value(r, env) else Value(l, env) - Value(r, env)
    case _ => env(e.id)
  }

  /** Sums and differences of leaves. */
  predicate Chain(e: Expr) {
    match e
    case Binary(_, op, l, r) => (op == Plus || op == Minus) && Chain(l) && Chain(r)
    case Unary(_, _) => false
    case Ternary(_, _, _) => false
    case _ => true
  }

  predicate AllPlus(e: Expr) {
    Chain(e) && (e.Binary? ==> e.op == Plus && AllPlus(e.left) && AllPlus(e.right))
  }

  /** Leaves hold values of their own length. */
  predicate Fits(e: Expr, env: nat -> int) {
    match e
    case Unary(_, sub) => Fits(sub, env)
    case Binary(_, _, l, r) => Fits(l, env) && Fits(r, env)
    case Ternary(_, tru, fal) => Fits(tru, env) && Fits(fal, env)
    case _ => 0 <= env(e.id) < Pow2(e.len)
  }

  /** An unsized chain is wide enough for its exact value: a sum of non-negative operands is below
      2^width, and a difference is within 2^width of zero. */
  lemma {:induction false} UnsizedChainLossless(e: Expr, env: nat -> int, min: nat)
    requires Chain(e) && Fits(e, env)
    ensures var w := Width(e, min, 0, true);
            0 - Pow2(w) < Value(e, env) < Pow2(w) && (AllPlus(e) ==> Value(e, env) >= 0)
  {
    match e
    case Binary(_, op, l, r) =>
      UnsizedChainLossless(l, env, min);
      UnsizedChainLossless(r, env, min);
      var n := Max(min, Max(Width(l, min, 0, true), Width(r, min, 0, true)));
      Pow2Monotone(Width(l, min, 0, true), n);
      Pow2Monotone(Width(r, min, 0, true), n);
      assert Pow2(n + 1) == 2 * Pow2(n);
    case Number(_, len, _) => Pow2Monotone(len, Max(min, len));
    case Signal(_, len) => Pow2Monotone(len, Max(min, len));
    case _ =>
  }

  /** What the traversal finds for a chain: when the flag ends set, the width holds the exact value. */
  lemma FlaggedChainLossless(e: Expr, env: nat -> int, min: nat, flag: bool, m: Record)
    requires Chain(e) && Distinct(e) && Fits(e, env)
    ensures var t := Test(e, min, 0, flag, m);
            t.flag == (flag || HasUnsized(e))
            && (t.flag ==> 0 - Pow2(t.width) < Value(e, env) < Pow2(t.width) && (AllPlus(e) ==> 0 <= Value(e, env)))
  {
    ChainHasNoBranch(e, flag);
    TwoPassIsOnePass(e, min, 0, flag, m);
    if flag || HasUnsized(e) { UnsizedChainLossless(e, env, min); }
  }

  lemma {:induction false} ChainHasNoBranch(e: Expr, flag: bool)
    requires Chain(e)
    ensures NoLateBranch(e, flag)
  {
    if e.Binary? {
      ChainHasNoBranch(e.left, flag || HasUnsized(e.right));
      ChainHasNoBranch(e.right, flag || HasUnsized(e.left));
    }
  }

  /** Without the flag the carry has no place: 15 + 15 is tested as 4 bits. */
  lemma SizedSumOverflows()
    ensures var e := Binary(0, Plus, Signal(1, 4), Signal(2, 4));
            var env := (i: nat) => 15;
            Fits(e, env) && Test(e, 0, 0, false, map[]).width == 4 && Value(e, env) >= Pow2(4)
  {
  }

  // ----- unsized products -----

  /** An unsized product is as narrow as it may be that is as wide as its minimum, its operands, and the
      operands' widths together, or 32 if that is less. */
  lemma ProductNode(l: Expr, r: Expr, id: nat, min: nat, lval: nat)
    ensures var wl, wr := Width(l, min, 0, true), Width(r, min, 0, true);
            var w := Width(Binary(id, Times, l, r), min, lval, true);
            w >= min && w >= wl && w >= wr && (w >= wl + wr || w >= 32)
            && (w == min || w == wl || w == wr || w == wl + wr <= 32 || w == 32 < wl + wr)
  {
  }

  /** Products of signals and literals. */
  predicate Product(e: Expr) {
    match e
    case Number(_, _, _) => true
    case Signal(_, _) => true
    case Binary(_, op, l, r) => op == Times && Product(l) && Product(r)
    case _ => false
  }

  /** The lengths of the leaves, each at least the minimum, together. */
  function Total(e: Expr, min: nat): nat
    requires Product(e)
  {
    match e
    case Number(_, len, _) => Max(len, min)
    case Signal(_, len) => Max(len, min)
    case Binary(_, _, l, r) => Total(l, min) + Total(r, min)
  }

  function ProductWidth(total: nat, longest: nat): nat {
    if total <= 32 then total else Max(32, longest)
  }

  lemma ProductCombine(min: nat, t: nat, m: nat, u: nat, n: nat)
    requires min <= m <= t && min <= n <= u
    ensures Combine(Times, min, ProductWidth(t, m), ProductWidth(u, n), true) == ProductWidth(t + u, Max(m, n))
  {
    assert t <= 32 && u <= 32 ==> ProductWidth(t, m) + ProductWidth(u, n) == t + u;
    assert t > 32 || u > 32 ==> ProductWidth(t, m) + ProductWidth(u, n) >= 32;
  }

  lemma MaxMax(m: nat, a: nat, b: nat)
    ensures Max(m, Max(a, b)) == Max(Max(m, a), Max(m, b))
  {
  }

  /** Such a product takes the lengths of its leaves together; beyond 32 it takes 32, or the longest leaf. */
  lemma {:induction false} ProductClosed(e: Expr, min: nat)
    requires Product(e)
    ensures Width(e, min, 0, true) == ProductWidth(Total(e, min), Max(min, Longest(e, 0)))
    ensures Max(min, Longest(e, 0)) <= Total(e, min)
  {
    hide Max, Combine, ProductWidth;
    match e
    case Binary(_, op, l, r) =>
      ProductClosed(l, min);
      ProductClosed(r, min);
      var m, n := Max(min, Longest(l, 0)), Max(min, Longest(r, 0));
      ProductCombine(min, Total(l, min), m, Total(r, min), n);
      MaxMax(min, Longest(l, 0), Longest(r, 0));
    case Number(_, len, _) => LeafProduct(len, min);
    case Signal(_, len) => LeafProduct(len, min);
  }

  lemma LeafProduct(len: nat, min: nat)
    ensures ProductWidth(Max(len, min), Max(min, len)) == Max(len, min) == Max(min, len) == NumberWidth(len, min, 0)
    ensures NumberWidth(len, 0, 0) == len
  {
  }

  function ProductValue(e: Expr, env: nat -> int): int
    requires Product(e)
  {
    match e
    case Binary(_, _, l, r) => ProductValue(l, env) * ProductValue(r, env)
    case _ => env(e.id)
  }

  lemma {:induction false} ProductBelow(e: Expr, env: nat -> int, min: nat)
    requires Product(e) && Fits(e, env)
    ensures 0 <= ProductValue(e, env) < Pow2(Total(e, min))
  {
    match e
    case Binary(_, _, l, r) =>
      ProductBelow(l, env, min);
      ProductBelow(r, env, min);
      Pow2Add(Total(l, min), Total(r, min));
      ProductOfBounds(ProductValue(l, env), ProductValue(r, env), Pow2(Total(l, min)), Pow2(Total(r, min)));
    case Number(_, len, _) => Pow2Monotone(len, Max(len, min));
    case Signal(_, len) => Pow2Monotone(len, Max(len, min));
  }

  lemma ProductOfBounds(x: nat, y: nat, m: nat, n: nat)
    requires x < m && y < n
    ensures 0 <= x * y < m * n
  {
    assert m * n == x * y + x * (n - y) + (m - x) * n;
    assert (m - x) * n > 0 && x * (n - y) >= 0;
  }

  /** So what the traversal finds for a product when the flag ends set holds the exact value, unless the
      leaves together have more than 32 bits. */
  lemma FlaggedProductLossless(e: Expr, env: nat -> int, min: nat, flag: bool, m: Record)
    requires Product(e) && Distinct(e) && Fits(e, env)
    ensures var t := Test(e, min, 0, flag, m);
            t.flag ==> if Total(e, min) <= 32 then t.width == Total(e, min) && ProductValue(e, env) < Pow2(t.width)
                       else t.width == Max(32, Max(min, Longest(e, 0)))
  {
    ProductHasNoBranch(e, flag);
    TwoPassIsOnePass(e, min, 0, flag, m);
    ProductClosed(e, min);
    ProductBelow(e, env, min);
  }

  lemma {:induction false} ProductHasNoBranch(e: Expr, flag: bool)
    requires Product(e)
    ensures NoLateBranch(e, flag)
  {
    if e.Binary? {
      ProductHasNoBranch(e.left, flag || HasUnsized(e.right));
      ProductHasNoBranch(e.right, flag || HasUnsized(e.left));
    }
  }

  /** The order of a conditional's branches matters: the sum gets 33 bits before the unsized literal
      and the conditional 32 after it. */
  lemma BranchOrderShows()
    ensures var sum, one := Binary(0, Plus, Signal(1, 8), Signal(2, 8)), Number(3, 32, false);
            Test(Ternary(4, sum, one), 0, 0, false, map[]).width == 33
            && Test(Ternary(4, one, sum), 0, 0, false, map[]).width == 32
            && Width(Ternary(4, sum, one), 0, 0, true) == 32
  {
    var sum, one := Binary(0, Plus, Signal(1, 8), Signal(2, 8)), Number(3, 32, false);
    assert Test(sum, 0, 0, false, map[]).width == 8;
    assert forall m: Record :: Test(sum, 32, 0, true, m).width == 33;
    assert forall m: Record :: Test(sum, 0, 0, true, m).width == 9;
  }
}
