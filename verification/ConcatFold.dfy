/** Concatenation of constants: the folder (`NetEConcat::eval_tree`, eval_tree.cc) and the
    parse-tree evaluator (`PEConcat::eval_const`, eval.cc).
 */
module ConcatFold {
  import opened Wrappers
  import opened Powers
  import opened Wrapping
  import opened Verinums

  /** A place in the operand list: nothing, a constant, or an expression with the constant its own
      `eval_tree` gives, if it gives one. */
  datatype Operand = Missing | Const(val: Verinum) | Open(result: Option<Verinum>)

  /** What a place holds after the evaluation loop. */
  function Settled(p: Operand): Operand {
    if p.Open? && p.result.Some? then Const(p.result.value) else p
  }

  function Settle(ps: seq<Operand>): (r: seq<Operand>)
    ensures |r| == |ps|
  {
    seq(|ps|, i requires 0 <= i < |ps| => Settled(ps[i]))
  }

  /** A freshly folded operand of no definite width, or of width zero, is an error. */
  predicate Rejected(p: Operand) {
    p.Open? && p.result.Some? && (!p.result.value.hasLen || p.result.value.bits == [])
  }

  predicate AnyRejected(ps: seq<Operand>) {
    exists i | 0 <= i < |ps| :: Rejected(ps[i])
  }

  function Width(p: Operand): nat {
    if p.Const? then |p.val.bits| else 0
  }

  /** Total width of the constants of the list. */
  function Gap(ps: seq<Operand>): nat {
    if ps == [] then 0 else Width(ps[0]) + Gap(ps[1..])
  }

  predicate AllConst(ps: seq<Operand>) {
    forall i | 0 <= i < |ps| :: ps[i].Const?
  }

  /** The operands side by side; the first one is the most significant. */
  function Flat(ps: seq<Operand>): (r: Bits)
    requires AllConst(ps)
    ensures |r| == Gap(ps)
  {
    if ps == [] then [] else Flat(ps[1..]) + ps[0].val.bits
  }

  function Copies(b: Bits, n: nat): Bits {
    if n == 0 then [] else b + Copies(b, n - 1)
  }

  /** What the folder's `EvalTree` gives, and what the parse-tree `EvalConst` gives on the same operands. */
  function FolderGives(ps: seq<Operand>, repeat: nat): Option<Bits> {
    if AllConst(Settle(ps)) && !AnyRejected(ps) then Some(Copies(Flat(Settle(ps)), repeat)) else None
  }

  function EvaluatorGives(ps: seq<Operand>): Option<Bits> {
    if AllConst(Settle(ps)) then Some(Flat(Settle(ps))) else None
  }

  // ----- what a concatenation means -----

  /** Bit `j` of the copies is bit `j` modulo the width of one copy. */
  lemma {:induction false} CopiesAt(b: Bits, n: nat)
    ensures |Copies(b, n)| == n * |b|
    ensures b != [] ==> forall j | 0 <= j < n * |b| :: Copies(b, n)[j] == b[j % |b|]
  {
    if n > 0 {
      CopiesAt(b, n - 1);
      assert n * |b| == |b| + (n - 1) * |b|;
      if b != [] {
        forall j | 0 <= j < n * |b| ensures Copies(b, n)[j] == b[j % |b|] {
          if j < |b| {
            DivModUnique(0, j, |b|, j);
          } else {
            var k := j - |b|;
            assert j == k % |b| + |b| * (k / |b| + 1);
            DivModUnique(k / |b| + 1, k % |b|, |b|, j);
          }
        }
      }
    }
  }

  /** The folder gives a constant exactly when every place holds one, or an expression that folds to one
      with a length and a width; the evaluator does not ask for those. */
  lemma FoldsExactly(ps: seq<Operand>, repeat: nat)
    ensures FolderGives(ps, repeat).Some? <==>
              forall i | 0 <= i < |ps| ::
                ps[i].Const? || (ps[i].Open? && ps[i].result.Some? && ps[i].result.value.hasLen && |ps[i].result.value.bits| > 0)
    ensures EvaluatorGives(ps).Some? <==> forall i | 0 <= i < |ps| :: ps[i].Const? || (ps[i].Open? && ps[i].result.Some?)
  {
    var qs := Settle(ps);
    if AllConst(qs) {
      forall i | 0 <= i < |ps| ensures ps[i].Const? || (ps[i].Open? && ps[i].result.Some?) { assert qs[i].Const?; }
      if !AnyRejected(ps) {
        forall i | 0 <= i < |ps| && ps[i].Open? ensures ps[i].result.value.hasLen && |ps[i].result.value.bits| > 0 {
          assert qs[i].Const? && !Rejected(ps[i]);
        }
      }
    }
  }

  /** Operand `i` starts where the widths of the operands after it end. */
  lemma {:induction false} FlatAt(ps: seq<Operand>, i: nat, k: nat)
    requires AllConst(ps) && i < |ps| && k < |ps[i].val.bits|
    ensures Gap(ps[i + 1..]) + k < |Flat(ps)| && Flat(ps)[Gap(ps[i + 1..]) + k] == ps[i].val.bits[k]
  {
    if i > 0 {
      assert ps[1..][i..] == ps[i + 1..];
      FlatAt(ps[1..], i - 1, k);
    }
  }

  /** Prepending an operand adds its value above the others'. */
  lemma FlatValue(ps: seq<Operand>)
    requires ps != [] && AllConst(ps)
    ensures Val(Flat(ps)) == Val(Flat(ps[1..])) + Pow2(Gap(ps[1..])) * Val(ps[0].val.bits)
  {
    ValAppend(Flat(ps[1..]), ps[0].val.bits);
  }

  // ----- writing the bits -----

  /** Cell `j` has been written when columns below `cur`, and `reps` copies of column `cur`, have. */
  predicate Done(j: nat, gap: nat, cur: nat, reps: nat) {
    gap > 0 && (j % gap < cur || (j % gap == cur && j / gap < reps))
  }

  lemma DoneStep(j: nat, gap: nat, cur: nat, reps: nat)
    requires cur < gap
    ensures Done(j, gap, cur, reps + 1) <==> Done(j, gap, cur, reps) || j == reps * gap + cur
    ensures !Done(reps * gap + cur, gap, cur, reps)
  {
    DivModUnique(reps, cur, gap, reps * gap + cur);
    assert j == (j / gap) * gap + j % gap;
  }

  lemma DoneColumn(j: nat, gap: nat, cur: nat, repeat: nat)
    requires cur < gap && j < repeat * gap
    ensures Done(j, gap, cur + 1, 0) <==> Done(j, gap, cur, repeat)
  {
    QuotientBound(j, gap, repeat);
  }

  lemma QuotientBound(j: nat, gap: nat, repeat: nat)
    requires gap > 0 && j < repeat * gap
    ensures j / gap < repeat
  {
    var d := j / gap - repeat + 1;
    assert j == (j / gap) * gap + j % gap;
    assert gap * d == (j / gap) * gap - repeat * gap + gap;
    MulAtLeast(gap, d);
  }

  lemma CellInRange(reps: nat, repeat: nat, gap: nat, cur: nat)
    requires reps < repeat && cur < gap
    ensures reps * gap + cur < repeat * gap
  {
    MulAtLeast(gap, repeat - reps);
    assert gap * (repeat - reps) == repeat * gap - reps * gap;
  }

  /** Each written cell holds its bit and has been written once; no other has been written. */
  ghost predicate Progress(val: seq<V>, writes: seq<nat>, row: Bits, gap: nat, cur: nat, reps: nat) {
    |writes| == |val| && |row| <= gap
    && (forall j | 0 <= j < |val| :: writes[j] == if Done(j, gap, cur, reps) then 1 else 0)
    && (forall j | 0 <= j < |val| :: Done(j, gap, cur, reps) ==> j % gap < |row| && val[j] == row[j % gap])
  }

  /** One bit of an operand, in every copy. */
  method WriteColumn(val: array<V>, gap: nat, repeat: nat, cur: nat, bit: V, ghost row: Bits, ghost writes: seq<nat>)
    returns (ghost after: seq<nat>)
    requires val.Length == repeat * gap && cur < |row| <= gap && row[cur] == bit
    requires Progress(val[..], writes, row, gap, cur, 0)
    modifies val
    ensures Progress(val[..], after, row, gap, cur + 1, 0)
  {
    after := writes;
    var rep := 0;
    while rep < repeat
      invariant 0 <= rep <= repeat
      invariant Progress(val[..], after, row, gap, cur, rep)
    {
      CellInRange(rep, repeat, gap, cur);
      ghost var was := val[..];
      val[rep * gap + cur] := bit;
      assert val[..] == was[rep * gap + cur := row[cur]];
      ProgressStep(was, after, row, gap, cur, rep);
      after := after[rep * gap + cur := after[rep * gap + cur] + 1];
      rep := rep + 1;
    }
    ProgressColumn(val[..], after, row, gap, cur, repeat);
  }

  lemma ProgressColumn(val: seq<V>, writes: seq<nat>, row: Bits, gap: nat, cur: nat, repeat: nat)
    requires |val| == repeat * gap && cur < |row| && Progress(val, writes, row, gap, cur, repeat)
    ensures Progress(val, writes, row, gap, cur + 1, 0)
  {
    forall j | 0 <= j < |val|
      ensures Done(j, gap, cur + 1, 0) <==> Done(j, gap, cur, repeat)
    {
      DoneColumn(j, gap, cur, repeat);
    }
  }

  lemma ProgressStep(val: seq<V>, writes: seq<nat>, row: Bits, gap: nat, cur: nat, rep: nat)
    requires Progress(val, writes, row, gap, cur, rep) && cur < |row| && rep * gap + cur < |val|
    ensures var i := rep * gap + cur;
            Progress(val[i := row[cur]], writes[i := writes[i] + 1], row, gap, cur, rep + 1)
  {
    var i := rep * gap + cur;
    DivModUnique(rep, cur, gap, i);
    forall j | 0 <= j < |val|
      ensures Done(j, gap, cur, rep + 1) <==> Done(j, gap, cur, rep) || j == i
      ensures !Done(i, gap, cur, rep)
    {
      DoneStep(j, gap, cur, rep);
    }
  }

  /** More bits of the row do not disturb what has been written. */
  lemma ProgressExtends(val: seq<V>, writes: seq<nat>, row: Bits, more: Bits, gap: nat, cur: nat)
    requires Progress(val, writes, row, gap, cur, 0) && |row| + |more| <= gap
    ensures Progress(val, writes, row + more, gap, cur, 0)
  {
  }

  lemma ProgressStart(val: seq<V>, writes: seq<nat>, gap: nat)
    requires |val| == |writes| && forall j | 0 <= j < |writes| :: writes[j] == 0
    ensures Progress(val, writes, [], gap, 0, 0)
  {
    forall j | 0 <= j < |val| ensures !Done(j, gap, 0, 0) {
      if gap > 0 { assert j % gap >= 0 && j / gap >= 0; }
    }
  }

  lemma ProgressEnd(val: seq<V>, writes: seq<nat>, row: Bits, repeat: nat)
    requires |val| == repeat * |row| && Progress(val, writes, row, |row|, |row|, 0)
    ensures val == Copies(row, repeat) && forall j | 0 <= j < |val| :: writes[j] == 1
  {
    CopiesAt(row, repeat);
    assert row == [] ==> repeat * |row| == 0;
    forall j | 0 <= j < |val| ensures Done(j, |row|, |row|, 0) {}
  }

  lemma GapSplit(ps: seq<Operand>, i: nat)
    requires i <= |ps|
    ensures Gap(ps) == Gap(ps[..i]) + Gap(ps[i..])
  {
    if i > 0 {
      assert ps[1..][..i - 1] == ps[..i][1..] && ps[1..][i - 1..] == ps[i..];
      GapSplit(ps[1..], i - 1);
    } else {
      assert ps[..0] == [] && ps[0..] == ps;
    }
  }

  lemma SettleOne(ps: seq<Operand>, i: nat)
    requires i < |ps|
    ensures (Settle(ps[..i]) + ps[i..])[i := Settled(ps[i])] == Settle(ps[..i + 1]) + ps[i + 1..]
  {
  }

  lemma GapOneMore(ps: seq<Operand>, i: nat)
    requires i < |ps|
    ensures Gap(Settle(ps[..i + 1])) == Gap(Settle(ps[..i])) + Width(Settled(ps[i]))
  {
    var now := Settle(ps[..i + 1]);
    GapSplit(now, i);
    assert now[..i] == Settle(ps[..i]) && now[i..] == [Settled(ps[i])];
    assert [Settled(ps[i])][1..] == [];
  }

  lemma RejectedOneMore(ps: seq<Operand>, i: nat)
    requires i < |ps|
    ensures AnyRejected(ps[..i + 1]) <==> AnyRejected(ps[..i]) || Rejected(ps[i])
  {
    assert ps[..i + 1][i] == ps[i];
    assert forall k | 0 <= k < i :: ps[..i + 1][k] == ps[..i][k];
    if AnyRejected(ps[..i]) {
      var k :| 0 <= k < i && Rejected(ps[..i][k]);
      assert Rejected(ps[..i + 1][k]);
    }
  }

  // ----- the folder -----

  class NetEConcat {
    const parms: array<Operand>
    const repeat: nat
    var hasSign: bool

    constructor (parms: array<Operand>, repeat: nat, hasSign: bool)
      ensures this.parms == parms && this.repeat == repeat && this.hasSign == hasSign
    {
      this.parms, this.repeat, this.hasSign := parms, repeat, hasSign;
    }

    /** Replace one operand by its value. */
    method EvalOperand(idx: nat) returns (width: nat, bad: bool)
      requires idx < parms.Length
      modifies parms
      ensures parms[..] == old(parms[..])[idx := Settled(old(parms[idx]))]
      ensures width == Width(parms[idx]) && bad == Rejected(old(parms[idx]))
    {
      width, bad := 0, false;
      if parms[idx].Const? {
        width := |parms[idx].val.bits|;
      } else if parms[idx].Open? && parms[idx].result.Some? {
        var expr := parms[idx].result.value;
        parms[idx] := Const(expr);
        bad := !expr.hasLen || expr.bits == [];
        width := |expr.bits|;
      }
    }

    /** Replace operands by their values and add up the widths. */
    method EvalOperands() returns (gap: nat, errors: nat)
      modifies parms
      ensures parms[..] == Settle(old(parms[..]))
      ensures gap == Gap(parms[..])
      ensures errors > 0 <==> AnyRejected(old(parms[..]))
    {
      gap, errors := 0, 0;
      var idx := 0;
      ghost var was := parms[..];
      while idx < parms.Length
        invariant 0 <= idx <= parms.Length
        invariant parms[..] == Settle(was[..idx]) + was[idx..]
        invariant gap == Gap(Settle(was[..idx]))
        invariant errors > 0 <==> AnyRejected(was[..idx])
      {
        assert parms[idx] == parms[..][idx] == was[idx];
        SettleOne(was, idx);
        GapOneMore(was, idx);
        RejectedOneMore(was, idx);
        var width, bad := EvalOperand(idx);
        gap := gap + width;
        if bad { errors := errors + 1; }
        idx := idx + 1;
      }
      assert was[..idx] == was && was[idx..] == [];
    }

    /** The folded constant, or nothing when an operand is unusable or not constant. Every bit of the
        result is written exactly once, and it is `repeat` copies of the operands. */
    method EvalTree() returns (res: Option<Verinum>, ghost writes: seq<nat>)
      requires parms.Length > 0
      modifies parms
      ensures parms[..] == Settle(old(parms[..]))
      ensures res.Some? <==> AllConst(parms[..]) && !AnyRejected(old(parms[..]))
      ensures res.Some? ==> res.value == Verinum(Copies(Flat(parms[..]), repeat), true, hasSign)
      ensures FolderGives(old(parms[..]), repeat) == if res.Some? then Some(res.value.bits) else None
      ensures res.Some? ==> |writes| == |res.value.bits| && forall j | 0 <= j < |writes| :: writes[j] == 1
    {
      writes := [];
      var gap, errors := EvalOperands();
      if errors > 0 { return None, writes; }
      ghost var ps := parms[..];
      assert repeat * gap >= 0;
      var val := new V[repeat * gap](i => Vx);
      writes := seq(repeat * gap, i => 0);
      ProgressStart(val[..], writes, gap);
      var cur, idx := 0, parms.Length;
      assert ps[idx..] == [];
      while idx > 0
        invariant 0 <= idx <= parms.Length && parms[..] == ps && gap == Gap(ps)
        invariant AllConst(ps[idx..]) && cur == Gap(ps[idx..])
        invariant Progress(val[..], writes, Flat(ps[idx..]), gap, cur, 0)
      {
        if !parms[idx - 1].Const? {
          assert ps[idx - 1] == parms[idx - 1];
          return None, writes;
        }
        ghost var row := Flat(ps[idx..]);
        assert ps[idx - 1..] == [ps[idx - 1]] + ps[idx..];
        GapSplit(ps, idx - 1);
        writes := WriteOperand(val, gap, cur, parms[idx - 1].val.bits, row, writes);
        cur := cur + |parms[idx - 1].val.bits|;
        idx := idx - 1;
      }
      assert ps[0..] == ps;
      ProgressEnd(val[..], writes, Flat(ps), repeat);
      res := Some(Verinum(val[..], true, hasSign));
    }

    method WriteOperand(val: array<V>, gap: nat, cur: nat, bits: Bits, ghost row: Bits, ghost writes: seq<nat>)
      returns (ghost after: seq<nat>)
      requires val.Length == repeat * gap && cur == |row| && cur + |bits| <= gap
      requires Progress(val[..], writes, row, gap, cur, 0)
      modifies val
      ensures Progress(val[..], after, row + bits, gap, cur + |bits|, 0)
    {
      after := writes;
      ProgressExtends(val[..], writes, row, bits, gap, cur);
      var bit := 0;
      while bit < |bits|
        invariant 0 <= bit <= |bits|
        invariant Progress(val[..], after, row + bits, gap, cur + bit, 0)
      {
        assert (row + bits)[cur + bit] == bits[bit];
        after := WriteColumn(val, gap, repeat, cur + bit, bits[bit], row + bits, after);
        bit := bit + 1;
      }
    }
  }

  // ----- the parse-tree evaluator -----

  /** `concat`: the right operand is the low part. */
  function ConcatTwo(left: Bits, right: Bits): Bits {
    right + left
  }

  lemma {:induction false} FlatAppend(ps: seq<Operand>, qs: seq<Operand>)
    requires AllConst(ps) && AllConst(qs)
    ensures AllConst(ps + qs) && Flat(ps + qs) == Flat(qs) + Flat(ps)
  {
    if ps == [] {
      assert ps + qs == qs;
    } else {
      var all, rest := ps + qs, ps[1..];
      FlatAppend(rest, qs);
      assert all[0] == ps[0] && all[1..] == rest + qs;
      assert (Flat(qs) + Flat(rest)) + ps[0].val.bits == Flat(qs) + (Flat(rest) + ps[0].val.bits);
    }
  }

  lemma FlatSnoc(ps: seq<Operand>, idx: nat)
    requires idx < |ps| && AllConst(ps[..idx]) && ps[idx].Const?
    ensures AllConst(ps[..idx + 1]) && Flat(ps[..idx + 1]) == ps[idx].val.bits + Flat(ps[..idx])
  {
    assert ps[..idx + 1] == ps[..idx] + [ps[idx]];
    assert [ps[idx]][1..] == [];
    FlatAppend(ps[..idx], [ps[idx]]);
  }

  /** Every operand is appended below the accumulated ones; the repeat count is not looked at. */
  method EvalConst(ps: seq<Operand>) returns (res: Option<Bits>)
    requires ps != []
    ensures res == EvaluatorGives(ps)
  {
    var first := Settled(ps[0]);
    if !first.Const? {
      assert !Settle(ps)[0].Const?;
      return None;
    }
    var accum := first.val.bits;
    FlatSnoc(Settle(ps), 0);
    var idx := 1;
    while idx < |ps|
      invariant 1 <= idx <= |ps|
      invariant AllConst(Settle(ps)[..idx]) && accum == Flat(Settle(ps)[..idx])
    {
      var tmp := Settled(ps[idx]);
      if !tmp.Const? {
        assert !Settle(ps)[idx].Const?;
        return None;
      }
      FlatSnoc(Settle(ps), idx);
      accum := ConcatTwo(accum, tmp.val.bits);
      idx := idx + 1;
    }
    assert Settle(ps)[..idx] == Settle(ps);
    res := Some(accum);
  }

  /** The copies are one copy exactly when there is one, or nothing to copy. */
  lemma OneCopyExactly(ps: seq<Operand>, repeat: nat)
    requires AllConst(ps)
    ensures Copies(Flat(ps), repeat) == Flat(ps) <==> repeat == 1 || Gap(ps) == 0
  {
    CopiesAt(Flat(ps), repeat);
    if Gap(ps) == 0 {
      assert repeat * 0 == 0;
    } else if repeat == 1 {
      assert Copies(Flat(ps), 1) == Flat(ps) + Copies(Flat(ps), 0);
    } else if repeat > 1 {
      assert repeat * Gap(ps) == Gap(ps) + (repeat - 1) * Gap(ps);
      assert (repeat - 1) * Gap(ps) > 0;
    }
  }

  /** The two evaluators agree exactly when some operand has no constant, or none is rejected and there is
      one copy or nothing to copy. */
  lemma EvaluatorsAgreeExactly(ps: seq<Operand>, repeat: nat)
    ensures FolderGives(ps, repeat) == EvaluatorGives(ps)
            <==> !AllConst(Settle(ps)) || (!AnyRejected(ps) && (repeat == 1 || Gap(Settle(ps)) == 0))
  {
    if AllConst(Settle(ps)) { OneCopyExactly(Settle(ps), repeat); }
  }
}
