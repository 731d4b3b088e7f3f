/** Shifts of constants: the folder (`NetEBShift::eval_tree`, eval_tree.cc) and the parse-tree
    evaluator (`PEBinary::eval_const`, eval.cc). The folder keeps the shift amount in 32 bits, the
    evaluator in 64.
 */
module ShiftFold {
  import opened Powers
  import opened Wrapping
  import opened Verinums

  datatype ShiftOp = ShiftLeft | ShiftRight | ArithRight

  /** A constant, or a failed `assert`. */
  datatype Outcome = Abort | Constant(val: Verinum)

  const UNSIGNED: nat := 0x1_0000_0000

  // ----- verinum operations -----

  /** `as_ulong`: the low 64 bits of a defined number. */
  function AsULong(v: Verinum): nat {
    if !Defined(v.bits) then 0 else Val(v.bits[..if |v.bits| > LONG_BITS then LONG_BITS else |v.bits|])
  }

  /** It is the number modulo 2^64, and 0 for an undefined one. */
  lemma AsULongValue(v: Verinum)
    ensures AsULong(v) == if Defined(v.bits) then Val(v.bits) % Pow2(LONG_BITS) else 0
  {
    hide Pow2, Val;
    if |v.bits| > LONG_BITS {
      ValDivMod(v.bits, LONG_BITS);
    } else {
      assert v.bits[..|v.bits|] == v.bits;
      ValBound(v.bits);
      Pow2Monotone(|v.bits|, LONG_BITS);
      DivModUnique(0, Val(v.bits), Pow2(LONG_BITS), Val(v.bits));
    }
  }

  /** Highest position above 0 not holding `v`, searching downwards from `top`. */
  function Scan(b: Bits, top: nat, v: V): (r: nat)
    requires top < |b|
    ensures r <= top && (forall i | r < i <= top :: b[i] == v) && (r == 0 || b[r] != v)
  {
    if top > 0 && b[top] == v then Scan(b, top - 1, v) else top
  }

  /** `trim_vnum`: drop leading zeros, or copies of the sign, of a number without a length. */
  function Trim(v: Verinum): (r: Verinum)
    requires v.bits != []
    ensures r.bits != [] && r.hasLen == v.hasLen && r.hasSign == v.hasSign && r.bits <= v.bits
  {
    var last := |v.bits| - 1;
    if v.hasLen || last == 0 then v
    else if v.hasSign then
      var sign := v.bits[last];
      var top := Scan(v.bits, last, sign);
      Verinum(v.bits[..if v.bits[top] != sign then top + 2 else top + 1], false, true)
    else
      var top := Scan(v.bits, last, V0);
      if top == last then v else Verinum(v.bits[..if v.bits[top] == V0 then top + 1 else top + 2], false, false)
  }

  /** Dropping zeros, or copies of the sign, from the top keeps the value. */
  lemma DropFill(b: Bits, k: nat, pad: V)
    requires k <= |b| && forall i | k <= i < |b| :: b[i] == pad
    ensures pad == V0 ==> Val(b[..k]) == Val(b)
    ensures 0 < k && b[k - 1] == pad == b[|b| - 1] ==> SVal(b[..k]) == SVal(b)
  {
    hide Val, Pow2;
    PaddedValue(b[..k], pad, |b| - k);
    assert b == b[..k] + Repeat(pad, |b| - k);
  }

  /** Trimming keeps the value: unsigned, or two's complement for a signed number. */
  lemma TrimValue(v: Verinum)
    requires v.bits != []
    ensures if v.hasSign then SVal(Trim(v).bits) == SVal(v.bits) else Val(Trim(v).bits) == Val(v.bits)
  {
    hide Val, SVal;
    var t := Trim(v).bits;
    assert t == v.bits[..|t|];
    DropFill(v.bits, |t|, if v.hasSign then v.bits[|v.bits| - 1] else V0);
  }

  /** Of the zeros, or copies of the sign, at the top of a number without a length one is left. */
  lemma TrimShape(v: Verinum)
    requires v.bits != [] && !v.hasLen
    ensures var pad, t := if v.hasSign then v.bits[|v.bits| - 1] else V0, Trim(v).bits;
            (forall i | |t| <= i < |v.bits| :: v.bits[i] == pad) && (|t| < |v.bits| ==> t[|t| - 1] == pad)
            && (|t| > 1 ==> t[|t| - 1] != pad || t[|t| - 2] != pad)
  {
    var last := |v.bits| - 1;
    var pad := if v.hasSign then v.bits[last] else V0;
    if last > 0 {
      var top := Scan(v.bits, last, pad);
      assert forall i | top < i <= last :: v.bits[i] == pad;
    }
  }

  // ----- what a shift gives -----

  /** `wid` bits of `b` moved by `s`; the positions left free hold `pad`. */
  function Shifted(op: ShiftOp, b: Bits, s: nat, pad: V, wid: nat): (r: Bits)
    ensures |r| == wid
  {
    if op.ShiftLeft? then seq(wid, i requires i >= 0 => if s <= i < s + |b| then b[i - s] else pad)
    else seq(wid, i requires i >= 0 => if i + s < |b| then b[i + s] else pad)
  }

  /** The bit that enters from the left. */
  function Pad(op: ShiftOp, b: Bits, signed: bool): V
    requires b != []
  {
    if op.ArithRight? && signed then b[|b| - 1] else V0
  }

  /** The operand as it is trimmed when it has no length, and the width worked at. */
  function Operand(op: ShiftOp, lv: Verinum, s: nat, width: nat, prune: int): (r: (Verinum, nat))
    requires lv.bits != []
    ensures r.0.bits != []
  {
    var early := if width == 0 || !lv.hasLen then Trim(lv) else lv;
    var wid :=
      if width == 0 || !lv.hasLen then
        if op.ShiftLeft? then (|early.bits| + s) % UNSIGNED else |early.bits|
      else width;
    (early, if prune > 0 && wid > prune then prune else wid)
  }

  /** The folder's result. */
  function FoldShift(op: ShiftOp, lv: Verinum, rv: Verinum, width: nat, prune: int, signed: bool): Outcome
    requires lv.bits != []
  {
    if !Defined(rv.bits) then
      Constant(Verinum(Repeat(Vx, if width == 0 then |lv.bits| else width), true, false))
    else
      var s := AsULong(rv) % UNSIGNED;
      var (v, wid) := Operand(op, lv, s, width, prune);
      if wid == 0 then Abort
      else Constant(Verinum(Shifted(op, v.bits, s, Pad(op, v.bits, signed), wid), v.hasLen, false))
  }

  /** `NetEBShift::eval_tree` on two constants. */
  method EvalTree(op: ShiftOp, lv: Verinum, rv: Verinum, width: nat, prune: int, signed: bool) returns (res: Outcome)
    requires lv.bits != []
    ensures res == FoldShift(op, lv, rv, width, prune, signed)
  {
    if !Defined(rv.bits) {
      return Constant(Verinum(Repeat(Vx, if width == 0 then |lv.bits| else width), true, false));
    }
    var shift, v, wid := AsULong(rv) % UNSIGNED, lv, width;
    if wid == 0 || !v.hasLen {
      v := Trim(v);
      wid := |v.bits|;
      if op == ShiftLeft { wid := (|v.bits| + shift) % UNSIGNED; }
    }
    if prune > 0 && wid > prune { wid := prune; }
    assert (v, wid) == Operand(op, lv, shift, width, prune);
    if wid == 0 { return Abort; }
    var pad := V0;
    if op == ArithRight && signed { pad := v.bits[|v.bits| - 1]; }
    var bits := Move(op, v.bits, shift, pad, wid);
    res := Constant(Verinum(bits, v.hasLen, false));
  }

  method Move(op: ShiftOp, b: Bits, shift: nat, pad: V, wid: nat) returns (r: Bits)
    ensures r == Shifted(op, b, shift, pad, wid)
  {
    var nv := new V[wid](i => pad);
    if op != ShiftLeft { CopyDown(b, shift, nv, pad); } else { CopyUp(b, shift, nv, pad); }
    r := nv[..];
  }

  method CopyDown(b: Bits, shift: nat, nv: array<V>, pad: V)
    requires forall i | 0 <= i < nv.Length :: nv[i] == pad
    modifies nv
    ensures forall i | 0 <= i < nv.Length :: nv[i] == if i + shift < |b| then b[i + shift] else pad
  {
    var cnt := nv.Length;
    if shift >= |b| { cnt := 0; } else if cnt > |b| - shift { cnt := |b| - shift; }
    var idx := 0;
    while idx < cnt
      invariant 0 <= idx <= cnt
      invariant forall i | 0 <= i < nv.Length :: nv[i] == if i < idx then b[i + shift] else pad
    {
      nv[idx] := b[idx + shift];
      idx := idx + 1;
    }
  }

  method CopyUp(b: Bits, shift: nat, nv: array<V>, pad: V)
    requires forall i | 0 <= i < nv.Length :: nv[i] == pad
    modifies nv
    ensures forall i | 0 <= i < nv.Length :: nv[i] == if shift <= i < shift + |b| then b[i - shift] else pad
  {
    var cnt := nv.Length;
    if cnt > |b| { cnt := |b|; }
    if shift >= nv.Length { cnt := 0; } else if cnt > nv.Length - shift { cnt := nv.Length - shift; }
    var idx := 0;
    while idx < cnt
      invariant 0 <= idx <= cnt
      invariant forall i | 0 <= i < nv.Length :: nv[i] == if shift <= i < shift + idx then b[i - shift] else pad
    {
      nv[idx + shift] := b[idx];
      idx := idx + 1;
    }
  }

  // ----- arithmetic meaning -----

  lemma LeftLayout(b: Bits, s: nat, wid: nat)
    ensures Shifted(ShiftLeft, b, s, V0, wid) == (Repeat(V0, s) + b + Repeat(V0, wid))[..wid]
  {
  }

  /** `<<` multiplies by 2^s modulo 2^wid. */
  lemma LeftValue(b: Bits, s: nat, wid: nat)
    ensures Val(Shifted(ShiftLeft, b, s, V0, wid)) == Wrap(Pow2(s) * Val(b), wid)
  {
    var moved := Repeat(V0, s) + b;
    LeftLayout(b, s, wid);
    LowBits(moved + Repeat(V0, wid), wid);
    ValAppend(moved, Repeat(V0, wid));
    ValRepeat0(wid);
    ValAppend(Repeat(V0, s), b);
    ValRepeat0(s);
  }

  lemma RightLayout(op: ShiftOp, b: Bits, s: nat, pad: V, wid: nat)
    requires !op.ShiftLeft?
    ensures Shifted(op, b, s, pad, wid) == (b + Repeat(pad, s + wid))[s..][..wid]
  {
  }

  /** `>>` and `>>>` divide by 2^s, rounding down, modulo 2^wid. */
  lemma RightValue(op: ShiftOp, b: Bits, s: nat, pad: V, wid: nat)
    requires !op.ShiftLeft?
    ensures Val(Shifted(op, b, s, pad, wid)) == Wrap(Meaning(b, pad) / Pow2(s), wid)
  {
    hide Wrap, Pow2, Val;
    var all := b + Repeat(pad, s + wid);
    RightLayout(op, b, s, pad, wid);
    PaddedValue(b, pad, s + wid);
    ValDivMod(all, s);
    LowBits(all[s..], wid);
    if pad == V1 { HighPart(Meaning(b, pad), |b|, s, wid); }
  }

  /** A multiple of 2^(s+wid) does not show in bits s to s+wid-1. */
  lemma HighPart(x: int, n: nat, s: nat, wid: nat)
    ensures Wrap((x + Pow2(n + (s + wid))) / Pow2(s), wid) == Wrap(x / Pow2(s), wid)
  {
    hide Pow2, Wrap;
    Pow2Add(s, n + wid);
    DivShift(x, Pow2(n + wid), Pow2(s));
    assert n + (s + wid) == s + (n + wid);
    WrapHigh(x / Pow2(s), n, wid);
  }

  lemma {:induction false} WrapHigh(x: int, n: nat, wid: nat)
    ensures Wrap(x + Pow2(n + wid), wid) == Wrap(x, wid)
    decreases wid
  {
    if wid > 0 {
      WrapHigh(x / 2, n, wid - 1);
      assert Pow2(n + wid) == 2 * Pow2(n + (wid - 1));
      assert (x + Pow2(n + wid)) / 2 == x / 2 + Pow2(n + (wid - 1));
    }
  }

  lemma DivShift(x: int, k: int, m: nat)
    requires m > 0
    ensures (x + m * k) / m == x / m + k
  {
    assert m * (x / m + k) == m * (x / m) + m * k;
    DivModUnique(x / m + k, x % m, m, x + m * k);
  }

  /** Two numbers of one width's signed range that agree modulo 2^n are equal. */
  lemma SignedUnique(b: Bits, x: int)
    requires b != [] && Val(b) == Wrap(x, |b|)
    requires 0 <= x + Pow2(|b| - 1) < Pow2(|b|)
    ensures SVal(b) == x
  {
    SValBound(b);
    WrapRange(x, |b|);
  }

  lemma {:induction false} WrapRange(x: int, n: nat)
    requires n > 0 && 0 <= x + Pow2(n - 1) < Pow2(n)
    ensures Wrap(x, n) == if x >= 0 then x else x + Pow2(n)
    decreases n
  {
    if n > 1 {
      WrapRange(x / 2, n - 1);
    } else {
      assert Wrap(x, 1) == x % 2 + 2 * Wrap(x / 2, 0);
    }
  }

  lemma QuotientRange(x: int, m: int, d: int)
    requires m > 0 && d > 0 && 0 - m <= x < m
    ensures 0 - m <= x / d < m
  {
    QuotientBelow(x, m, d);
    QuotientAbove(x, m, d);
  }

  lemma QuotientBelow(x: int, m: int, d: int)
    requires m > 0 && d > 0 && x < m
    ensures x / d < m
  {
    assert x == d * (x / d) + x % d;
    MulAtLeast(d, x / d);
    if x / d >= 1 { assert d * (x / d) >= x / d by { MulGrow(d, x / d); } }
  }

  lemma QuotientAbove(x: int, m: int, d: int)
    requires m > 0 && d > 0 && 0 - m <= x
    ensures 0 - m <= x / d
  {
    var q := x / d;
    assert x == d * q + x % d;
    if q < 0 { MulGrow(d, 0 - q - 1); assert d * (0 - q - 1) == 0 - d * q - d; }
  }

  lemma MulGrow(d: int, q: int)
    requires d > 0 && q >= 0
    ensures d * q >= q
  {
    assert d * q == q + (d - 1) * q;
  }

  /** A signed `>>>` at the operand's width divides the two's complement value, rounding down. */
  lemma ArithRightValue(b: Bits, s: nat)
    requires b != []
    ensures SVal(Shifted(ArithRight, b, s, Pad(ArithRight, b, true), |b|)) == SVal(b) / Pow2(s)
  {
    var pad := b[|b| - 1];
    RightValue(ArithRight, b, s, pad, |b|);
    SValBound(b);
    assert Meaning(b, pad) == SVal(b);
    QuotientRange(SVal(b), Pow2(|b| - 1), Pow2(s));
    SignedUnique(Shifted(ArithRight, b, s, pad, |b|), SVal(b) / Pow2(s));
  }

  lemma LeftLossless(b: Bits, s: nat, wid: nat)
    requires |b| + s <= wid
    ensures Val(Shifted(ShiftLeft, b, s, V0, wid)) == Pow2(s) * Val(b)
  {
    LeftValue(b, s, wid);
    ProductBound(b, s, wid);
    WrapSmall(Pow2(s) * Val(b), wid);
  }

  lemma ProductBound(b: Bits, s: nat, wid: nat)
    requires |b| + s <= wid
    ensures Pow2(s) * Val(b) < Pow2(wid)
  {
    ValBound(b);
    MulBelow(Pow2(s), Val(b), Pow2(|b|));
    Pow2Add(s, |b|);
    Pow2Monotone(s + |b|, wid);
  }

  lemma LeftLossy(b: Bits, s: nat, wid: nat)
    requires wid <= s && Val(b) > 0
    ensures Val(Shifted(ShiftLeft, b, s, V0, wid)) < Pow2(s) * Val(b)
  {
    ValBound(Shifted(ShiftLeft, b, s, V0, wid));
    Pow2Monotone(wid, s);
    MulAtLeast(Pow2(s), Val(b));
  }

  /** A number without a length is widened by the amount of a left shift, and nothing is lost exactly
      when the widened length still fits an `unsigned`, or the number is zero. */
  lemma UnsizedLeftLossless(lv: Verinum, s: nat, width: nat)
    requires lv.bits != [] && !lv.hasLen && s < UNSIGNED && |lv.bits| < UNSIGNED
    ensures var (v, wid) := Operand(ShiftLeft, lv, s, width, 0);
            Val(Shifted(ShiftLeft, v.bits, s, V0, wid)) == Pow2(s) * Val(v.bits)
            <==> |v.bits| + s < UNSIGNED || Val(v.bits) == 0
  {
    var (v, wid) := Operand(ShiftLeft, lv, s, width, 0);
    if |v.bits| + s < UNSIGNED {
      LeftLossless(v.bits, s, wid);
    } else {
      assert wid == |v.bits| + s - UNSIGNED <= s;
      if Val(v.bits) == 0 { ZeroShifts(v.bits, s, wid); } else { LeftLossy(v.bits, s, wid); }
    }
  }

  lemma ZeroShifts(b: Bits, s: nat, wid: nat)
    requires Val(b) == 0
    ensures Val(Shifted(ShiftLeft, b, s, V0, wid)) == 0 == Pow2(s) * Val(b)
  {
    LeftValue(b, s, wid);
    WrapSmall(0, wid);
  }

  lemma MulBelow(m: nat, x: nat, y: nat)
    requires m > 0 && x < y
    ensures m * x < m * y
  {
    assert m * y == m * x + m * (y - x);
    MulAtLeast(m, y - x);
  }

  // ----- what the folder gives -----

  /** The width of a folded shift: the context's, or for an operand without a length its own, plus the
      amount of a left shift; no more than a pruning context has. */
  lemma FoldedWidth(op: ShiftOp, lv: Verinum, rv: Verinum, width: nat, prune: int, signed: bool)
    requires lv.bits != [] && Defined(rv.bits) && FoldShift(op, lv, rv, width, prune, signed).Constant?
    ensures var c := FoldShift(op, lv, rv, width, prune, signed).val;
            var own := if lv.hasLen && width > 0 then width else |Trim(lv).bits|;
            var s := Val(rv.bits) % UNSIGNED;
            var full := if op.ShiftLeft? && !(lv.hasLen && width > 0) then (own + s) % UNSIGNED else own;
            |c.bits| == (if 0 < prune < full then prune else full) && c.hasLen == lv.hasLen && !c.hasSign
  {
    LowWord(rv);
  }

  /** At any width, pruned or not, each bit is the one of the operand that the amount moves there, or the
      bit that enters: the sign for a signed >>>, and else 0. */
  lemma SizedFoldBits(op: ShiftOp, lv: Verinum, rv: Verinum, width: nat, prune: int, signed: bool)
    requires lv.bits != [] && lv.hasLen && width > 0 && Defined(rv.bits)
    ensures var r := FoldShift(op, lv, rv, width, prune, signed);
            var s, pad := Val(rv.bits) % UNSIGNED, if op.ArithRight? && signed then lv.bits[|lv.bits| - 1] else V0;
            r.Constant? && forall i | 0 <= i < |r.val.bits| ::
              var from := if op.ShiftLeft? then i - s else i + s;
              r.val.bits[i] == if 0 <= from < |lv.bits| then lv.bits[from] else pad
  {
    LowWord(rv);
  }

  /** So `<<` multiplies, and the other shifts divide rounding down, modulo the width. */
  lemma SizedFoldValue(op: ShiftOp, lv: Verinum, rv: Verinum, width: nat, prune: int, signed: bool)
    requires lv.bits != [] && lv.hasLen && width > 0 && Defined(rv.bits)
    ensures var c := FoldShift(op, lv, rv, width, prune, signed).val;
            var s, x := Val(rv.bits) % UNSIGNED, if op.ArithRight? && signed then SVal(lv.bits) else Val(lv.bits);
            Val(c.bits) == Wrap(if op.ShiftLeft? then Pow2(s) * x else x / Pow2(s), |c.bits|)
  {
    hide Wrap, Pow2, Val, Shifted;
    LowWord(rv);
    var s := Val(rv.bits) % UNSIGNED;
    var c := FoldShift(op, lv, rv, width, prune, signed).val;
    if op.ShiftLeft? { LeftValue(lv.bits, s, |c.bits|); } else { RightValue(op, lv.bits, s, Pad(op, lv.bits, signed), |c.bits|); }
  }

  /** A negative operand shifted left in a context wider than itself is read as unsigned: the product is
      that of the signed number exactly up to its length and the amount. */
  lemma WiderContextExactly(b: Bits, s: nat, w: nat)
    requires b != []
    ensures Val(Shifted(ShiftLeft, b, s, V0, w)) == Wrap(Pow2(s) * SVal(b), w) <==> !Sign(b) || w <= |b| + s
  {
    hide Wrap, Pow2, Val, Shifted, Sign;
    LeftValue(b, s, w);
    if Sign(b) {
      Pow2Add(s, |b|);
      Distribute(Pow2(s), Val(b), Pow2(|b|));
      if w <= |b| + s { WrapHigh(Pow2(s) * SVal(b), |b| + s - w, w); } else { WrapDiffers(Pow2(s) * SVal(b), |b| + s, w); }
    }
  }

  lemma Distribute(m: int, x: int, y: int)
    ensures m * (x - y) + m * y == m * x
  {
  }

  /** An operand without a length, signed or not, is shifted as the number it stands for: `<<` and a
      signed >>> always, and >> where the number is not signed. */
  lemma UnsizedFoldValue(op: ShiftOp, lv: Verinum, rv: Verinum, width: nat, prune: int)
    requires lv.bits != [] && !lv.hasLen && Defined(rv.bits)
    requires var s := Val(rv.bits) % UNSIGNED; op.ShiftLeft? ==> |Trim(lv).bits| + s < UNSIGNED
    requires op.ShiftRight? ==> !lv.hasSign
    ensures var r := FoldShift(op, lv, rv, width, prune, lv.hasSign);
            var s, x := Val(rv.bits) % UNSIGNED, Number(lv);
            r.Constant? && Val(r.val.bits) == Wrap(if op.ShiftLeft? then Pow2(s) * x else x / Pow2(s), |r.val.bits|)
  {
    hide Wrap, Pow2, Val, Shifted, Trim;
    LowWord(rv);
    TrimValue(lv);
    var s, t := Val(rv.bits) % UNSIGNED, Trim(lv).bits;
    var c := FoldShift(op, lv, rv, width, prune, lv.hasSign).val;
    if op.ShiftLeft? {
      LeftValue(t, s, |c.bits|);
      if lv.hasSign { WiderContextExactly(t, s, |c.bits|); }
    } else {
      RightValue(op, t, s, Pad(op, t, lv.hasSign), |c.bits|);
    }
  }

  /** An undefined amount leaves nothing known. */
  lemma UndefinedAmount(op: ShiftOp, lv: Verinum, rv: Verinum, width: nat, prune: int, signed: bool)
    requires lv.bits != [] && !Defined(rv.bits)
    ensures var r := FoldShift(op, lv, rv, width, prune, signed);
            r.Constant? && |r.val.bits| == (if width > 0 then width else |lv.bits|) && forall b | b in r.val.bits :: b == Vx
  {
  }

  // ----- the two evaluators -----

  /** The parse-tree evaluator knows `<<` and `>>` only, and asserts a defined amount. */
  method EvalConst(op: ShiftOp, l: Bits, r: Verinum) returns (res: Outcome)
    requires !op.ArithRight?
    ensures res == if Defined(r.bits) then Constant(Verinum(Shifted(op, l, AsULong(r), V0, |l|), true, false)) else Abort
  {
    if !Defined(r.bits) { return Abort; }
    var rv := AsULong(r);
    var out := new V[|l|](i => V0);
    if rv < |l| {
      var cnt := |l| - rv;
      var idx := 0;
      while idx < cnt
        invariant 0 <= idx <= cnt
        invariant op.ShiftLeft? ==> forall i | 0 <= i < |l| :: out[i] == if rv <= i < rv + idx then l[i - rv] else V0
        invariant op.ShiftRight? ==> forall i | 0 <= i < |l| :: out[i] == if i < idx then l[i + rv] else V0
      {
        if op == ShiftLeft { out[idx + rv] := l[idx]; } else { out[idx] := l[idx + rv]; }
        idx := idx + 1;
      }
    }
    assert out[..] == Shifted(op, l, rv, V0, |l|);
    res := Constant(Verinum(out[..], true, false));
  }

  predicate SameShift(s: nat, t: nat, w: nat) {
    s == t || (s >= w && t >= w)
  }

  /** The amount at which everything that can differ has moved out: the sign bit fills a signed >>>. */
  function Limit(op: ShiftOp, signed: bool, w: nat): nat
    requires w > 0
  {
    if op.ArithRight? && signed then w - 1 else w
  }

  /** A vector that tells two amounts apart: all ones, below a zero sign where the sign enters. */
  function Probe(op: ShiftOp, signed: bool, w: nat): (b: Bits)
    requires w > 0
    ensures |b| == w && Defined(b) && Pad(op, b, signed) == V0
  {
    if op.ArithRight? && signed then Repeat(V1, w - 1) + [V0] else Repeat(V1, w)
  }

  lemma ProbeTellsApart(op: ShiftOp, signed: bool, s: nat, t: nat, w: nat)
    requires w > 0 && !SameShift(s, t, Limit(op, signed, w))
    ensures var b := Probe(op, signed, w);
            Shifted(op, b, s, V0, w) != Shifted(op, b, t, V0, w)
  {
    var b, low := Probe(op, signed, w), if s < t then s else t;
    var at := if op.ShiftLeft? then low else Limit(op, signed, w) - 1 - low;
    assert Shifted(op, b, s, V0, w)[at] != Shifted(op, b, t, V0, w)[at];
  }

  lemma BeyondLimit(op: ShiftOp, b: Bits, signed: bool, s: nat, t: nat)
    requires b != [] && SameShift(s, t, Limit(op, signed, |b|))
    ensures Shifted(op, b, s, Pad(op, b, signed), |b|) == Shifted(op, b, t, Pad(op, b, signed), |b|)
  {
    if s != t {
      MovedOut(op, b, signed, s);
      MovedOut(op, b, signed, t);
    }
  }

  lemma MovedOut(op: ShiftOp, b: Bits, signed: bool, s: nat)
    requires b != [] && s >= Limit(op, signed, |b|)
    ensures Shifted(op, b, s, Pad(op, b, signed), |b|) == Repeat(Pad(op, b, signed), |b|)
  {
  }

  /** Two shift amounts move every vector of one width alike exactly when they are equal or both move
      everything out; for a signed >>> the sign bit need not move. */
  lemma AmountsAgreeExactly(op: ShiftOp, signed: bool, s: nat, t: nat, w: nat)
    requires w > 0
    ensures (forall b: Bits | |b| == w ::
               Shifted(op, b, s, Pad(op, b, signed), w) == Shifted(op, b, t, Pad(op, b, signed), w))
            <==> SameShift(s, t, Limit(op, signed, w))
  {
    if SameShift(s, t, Limit(op, signed, w)) {
      forall b: Bits | |b| == w
        ensures Shifted(op, b, s, Pad(op, b, signed), w) == Shifted(op, b, t, Pad(op, b, signed), w)
      {
        BeyondLimit(op, b, signed, s, t);
      }
    } else {
      ProbeTellsApart(op, signed, s, t, w);
      assert |Probe(op, signed, w)| == w;
    }
  }

  /** On sized operands the folder and the evaluator agree for every operand of width `w` exactly when
      the amount survives the cut to 32 bits, or moves everything out both before and after it. */
  lemma EvaluatorsAgreeExactly(op: ShiftOp, rv: Verinum, w: nat, signed: bool)
    requires !op.ArithRight? && w > 0 && Defined(rv.bits)
    ensures (forall b: Bits | |b| == w ::
               FoldShift(op, Verinum(b, true, false), rv, w, 0, signed)
               == Constant(Verinum(Shifted(op, b, AsULong(rv), V0, w), true, false)))
            <==> SameShift(AsULong(rv) % UNSIGNED, AsULong(rv), w)
  {
    var s, t := AsULong(rv) % UNSIGNED, AsULong(rv);
    AmountsAgreeExactly(op, signed, s, t, w);
    forall b: Bits | |b| == w
      ensures FoldShift(op, Verinum(b, true, false), rv, w, 0, signed)
           == Constant(Verinum(Shifted(op, b, s, Pad(op, b, signed), w), true, false)) && Pad(op, b, signed) == V0
    {
    }
  }

  /** The folder shifts by the exact amount for every operand of width `w` exactly when the amount fits
      32 bits, or it and its low 32 bits move everything out. This covers <<, >> and both kinds of >>>. */
  lemma FolderExactly(op: ShiftOp, rv: Verinum, w: nat, signed: bool)
    requires w > 0 && Defined(rv.bits)
    ensures (forall b: Bits | |b| == w ::
               FoldShift(op, Verinum(b, true, signed), rv, w, 0, signed)
               == Constant(Verinum(Shifted(op, b, Val(rv.bits), Pad(op, b, signed), w), true, false)))
            <==> SameShift(Val(rv.bits) % UNSIGNED, Val(rv.bits), Limit(op, signed, w))
  {
    LowWord(rv);
    var s, t := Val(rv.bits) % UNSIGNED, Val(rv.bits);
    AmountsAgreeExactly(op, signed, s, t, w);
    forall b: Bits | |b| == w
      ensures FoldShift(op, Verinum(b, true, signed), rv, w, 0, signed)
           == Constant(Verinum(Shifted(op, b, s, Pad(op, b, signed), w), true, false))
    {
    }
  }

  /** The bits a fold gives. */
  function FoldedBits(op: ShiftOp, b: Bits, rv: Verinum, signed: bool): (r: Bits)
    requires b != [] && Defined(rv.bits)
    ensures |r| == |b|
  {
    FoldShift(op, Verinum(b, true, signed), rv, |b|, 0, signed).val.bits
  }

  /** So a folded signed >>> divides the two's complement value by 2^amount, rounding down, for every
      operand of width `w` exactly under that condition. */
  lemma FolderDividesExactly(rv: Verinum, w: nat)
    requires w > 0 && Defined(rv.bits)
    ensures (forall b: Bits | |b| == w :: SVal(FoldedBits(ArithRight, b, rv, true)) == SVal(b) / Pow2(Val(rv.bits)))
            <==> SameShift(Val(rv.bits) % UNSIGNED, Val(rv.bits), w - 1)
  {
    var s, t := Val(rv.bits) % UNSIGNED, Val(rv.bits);
    if SameShift(s, t, w - 1) {
      forall b: Bits | |b| == w ensures SVal(FoldedBits(ArithRight, b, rv, true)) == SVal(b) / Pow2(t) {
        FoldedIsShifted(b, rv);
        BeyondLimit(ArithRight, b, true, s, t);
        ArithRightValue(b, t);
      }
    } else {
      ProbeDividesWrong(rv, w);
      assert |Probe(ArithRight, true, w)| == w;
    }
  }

  lemma FoldedIsShifted(b: Bits, rv: Verinum)
    requires b != [] && Defined(rv.bits)
    ensures FoldedBits(ArithRight, b, rv, true)
         == Shifted(ArithRight, b, Val(rv.bits) % UNSIGNED, Pad(ArithRight, b, true), |b|)
  {
    LowWord(rv);
  }

  lemma ProbeDividesWrong(rv: Verinum, w: nat)
    requires w > 0 && Defined(rv.bits) && !SameShift(Val(rv.bits) % UNSIGNED, Val(rv.bits), w - 1)
    ensures var b := Probe(ArithRight, true, w);
            SVal(FoldedBits(ArithRight, b, rv, true)) != SVal(b) / Pow2(Val(rv.bits))
  {
    var s, t := Val(rv.bits) % UNSIGNED, Val(rv.bits);
    var b := Probe(ArithRight, true, w);
    FoldedIsShifted(b, rv);
    ArithRightValue(b, t);
    ProbeTellsApart(ArithRight, true, s, t, w);
    SValInjective(Shifted(ArithRight, b, s, V0, w), Shifted(ArithRight, b, t, V0, w));
  }

  lemma SValInjective(a: Bits, b: Bits)
    requires Defined(a) && Defined(b) && |a| == |b|
    ensures SVal(a) == SVal(b) <==> a == b
  {
    ValInjective(a, b);
    ValBound(a);
    ValBound(b);
  }

  lemma Pow32()
    ensures Pow2(32) == UNSIGNED
  {
    Pow2Add(16, 16);
    Pow2Add(8, 8);
    assert Pow2(8) == 256;
  }

  lemma LowWord(v: Verinum)
    requires Defined(v.bits)
    ensures AsULong(v) % UNSIGNED == Val(v.bits) % UNSIGNED
  {
    var b := v.bits;
    if |b| > LONG_BITS {
      LowWordOf(b, LONG_BITS);
    } else {
      assert b[..|b|] == b;
    }
  }

  lemma LowWordOf(b: Bits, top: nat)
    requires 32 <= top <= |b|
    ensures Val(b[..top]) % UNSIGNED == Val(b) % UNSIGNED
  {
    assert b[..top][..32] == b[..32];
    Pow32();
    ValDivMod(b, 32);
    ValDivMod(b[..top], 32);
  }

  /** The number with only bit `k` set. */
  function OneAt(k: nat): Verinum {
    Verinum(Repeat(V0, k) + [V1], true, false)
  }

  lemma OneAtValue(k: nat)
    requires k < 64
    ensures Defined(OneAt(k).bits) && AsULong(OneAt(k)) == Pow2(k)
  {
    var b := OneAt(k).bits;
    ValAppend(Repeat(V0, k), [V1]);
    ValRepeat0(k);
    assert b[..|b|] == b;
    assert Val([V1]) == 1 by { assert [V1][1..] == []; }
  }

  /** 2^32 is a shift amount the two disagree on: one does not move the bit, the other drops it. */
  lemma WideAmountDiffers()
    ensures FoldShift(ShiftRight, Verinum([V1], true, false), OneAt(32), 1, 0, false) == Constant(Verinum([V1], true, false))
    ensures Shifted(ShiftRight, [V1], AsULong(OneAt(32)), V0, 1) == [V0]
  {
    hide OneAt, AsULong, Pow2, Val;
    OneAtValue(32);
    Pow32();
    assert Shifted(ShiftRight, [V1], 0, V0, 1) == [V1];
  }
}
