/** Addition and subtraction of four-state vectors (verinum.cc) and the folding of +/- chains
    (`NetEBAdd::eval_tree`, eval_tree.cc).
 */
module AddFold {
  import opened Powers
  import opened Verinums
  import opened Wrapping
  import ShiftFold

  // ----- operator + and operator - -----

  function NotBit(v: V): V {
    match v case V0 => V1 case V1 => V0 case _ => Vx
  }

  function NotBits(b: Bits): (r: Bits)
    ensures |r| == |b|
  {
    seq(|b|, i requires 0 <= i < |b| => NotBit(b[i]))
  }

  /** Sum bit and new carry; an undefined operand makes both undefined. */
  function AddWithCarry(l: V, r: V, c: V): (V, V) {
    if !IsBit(c) || !IsBit(l) || !IsBit(r) then (Vx, Vx) else
    var sum := BitVal(c) + BitVal(l) + BitVal(r);
    (if sum % 2 == 1 then V1 else V0, if sum >= 2 then V1 else V0)
  }

  /** A ripple adder over vectors of one length. */
  function Ripple(l: Bits, r: Bits, c: V): (s: Bits)
    requires |l| == |r|
    ensures |s| == |l|
  {
    if l == [] then [] else
    var (s, c') := AddWithCarry(l[0], r[0], c);
    [s] + Ripple(l[1..], r[1..], c')
  }

  function Max(a: nat, b: nat): nat {
    if a < b then b else a
  }

  /** Pad to `n` bits with the sign bit or with zeros. */
  function Extend(b: Bits, signed: bool, n: nat): (r: Bits)
    requires |b| <= n && (signed ==> b != [])
    ensures |r| == n && r[..|b|] == b
  {
    b + Repeat(if signed then b[|b| - 1] else V0, n - |b|)
  }

  /** The sum is one bit longer than the longer operand. */
  function Plus(l: Verinum, r: Verinum): (s: Verinum)
    requires l.bits != [] && r.bits != []
    ensures |s.bits| == Max(|l.bits|, |r.bits|) + 1
  {
    var n := Max(|l.bits|, |r.bits|) + 1;
    var signed := l.hasSign && r.hasSign;
    Verinum(Ripple(Extend(l.bits, signed, n), Extend(r.bits, signed, n), V0), false, signed)
  }

  /** The difference is as long as the longer operand; a signed one keeps the extra bit when it
      differs from the bit below. */
  function Minus(l: Verinum, r: Verinum): (s: Verinum)
    requires l.bits != [] && r.bits != []
    ensures Max(|l.bits|, |r.bits|) <= |s.bits| <= Max(|l.bits|, |r.bits|) + 1
  {
    var n := Max(|l.bits|, |r.bits|);
    var signed := l.hasSign && r.hasSign;
    var all := Ripple(Extend(l.bits, signed, n + 1), NotBits(Extend(r.bits, signed, n + 1)), V1);
    Verinum(if signed && all[n] != all[n - 1] then all else all[..n], false, signed)
  }

  lemma {:induction false} RippleValue(l: Bits, r: Bits, c: V)
    requires |l| == |r| && Defined(l) && Defined(r) && IsBit(c)
    ensures Defined(Ripple(l, r, c)) && Val(Ripple(l, r, c)) == Wrap(Val(l) + Val(r) + BitVal(c), |l|)
  {
    if l != [] {
      var (s, c') := AddWithCarry(l[0], r[0], c);
      AddBits(l[0], r[0], c);
      ConsValue(l[0], l[1..]);
      ConsValue(r[0], r[1..]);
      assert l == [l[0]] + l[1..] && r == [r[0]] + r[1..];
      hide Wrap, Val, AddWithCarry;
      var rest := Ripple(l[1..], r[1..], c');
      RippleValue(l[1..], r[1..], c');
      ConsValue(s, rest);
      WrapStep(BitVal(s), Val(l[1..]) + Val(r[1..]) + BitVal(c'), |l|);
    }
  }

  lemma AddBits(l: V, r: V, c: V)
    requires IsBit(l) && IsBit(r) && IsBit(c)
    ensures var (s, c') := AddWithCarry(l, r, c);
            IsBit(s) && IsBit(c') && BitVal(s) + 2 * BitVal(c') == BitVal(l) + BitVal(r) + BitVal(c)
  {
  }

  lemma ConsValue(v: V, b: Bits)
    ensures Val([v] + b) == BitVal(v) + 2 * Val(b) && (Defined([v] + b) <==> IsBit(v) && Defined(b))
  {
    assert ([v] + b)[1..] == b;
    DefinedCons([v] + b);
  }

  lemma WrapStep(b: nat, x: int, w: nat)
    requires b < 2 && w > 0
    ensures Wrap(b + 2 * x, w) == b + 2 * Wrap(x, w - 1)
  {
    assert (b + 2 * x) / 2 == x && (b + 2 * x) % 2 == b;
  }

  lemma DefinedCons(b: Bits)
    requires b != []
    ensures Defined(b) <==> IsBit(b[0]) && Defined(b[1..])
  {
    assert forall i | 0 < i < |b| :: b[i] == b[1..][i - 1];
  }

  /** An undefined bit, or an undefined carry, shows in the sum. */
  lemma {:induction false} RippleUndefined(l: Bits, r: Bits, c: V)
    requires |l| == |r| && l != []
    requires !(Defined(l) && Defined(r) && IsBit(c))
    ensures !Defined(Ripple(l, r, c))
  {
    DefinedCons(l);
    DefinedCons(r);
    var (s, c') := AddWithCarry(l[0], r[0], c);
    assert Ripple(l, r, c)[1..] == Ripple(l[1..], r[1..], c');
    DefinedCons(Ripple(l, r, c));
    if IsBit(s) { RippleUndefined(l[1..], r[1..], c'); }
  }

  /** Low bits of a sum depend on low bits of the operands only. */
  lemma {:induction false} RipplePrefix(l: Bits, r: Bits, c: V, w: nat)
    requires |l| == |r| && w <= |l|
    ensures Ripple(l, r, c)[..w] == Ripple(l[..w], r[..w], c)
  {
    if w > 0 {
      var (s, c') := AddWithCarry(l[0], r[0], c);
      RipplePrefix(l[1..], r[1..], c', w - 1);
      assert l[..w][1..] == l[1..][..w - 1] && r[..w][1..] == r[1..][..w - 1];
      assert Ripple(l, r, c)[..w] == [s] + Ripple(l[1..], r[1..], c')[..w - 1];
    }
  }

  lemma {:induction false} NotValue(b: Bits)
    requires Defined(b)
    ensures Defined(NotBits(b)) && Val(NotBits(b)) == Pow2(|b|) - 1 - Val(b)
  {
    if b != [] {
      NotValue(b[1..]);
      assert NotBits(b)[1..] == NotBits(b[1..]);
    }
  }

  /** The value of the low `w` bits, if they are defined. */
  datatype Value = Undefined | Num(n: nat)

  function ValueOf(b: Bits): Value {
    if Defined(b) then Num(Val(b)) else Undefined
  }

  function Combine(a: Value, b: Value, minus: bool, w: nat): Value {
    if a.Num? && b.Num? then Num(Wrap(if minus then a.n - b.n else a.n + b.n, w)) else Undefined
  }

  lemma RippleDefined(l: Bits, r: Bits, c: V)
    requires |l| == |r| && Defined(l) && Defined(r) && IsBit(c)
    ensures ValueOf(Ripple(l, r, c)) == RippleSum(l, r, c)
  {
    hide Wrap, Val;
    RippleValue(l, r, c);
  }

  lemma RippleLost(l: Bits, r: Bits, c: V)
    requires |l| == |r| && l != [] && !(Defined(l) && Defined(r))
    ensures ValueOf(Ripple(l, r, c)) == RippleSum(l, r, c)
  {
    hide Ripple;
    RippleUndefined(l, r, c);
  }

  lemma RippleMeaning(l: Bits, r: Bits, c: V)
    requires |l| == |r| && l != [] && IsBit(c)
    ensures ValueOf(Ripple(l, r, c)) == RippleSum(l, r, c)
  {
    hide *;
    if Defined(l) && Defined(r) { RippleDefined(l, r, c); } else { RippleLost(l, r, c); }
  }

  function RippleSum(l: Bits, r: Bits, c: V): Value
    requires |l| == |r|
  {
    if Defined(l) && Defined(r) then Num(Wrap(Val(l) + Val(r) + BitVal(c), |l|)) else Undefined
  }

  /** The low bits of a ripple sum carry the sum modulo 2^w. */
  lemma RippleLow(l: Bits, r: Bits, c: V, w: nat)
    requires |l| == |r| && 0 < w <= |l| && IsBit(c)
    ensures ValueOf(Ripple(l, r, c)[..w]) == RippleSum(l[..w], r[..w], c)
  {
    RipplePrefix(l, r, c, w);
    RippleMeaning(l[..w], r[..w], c);
  }

  lemma ExtendLow(b: Bits, signed: bool, n: nat, w: nat)
    requires b != [] && w <= |b| <= n
    ensures Extend(b, signed, n)[..w] == b[..w]
  {
  }

  lemma PlusLow(l: Verinum, r: Verinum, w: nat)
    requires 0 < w <= |l.bits| && w <= |r.bits|
    ensures ValueOf(Plus(l, r).bits[..w]) == Combine(ValueOf(l.bits[..w]), ValueOf(r.bits[..w]), false, w)
  {
    var n := Max(|l.bits|, |r.bits|) + 1;
    var signed := l.hasSign && r.hasSign;
    ExtendLow(l.bits, signed, n, w);
    ExtendLow(r.bits, signed, n, w);
    RippleLow(Extend(l.bits, signed, n), Extend(r.bits, signed, n), V0, w);
  }

  /** Complementing keeps defined bits defined, and the low bits low. */
  lemma NotLow(b: Bits, w: nat)
    requires w <= |b|
    ensures NotBits(b)[..w] == NotBits(b[..w]) && (Defined(NotBits(b[..w])) <==> Defined(b[..w]))
  {
    assert forall i | 0 <= i < w :: NotBits(b[..w])[i] == NotBit(b[..w][i]);
    if Defined(NotBits(b[..w])) {
      forall i | 0 <= i < w ensures IsBit(b[..w][i]) {
        assert IsBit(NotBits(b[..w])[i]);
      }
    }
  }

  lemma SumWithComplement(l: Bits, r: Bits)
    requires |l| == |r| && (Defined(NotBits(r)) <==> Defined(r))
    ensures RippleSum(l, NotBits(r), V1) == Combine(ValueOf(l), ValueOf(r), true, |l|)
  {
    if Defined(l) && Defined(r) {
      NotValue(r);
      WrapShift(Val(l) - Val(r), |l|);
    }
  }

  lemma RippleDifference(l: Bits, r: Bits, w: nat)
    requires |l| == |r| && 0 < w <= |l|
    ensures ValueOf(Ripple(l, NotBits(r), V1)[..w]) == Combine(ValueOf(l[..w]), ValueOf(r[..w]), true, w)
  {
    RippleLow(l, NotBits(r), V1, w);
    NotLow(r, w);
    SumWithComplement(l[..w], r[..w]);
  }

  lemma MinusLow(l: Verinum, r: Verinum, w: nat)
    requires 0 < w <= |l.bits| && w <= |r.bits|
    ensures ValueOf(Minus(l, r).bits[..w]) == Combine(ValueOf(l.bits[..w]), ValueOf(r.bits[..w]), true, w)
  {
    var n := Max(|l.bits|, |r.bits|);
    var signed := l.hasSign && r.hasSign;
    var le, re := Extend(l.bits, signed, n + 1), Extend(r.bits, signed, n + 1);
    hide Ripple, Wrap, Val;
    ExtendLow(l.bits, signed, n + 1, w);
    ExtendLow(r.bits, signed, n + 1, w);
    RippleDifference(le, re, w);
    TakeTwice(Ripple(le, NotBits(re), V1), n, w);
  }

  lemma TakeTwice(b: Bits, n: nat, w: nat)
    requires w <= n <= |b|
    ensures b[..n][..w] == b[..w]
  {
  }

  lemma ExtendZero(b: Bits, n: nat)
    requires |b| <= n
    ensures Val(Extend(b, false, n)) == Val(b)
  {
    PaddedValue(b, V0, n - |b|);
  }

  lemma ExtendTake(b: Bits, n: nat)
    requires |b| <= n
    ensures Extend(b, false, n + 1)[..n] == Extend(b, false, n)
  {
  }

  /** Subtraction of numbers of any lengths, not both signed, is subtraction of their unsigned readings. */
  lemma UnsignedMinus(l: Verinum, r: Verinum)
    requires l.bits != [] && r.bits != [] && Defined(l.bits) && Defined(r.bits) && !(l.hasSign && r.hasSign)
    ensures var d := Minus(l, r);
            Defined(d.bits) && !d.hasSign && |d.bits| == Max(|l.bits|, |r.bits|)
            && Val(d.bits) == Wrap(Val(l.bits) - Val(r.bits), |d.bits|)
  {
    var n := Max(|l.bits|, |r.bits|);
    var le, re := Extend(l.bits, false, n + 1), Extend(r.bits, false, n + 1);
    RippleDifference(le, re, n);
    ExtendTake(l.bits, n);
    ExtendTake(r.bits, n);
    ExtendZero(l.bits, n);
    ExtendZero(r.bits, n);
    ExtendDefined(l.bits, n);
    ExtendDefined(r.bits, n);
    assert Minus(l, r).bits == Ripple(le, NotBits(re), V1)[..n];
  }

  lemma ExtendDefined(b: Bits, n: nat)
    requires |b| <= n && Defined(b)
    ensures Defined(Extend(b, false, n))
  {
  }

  // ----- chains -----

  datatype NExpr = Const(val: Verinum) | Leaf(id: nat) | Add(minus: bool, left: NExpr, right: NExpr)

  /** `pad_to_width`: an x or z in the top position is repeated unless the number is unsigned and
      has a length. */
  function PadToWidth(v: Verinum, n: nat): (r: Verinum)
    requires v.bits != []
    ensures |r.bits| == Max(|v.bits|, n)
  {
    Verinum(v.bits + Repeat(PadBit(v), Max(|v.bits|, n) - |v.bits|), v.hasLen, v.hasSign)
  }

  function PadBit(v: Verinum): V
    requires v.bits != []
  {
    var top := v.bits[|v.bits| - 1];
    if !v.hasSign && (top == V1 || v.hasLen) then V0 else top
  }

  /** What a constant of any length contributes at width `w`. */
  function Low(v: Verinum, w: nat): (b: Bits)
    requires v.bits != []
    ensures |b| == w
  {
    PadToWidth(v, w).bits[..w]
  }

  predicate Sized(e: NExpr, w: nat) {
    match e
    case Const(v) => w > 0 && v.bits != []
    case Leaf(_) => w > 0
    case Add(_, l, r) => Sized(l, w) && Sized(r, w)
  }

  /** Value of an expression in a context of width `w`. */
  function Eval(e: NExpr, env: nat -> Value, w: nat): Value
    requires Sized(e, w)
  {
    match e
    case Const(v) => ValueOf(Low(v, w))
    case Leaf(n) => env(n)
    case Add(minus, l, r) => Combine(Eval(l, env, w), Eval(r, env, w), minus, w)
  }

  /** Copy to a given length, padding by sign. */
  function Resize(v: Verinum, n: nat): (r: Verinum)
    requires v.bits != []
    ensures |r.bits| == n
  {
    Verinum(if n <= |v.bits| then v.bits[..n] else Extend(v.bits, v.hasSign, n), true, v.hasSign)
  }

  /** Both operands constant: if both have a width the result has the longer operand's, plus one bit when
      the context does not prune; otherwise it is trimmed. */
  function FoldConst(minus: bool, l: Verinum, r: Verinum, prune: int): (c: Verinum)
    requires l.bits != [] && r.bits != []
    ensures c.bits != []
  {
    var val := if minus then Minus(l, r) else Plus(l, r);
    if l.hasLen && r.hasLen then Resize(val, Max(|l.bits|, |r.bits|) + (if prune < 0 then 1 else 0))
    else ShiftFold.Trim(val)
  }

  /** `(a op1 c1) op2 c2` becomes `a op2 c` with this `c`. */
  function MergeConst(op1: bool, op2: bool, c1: Verinum, c2: Verinum, w: nat): (c: Verinum)
    requires c1.bits != [] && c2.bits != []
    ensures |c.bits| == w
  {
    var p1, p2 := PadToWidth(c1, w), PadToWidth(c2, w);
    var val := if op1 == op2 then Plus(p2, p1) else Minus(p2, p1);
    if |val.bits| > w then Resize(val, w) else val
  }

  /** `eval_expr` on a constant: one without a length is widened to a pruning context. */
  function EvalConst(v: Verinum, prune: int): (r: Verinum)
    requires v.bits != []
    ensures r.bits != []
  {
    if prune > 0 && !v.hasLen && prune > |v.bits| then PadToWidth(v, prune) else v
  }

  /** One node after its operands have been folded. */
  function Rewrite(minus: bool, l: NExpr, r: NExpr, w: nat, prune: int): (f: NExpr)
    requires Sized(l, w) && Sized(r, w)
    ensures Sized(f, w) && (f.Const? <==> l.Const? && r.Const?)
  {
    assert l.Add? ==> Sized(l.left, w) && Sized(l.right, w);
    if l.Const? && r.Const? then Const(FoldConst(minus, l.val, r.val, prune))
    else if l.Add? && l.right.Const? && r.Const? then
      Add(minus, l.left, Const(MergeConst(l.minus, minus, l.right.val, r.val, w)))
    else Add(minus, l, r)
  }

  function Fold(e: NExpr, w: nat, prune: int): (f: NExpr)
    requires Sized(e, w)
    ensures Sized(f, w)
  {
    match e
    case Add(minus, l, r) => Rewrite(minus, Fold(l, w, prune), Fold(r, w, prune), w, prune)
    case Const(v) => Const(EvalConst(v, prune))
    case Leaf(_) => e
  }

  /** Nothing is left to fold: no constant sum, and no constant added to a sum with a constant. */
  predicate Folded(e: NExpr) {
    match e
    case Add(_, l, r) =>
      Folded(l) && Folded(r) && !(l.Const? && r.Const?) && !(r.Const? && l.Add? && l.right.Const?)
    case _ => true
  }

  predicate LeafFree(e: NExpr) {
    match e
    case Add(_, l, r) => LeafFree(l) && LeafFree(r)
    case _ => e.Const?
  }

  predicate HasWidth(v: Verinum, w: nat) {
    v.hasLen && |v.bits| >= w
  }

  // ----- padding -----

  lemma LowOfWide(v: Verinum, w: nat)
    requires v.bits != [] && w <= |v.bits|
    ensures Low(v, w) == v.bits[..w]
  {
    assert PadToWidth(v, w).bits == v.bits;
  }

  /** Padding in two steps is padding in one. */
  lemma PadTwice(v: Verinum, n: nat, w: nat)
    requires v.bits != []
    ensures Low(PadToWidth(v, n), w) == Low(v, w)
  {
    var p := PadToWidth(v, n);
    if |v.bits| < n {
      assert p.bits[|p.bits| - 1] == PadBit(v);
      assert PadBit(p) == PadBit(v);
    } else {
      assert p.bits == v.bits;
    }
    assert PadToWidth(p, w).bits[..w] == PadToWidth(v, w).bits[..w];
  }

  /** Folding leaves a constant with a length alone. One without is widened to a pruning context that is
      wider: an x, z, or sign at its top is repeated, a 1 that is not a sign is not. */
  lemma ConstantWidened(v: Verinum, prune: int)
    requires v.bits != []
    ensures var r, n := EvalConst(v, prune), |v.bits|;
            (v.hasLen || prune <= n ==> r == v) && (!v.hasLen && prune > n ==> |r.bits| == prune) && r.bits[..n] == v.bits
            && forall i | n <= i < |r.bits| :: r.bits[i] == if v.bits[n - 1] == V1 && !v.hasSign then V0 else v.bits[n - 1]
  {
  }

  /** A folded constant with a length has the longer operand's, and one bit more without pruning; it is signed
      when both operands are. */
  lemma FoldConstShape(minus: bool, l: Verinum, r: Verinum, prune: int)
    requires l.bits != [] && r.bits != []
    ensures var c, n := FoldConst(minus, l, r, prune), if |l.bits| >= |r.bits| then |l.bits| else |r.bits|;
            c.hasSign == (l.hasSign && r.hasSign) && c.hasLen == (l.hasLen && r.hasLen)
            && if c.hasLen then |c.bits| == (if prune < 0 then n + 1 else n) else |c.bits| <= n + 1
  {
    hide Ripple;
  }

  lemma EvalConstLow(v: Verinum, prune: int, w: nat)
    requires v.bits != []
    ensures Low(EvalConst(v, prune), w) == Low(v, w)
  {
    if prune > 0 { PadTwice(v, prune, w); }
  }

  lemma FoldConstValue(minus: bool, l: Verinum, r: Verinum, prune: int, w: nat)
    requires w > 0 && HasWidth(l, w) && HasWidth(r, w)
    ensures HasWidth(FoldConst(minus, l, r, prune), w)
    ensures ValueOf(Low(FoldConst(minus, l, r, prune), w)) == Combine(ValueOf(Low(l, w)), ValueOf(Low(r, w)), minus, w)
  {
    hide Ripple, Wrap, Val;
    if minus { MinusLow(l, r, w); } else { PlusLow(l, r, w); }
    var val := if minus then Minus(l, r) else Plus(l, r);
    ResizeLow(val, Max(|l.bits|, |r.bits|) + (if prune < 0 then 1 else 0), w);
    LowOfWide(l, w);
    LowOfWide(r, w);
    LowOfWide(FoldConst(minus, l, r, prune), w);
  }

  lemma ResizeLow(v: Verinum, n: nat, w: nat)
    requires 0 < w <= n && w <= |v.bits|
    ensures Resize(v, n).bits[..w] == v.bits[..w]
  {
    if n <= |v.bits| { TakeTwice(v.bits, n, w); } else { ExtendLow(v.bits, v.hasSign, n, w); }
  }

  /** Moving both constants to one side keeps the value modulo 2^w, for constants of any length and
      undefined bits included. */
  lemma MergeValue(a: Value, op1: bool, op2: bool, c1: Verinum, c2: Verinum, w: nat)
    requires w > 0 && c1.bits != [] && c2.bits != []
    ensures Combine(Combine(a, ValueOf(Low(c1, w)), op1, w), ValueOf(Low(c2, w)), op2, w)
         == Combine(a, ValueOf(Low(MergeConst(op1, op2, c1, c2, w), w)), op2, w)
  {
    hide *;
    MergeConstLow(op1, op2, c1, c2, w);
    CombineMerge(a, ValueOf(Low(c1, w)), ValueOf(Low(c2, w)), op1, op2, w);
  }

  lemma MergeConstLow(op1: bool, op2: bool, c1: Verinum, c2: Verinum, w: nat)
    requires w > 0 && c1.bits != [] && c2.bits != []
    ensures ValueOf(Low(MergeConst(op1, op2, c1, c2, w), w))
         == Combine(ValueOf(Low(c2, w)), ValueOf(Low(c1, w)), op1 != op2, w)
  {
    hide Ripple, Wrap, Val;
    var p1, p2 := PadToWidth(c1, w), PadToWidth(c2, w);
    if op1 == op2 { PlusLow(p2, p1, w); } else { MinusLow(p2, p1, w); }
    var val := if op1 == op2 then Plus(p2, p1) else Minus(p2, p1);
    if |val.bits| > w { ResizeLow(val, w, w); }
    LowOfWide(MergeConst(op1, op2, c1, c2, w), w);
  }

  lemma CombineMerge(a: Value, x: Value, y: Value, op1: bool, op2: bool, w: nat)
    ensures Combine(Combine(a, x, op1, w), y, op2, w) == Combine(a, Combine(y, x, op1 != op2, w), op2, w)
  {
    hide Wrap;
    if a.Num? && x.Num? && y.Num? {
      var c: int := if op1 == op2 then y.n + x.n else y.n - x.n;
      if op2 {
        MergeDifference(if op1 then a.n - x.n else a.n + x.n, y.n, a.n, c, w);
      } else {
        MergeSum(if op1 then a.n - x.n else a.n + x.n, y.n, a.n, c, w);
      }
    }
  }

  lemma MergeSum(s: int, y: int, a: int, c: int, w: nat)
    requires s + y == a + c
    ensures Wrap(Wrap(s, w) + y, w) == Wrap(a + Wrap(c, w), w)
  {
    WrapSum(s, y, w);
    WrapSum(c, a, w);
  }

  lemma MergeDifference(s: int, y: int, a: int, c: int, w: nat)
    requires s - y == a - c
    ensures Wrap(Wrap(s, w) - y, w) == Wrap(a - Wrap(c, w), w)
  {
    WrapSum(s, 0 - y, w);
    WrapDifference(c, a, w);
  }

  lemma {:induction false} LeafFreeFolds(e: NExpr, w: nat, prune: int)
    requires Sized(e, w)
    ensures Fold(e, w, prune).Const? <==> LeafFree(e)
  {
    match e
    case Add(_, l, r) => LeafFreeFolds(l, w, prune); LeafFreeFolds(r, w, prune);
    case _ =>
  }

  lemma RewriteCorrect(minus: bool, l: NExpr, r: NExpr, env: nat -> Value, w: nat, prune: int)
    requires Sized(l, w) && Sized(r, w) && Folded(l) && Folded(r) && !(l.Const? && r.Const?)
    requires l.Add? ==> Sized(l.left, w) && Sized(l.right, w)
    ensures var f := Rewrite(minus, l, r, w, prune);
            Folded(f) && Eval(f, env, w) == Eval(Add(minus, l, r), env, w)
  {
    if l.Add? && l.right.Const? && r.Const? { MergedCorrect(minus, l, r, env, w); }
  }

  lemma EvalAdd(minus: bool, l: NExpr, r: NExpr, env: nat -> Value, w: nat)
    requires Sized(l, w) && Sized(r, w)
    ensures Sized(Add(minus, l, r), w)
    ensures Eval(Add(minus, l, r), env, w) == Combine(Eval(l, env, w), Eval(r, env, w), minus, w)
  {
    hide Combine, ValueOf, Low;
  }

  lemma MergedCorrect(minus: bool, l: NExpr, r: NExpr, env: nat -> Value, w: nat)
    requires l.Add? && l.right.Const? && r.Const? && Sized(l, w) && Sized(r, w) && Sized(l.left, w) && Sized(l.right, w)
    ensures var c := Const(MergeConst(l.minus, minus, l.right.val, r.val, w));
            Sized(c, w) && Sized(Add(minus, l.left, c), w) && Sized(Add(minus, l, r), w)
            && Eval(Add(minus, l.left, c), env, w) == Eval(Add(minus, l, r), env, w)
  {
    hide MergeConst, Low, Combine, ValueOf;
    var c := Const(MergeConst(l.minus, minus, l.right.val, r.val, w));
    EvalAdd(minus, l.left, c, env, w);
    EvalAdd(minus, l, r, env, w);
    EvalAdd(l.minus, l.left, l.right, env, w);
    MergeValue(Eval(l.left, env, w), l.minus, minus, l.right.val, r.val, w);
  }

  // ----- constants that meet constants at other widths -----

  lemma UnsignedPlus(l: Verinum, r: Verinum)
    requires l.bits != [] && r.bits != [] && Defined(l.bits) && Defined(r.bits) && !(l.hasSign && r.hasSign)
    ensures var p := Plus(l, r);
            Defined(p.bits) && !p.hasSign && Val(p.bits) == Val(l.bits) + Val(r.bits)
  {
    hide Ripple, Wrap, Val, Pow2;
    var n := Max(|l.bits|, |r.bits|) + 1;
    var le, re := Extend(l.bits, false, n), Extend(r.bits, false, n);
    ExtendZero(l.bits, n);
    ExtendZero(r.bits, n);
    ExtendDefined(l.bits, n);
    ExtendDefined(r.bits, n);
    RippleValue(le, re, V0);
    ValBound(l.bits);
    ValBound(r.bits);
    Pow2Monotone(|l.bits|, n - 1);
    Pow2Monotone(|r.bits|, n - 1);
    Doubles(n);
    WrapSmall(Val(l.bits) + Val(r.bits), n);
  }

  predicate Negative(v: Verinum) {
    v.hasSign && Sign(v.bits)
  }

  function Result(minus: bool, x: int, y: int): int {
    if minus then x - y else x + y
  }

  predicate InSigned(x: int, n: nat)
    requires n > 0
  {
    0 <= x + Pow2(n - 1) < Pow2(n)
  }

  /** Where the folded constant, as long as the longer operand, is right at width `w`. Two signed constants:
      up to that width, without pruning, and where the result fits it. Otherwise both are read as unsigned,
      which a negative one can only afford where its own sign bit is not below the width, or where the
      carry or borrow that is lost makes up for it. */
  predicate FoldRight(minus: bool, l: Verinum, r: Verinum, prune: int, w: nat)
    requires l.bits != [] && r.bits != []
  {
    var n, u := Max(|l.bits|, |r.bits|), Result(minus, Val(l.bits), Val(r.bits));
    if l.hasSign && r.hasSign then w <= n || prune < 0 || InSigned(Result(minus, SVal(l.bits), SVal(r.bits)), n)
    else if w <= n then (Negative(l) ==> w <= |l.bits|) && (Negative(r) ==> w <= |r.bits|)
    else if !Negative(l) && !Negative(r) then (if minus then u >= 0 else prune < 0 || u < Pow2(n))
    else if !minus then prune >= 0 && u >= Pow2(n) && (if Negative(l) then |l.bits| else |r.bits|) == n
    else if Negative(r) then u < 0 && |r.bits| == n
    else u < 0 && |l.bits| == n && w == n + 1
  }

  /** Two defined constants with lengths fold to their sum or difference at width `w` exactly there. */
  lemma NarrowFoldExactly(minus: bool, l: Verinum, r: Verinum, prune: int, w: nat)
    requires w > 0 && l.bits != [] && r.bits != [] && Defined(l.bits) && Defined(r.bits) && l.hasLen && r.hasLen
    ensures ValueOf(Low(FoldConst(minus, l, r, prune), w)) == Combine(ValueOf(Low(l, w)), ValueOf(Low(r, w)), minus, w)
            <==> FoldRight(minus, l, r, prune, w)
  {
    hide FoldConst, Low, ValueOf, Combine, FoldRight, Wrap, Val, Number;
    var c := FoldConst(minus, l, r, prune);
    if l.hasSign && r.hasSign { FoldConstSigned(minus, l, r, prune); } else { FoldConstUnsigned(minus, l, r, prune); }
    LowNumber(l, w);
    LowNumber(r, w);
    LowNumber(c, w);
    CombineWrapped(minus, Number(l), Number(r), w);
    if l.hasSign && r.hasSign { SignedFoldRight(minus, l, r, prune, w); } else { UnsignedFoldRight(minus, l, r, prune, w); }
  }

  /** A defined number is padded to what it stands for. */
  lemma LowNumber(v: Verinum, w: nat)
    requires v.bits != [] && Defined(v.bits)
    ensures ValueOf(Low(v, w)) == Num(Wrap(Number(v), w))
  {
    hide Val, Wrap, Pow2;
    var pad, m := PadBit(v), Max(|v.bits|, w) - |v.bits|;
    var p := v.bits + Repeat(pad, m);
    PaddedValue(v.bits, pad, m);
    LowBits(p, w);
    ShiftFold.WrapHigh(Number(v), |p| - w, w);
  }

  lemma CombineWrapped(minus: bool, x: int, y: int, w: nat)
    ensures Combine(Num(Wrap(x, w)), Num(Wrap(y, w)), minus, w) == Num(Wrap(Result(minus, x, y), w))
  {
    hide Wrap;
    if minus {
      WrapDifference(y, Wrap(x, w), w);
      WrapSum(x, 0 - y, w);
    } else {
      WrapSum(x, Wrap(y, w), w);
      WrapSum(y, x, w);
    }
  }

  lemma {:induction false} WrapNest(x: int, m: nat, w: nat)
    requires w <= m
    ensures Wrap(Wrap(x, m), w) == Wrap(x, w)
    decreases w
  {
    if w > 0 { WrapNest(x / 2, m - 1, w - 1); }
  }

  lemma WrapShows(x: int, k: nat, w: nat)
    ensures Wrap(x + Pow2(k), w) == Wrap(x, w) <==> w <= k
  {
    if w <= k { ShiftFold.WrapHigh(x, k - w, w); } else { WrapDiffers(x, k, w); }
  }

  /** Whether or not the extra bit of a signed result was dropped, resizing gives it back. */
  lemma FoldConstPrefix(minus: bool, l: Verinum, r: Verinum, prune: int)
    requires l.bits != [] && r.bits != [] && l.hasLen && r.hasLen && l.hasSign && r.hasSign
    ensures var n := Max(|l.bits|, |r.bits|);
            var le, re := Extend(l.bits, true, n + 1), Extend(r.bits, true, n + 1);
            var m := if prune < 0 then n + 1 else n;
            FoldConst(minus, l, r, prune) == Verinum((if minus then Ripple(le, NotBits(re), V1) else Ripple(le, re, V0))[..m], true, true)
  {
    hide Ripple, NotBits;
    var n := Max(|l.bits|, |r.bits|);
    var le, re := Extend(l.bits, true, n + 1), Extend(r.bits, true, n + 1);
    var all, m := if minus then Ripple(le, NotBits(re), V1) else Ripple(le, re, V0), if prune < 0 then n + 1 else n;
    var v := if minus then Minus(l, r) else Plus(l, r);
    assert v.bits == all || (v.bits == all[..n] && all[n] == all[n - 1]);
    assert Resize(v, m).bits == all[..m];
  }

  lemma FoldConstSigned(minus: bool, l: Verinum, r: Verinum, prune: int)
    requires l.bits != [] && r.bits != [] && Defined(l.bits) && Defined(r.bits)
    requires l.hasLen && r.hasLen && l.hasSign && r.hasSign
    ensures var n := Max(|l.bits|, |r.bits|);
            var c := FoldConst(minus, l, r, prune);
            c.hasLen && c.hasSign && Defined(c.bits) && |c.bits| == (if prune < 0 then n + 1 else n)
            && Val(c.bits) == Wrap(Result(minus, SVal(l.bits), SVal(r.bits)), |c.bits|)
  {
    hide Ripple, Wrap, Val, SVal, NotBits, FoldConst, Extend;
    var n, m := Max(|l.bits|, |r.bits|), |FoldConst(minus, l, r, prune).bits|;
    FoldConstPrefix(minus, l, r, prune);
    SignedRipple(minus, l.bits, r.bits, n + 1);
    var le, re := Extend(l.bits, true, n + 1), Extend(r.bits, true, n + 1);
    LowBits(if minus then Ripple(le, NotBits(re), V1) else Ripple(le, re, V0), m);
    WrapNest(Result(minus, SVal(l.bits), SVal(r.bits)), n + 1, m);
  }

  lemma SignedFoldRight(minus: bool, l: Verinum, r: Verinum, prune: int, w: nat)
    requires w > 0 && l.bits != [] && r.bits != [] && Defined(l.bits) && Defined(r.bits)
    requires l.hasLen && r.hasLen && l.hasSign && r.hasSign
    ensures Wrap(Number(FoldConst(minus, l, r, prune)), w) == Wrap(Result(minus, Number(l), Number(r)), w)
            <==> FoldRight(minus, l, r, prune, w)
  {
    hide FoldConst, Wrap, Val, SVal, Pow2;
    var n, x := Max(|l.bits|, |r.bits|), Result(minus, SVal(l.bits), SVal(r.bits));
    FoldConstSigned(minus, l, r, prune);
    SignedRange(l.bits, r.bits, n + 1);
    SignedReading(FoldConst(minus, l, r, prune).bits, x, w);
    if w > n { Pow2Monotone(n, w - 1); Doubles(w); Doubles(n + 1); }
  }

  /** A vector that holds an integer modulo its length has it at width `w` exactly when `w` is no wider or
      the integer is in its signed range. */
  lemma SignedReading(b: Bits, x: int, w: nat)
    requires b != [] && w > 0 && Val(b) == Wrap(x, |b|)
    ensures w <= |b| || InSigned(x, |b|) ==> Wrap(SVal(b), w) == Wrap(x, w)
    ensures w > |b| && !InSigned(x, |b|) && InSigned(x, w) ==> Wrap(SVal(b), w) != Wrap(x, w)
  {
    hide Wrap, Val, Pow2;
    SValBound(b);
    if w <= |b| {
      WrapNest(x, |b|, w);
      ShiftFold.WrapHigh(SVal(b), |b| - w, w);
    } else if InSigned(x, |b|) {
      ShiftFold.SignedUnique(b, x);
    } else if InSigned(x, w) {
      Pow2Monotone(|b|, w - 1);
      Doubles(|b|);
      Doubles(w);
      ShiftFold.WrapRange(SVal(b), w);
      ShiftFold.WrapRange(x, w);
    }
  }

  lemma NumberOf(v: Verinum)
    ensures Number(v) == Val(v.bits) - if Negative(v) then Pow2(|v.bits|) else 0
  {
  }

  lemma UnsignedFoldRight(minus: bool, l: Verinum, r: Verinum, prune: int, w: nat)
    requires w > 0 && l.bits != [] && r.bits != [] && Defined(l.bits) && Defined(r.bits)
    requires l.hasLen && r.hasLen && !(l.hasSign && r.hasSign)
    ensures Wrap(Number(FoldConst(minus, l, r, prune)), w) == Wrap(Result(minus, Number(l), Number(r)), w)
            <==> FoldRight(minus, l, r, prune, w)
  {
    hide FoldConst, Wrap, Val, Pow2, Number, Sign;
    var n, u := Max(|l.bits|, |r.bits|), Result(minus, Val(l.bits), Val(r.bits));
    var c := FoldConst(minus, l, r, prune);
    FoldConstUnsigned(minus, l, r, prune);
    NumberOf(l);
    NumberOf(r);
    NumberOf(c);
    if w <= n {
      WrapNest(u, if minus then n else |c.bits|, w);
      var k := if Negative(l) then |l.bits| else |r.bits|;
      WrapShows(u, k, w);
      WrapShows(u - Pow2(k), k, w);
    } else {
      ValBound(l.bits);
      ValBound(r.bits);
      UnsignedFoldLong(minus, Val(l.bits), Val(r.bits), Negative(l), Negative(r), |l.bits|, |r.bits|, prune < 0, w);
    }
  }

  /** The arithmetic of that condition above the folded width. */
  lemma UnsignedFoldLong(minus: bool, a: nat, b: nat, s: bool, t: bool, i: nat, j: nat, keep: bool, w: nat)
    requires a < Pow2(i) && b < Pow2(j) && !(s && t) && w > Max(i, j)
    ensures var n, u := Max(i, j), Result(minus, a, b);
            var x := Result(minus, a - (if s then Pow2(i) else 0), b - (if t then Pow2(j) else 0));
            Wrap(Wrap(u, if keep && !minus then n + 1 else n), w) == Wrap(x, w)
            <==> if !s && !t then (if minus then u >= 0 else keep || u < Pow2(n))
                 else if !minus then !keep && u >= Pow2(n) && (if s then i else j) == n
                 else if t then u < 0 && j == n
                 else u < 0 && i == n && w == n + 1
  {
    hide Wrap, Pow2;
    var n, u := Max(i, j), Result(minus, a, b);
    var x := Result(minus, a - (if s then Pow2(i) else 0), b - (if t then Pow2(j) else 0));
    WidthPowers(i, n, w);
    WidthPowers(j, n, w);
    WrapOnce(u, n);
    WrapBound(u, if keep && !minus then n + 1 else n);
    if keep && !minus { WrapSmall(u, n + 1); }
    WrapSmall(Wrap(u, if keep && !minus then n + 1 else n), w);
    WrapBelow(x, w);
  }

  lemma WidthPowers(k: nat, n: nat, w: nat)
    requires k <= n < w
    ensures Pow2(k) <= Pow2(n) && 2 * Pow2(n) <= Pow2(w) && Pow2(n + 1) == 2 * Pow2(n)
    ensures Pow2(k) == Pow2(n) <==> k == n
    ensures Pow2(w) == 2 * Pow2(n) <==> w == n + 1
    ensures w > n + 1 ==> Pow2(w) >= 4 * Pow2(n)
  {
    Pow2Monotone(k, n);
    Pow2Strict(n, w);
    if k < n { Pow2Strict(k, n); }
    if w > n + 1 { Pow2Strict(n + 1, w); }
  }

  lemma WrapOnce(x: int, n: nat)
    requires 0 - Pow2(n) <= x < 2 * Pow2(n)
    ensures Wrap(x, n) == if x < 0 then x + Pow2(n) else if x < Pow2(n) then x else x - Pow2(n)
  {
    hide Wrap, Pow2;
    if x < 0 {
      WrapShift(x, n);
      WrapSmall(x + Pow2(n), n);
    } else if x < Pow2(n) {
      WrapSmall(x, n);
    } else {
      WrapShift(x - Pow2(n), n);
      WrapSmall(x - Pow2(n), n);
    }
  }

  lemma FoldConstUnsigned(minus: bool, l: Verinum, r: Verinum, prune: int)
    requires l.bits != [] && r.bits != [] && Defined(l.bits) && Defined(r.bits)
    requires l.hasLen && r.hasLen && !(l.hasSign && r.hasSign)
    ensures var n := Max(|l.bits|, |r.bits|);
            var c := FoldConst(minus, l, r, prune);
            c.hasLen && !c.hasSign && Defined(c.bits) && |c.bits| == (if prune < 0 then n + 1 else n)
            && Val(c.bits) == if minus then Wrap(Val(l.bits) - Val(r.bits), n) else Wrap(Val(l.bits) + Val(r.bits), |c.bits|)
  {
    hide Ripple, Wrap, Val, Pow2;
    var n := Max(|l.bits|, |r.bits|);
    var c := FoldConst(minus, l, r, prune);
    if minus {
      UnsignedMinus(l, r);
      var d := Minus(l, r);
      if prune < 0 {
        PaddedValue(d.bits, V0, 1);
        assert c.bits == d.bits + Repeat(V0, 1);
      } else {
        assert c.bits == d.bits;
      }
    } else {
      UnsignedPlus(l, r);
      var p := Plus(l, r);
      LowBits(p.bits, |c.bits|);
      assert c.bits == p.bits[..|c.bits|];
    }
  }

  lemma WrapBelow(x: int, n: nat)
    requires 0 - Pow2(n) < x < Pow2(n)
    ensures Wrap(x, n) == if x >= 0 then x else x + Pow2(n)
  {
    hide Wrap, Pow2;
    if x >= 0 {
      WrapSmall(x, n);
    } else {
      WrapShift(x, n);
      WrapSmall(x + Pow2(n), n);
    }
  }

  lemma {:induction false} Pow2Strict(n: nat, w: nat)
    requires n < w
    ensures 2 * Pow2(n) <= Pow2(w)
  {
    Pow2Monotone(n + 1, w);
  }

  lemma {:induction false} WrapBound(x: int, n: nat)
    ensures Wrap(x, n) < Pow2(n)
    decreases n
  {
    if n > 0 { WrapBound(x / 2, n - 1); }
  }

  // ----- constants without a width -----

  lemma ExtendNumber(b: Bits, n: nat)
    requires b != [] && |b| <= n && Defined(b)
    ensures var e := Extend(b, true, n);
            Defined(e) && Val(e) == SVal(b) + if Sign(b) then Pow2(n) else 0
  {
    PaddedValue(b, b[|b| - 1], n - |b|);
  }

  /** A sign bit that repeats the one below can be dropped. */
  lemma DropSign(b: Bits)
    requires |b| >= 2 && b[|b| - 1] == b[|b| - 2]
    ensures SVal(b[..|b| - 1]) == SVal(b)
  {
    var n := |b| - 1;
    PaddedValue(b[..n], b[n], 1);
    assert b == b[..n] + Repeat(b[n], 1);
  }

  lemma WrapOffsets(x: int, y: int, s: bool, t: bool, plus: bool, n: nat)
    ensures var a, b := x + (if s then Pow2(n) else 0), y + (if t then Pow2(n) else 0);
            Wrap(if plus then a + b else a - b, n) == Wrap(if plus then x + y else x - y, n)
  {
    hide Wrap, Pow2;
    var p := Pow2(n);
    WrapShift(x + y, n);
    WrapShift(x + y + p, n);
    WrapShift(x - y, n);
    WrapShift(x - y - p, n);
  }

  /** The signed operations are exact. */
  lemma SignedExact(minus: bool, l: Verinum, r: Verinum)
    requires l.bits != [] && r.bits != [] && Defined(l.bits) && Defined(r.bits) && l.hasSign && r.hasSign
    ensures var v := if minus then Minus(l, r) else Plus(l, r);
            v.hasSign && SVal(v.bits) == if minus then SVal(l.bits) - SVal(r.bits) else SVal(l.bits) + SVal(r.bits)
  {
    hide Ripple, Wrap, Val, SVal, Pow2, NotBits;
    var n := Max(|l.bits|, |r.bits|) + 1;
    var le, re := Extend(l.bits, true, n), Extend(r.bits, true, n);
    var all := if minus then Ripple(le, NotBits(re), V1) else Ripple(le, re, V0);
    SignedAll(minus, l.bits, r.bits, n);
    if minus && all[n - 1] == all[n - 2] { DropSign(all); }
  }

  lemma SignedAll(minus: bool, l: Bits, r: Bits, n: nat)
    requires l != [] && r != [] && Defined(l) && Defined(r) && n == Max(|l|, |r|) + 1
    ensures var le, re := Extend(l, true, n), Extend(r, true, n);
            SVal(if minus then Ripple(le, NotBits(re), V1) else Ripple(le, re, V0))
            == if minus then SVal(l) - SVal(r) else SVal(l) + SVal(r)
  {
    hide Ripple, Wrap, Val, SVal, Pow2, NotBits;
    var le, re := Extend(l, true, n), Extend(r, true, n);
    SignedRipple(minus, l, r, n);
    SignedRange(l, r, n);
    ShiftFold.SignedUnique(if minus then Ripple(le, NotBits(re), V1) else Ripple(le, re, V0),
                           if minus then SVal(l) - SVal(r) else SVal(l) + SVal(r));
  }

  lemma SignedRange(l: Bits, r: Bits, n: nat)
    requires l != [] && r != [] && n == Max(|l|, |r|) + 1
    ensures 0 <= SVal(l) + SVal(r) + Pow2(n - 1) < Pow2(n) && 0 <= SVal(l) - SVal(r) + Pow2(n - 1) < Pow2(n)
  {
    hide SVal;
    SValBound(l);
    SValBound(r);
    Pow2Monotone(|l| - 1, n - 2);
    Pow2Monotone(|r| - 1, n - 2);
    Doubles(|l|);
    Doubles(|r|);
    Doubles(n);
    Doubles(n - 1);
  }

  lemma Doubles(n: nat)
    requires n > 0
    ensures Pow2(n) == 2 * Pow2(n - 1)
  {
  }

  lemma SignedRipple(minus: bool, l: Bits, r: Bits, n: nat)
    requires l != [] && r != [] && Defined(l) && Defined(r) && n == Max(|l|, |r|) + 1
    ensures var le, re := Extend(l, true, n), Extend(r, true, n);
            var all := if minus then Ripple(le, NotBits(re), V1) else Ripple(le, re, V0);
            Defined(all) && Val(all) == Wrap(if minus then SVal(l) - SVal(r) else SVal(l) + SVal(r), n)
  {
    hide Ripple, Wrap, Val, SVal, Pow2;
    var le, re := Extend(l, true, n), Extend(r, true, n);
    ExtendNumber(l, n);
    ExtendNumber(r, n);
    WrapOffsets(SVal(l), SVal(r), Sign(l), Sign(r), !minus, n);
    if minus {
      NotValue(re);
      RippleValue(le, NotBits(re), V1);
      WrapShift(Val(le) - Val(re), n);
    } else {
      RippleValue(le, re, V0);
    }
  }

  /** Where constants without a width fold right: always when both are signed; otherwise both are read as
      unsigned, so no sum of a negative one is right, and no difference unless it is not negative, or
      its borrow makes up for a negative subtrahend. */
  predicate UnsizedRight(minus: bool, l: Verinum, r: Verinum) {
    if l.hasSign && r.hasSign then true
    else if !minus then !Negative(l) && !Negative(r)
    else !Negative(l) && if Negative(r) then Val(l.bits) < Val(r.bits) && |l.bits| <= |r.bits| else Val(l.bits) >= Val(r.bits)
  }

  lemma UnsizedFoldDefined(minus: bool, l: Verinum, r: Verinum, prune: int)
    requires l.bits != [] && r.bits != [] && Defined(l.bits) && Defined(r.bits) && !(l.hasLen && r.hasLen)
    ensures Defined(FoldConst(minus, l, r, prune).bits)
  {
    hide Ripple, Wrap, Val, SVal, Pow2, Sign, NotBits;
    ShiftFold.TrimValue(if minus then Minus(l, r) else Plus(l, r));
    if l.hasSign && r.hasSign {
      SignedRipple(minus, l.bits, r.bits, Max(|l.bits|, |r.bits|) + 1);
    } else if minus {
      UnsignedMinus(l, r);
    } else {
      UnsignedPlus(l, r);
    }
  }

  /** Constants without a width fold to their exact sum or difference exactly there. */
  lemma UnsizedFoldExactly(minus: bool, l: Verinum, r: Verinum, prune: int)
    requires l.bits != [] && r.bits != [] && Defined(l.bits) && Defined(r.bits) && !(l.hasLen && r.hasLen)
    ensures Number(FoldConst(minus, l, r, prune)) == Result(minus, Number(l), Number(r)) <==> UnsizedRight(minus, l, r)
  {
    hide Ripple, Wrap, Val, SVal, Pow2, Sign;
    var v := if minus then Minus(l, r) else Plus(l, r);
    ShiftFold.TrimValue(v);
    NumberOf(l);
    NumberOf(r);
    NumberOf(v);
    if l.hasSign && r.hasSign {
      assert Number(l) == SVal(l.bits) && Number(r) == SVal(r.bits) && Number(v) == SVal(v.bits);
      SignedExact(minus, l, r);
    } else if minus {
      UnsignedMinus(l, r);
      var n := |v.bits|;
      ValBound(l.bits);
      ValBound(r.bits);
      WidthPowers(|l.bits|, n, n + 1);
      WidthPowers(|r.bits|, n, n + 1);
      WrapBelow(Val(l.bits) - Val(r.bits), n);
    } else {
      UnsignedPlus(l, r);
    }
  }

  // ----- whole chains -----

  /** A sum of two constants is folded right: both have the common width, or both are defined and one of
      the exact conditions holds. */
  predicate StepRight(minus: bool, l: Verinum, r: Verinum, prune: int, w: nat)
    requires l.bits != [] && r.bits != []
  {
    (HasWidth(l, w) && HasWidth(r, w))
    || (Defined(l.bits) && Defined(r.bits)
        && if l.hasLen && r.hasLen then FoldRight(minus, l, r, prune, w) else UnsizedRight(minus, l, r))
  }

  /** Every constant that meets a constant does so right. A constant next to a name may be any. */
  predicate ConstSumsRight(e: NExpr, w: nat, prune: int)
    requires Sized(e, w)
  {
    e.Add? ==>
      ConstSumsRight(e.left, w, prune) && ConstSumsRight(e.right, w, prune)
      && var l, r := Fold(e.left, w, prune), Fold(e.right, w, prune);
         l.Const? && r.Const? ==> StepRight(e.minus, l.val, r.val, prune, w)
  }

  lemma StepCorrect(minus: bool, l: Verinum, r: Verinum, prune: int, w: nat)
    requires w > 0 && l.bits != [] && r.bits != [] && StepRight(minus, l, r, prune, w)
    ensures ValueOf(Low(FoldConst(minus, l, r, prune), w)) == Combine(ValueOf(Low(l, w)), ValueOf(Low(r, w)), minus, w)
  {
    hide FoldConst, Low, ValueOf, Combine, FoldRight, UnsizedRight, Number;
    if HasWidth(l, w) && HasWidth(r, w) {
      FoldConstValue(minus, l, r, prune, w);
    } else if l.hasLen && r.hasLen {
      NarrowFoldExactly(minus, l, r, prune, w);
    } else {
      UnsizedFoldExactly(minus, l, r, prune);
      UnsizedFoldDefined(minus, l, r, prune);
      LowNumber(l, w);
      LowNumber(r, w);
      LowNumber(FoldConst(minus, l, r, prune), w);
      CombineWrapped(minus, Number(l), Number(r), w);
    }
  }

  /** Folding keeps the value modulo 2^w under every valuation, and nothing foldable remains. */
  lemma {:induction false} FoldCorrect(e: NExpr, env: nat -> Value, w: nat, prune: int)
    requires Sized(e, w) && ConstSumsRight(e, w, prune)
    ensures Eval(Fold(e, w, prune), env, w) == Eval(e, env, w) && Folded(Fold(e, w, prune))
  {
    match e
    case Add(minus, l, r) =>
      FoldCorrect(l, env, w, prune);
      FoldCorrect(r, env, w, prune);
      var l', r' := Fold(l, w, prune), Fold(r, w, prune);
      if l'.Const? && r'.Const? {
        StepCorrect(minus, l'.val, r'.val, prune, w);
      } else {
        RewriteCorrect(minus, l', r', env, w, prune);
      }
    case Const(v) => EvalConstLow(v, prune, w);
    case Leaf(_) =>
  }

  /** Every constant has a length, and at least the common width. */
  predicate AllWide(e: NExpr, w: nat) {
    match e
    case Add(_, l, r) => AllWide(l, w) && AllWide(r, w)
    case Const(v) => HasWidth(v, w)
    case Leaf(_) => true
  }

  /** Constants that meet constants have the common width. A constant next to a name may have any length. */
  predicate ConstSumsWide(e: NExpr, w: nat) {
    e.Add? ==> if LeafFree(e) then AllWide(e, w) else ConstSumsWide(e.left, w) && ConstSumsWide(e.right, w)
  }

  /** In particular constants of the common width are folded right, undefined bits included. */
  lemma {:induction false} WideSumsRight(e: NExpr, w: nat, prune: int)
    requires Sized(e, w) && ConstSumsWide(e, w)
    ensures ConstSumsRight(e, w, prune)
    ensures LeafFree(e) && AllWide(e, w) ==> Fold(e, w, prune).Const? && HasWidth(Fold(e, w, prune).val, w)
  {
    LeafFreeFolds(e, w, prune);
    if e.Add? {
      WideSumsRight(e.left, w, prune);
      WideSumsRight(e.right, w, prune);
      LeafFreeFolds(e.left, w, prune);
      LeafFreeFolds(e.right, w, prune);
      if LeafFree(e) { FoldConstValue(e.minus, Fold(e.left, w, prune).val, Fold(e.right, w, prune).val, prune, w); }
    }
  }

  /** The node as it is updated in place. */
  class NetEBAdd {
    var minus: bool
    var left: NExpr
    var right: NExpr

    constructor (minus: bool, l: NExpr, r: NExpr)
      ensures this.minus == minus && left == l && right == r
    {
      this.minus, left, right := minus, l, r;
    }

    /** Returns the folded constant, or none after rewriting the operands. */
    method EvalTree(w: nat, prune: int) returns (isConst: bool, res: Verinum)
      requires Sized(left, w) && Sized(right, w)
      modifies this
      ensures minus == old(minus)
      ensures Fold(Add(minus, old(left), old(right)), w, prune) == if isConst then Const(res) else Add(minus, left, right)
    {
      left := Fold(left, w, prune);
      right := Fold(right, w, prune);
      isConst, res := false, Verinum([], false, false);
      if left.Const? && right.Const? {
        isConst, res := true, FoldConst(minus, left.val, right.val, prune);
      } else if left.Add? && left.right.Const? && right.Const? {
        var tmp := MergeConst(left.minus, minus, left.right.val, right.val, w);
        left := left.left;
        right := Const(tmp);
      }
    }
  }
}
