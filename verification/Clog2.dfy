/** `$clog2` on constants (`evaluate_clog2`, eval_tree.cc). */
module Clog2 {
  import opened Powers
  import opened Wrapping
  import opened Verinums
  import AddFold
  import ShiftFold

  const INTEGER_WIDTH: nat := 32

  /** The least `r` with `n <= 2^r`: what section 17.11.1 of IEEE 1364-2005 asks for. */
  predicate IsCeilLog2(n: nat, r: nat) {
    n <= Pow2(r) && forall k: nat | k < r :: Pow2(k) < n
  }

  lemma CeilLog2Unique(n: nat, r: nat, s: nat)
    requires IsCeilLog2(n, r) && IsCeilLog2(n, s)
    ensures r == s
  {
  }

  /** Number of binary digits; 0 for 0. */
  function Digits(m: nat): nat {
    if m == 0 then 0 else 1 + Digits(m / 2)
  }

  lemma {:induction false} DigitsBound(m: nat)
    ensures m < Pow2(Digits(m)) && (m > 0 ==> Pow2(Digits(m) - 1) <= m)
  {
    if m > 1 { DigitsBound(m / 2); }
  }

  function CeilLog2(n: nat): nat {
    if n == 0 then 0 else Digits(n - 1)
  }

  lemma CeilLog2Correct(n: nat)
    ensures IsCeilLog2(n, CeilLog2(n))
  {
    if n > 0 {
      DigitsBound(n - 1);
      forall k: nat | k < Digits(n - 1) ensures Pow2(k) < n {
        Pow2Monotone(k, Digits(n - 1) - 1);
      }
    }
  }

  // ----- verinum operations -----

  predicate IsZero(v: Verinum) {
    forall i | 0 <= i < |v.bits| :: v.bits[i] == V0
  }

  predicate IsNegative(v: Verinum)
    requires v.bits != []
  {
    v.hasSign && Sign(v.bits)
  }

  /** `operator >>` on a number. */
  function ShiftDown(v: Verinum, shift: nat): (r: Verinum)
    requires v.bits != []
    ensures r.bits != []
  {
    if shift >= |v.bits| then
      if v.hasSign then Verinum([v.bits[|v.bits| - 1]], true, true) else Verinum([V0], true, false)
    else Verinum(v.bits[shift..], v.hasLen, false)
  }

  lemma {:induction false} ZeroValue(b: Bits)
    requires Defined(b)
    ensures Val(b) == 0 <==> forall i | 0 <= i < |b| :: b[i] == V0
  {
    if b != [] {
      ZeroValue(b[1..]);
      assert forall i | 0 < i < |b| :: b[i] == b[1..][i - 1];
    }
  }

  lemma ShiftDownHalves(v: Verinum)
    requires v.bits != [] && Defined(v.bits) && !v.hasSign
    ensures var r := ShiftDown(v, 1);
            Defined(r.bits) && !r.hasSign && Val(r.bits) == Val(v.bits) / 2
  {
    if |v.bits| == 1 { assert v.bits[1..] == []; }
  }

  lemma Decrement(v: Verinum)
    requires v.bits != [] && Defined(v.bits) && !v.hasSign && Val(v.bits) > 0
    ensures var d := AddFold.Minus(v, Verinum([V1], true, false));
            d.bits != [] && Defined(d.bits) && !d.hasSign && Val(d.bits) == Val(v.bits) - 1
  {
    AddFold.UnsignedMinus(v, Verinum([V1], true, false));
    assert Val([V1]) == 1 by { assert [V1][1..] == []; }
    ValBound(v.bits);
    WrapSmall(Val(v.bits) - 1, |v.bits|);
  }

  // ----- the function -----

  datatype Result = Undefined | Number(r: nat)

  /** The bits the result is computed from: a negative number without a length is trimmed first. */
  function Counted(arg: Verinum): Bits
    requires arg.bits != []
  {
    if IsNegative(arg) && !arg.hasLen then ShiftFold.Trim(arg).bits else arg.bits
  }

  /** Decrement, then count the shifts that empty the number. */
  method CountShifts(arg: Verinum) returns (r: nat)
    requires arg.bits != [] && Defined(arg.bits) && !arg.hasSign
    ensures r == CeilLog2(Val(arg.bits))
  {
    r := 0;
    ZeroValue(arg.bits);
    if !IsZero(arg) {
      Decrement(arg);
      var v := AddFold.Minus(arg, Verinum([V1], true, false));
      ZeroValue(v.bits);
      while !IsZero(v)
        invariant v.bits != [] && Defined(v.bits) && !v.hasSign
        invariant IsZero(v) <==> Val(v.bits) == 0
        invariant r + Digits(Val(v.bits)) == CeilLog2(Val(arg.bits))
        decreases Val(v.bits)
      {
        ShiftDownHalves(v);
        r := r + 1;
        v := ShiftDown(v, 1);
        ZeroValue(v.bits);
      }
    }
  }

  function Raised(r: nat): nat {
    if r < INTEGER_WIDTH then INTEGER_WIDTH else r
  }

  method EvaluateClog2(arg: Verinum) returns (res: Result)
    requires arg.bits != []
    ensures res == Undefined <==> !Defined(arg.bits)
    ensures res.Number? && !IsNegative(arg) ==> IsCeilLog2(Val(arg.bits), res.r)
    ensures res.Number? && IsNegative(arg) ==> res.r == Raised(CeilLog2(Val(Counted(arg))))
  {
    if !Defined(arg.bits) { return Undefined; }
    var isNeg, v := false, arg;
    if IsNegative(arg) {
      isNeg := true;
      if !arg.hasLen { v := ShiftFold.Trim(arg); }
    }
    CeilLog2Correct(Val(arg.bits));
    var r := CountShifts(Verinum(v.bits, v.hasLen, false));
    res := Number(if isNeg && r < INTEGER_WIDTH then INTEGER_WIDTH else r);
  }

  /** For a negative number the answer is the one the standard asks for, which treats the argument as
      unsigned, exactly when that unsigned value is above 2^31 and, if the number has no length and more
      than 32 bits, nothing was trimmed. */
  lemma NegativeExactly(arg: Verinum)
    requires arg.bits != [] && IsNegative(arg)
    ensures IsCeilLog2(Val(arg.bits), Raised(CeilLog2(Val(Counted(arg)))))
            <==> Val(arg.bits) > Pow2(INTEGER_WIDTH - 1)
                 && (arg.hasLen || |arg.bits| <= INTEGER_WIDTH || Counted(arg) == arg.bits)
  {
    hide Pow2, Val, CeilLog2;
    if arg.hasLen || |arg.bits| <= INTEGER_WIDTH {
      ShortNegative(arg);
    } else {
      LongNegative(arg);
    }
  }

  lemma ShortNegative(arg: Verinum)
    requires arg.bits != [] && IsNegative(arg)
    requires arg.hasLen || |arg.bits| <= INTEGER_WIDTH
    ensures IsCeilLog2(Val(arg.bits), Raised(CeilLog2(Val(Counted(arg))))) <==> Val(arg.bits) > Pow2(INTEGER_WIDTH - 1)
  {
    hide Pow2, Val, CeilLog2;
    var n := Val(arg.bits);
    var r := CeilLog2(n);
    CeilLog2Correct(n);
    if r < INTEGER_WIDTH { Pow2Monotone(r, INTEGER_WIDTH - 1); }
    if !arg.hasLen {
      LengthBounds(arg.bits, INTEGER_WIDTH);
      LengthBounds(Counted(arg), INTEGER_WIDTH);
    }
    var answer := Raised(CeilLog2(Val(Counted(arg))));
    if IsCeilLog2(n, answer) { CeilLog2Unique(n, r, answer); }
  }

  /** Trimming a negative number loses a bit of its unsigned value for every sign bit it drops. */
  lemma LongNegative(arg: Verinum)
    requires arg.bits != [] && IsNegative(arg) && !arg.hasLen && |arg.bits| > INTEGER_WIDTH
    ensures Val(arg.bits) > Pow2(INTEGER_WIDTH - 1)
    ensures IsCeilLog2(Val(arg.bits), Raised(CeilLog2(Val(Counted(arg))))) <==> Counted(arg) == arg.bits
  {
    hide Pow2, Val, CeilLog2;
    var b, t := arg.bits, Counted(arg);
    var n, r := |b|, CeilLog2(Val(b));
    TopBits(b);
    CeilLog2Correct(Val(b));
    Pow2Monotone(INTEGER_WIDTH, n - 1);
    Pow2Strict(INTEGER_WIDTH - 1);
    CeilLog2Above(Val(b), r, INTEGER_WIDTH - 1);
    var answer := Raised(CeilLog2(Val(t)));
    if t != b {
      TrimmedSign(arg);
      LengthBounds(t, n - 1);
      CeilLog2Above(Val(b), r, n - 1);
      if IsCeilLog2(Val(b), answer) { CeilLog2Unique(Val(b), r, answer); }
    }
  }

  lemma CeilLog2Above(n: nat, r: nat, k: nat)
    requires IsCeilLog2(n, r) && n > Pow2(k)
    ensures r > k
  {
    if r <= k { Pow2Monotone(r, k); }
  }

  lemma Pow2Strict(k: nat)
    ensures Pow2(k) < Pow2(k + 1)
  {
  }

  /** The top bit, and the one below it, weigh what they weigh. */
  lemma TopBits(b: Bits)
    requires Sign(b)
    ensures Val(b) >= Pow2(|b| - 1)
    ensures |b| > 1 && b[|b| - 2] == V1 ==> Val(b) > Pow2(|b| - 1)
  {
    var n := |b| - 1;
    ValSplit(b, n);
    assert b[n..] == [V1];
    assert Val([V1]) == 1 by { assert [V1][1..] == []; }
    if n > 0 && b[n - 1] == V1 {
      assert Sign(b[..n]);
      TopBits(b[..n]);
    }
  }

  /** What trimming drops from a negative number, and the bit below, are copies of the sign. */
  lemma TrimmedSign(arg: Verinum)
    requires arg.bits != [] && IsNegative(arg) && !arg.hasLen && Counted(arg) != arg.bits
    ensures |Counted(arg)| < |arg.bits| && arg.bits[|arg.bits| - 2] == V1
  {
  }

  lemma LengthBounds(b: Bits, k: nat)
    requires |b| <= k
    ensures CeilLog2(Val(b)) <= k
  {
    ValBound(b);
    Pow2Monotone(|b|, k);
    CeilLog2Correct(Val(b));
  }
}
