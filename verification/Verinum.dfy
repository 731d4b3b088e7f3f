/** Powers of two. */
module Powers {
  function Pow2(n: nat): (r: nat)
    ensures r > 0
  {
    if n == 0 then 1 else 2 * Pow2(n - 1)
  }

  lemma {:induction false} Pow2Monotone(m: nat, n: nat)
    requires m <= n
    ensures Pow2(m) <= Pow2(n)
    decreases n - m
  {
    if m < n { Pow2Monotone(m + 1, n); }
  }

  lemma {:induction false} Pow2Add(m: nat, n: nat)
    ensures Pow2(m + n) == Pow2(m) * Pow2(n)
  {
    if m > 0 { Pow2Add(m - 1, n); }
  }
}

/** Integers modulo powers of two, bit by bit. */
module Wrapping {
  import opened Powers

  /** The low `w` binary digits of `x`, read as a number. */
  function Wrap(x: int, w: nat): nat
    decreases w
  {
    if w == 0 then 0 else x % 2 + 2 * Wrap(x / 2, w - 1)
  }

  lemma MulAtLeast(m: int, d: int)
    requires m > 0
    ensures d >= 1 ==> m * d >= m
    ensures d <= -1 ==> m * d <= -m
  {
    if d >= 1 { assert m * d == m + m * (d - 1); }
    if d <= -1 { assert m * d == -m + m * (d + 1); }
  }

  lemma DivModUnique(q: int, r: int, m: int, n: int)
    requires 0 <= r < m && n == r + m * q
    ensures n / m == q && n % m == r
  {
    var d := n / m - q;
    assert m * d == m * (n / m) - m * q;
    MulAtLeast(m, d);
  }

  lemma DoubleMod(b: nat, x: int, m: nat)
    requires b < 2 && m > 0
    ensures (b + 2 * x) % (2 * m) == b + 2 * (x % m)
  {
    var q := x / m;
    assert x == q * m + x % m;
    assert b + 2 * x == b + 2 * (x % m) + (2 * m) * q;
    DivModUnique(q, b + 2 * (x % m), 2 * m, b + 2 * x);
  }

  lemma {:induction false} WrapIsMod(x: int, w: nat)
    ensures Wrap(x, w) == x % Pow2(w)
    decreases w
  {
    if w > 0 {
      WrapIsMod(x / 2, w - 1);
      DoubleMod(x % 2, x / 2, Pow2(w - 1));
    }
  }

  lemma {:induction false} WrapShift(x: int, w: nat)
    ensures Wrap(x + Pow2(w), w) == Wrap(x, w)
    decreases w
  {
    if w > 0 {
      WrapShift(x / 2, w - 1);
      assert (x + Pow2(w)) / 2 == x / 2 + Pow2(w - 1);
    }
  }

  lemma {:induction false} WrapSum(a: int, b: int, w: nat)
    ensures Wrap(Wrap(a, w) + b, w) == Wrap(a + b, w)
    decreases w
  {
    if w > 0 {
      var c := (a % 2 + b) / 2;
      WrapSum(a / 2, c, w - 1);
      assert (Wrap(a, w) + b) / 2 == Wrap(a / 2, w - 1) + c && (a + b) / 2 == a / 2 + c;
    }
  }

  lemma {:induction false} WrapDifference(a: int, b: int, w: nat)
    ensures Wrap(b - Wrap(a, w), w) == Wrap(b - a, w)
    decreases w
  {
    if w > 0 {
      var c := (b - a % 2) / 2;
      WrapDifference(a / 2, c, w - 1);
      assert (b - Wrap(a, w)) / 2 == c - Wrap(a / 2, w - 1) && (b - a) / 2 == c - a / 2;
    }
  }

  lemma {:induction false} WrapDiffers(x: int, k: nat, w: nat)
    requires k < w
    ensures Wrap(x + Pow2(k), w) != Wrap(x, w)
    decreases k
  {
    if k > 0 {
      WrapDiffers(x / 2, k - 1, w - 1);
      assert (x + Pow2(k)) / 2 == x / 2 + Pow2(k - 1);
    }
  }

  lemma {:induction false} WrapSmall(x: nat, w: nat)
    requires x < Pow2(w)
    ensures Wrap(x, w) == x
    decreases w
  {
    if w > 0 { WrapSmall(x / 2, w - 1); }
  }
}

/** Four-state vectors (verinum.h, verinum.cc): bit 0 is the least significant one.
 */
module Verinums {
  import opened Powers
  import opened Wrapping

  datatype V = V0 | V1 | Vx | Vz

  type Bits = seq<V>

  /** Width of the source's `long`. */
  const LONG_BITS: nat := 64

  /** A number with its length and signedness flags. */
  datatype Verinum = Verinum(bits: Bits, hasLen: bool, hasSign: bool)

  predicate IsBit(v: V) {
    v == V0 || v == V1
  }

  predicate Defined(b: Bits) {
    forall i | 0 <= i < |b| :: IsBit(b[i])
  }

  function Repeat(v: V, n: nat): (r: Bits)
    ensures |r| == n && forall i | 0 <= i < n :: r[i] == v
  {
    seq(n, i => v)
  }

  function BitVal(v: V): nat {
    if v == V1 then 1 else 0
  }

  /** The unsigned value; bits that are not 1 count as 0. */
  function Val(b: Bits): nat {
    if b == [] then 0 else BitVal(b[0]) + 2 * Val(b[1..])
  }

  function Sign(b: Bits): bool {
    b != [] && b[|b| - 1] == V1
  }

  /** The two's complement value. */
  function SVal(b: Bits): int {
    if Sign(b) then Val(b) - Pow2(|b|) else Val(b)
  }

  /** The integer a number stands for. */
  function Number(v: Verinum): int {
    if v.hasSign then SVal(v.bits) else Val(v.bits)
  }

  lemma {:induction false} ValBound(b: Bits)
    ensures Val(b) < Pow2(|b|)
  {
    if b != [] { ValBound(b[1..]); }
  }

  lemma DoubleProduct(m: int, k: int)
    ensures (2 * m) * k == 2 * (m * k)
  {
  }

  lemma {:induction false} ValAppend(a: Bits, b: Bits)
    ensures Val(a + b) == Val(a) + Pow2(|a|) * Val(b)
  {
    if a == [] {
      assert a + b == b;
    } else {
      assert (a + b)[1..] == a[1..] + b;
      ValAppend(a[1..], b);
      DoubleProduct(Pow2(|a| - 1), Val(b));
    }
  }

  lemma {:induction false} ValRepeat0(n: nat)
    ensures Val(Repeat(V0, n)) == 0
  {
    if n > 0 {
      assert Repeat(V0, n)[1..] == Repeat(V0, n - 1);
      ValRepeat0(n - 1);
    }
  }

  lemma {:induction false} ValRepeat1(n: nat)
    ensures Val(Repeat(V1, n)) == Pow2(n) - 1
  {
    if n > 0 {
      assert Repeat(V1, n)[1..] == Repeat(V1, n - 1);
      ValRepeat1(n - 1);
    }
  }

  /** A defined vector splits into quotient and remainder. */
  lemma ValSplit(b: Bits, k: nat)
    requires k <= |b|
    ensures Val(b) == Val(b[..k]) + Pow2(k) * Val(b[k..])
    ensures Val(b[..k]) < Pow2(k)
  {
    assert b == b[..k] + b[k..];
    ValAppend(b[..k], b[k..]);
    ValBound(b[..k]);
  }

  lemma ValDivMod(b: Bits, k: nat)
    requires k <= |b|
    ensures Val(b[..k]) == Val(b) % Pow2(k) && Val(b[k..]) == Val(b) / Pow2(k)
  {
    ValSplit(b, k);
    DivModUnique(Val(b[k..]), Val(b[..k]), Pow2(k), Val(b));
  }

  lemma ValHead(b: Bits)
    requires b != []
    ensures BitVal(b[0]) == Val(b) % 2 && Val(b[1..]) == Val(b) / 2
  {
    TwiceAndBit(BitVal(b[0]), Val(b[1..]), Val(b));
  }

  lemma TwiceAndBit(d: nat, x: nat, n: nat)
    requires d < 2 && n == d + 2 * x
    ensures d == n % 2 && x == n / 2
  {
  }

  lemma {:induction false} ValInjective(a: Bits, b: Bits)
    requires Defined(a) && Defined(b) && |a| == |b|
    ensures Val(a) == Val(b) <==> a == b
  {
    if a != [] {
      ValInjective(a[1..], b[1..]);
      ValHead(a);
      ValHead(b);
      assert a == [a[0]] + a[1..] && b == [b[0]] + b[1..];
    }
  }

  lemma SValBound(b: Bits)
    requires b != []
    ensures 0 <= SVal(b) + Pow2(|b| - 1) < Pow2(|b|)
  {
    var n := |b| - 1;
    ValSplit(b, n);
    assert b[n..] == [b[n]] && Val(b[n..]) == BitVal(b[n]);
  }

  lemma RepeatValue(v: V, n: nat, k: nat)
    ensures Pow2(k) * Val(Repeat(v, n)) == if v == V1 then Pow2(k + n) - Pow2(k) else 0
  {
    if v == V1 {
      ValRepeat1(n);
      Pow2Add(k, n);
    } else {
      ValRepeatOther(v, n);
    }
  }

  lemma {:induction false} ValRepeatOther(v: V, n: nat)
    requires v != V1
    ensures Val(Repeat(v, n)) == 0
  {
    if n > 0 {
      assert Repeat(v, n)[1..] == Repeat(v, n - 1);
      ValRepeatOther(v, n - 1);
    }
  }

  /** What a vector stands for when `pad` repeats for ever above it. */
  function Meaning(b: Bits, pad: V): int {
    if pad == V1 then Val(b) - Pow2(|b|) else Val(b)
  }

  lemma PaddedValue(b: Bits, pad: V, m: nat)
    ensures Val(b + Repeat(pad, m)) == Meaning(b, pad) + if pad == V1 then Pow2(|b| + m) else 0
  {
    hide Val, Pow2;
    ValAppend(b, Repeat(pad, m));
    RepeatValue(pad, m, |b|);
  }

  lemma LowBits(b: Bits, w: nat)
    requires w <= |b|
    ensures Val(b[..w]) == Wrap(Val(b), w)
  {
    ValDivMod(b, w);
    WrapIsMod(Val(b), w);
  }

  // ----- verinum operations used in several places -----

  /** `operator |` on single bits. */
  function OrBit(l: V, r: V): V {
    if l == V1 || r == V1 then V1 else if l != V0 || r != V0 then Vx else V0
  }

  /** `as_long`: 63 value bits; x and z read as 0. */
  function AsLong(n: Verinum): int {
    var top := if |n.bits| > 63 then 63 else |n.bits|;
    if n.bits == [] || !Defined(n.bits) then 0
    else if n.hasSign && Sign(n.bits) then Val(n.bits[..top]) - Pow2(top)
    else Val(n.bits[..top])
  }
}
