/** Indexed part selects `v[base +: wid]` and `v[base -: wid]`: the separately written index
    normalisations of nets as r-values and parameters (elab_expr.cc), l-values (elab_lval.cc),
    structural nets (elab_net.cc) and variable bases (netmisc.cc), and the reading of the bits.
 */
module PartSelect {
  import opened Wrappers
  import opened Powers
  import opened Wrapping
  import opened Verinums
  import ShiftFold
  import Clog2

  /** A declared range `[msb:lsb]`. */
  datatype Range = Range(msb: int, lsb: int)

  /** `[base +: wid]` when `up`, else `[base -: wid]`. */
  datatype Select = Select(base: int, wid: nat, up: bool)

  /** `sb_to_idx`: the canonical position of a bit; the rightmost declared bit is 0. */
  function ToIdx(r: Range, sb: int): int {
    if r.msb >= r.lsb then sb - r.lsb else r.lsb - sb
  }

  function VectorWidth(r: Range): nat {
    if r.msb > r.lsb then r.msb - r.lsb + 1 else r.lsb - r.msb + 1
  }

  // ----- what a select denotes -----

  predicate Selects(s: Select, sb: int) {
    if s.up then s.base <= sb < s.base + s.wid else s.base - s.wid < sb <= s.base
  }

  /** The selected bits are exactly those at `wid` canonical positions from `low` upwards. */
  ghost predicate StartsAt(r: Range, s: Select, low: int) {
    forall sb: int {:trigger ToIdx(r, sb)} :: Selects(s, sb) <==> low <= ToIdx(r, sb) < low + s.wid
  }

  function Low(r: Range, s: Select): int {
    var first := if s.up then s.base else s.base - s.wid + 1;
    if r.msb >= r.lsb then first - r.lsb else r.lsb - (first + s.wid - 1)
  }

  /** Every select starts at one position, and `Low` is it. */
  lemma LowestPosition(r: Range, s: Select, low: int)
    requires s.wid > 0
    ensures StartsAt(r, s, low) <==> low == Low(r, s)
  {
    var first := if s.up then s.base else s.base - s.wid + 1;
    if StartsAt(r, s, low) {
      var last := first + s.wid - 1;
      assert low <= ToIdx(r, first) < low + s.wid && low <= ToIdx(r, last) < low + s.wid;
    }
  }

  /** What a path makes of a select: the vector itself, a part of it, or nothing because every bit is
      outside. */
  datatype Resolved = Whole | Part(low: int, wid: nat) | Outside

  ghost predicate Right(r: Range, s: Select, res: Resolved) {
    match res
    case Whole => s.wid == VectorWidth(r) && StartsAt(r, s, 0)
    case Part(low, wid) => s.wid == wid && StartsAt(r, s, low)
    case Outside => forall sb: int {:trigger ToIdx(r, sb)} :: Selects(s, sb) ==> !(0 <= ToIdx(r, sb) < VectorWidth(r))
  }

  // ----- the paths -----

  /** A net as an r-value is returned whole when this holds, whichever way its range runs. */
  predicate TakenWhole(r: Range, s: Select) {
    s.wid == VectorWidth(r) && ToIdx(r, s.base) == if s.up then 0 else s.wid - 1
  }

  /** The net paths forget to step down in a one-bit range. */
  function Slip(r: Range, s: Select): int {
    if !s.up && r.msb == r.lsb then s.wid - 1 else 0
  }

  function NetResult(r: Range, s: Select): Resolved {
    if TakenWhole(r, s) then Whole else Part(Low(r, s) + Slip(r, s), s.wid)
  }

  function LvalResult(r: Range, s: Select): Resolved {
    var low := Low(r, s) + Slip(r, s);
    if low == 0 && s.wid == VectorWidth(r) then Whole else Part(low, s.wid)
  }

  function WireResult(r: Range, s: Select): Resolved {
    if Low(r, s) >= VectorWidth(r) || Low(r, s) + s.wid <= 0 then Outside else Part(Low(r, s), s.wid)
  }

  /** `elaborate_expr_net_idx_up_` and `elaborate_expr_net_idx_do_` with a constant base. */
  method NetIdx(r: Range, base: int, wid: nat, up: bool) returns (res: Resolved)
    requires wid > 0
    ensures res == NetResult(r, Select(base, wid, up))
  {
    var offset := 0;
    if up {
      if ToIdx(r, base) == 0 && wid == VectorWidth(r) { return Whole; }
      if r.msb < r.lsb { offset := 1 - wid; }
    } else {
      if ToIdx(r, base) == wid - 1 && wid == VectorWidth(r) { return Whole; }
      if r.msb > r.lsb { offset := 1 - wid; }
    }
    res := Part(ToIdx(r, base) + offset, wid);
  }

  /** `elaborate_lval_net_idx_` with a constant base. */
  method LvalIdx(r: Range, base: int, wid: nat, up: bool) returns (res: Resolved)
    requires wid > 0
    ensures res == LvalResult(r, Select(base, wid, up))
  {
    var offset := 0;
    if (r.msb < r.lsb && up) || (r.msb > r.lsb && !up) { offset := 1 - wid; }
    var relBase := ToIdx(r, base) + offset;
    if relBase == 0 && wid == VectorWidth(r) { return Whole; }
    res := Part(relBase, wid);
  }

  /** `elaborate_expr_param_idx_up_` and `elaborate_expr_param_idx_do_`: the lowest position passed on. */
  method ParamIdx(r: Range, base: int, wid: nat, up: bool) returns (low: int)
    requires wid > 0
    ensures low == Low(r, Select(base, wid, up))
  {
    var lsv, parBase := base, if up then r.lsb else r.lsb + wid - 1;
    if r.msb < r.lsb {
      parBase := lsv;
      lsv := if up then r.lsb - wid + 1 else r.lsb;
    }
    low := lsv - parBase;
  }

  /** The indexed cases of `eval_part_select_`. */
  method WireIdx(r: Range, base: int, wid: nat, up: bool) returns (res: Resolved)
    requires wid > 0
    ensures res == WireResult(r, Select(base, wid, up))
  {
    var midx := ToIdx(r, base);
    var lidx := ToIdx(r, if up then base + wid - 1 else base - wid + 1);
    if midx < lidx { midx, lidx := lidx, midx; }
    if lidx >= VectorWidth(r) || midx < 0 { return Outside; }
    assert midx - lidx + 1 == wid;
    res := Part(lidx, midx - lidx + 1);
  }

  /** `normalize_variable_base`: the value of the expression built for a base that is not constant. */
  method VariableIdx(r: Range, base: int, wid: nat, up: bool) returns (low: int)
    requires wid > 0
    ensures low == Low(r, Select(base, wid, up))
  {
    var offset := r.lsb;
    if r.msb < r.lsb {
      if up { offset := offset - (wid - 1); }
      low := offset - base;
    } else {
      if !up { offset := offset + wid - 1; }
      low := base - offset;
    }
  }

  // ----- agreement -----

  /** For a descending range of more than one bit every path denotes exactly the selected bits. */
  lemma PathsAgree(r: Range, s: Select)
    requires s.wid > 0 && r.msb > r.lsb
    ensures Right(r, s, NetResult(r, s)) && Right(r, s, LvalResult(r, s)) && Right(r, s, WireResult(r, s))
    ensures Right(r, s, Part(Low(r, s), s.wid))
    ensures NetResult(r, s) == LvalResult(r, s)
  {
    WireAndParameterRight(r, s);
    NetExactly(r, s);
    LvalExactly(r, s);
  }

  /** The structural and parameter paths are right for every range. */
  lemma WireAndParameterRight(r: Range, s: Select)
    requires s.wid > 0
    ensures Right(r, s, Part(Low(r, s), s.wid)) && Right(r, s, WireResult(r, s))
    ensures WireResult(r, s) == Outside <==> forall sb: int | Selects(s, sb) :: !(0 <= ToIdx(r, sb) < VectorWidth(r))
  {
    LowestPosition(r, s, Low(r, s));
    if WireResult(r, s) != Outside {
      var at := if Low(r, s) < 0 then 0 else Low(r, s);
      var sb := if r.msb >= r.lsb then at + r.lsb else r.lsb - at;
      assert ToIdx(r, sb) == at && Selects(s, sb);
    }
  }

  /** The r-value path is wrong exactly for an ascending range taken whole, and for a one-bit range
      stepped down by more than nothing. */
  lemma NetExactly(r: Range, s: Select)
    requires s.wid > 0
    ensures Right(r, s, NetResult(r, s)) <==>
              !(r.msb < r.lsb && s.wid == VectorWidth(r) && s.base == if s.up then r.lsb else r.msb)
              && !(r.msb == r.lsb && !s.up && s.wid != 1)
    ensures r.msb >= r.lsb ==> (NetResult(r, s) == Whole <==> s.wid == VectorWidth(r) && StartsAt(r, s, 0))
  {
    LowestPosition(r, s, 0);
    LowestPosition(r, s, Low(r, s) + Slip(r, s));
  }

  /** The l-value path is wrong exactly for the one-bit range. */
  lemma LvalExactly(r: Range, s: Select)
    requires s.wid > 0
    ensures Right(r, s, LvalResult(r, s)) <==> !(r.msb == r.lsb && !s.up && s.wid != 1)
    ensures LvalResult(r, s) == Whole <==> s.wid == VectorWidth(r) && StartsAt(r, s, 0)
  {
    LowestPosition(r, s, 0);
    LowestPosition(r, s, Low(r, s) + Slip(r, s));
  }

  // ----- reading the bits -----

  /** The bit at a position of a constant: `x` outside. */
  function BitAt(b: Bits, i: int): V {
    if 0 <= i < |b| then b[i] else Vx
  }

  /** `wid` bits from position `low`. */
  function Window(b: Bits, low: int, wid: nat): (w: Bits)
    ensures |w| == wid && forall i | 0 <= i < wid :: w[i] == BitAt(b, low + i)
  {
    seq(wid, i requires i >= 0 => BitAt(b, low + i))
  }

  function SignBit(v: Verinum): V
    requires v.bits != []
  {
    if v.hasSign then v.bits[|v.bits| - 1] else V0
  }

  /** What lies above a constant for `param_part_select_bits`. */
  function Above(v: Verinum, isString: bool): V
    requires v.bits != []
  {
    if isString then V0 else if v.hasLen then Vx else SignBit(v)
  }

  method ParamPartSelectBits(v: Verinum, isString: bool, wid: nat, lsv: int) returns (result: Bits)
    requires v.bits != []
    ensures |result| == wid
    ensures forall i | 0 <= i < wid ::
              result[i] == if lsv + i >= |v.bits| then Above(v, isString) else BitAt(v.bits, lsv + i)
  {
    var res := new V[wid](i => Vx);
    var idx := 0;
    while idx < wid
      invariant 0 <= idx <= wid
      invariant forall i | idx <= i < wid :: res[i] == Vx
      invariant forall i | 0 <= i < idx ::
                  res[i] == if lsv + i >= |v.bits| then Above(v, isString) else BitAt(v.bits, lsv + i)
    {
      var off := idx + lsv;
      if off >= 0 {
        if off < |v.bits| {
          res[idx] := v.bits[off];
        } else if isString {
          res[idx] := V0;
        } else if !v.hasLen {
          res[idx] := SignBit(v);
        }
      }
      idx := idx + 1;
    }
    result := res[..];
  }

  /** The pad of a select without a base, which is there to extend a vector. */
  function ExtensionPad(b: Bits, signed: bool): V
    requires b != []
  {
    var top := b[|b| - 1];
    if top == V1 && !signed then V0 else top
  }

  /** `NetESelect::eval_tree` on constants. */
  method EvalSelect(eval: Bits, base: Option<Verinum>, wid: nat, signed: bool) returns (oval: Verinum)
    requires eval != []
    ensures base.Some? ==> oval == Verinum(Window(eval, AsLong(base.value), wid), true, signed)
    ensures base.None? ==> oval == Verinum(ShiftFold.Shifted(ShiftFold.ShiftRight, eval, 0, ExtensionPad(eval, signed), wid), true, signed)
  {
    var bval := 0;
    var pad := Vx;
    if base.Some? { bval := AsLong(base.value); } else { pad := ExtensionPad(eval, signed); }
    ghost var start := bval;
    var out := new V[wid](i => V0);
    var idx := 0;
    while idx < wid
      invariant 0 <= idx <= wid && bval == start + idx
      invariant forall i | 0 <= i < idx :: out[i] == if 0 <= start + i < |eval| then eval[start + i] else pad
    {
      if bval >= 0 && bval < |eval| { out[idx] := eval[bval]; } else { out[idx] := pad; }
      bval := bval + 1;
      idx := idx + 1;
    }
    assert base.Some? ==> out[..] == Window(eval, start, wid);
    oval := Verinum(out[..], true, signed);
  }

  predicate ReadsAlike(v: Verinum, isString: bool, low: int, wid: nat)
    requires v.bits != []
  {
    forall i | 0 <= i < wid ::
      Window(v.bits, low, wid)[i] == if low + i >= |v.bits| then Above(v, isString) else BitAt(v.bits, low + i)
  }

  /** Reading a part of a constant through a folded select and through the parameter path gives the same
      bits exactly when none lies above the constant or what lies above it is x: always for sized
      constants that are not strings. */
  lemma ReadingAgreesExactly(v: Verinum, isString: bool, low: int, wid: nat)
    requires v.bits != [] && wid > 0
    ensures ReadsAlike(v, isString, low, wid)
            <==> low + wid <= |v.bits| || (!isString && (v.hasLen || (v.hasSign && v.bits[|v.bits| - 1] == Vx)))
  {
    if low + wid > |v.bits| {
      var i := wid - 1;
      assert Window(v.bits, low, wid)[i] == Vx;
    }
  }

  /** Above a string the parameter path reads 0; of a defined number without a length it reads, from any
      position on, the bits of its two's complement form, as long as that may be. */
  lemma ParameterReadsNumber(v: Verinum, wid: nat, low: nat, result: Bits)
    requires v.bits != [] && Defined(v.bits) && !v.hasLen && |result| == wid
    requires forall i | 0 <= i < wid :: result[i] == if low + i >= |v.bits| then Above(v, false) else BitAt(v.bits, low + i)
    ensures Val(result) == Wrap(Number(v) / Pow2(low), wid) && Above(v, true) == V0
  {
    hide Val, Wrap, Pow2;
    var pad := SignBit(v);
    assert result == ShiftFold.Shifted(ShiftFold.ArithRight, v.bits, low, pad, wid);
    ShiftFold.RightValue(ShiftFold.ArithRight, v.bits, low, pad, wid);
  }

  /** A select without a base repeats an x, z or 0 at the top, and a 1 if it is a sign. */
  lemma ExtensionRepeats(b: Bits, wid: nat, signed: bool)
    requires b != [] && wid >= |b|
    ensures var e := ShiftFold.Shifted(ShiftFold.ShiftRight, b, 0, ExtensionPad(b, signed), wid);
            e[..|b|] == b && forall i | |b| <= i < wid :: e[i] == if b[|b| - 1] == V1 && !signed then V0 else b[|b| - 1]
  {
  }

  /** Extension keeps the number: unsigned, or two's complement when signed. */
  lemma ExtensionKeepsNumber(b: Bits, wid: nat, signed: bool)
    requires b != [] && wid >= |b| && Defined(b)
    ensures var e := ShiftFold.Shifted(ShiftFold.ShiftRight, b, 0, ExtensionPad(b, signed), wid);
            if signed then SVal(e) == SVal(b) else Val(e) == Val(b)
  {
    var pad := ExtensionPad(b, signed);
    PaddedValue(b, pad, wid - |b|);
    assert ShiftFold.Shifted(ShiftFold.ShiftRight, b, 0, pad, wid) == b + Repeat(pad, wid - |b|);
  }

  // ----- positions as constants -----

  /** The low `n` bits of an integer's two's complement form. */
  function BitsOf(x: int, n: nat): (b: Bits)
    ensures |b| == n && Defined(b)
    decreases n
  {
    if n == 0 then [] else [if x % 2 == 1 then V1 else V0] + BitsOf(x / 2, n - 1)
  }

  lemma {:induction false} BitsOfValue(x: int, n: nat)
    ensures Val(BitsOf(x, n)) == Wrap(x, n)
    decreases n
  {
    if n > 0 {
      assert BitsOf(x, n)[1..] == BitsOf(x / 2, n - 1);
      BitsOfValue(x / 2, n - 1);
    }
  }

  lemma {:induction false} BitsOfPrefix(x: int, n: nat, k: nat)
    requires k <= n
    ensures BitsOf(x, n)[..k] == BitsOf(x, k)
    decreases n
  {
    if k > 0 {
      BitsOfPrefix(x / 2, n - 1, k - 1);
      assert BitsOf(x, n)[..k] == [BitsOf(x, n)[0]] + BitsOf(x / 2, n - 1)[..k - 1];
    }
  }

  /** What is left of a negative number after dropping its sign. */
  function Magnitude(x: int): nat {
    if x < 0 then 0 - x - 1 else x
  }

  function Abs(x: int): nat {
    if x < 0 then 0 - x else x
  }

  /** Division rounding towards zero. */
  function HalfTowardsZero(x: int): int {
    if x < 0 then 0 - ((0 - x) / 2) else x / 2
  }

  /** The number's length: halve towards zero until nothing is left. */
  method LengthFor(that: int) returns (nbits: nat)
    ensures nbits == 2 + Clog2.Digits(Magnitude(that) / 2)
  {
    var tmp := HalfTowardsZero(if that < 0 then that + 1 else that);
    nbits := 1;
    while tmp != 0
      invariant nbits + Clog2.Digits(Abs(tmp)) == 1 + Clog2.Digits(Magnitude(that) / 2)
      decreases Abs(tmp)
    {
      nbits := nbits + 1;
      tmp := HalfTowardsZero(tmp);
    }
    nbits := nbits + 1;
  }

  lemma BitsOfStep(done: Bits, x: int, n: nat)
    requires n > 0
    ensures done + BitsOf(x, n) == done + [if x % 2 == 1 then V1 else V0] + BitsOf(x / 2, n - 1)
  {
  }

  /** `verinum(int64_t)`. */
  method FromLong(that: int) returns (v: Verinum)
    ensures v == Verinum(BitsOf(that, 2 + Clog2.Digits(Magnitude(that) / 2)), false, true)
  {
    var nbits := LengthFor(that);
    var bits: Bits := [];
    var rest := that;
    while |bits| < nbits
      invariant |bits| <= nbits
      invariant bits + BitsOf(rest, nbits - |bits|) == BitsOf(that, nbits)
    {
      BitsOfStep(bits, rest, nbits - |bits|);
      bits := bits + [if rest % 2 == 1 then V1 else V0];
      rest := rest / 2;
    }
    v := Verinum(bits, false, true);
  }

  lemma LengthSuffices(x: int, n: nat)
    requires n == 2 + Clog2.Digits(Magnitude(x) / 2)
    ensures 0 <= x + Pow2(n - 1) < Pow2(n)
    ensures forall k: nat | k > 0 && Magnitude(x) < Pow2(k) :: n <= k + 1
  {
    var m := Magnitude(x);
    Clog2.DigitsBound(m / 2);
    forall k: nat | k > 0 && m < Pow2(k) ensures n <= k + 1 {
      if n > k + 1 { Pow2Monotone(k - 1, n - 3); }
    }
  }

  /** A position survives being made a constant and read back with `as_long`, for every 64-bit value. */
  lemma LongRoundTrip(x: int)
    requires Magnitude(x) < Pow2(LONG_BITS - 1)
    ensures AsLong(Verinum(BitsOf(x, 2 + Clog2.Digits(Magnitude(x) / 2)), false, true)) == x
  {
    hide BitsOf, Val, Wrap, Pow2, Clog2.Digits;
    var n, width := 2 + Clog2.Digits(Magnitude(x) / 2), LONG_BITS;
    var b := BitsOf(x, n);
    LengthSuffices(x, n);
    BitsOfValue(x, n);
    ShiftFold.SignedUnique(b, x);
    if n < width {
      assert b[..n] == b;
    } else {
      BitsOfPrefix(x, n, width - 1);
      BitsOfValue(x, width - 1);
      ShiftFold.WrapRange(x, n);
      BelowSign(b, width - 1);
    }
  }

  /** The bits below the sign, with the sign's weight taken off. */
  lemma BelowSign(b: Bits, k: nat)
    requires |b| == k + 1
    ensures SVal(b) == Val(b[..k]) - if Sign(b) then Pow2(k) else 0
  {
    ValSplit(b, k);
    assert b[k..] == [b[k]];
    assert Val([b[k]]) == BitVal(b[k]) by { assert [b[k]][1..] == []; }
  }
}
