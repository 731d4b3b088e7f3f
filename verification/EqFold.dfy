/** Folding of `==`, `!=`, `===` and `!==` on constants (`NetEBComp::eval_eqeq_` and
    `NetEBComp::eval_eqeqeq_`, eval_tree.cc).
 */
module EqFold {
  import opened Powers
  import opened Wrapping
  import opened Verinums

  function Min(a: nat, b: nat): nat {
    if a < b then a else b
  }

  // ----- the verdict on two vectors -----

  /** Different defined bits at a position both have. */
  predicate DefinedDifference(l: Bits, r: Bits, n: nat)
    requires n <= |l| && n <= |r|
  {
    exists i | 0 <= i < n :: IsBit(l[i]) && IsBit(r[i]) && l[i] != r[i]
  }

  predicate HasUndefined(b: Bits, from: nat, to: nat)
    requires to <= |b|
  {
    exists i | from <= i < to :: !IsBit(b[i])
  }

  predicate OtherThan(b: Bits, from: nat, to: nat, pad: V)
    requires to <= |b|
  {
    exists i | from <= i < to :: b[i] != pad
  }

  function Answer(equal: bool, ne: bool): V {
    if equal != ne then V1 else V0
  }

  /** The verdict on the first `n` positions. */
  function Common(l: Bits, r: Bits, n: nat, ne: bool): V
    requires n <= |l| && n <= |r|
  {
    if DefinedDifference(l, r, n) then Answer(false, ne)
    else if HasUndefined(l, 0, n) || HasUndefined(r, 0, n) then Vx
    else Answer(true, ne)
  }

  /** The verdict after the positions of `b` from `from` to `to` have been held against the pad. */
  function Rest(b: Bits, from: nat, to: nat, pad: V, soFar: V, ne: bool): V
    requires to <= |b|
  {
    if soFar == Vx || HasUndefined(b, from, to) then Vx
    else if OtherThan(b, from, to, pad) then Answer(false, ne)
    else soFar
  }

  /** The pad of a signed number whose top bit is 1 is 1. */
  function OwnPad(v: Verinum): V
    requires v.bits != []
  {
    if v.hasSign && v.bits[|v.bits| - 1] == V1 then V1 else V0
  }

  function EqEq(l: Verinum, r: Verinum, ne: bool): V
    requires l.bits != [] && r.bits != []
  {
    var n := Min(|l.bits|, |r.bits|);
    var c := Common(l.bits, r.bits, n, ne);
    if c == Vx then Vx
    else Rest(r.bits, n, |r.bits|, OwnPad(l), Rest(l.bits, n, |l.bits|, OwnPad(r), c, ne), ne)
  }

  /** The pad `===` holds the longer operand against: the top bit when both operands are signed. */
  function CasePad(v: Verinum, signed: bool): V
    requires v.bits != []
  {
    if signed then v.bits[|v.bits| - 1] else V0
  }

  predicate CaseSame(l: Verinum, r: Verinum)
    requires l.bits != [] && r.bits != []
  {
    var n := Min(|l.bits|, |r.bits|);
    var signed := l.hasSign && r.hasSign;
    l.bits[..n] == r.bits[..n]
    && !OtherThan(l.bits, n, |l.bits|, CasePad(r, signed))
    && !OtherThan(r.bits, n, |r.bits|, CasePad(l, signed))
  }

  function EqEqEq(l: Verinum, r: Verinum, ne: bool): V
    requires l.bits != [] && r.bits != []
  {
    Answer(CaseSame(l, r), ne)
  }

  // ----- the loops -----

  method EvalCommon(l: Bits, r: Bits, top: nat, ne: bool) returns (res: V)
    requires top <= |l| && top <= |r|
    ensures res == Common(l, r, top, ne)
  {
    res := Answer(true, ne);
    var idx := 0;
    while idx < top
      invariant 0 <= idx <= top
      invariant !DefinedDifference(l, r, idx) && res == Common(l, r, idx, ne)
    {
      var xBitPresent := false;
      if !IsBit(l[idx]) { res := Vx; xBitPresent := true; }
      if !IsBit(r[idx]) { res := Vx; xBitPresent := true; }
      if !xBitPresent && r[idx] != l[idx] {
        return Answer(false, ne);
      }
      idx := idx + 1;
    }
  }

  method EvalRest(b: Bits, top: nat, pad: V, soFar: V, ne: bool) returns (res: V)
    requires top <= |b| && IsBit(pad)
    ensures res == Rest(b, top, |b|, pad, soFar, ne)
  {
    res := soFar;
    var idx := top;
    while idx < |b|
      invariant top <= idx <= |b|
      invariant res == Rest(b, top, idx, pad, soFar, ne)
    {
      if !IsBit(b[idx]) {
        res := Vx;
      } else if res != Vx && pad != b[idx] {
        res := Answer(false, ne);
      }
      idx := idx + 1;
    }
  }

  method EvalEqEq(lv: Verinum, rv: Verinum, ne: bool) returns (res: V)
    requires lv.bits != [] && rv.bits != []
    ensures res == EqEq(lv, rv, ne)
  {
    var top := |lv.bits|;
    if |rv.bits| < top { top := |rv.bits|; }
    res := EvalCommon(lv.bits, rv.bits, top, ne);
    if res != Vx {
      res := EvalRest(lv.bits, top, OwnPad(rv), res, ne);
      res := EvalRest(rv.bits, top, OwnPad(lv), res, ne);
    }
  }

  method AllPad(b: Bits, cnt: nat, pad: V) returns (same: bool)
    requires cnt <= |b|
    ensures same == !OtherThan(b, cnt, |b|, pad)
  {
    var idx := cnt;
    while idx < |b|
      invariant cnt <= idx <= |b|
      invariant !OtherThan(b, cnt, idx, pad)
    {
      if b[idx] != pad { return false; }
      idx := idx + 1;
    }
    same := true;
  }

  method EvalEqEqEq(lv: Verinum, rv: Verinum, ne: bool) returns (res: V)
    requires lv.bits != [] && rv.bits != []
    ensures res == EqEqEq(lv, rv, ne)
  {
    var cnt := |lv.bits|;
    if cnt > |rv.bits| { cnt := |rv.bits|; }
    var same := true;
    var idx := 0;
    while idx < cnt && same
      invariant 0 <= idx <= cnt
      invariant same <==> lv.bits[..idx] == rv.bits[..idx]
    {
      if lv.bits[idx] != rv.bits[idx] { same := false; }
      idx := idx + 1;
    }
    assert same <==> lv.bits[..cnt] == rv.bits[..cnt] by {
      assert lv.bits[..cnt][..idx] == lv.bits[..idx] && rv.bits[..cnt][..idx] == rv.bits[..idx];
    }
    var signed := lv.hasSign && rv.hasSign;
    if same { same := AllPad(lv.bits, cnt, CasePad(rv, signed)); }
    if same { same := AllPad(rv.bits, cnt, CasePad(lv, signed)); }
    res := Answer(same, ne);
  }

  // ----- laws -----

  /** Vectors of one length: 0 exactly when defined bits differ, 1 exactly when both are defined and
      identical, and x otherwise. */
  lemma EqualLengths(l: Verinum, r: Verinum)
    requires |l.bits| == |r.bits| > 0
    ensures EqEq(l, r, false) == V0 <==> DefinedDifference(l.bits, r.bits, |l.bits|)
    ensures EqEq(l, r, false) == V1 <==> Defined(l.bits) && Defined(r.bits) && l.bits == r.bits
    ensures EqEq(l, r, false) in {V0, V1, Vx}
  {
    if Defined(l.bits) && Defined(r.bits) && l.bits != r.bits {
      var i :| 0 <= i < |l.bits| && l.bits[i] != r.bits[i];
      assert IsBit(l.bits[i]) && IsBit(r.bits[i]);
    }
  }

  /** A defined vector that an undefined one may stand for. */
  ghost predicate Stands(b: Bits, d: Bits) {
    |d| == |b| && Defined(d) && forall i | 0 <= i < |b| && (b[i] == V0 || b[i] == V1) :: d[i] == b[i]
  }

  function Filled(b: Bits, v: V): (d: Bits)
    requires v == V0 || v == V1
    ensures Stands(b, d) && forall i | 0 <= i < |b| && b[i] != V0 && b[i] != V1 :: d[i] == v
  {
    seq(|b|, i requires 0 <= i < |b| => if b[i] == V0 || b[i] == V1 then b[i] else v)
  }

  /** So the verdict is 1 (is 0) exactly when, whatever the undefined bits are, the vectors are the same
      (are not). */
  lemma EqualityOfMeanings(l: Verinum, r: Verinum)
    requires |l.bits| == |r.bits| > 0
    ensures EqEq(l, r, false) == V1 <==> forall a, b | Stands(l.bits, a) && Stands(r.bits, b) :: a == b
    ensures EqEq(l, r, false) == V0 <==> forall a, b | Stands(l.bits, a) && Stands(r.bits, b) :: a != b
  {
    EqualLengths(l, r);
    if forall a, b | Stands(l.bits, a) && Stands(r.bits, b) :: a == b {
      DefinedIfUnique(l.bits, r.bits);
      DefinedIfUnique(r.bits, l.bits);
    }
    if Defined(l.bits) && Defined(r.bits) && l.bits == r.bits {
      forall a, b | Stands(l.bits, a) && Stands(r.bits, b) ensures a == b { assert a == l.bits && b == r.bits; }
    }
    if DefinedDifference(l.bits, r.bits, |l.bits|) {
      var i :| 0 <= i < |l.bits| && IsBit(l.bits[i]) && IsBit(r.bits[i]) && l.bits[i] != r.bits[i];
      forall a, b | Stands(l.bits, a) && Stands(r.bits, b) ensures a != b { assert a[i] != b[i]; }
    } else {
      MeetingPoint(l.bits, r.bits);
    }
  }

  lemma DefinedIfUnique(l: Bits, r: Bits)
    requires |l| == |r|
    requires forall a, b | Stands(l, a) && Stands(r, b) :: a == b
    ensures Defined(l) && l == r
  {
    var a, c, b, d := Filled(l, V0), Filled(l, V1), Filled(r, V0), Filled(r, V1);
    assert a == b && c == b && a == d;
    forall i | 0 <= i < |l| ensures IsBit(l[i]) && l[i] == r[i] {
      assert a[i] == c[i] && b[i] == d[i];
    }
  }

  lemma MeetingPoint(l: Bits, r: Bits)
    requires |l| == |r| && !DefinedDifference(l, r, |l|)
    ensures exists a, b :: Stands(l, a) && Stands(r, b) && a == b
  {
    var a := seq(|l|, i requires 0 <= i < |l| => if IsBit(l[i]) then l[i] else if IsBit(r[i]) then r[i] else V0);
    assert Stands(l, a) && Stands(r, a);
  }

  /** `===` compares all four values: it gives 1 exactly when the longer operand is the shorter one
      followed by its top bit, if both are signed, and else by zeros; and 0 otherwise. */
  lemma CaseEqualExactly(s: Verinum, l: Verinum)
    requires 0 < |s.bits| <= |l.bits|
    ensures var pad := if s.hasSign && l.hasSign then s.bits[|s.bits| - 1] else V0;
            EqEqEq(s, l, false) == EqEqEq(l, s, false)
            == if l.bits == s.bits + Repeat(pad, |l.bits| - |s.bits|) then V1 else V0
  {
    var n := |s.bits|;
    var pad := if s.hasSign && l.hasSign then s.bits[n - 1] else V0;
    var ext := s.bits + Repeat(pad, |l.bits| - n);
    Symmetric(s, l, false);
    assert ext[..n] == s.bits;
    if l.bits[..n] == s.bits && !OtherThan(l.bits, n, |l.bits|, pad) {
      assert forall i | 0 <= i < n :: l.bits[i] == l.bits[..n][i];
      assert l.bits == ext;
    }
    if l.bits == ext {
      assert forall i | n <= i < |ext| :: ext[i] == pad;
    }
    assert s.bits[..n] == s.bits;
  }

  function Not3(v: V): V {
    match v case V0 => V1 case V1 => V0 case _ => Vx
  }

  /** `!=` and `!==` are the negations of `==` and `===`. */
  lemma NotEqualNegates(l: Verinum, r: Verinum)
    requires l.bits != [] && r.bits != []
    ensures EqEq(l, r, true) == Not3(EqEq(l, r, false))
    ensures EqEqEq(l, r, true) == Not3(EqEqEq(l, r, false)) && IsBit(EqEqEq(l, r, false))
  {
  }

  lemma Symmetric(l: Verinum, r: Verinum, ne: bool)
    requires l.bits != [] && r.bits != []
    ensures EqEq(l, r, ne) == EqEq(r, l, ne) && EqEqEq(l, r, ne) == EqEqEq(r, l, ne)
  {
  }

  /** In general a defined difference among the common positions gives 0 only while the longer operand
      is defined above them, and one above them only while everything is defined. */
  lemma EqEqExactly(s: Verinum, l: Verinum)
    requires 0 < |s.bits| <= |l.bits|
    ensures var n, pad := |s.bits|, if s.hasSign && s.bits[|s.bits| - 1] == V1 then V1 else V0;
            EqEq(s, l, false) == V1 <==> Defined(s.bits) && l.bits == s.bits + Repeat(pad, |l.bits| - n)
    ensures var n, pad := |s.bits|, if s.hasSign && s.bits[|s.bits| - 1] == V1 then V1 else V0;
            EqEq(s, l, false) == V0 <==>
              (forall i | n <= i < |l.bits| :: l.bits[i] == V0 || l.bits[i] == V1)
              && ((exists i | 0 <= i < n :: IsBit(s.bits[i]) && IsBit(l.bits[i]) && s.bits[i] != l.bits[i])
                  || (Defined(s.bits) && Defined(l.bits[..n]) && exists i | n <= i < |l.bits| :: l.bits[i] != pad))
  {
    var n := |s.bits|;
    ExtensionMatches(s, l);
    if Defined(s.bits) && !HasUndefined(l.bits, 0, n) && s.bits != l.bits[..n] {
      var i :| 0 <= i < n && s.bits[i] != l.bits[..n][i];
      assert IsBit(s.bits[i]) && IsBit(l.bits[i]);
    }
  }

  lemma ExtensionMatches(s: Verinum, l: Verinum)
    requires 0 < |s.bits| <= |l.bits|
    ensures var n := |s.bits|;
            l.bits == s.bits + Repeat(OwnPad(s), |l.bits| - n)
            <==> l.bits[..n] == s.bits && !OtherThan(l.bits, n, |l.bits|, OwnPad(s))
  {
    var n := |s.bits|;
    var ext := s.bits + Repeat(OwnPad(s), |l.bits| - n);
    assert ext[..n] == s.bits;
    if l.bits[..n] == s.bits && !OtherThan(l.bits, n, |l.bits|, OwnPad(s)) {
      assert forall i | 0 <= i < n :: l.bits[i] == l.bits[..n][i];
      assert l.bits == ext;
    }
    if l.bits == ext {
      assert forall i | n <= i < |ext| :: ext[i] == OwnPad(s);
    }
  }

  /** An undefined bit above the shorter operand hides a difference below. */
  lemma UndefinedHidesDifference()
    ensures EqEq(Verinum([V0], true, false), Verinum([V1, Vx], true, false), false) == Vx
    ensures EqEq(Verinum([V0, V0], true, false), Verinum([V1, Vx], true, false), false) == V0
  {
    var s, l := Verinum([V0], true, false), Verinum([V1, Vx], true, false);
    assert HasUndefined(l.bits, 1, 2) by { assert !IsBit(l.bits[1]); }
    var t := Verinum([V0, V0], true, false);
    assert DefinedDifference(t.bits, l.bits, 2) by { assert IsBit(t.bits[0]) && IsBit(l.bits[0]); }
  }

  /** On defined operands of one signedness and any lengths, `==` and `===` both decide integer equality. */
  lemma IntegerEquality(l: Verinum, r: Verinum)
    requires l.bits != [] && r.bits != [] && Defined(l.bits) && Defined(r.bits) && l.hasSign == r.hasSign
    ensures EqEq(l, r, false) == Answer(Number(l) == Number(r), false) == EqEqEq(l, r, false)
  {
    if |l.bits| <= |r.bits| {
      ShorterEquality(l, r);
    } else {
      ShorterEquality(r, l);
      Symmetric(l, r, false);
    }
  }

  lemma ShorterEquality(s: Verinum, l: Verinum)
    requires 0 < |s.bits| <= |l.bits| && Defined(s.bits) && Defined(l.bits) && s.hasSign == l.hasSign
    ensures EqEq(s, l, false) == Answer(Number(s) == Number(l), false) == EqEqEq(s, l, false)
  {
    var ext := s.bits + Repeat(OwnPad(s), |l.bits| - |s.bits|);
    EqEqExactly(s, l);
    DefinedVerdict(s, l);
    ExtensionNumber(s, |l.bits|);
    NumberInjective(ext, l.bits, s.hasSign);
    ExtensionMatches(s, l);
  }

  lemma DefinedVerdict(s: Verinum, l: Verinum)
    requires 0 < |s.bits| <= |l.bits| && Defined(s.bits) && Defined(l.bits)
    ensures IsBit(EqEq(s, l, false))
    ensures s.hasSign == l.hasSign ==> EqEq(s, l, false) == EqEqEq(s, l, false)
  {
    var n := |s.bits|;
    if s.bits != l.bits[..n] {
      var i :| 0 <= i < n && s.bits[i] != l.bits[..n][i];
      assert IsBit(s.bits[i]) && IsBit(l.bits[i]);
    }
  }

  /** Extending by its own pad keeps a number. */
  lemma ExtensionNumber(v: Verinum, n: nat)
    requires 0 < |v.bits| <= n && Defined(v.bits)
    ensures var ext := v.bits + Repeat(OwnPad(v), n - |v.bits|);
            Defined(ext) && Number(Verinum(ext, v.hasLen, v.hasSign)) == Number(v)
  {
    PaddedValue(v.bits, OwnPad(v), n - |v.bits|);
  }

  lemma NumberInjective(a: Bits, b: Bits, signed: bool)
    requires |a| == |b| > 0 && Defined(a) && Defined(b)
    ensures a == b <==> if signed then SVal(a) == SVal(b) else Val(a) == Val(b)
  {
    ValInjective(a, b);
    ValBound(a);
    ValBound(b);
    SValBound(a);
    SValBound(b);
  }

  /** `===` agrees with `==`, wherever `==` is not x, for every longer or equally long second operand,
      exactly when the shorter is not a defined negative number held against an unsigned one. */
  lemma CaseEqualityAgreesExactly(s: Verinum, n: nat, signed: bool)
    requires 0 < |s.bits| <= n
    ensures (forall b: Bits | |b| == n :: Agree(s, Verinum(b, true, signed)))
            <==> !(|s.bits| < n && s.hasSign && !signed && Defined(s.bits) && Sign(s.bits))
  {
    if |s.bits| < n && s.hasSign && !signed && Defined(s.bits) && Sign(s.bits) {
      var b := s.bits + Repeat(V1, n - |s.bits|);
      var l := Verinum(b, true, signed);
      EqEqExactly(s, l);
      assert b[|s.bits|] == V1;
      assert !Agree(s, l);
    } else {
      forall b: Bits | |b| == n ensures Agree(s, Verinum(b, true, signed)) {
        AgreeOtherwise(s, Verinum(b, true, signed));
      }
    }
  }

  predicate Agree(l: Verinum, r: Verinum)
    requires l.bits != [] && r.bits != []
  {
    EqEq(l, r, false) != Vx ==> EqEqEq(l, r, false) == EqEq(l, r, false)
  }

  lemma AgreeOtherwise(s: Verinum, l: Verinum)
    requires 0 < |s.bits| <= |l.bits|
    requires !(|s.bits| < |l.bits| && s.hasSign && !l.hasSign && Defined(s.bits) && Sign(s.bits))
    ensures Agree(s, l)
  {
    var n := |s.bits|;
    EqEqExactly(s, l);
    ExtensionMatches(s, l);
    if DefinedDifference(s.bits, l.bits, n) {
      var i :| 0 <= i < n && IsBit(s.bits[i]) && IsBit(l.bits[i]) && s.bits[i] != l.bits[i];
      assert l.bits[..n][i] != s.bits[i];
    }
  }
}
