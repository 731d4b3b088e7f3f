/** The analysis as it is coded: a mutable `Predicate` whose hypotheses are a set of pointers, so
    they are kept in the order of their addresses, while `merge` walks two such sets with a
    comparator on printed names (absinterp.cc, sectypes.h, typecheck.cc, Statement.cc).
 */
module Absint {
  import opened PForm
  import opened DumpUnique
  import opened Projection
  import opened Statements
  import opened Analysis

  function Elems(hs: seq<Expr>): set<Expr> {
    set h | h in hs
  }

  // ----- strcmp order of printed names -----

  predicate NameLess(a: string, b: string) {
    b != "" && (a == "" || a[0] < b[0] || (a[0] == b[0] && NameLess(a[1..], b[1..])))
  }

  lemma {:induction false} NameLessTotal(a: string, b: string)
    ensures !(NameLess(a, b) && NameLess(b, a))
    ensures NameLess(a, b) || NameLess(b, a) <==> a != b
  {
    if a != "" && b != "" {
      NameLessTotal(a[1..], b[1..]);
      assert a == [a[0]] + a[1..] && b == [b[0]] + b[1..];
    }
  }

  lemma {:induction false} NameLessTransitive(a: string, b: string, c: string)
    requires NameLess(a, b) && NameLess(b, c)
    ensures NameLess(a, c)
  {
    if a != "" && a[0] == b[0] == c[0] { NameLessTransitive(a[1..], b[1..], c[1..]); }
  }

  predicate Before(a: Expr, b: Expr) {
    NameLess(Dump(a), Dump(b))
  }

  /** Names never go down; two pointers may hold hypotheses of one name. */
  predicate SortedByName(hs: seq<Expr>) {
    forall i, j | 0 <= i < j < |hs| :: !Before(hs[j], hs[i])
  }

  function Names(hs: seq<Expr>): set<string> {
    set h | h in hs :: Dump(h)
  }

  /** Hypotheses that print alike are equal. */
  predicate NamesTellApart(hs: seq<Expr>) {
    forall i, j | 0 <= i < |hs| && 0 <= j < |hs| && Dump(hs[i]) == Dump(hs[j]) :: hs[i] == hs[j]
  }

  // ----- set_intersection -----

  /** What `set_intersection` outputs when it walks `a` and `b` with the name comparator,
      whatever order they are in. */
  function MergeWalk(a: seq<Expr>, b: seq<Expr>): seq<Expr>
    decreases |a| + |b|
  {
    if a == [] || b == [] then []
    else if Before(a[0], b[0]) then MergeWalk(a[1..], b)
    else if Before(b[0], a[0]) then MergeWalk(a, b[1..])
    else [a[0]] + MergeWalk(a[1..], b[1..])
  }

  /** In any order the walk yields only hypotheses both sides have. */
  lemma {:induction false} MergeWalkWithinMeet(a: seq<Expr>, b: seq<Expr>)
    ensures Elems(MergeWalk(a, b)) <= Meet(Elems(a), Elems(b))
    decreases |a| + |b|
  {
    if a != [] && b != [] {
      if Before(a[0], b[0]) {
        MergeWalkWithinMeet(a[1..], b);
      } else if Before(b[0], a[0]) {
        MergeWalkWithinMeet(a, b[1..]);
      } else {
        NameLessTotal(Dump(a[0]), Dump(b[0]));
        MergeWalkWithinMeet(a[1..], b[1..]);
        forall h | h in MergeWalk(a, b) ensures h in Meet(Elems(a), Elems(b)) {
          if h == a[0] {
            assert b[0] in Elems(b);
          } else {
            assert h in Meet(Elems(a[1..]), Elems(b[1..]));
          }
        }
      }
    }
  }

  /** The heads of two sorted sequences compare like the positions of a common name. */
  lemma CommonNamePositions(a: seq<Expr>, b: seq<Expr>, i: nat, j: nat)
    requires SortedByName(a) && SortedByName(b) && i < |a| && j < |b| && Dump(a[i]) == Dump(b[j])
    ensures Before(a[0], b[0]) ==> i > 0
    ensures Before(b[0], a[0]) ==> j > 0
    ensures !Before(a[0], b[0]) && !Before(b[0], a[0]) && (i == 0 || j == 0) ==> Dump(a[0]) == Dump(a[i])
  {
    var x, y, z := Dump(a[0]), Dump(b[0]), Dump(a[i]);
    assert !NameLess(z, x) && !NameLess(z, y) by {
      NameLessTotal(x, x);
      NameLessTotal(y, y);
      if i > 0 { assert !Before(a[i], a[0]); }
      if j > 0 { assert !Before(b[j], b[0]); }
    }
    NameLessTotal(x, y);
  }

  lemma {:induction false} MergeWalkFinds(a: seq<Expr>, b: seq<Expr>, i: nat, j: nat)
    requires SortedByName(a) && SortedByName(b) && i < |a| && j < |b| && Dump(a[i]) == Dump(b[j])
    ensures Dump(a[i]) in Names(MergeWalk(a, b))
    decreases |a| + |b|
  {
    var walk := MergeWalk(a, b);
    CommonNamePositions(a, b, i, j);
    if Before(a[0], b[0]) {
      MergeWalkFinds(a[1..], b, i - 1, j);
    } else if Before(b[0], a[0]) {
      MergeWalkFinds(a, b[1..], i, j - 1);
    } else if i > 0 && j > 0 {
      MergeWalkFinds(a[1..], b[1..], i - 1, j - 1);
      NamesOfTail(a[0], MergeWalk(a[1..], b[1..]));
    } else {
      assert walk[0] == a[0] && walk[0] in walk;
    }
  }

  lemma NamesOfTail(h: Expr, hs: seq<Expr>)
    ensures Names(hs) <= Names([h] + hs)
  {
    forall n | n in Names(hs) ensures n in Names([h] + hs) {
      var g :| g in hs && Dump(g) == n;
      assert g in [h] + hs;
    }
  }

  /** On sides sorted by name the walk yields every common name; where names tell hypotheses apart it
      yields every common hypothesis. */
  lemma MergeWalkComplete(a: seq<Expr>, b: seq<Expr>)
    requires SortedByName(a) && SortedByName(b)
    ensures Names(MergeWalk(a, b)) == Names(a) * Names(b)
    ensures NamesTellApart(a) ==> Elems(MergeWalk(a, b)) == Meet(Elems(a), Elems(b))
  {
    var walk := MergeWalk(a, b);
    MergeWalkNames(a, b);
    MergeWalkWithinMeet(a, b);
    if NamesTellApart(a) {
      forall h | h in Meet(Elems(a), Elems(b)) ensures h in walk {
        var k :| k in Elems(b) && Dump(k) == Dump(h);
        assert Dump(h) in Names(a) * Names(b);
        assert Dump(h) in Names(walk);
        var g :| g in walk && Dump(g) == Dump(h);
        assert g in Meet(Elems(a), Elems(b));
      }
    }
  }

  lemma MergeWalkNames(a: seq<Expr>, b: seq<Expr>)
    requires SortedByName(a) && SortedByName(b)
    ensures Names(MergeWalk(a, b)) == Names(a) * Names(b)
  {
    var walk := MergeWalk(a, b);
    MergeWalkWithinMeet(a, b);
    forall n | n in Names(walk) ensures n in Names(a) * Names(b) {
      var h :| h in walk && Dump(h) == n;
      assert h in Meet(Elems(a), Elems(b));
    }
    forall n | n in Names(a) * Names(b) ensures n in Names(walk) {
      var h :| h in a && Dump(h) == n;
      var k :| k in b && Dump(k) == n;
      var i :| 0 <= i < |a| && a[i] == h;
      var j :| 0 <= j < |b| && b[j] == k;
      MergeWalkFinds(a, b, i, j);
    }
  }

  // ----- which address orders lose nothing -----

  /** `a` holds some of the pointers of `order`, in that order. */
  predicate Sublist(a: seq<Expr>, order: seq<Expr>) {
    a == [] || (order != [] && ((a[0] == order[0] && Sublist(a[1..], order[1..])) || Sublist(a, order[1..])))
  }

  lemma {:induction false} SublistElement(a: seq<Expr>, order: seq<Expr>, i: nat) returns (k: nat)
    requires Sublist(a, order) && i < |a|
    ensures k < |order| && order[k] == a[i]
  {
    if a[0] == order[0] && Sublist(a[1..], order[1..]) {
      if i == 0 {
        k := 0;
      } else {
        k := SublistElement(a[1..], order[1..], i - 1);
        k := k + 1;
      }
    } else {
      k := SublistElement(a, order[1..], i);
      k := k + 1;
    }
  }

  lemma {:induction false} SublistSorted(a: seq<Expr>, order: seq<Expr>)
    requires Sublist(a, order) && SortedByName(order)
    ensures SortedByName(a)
  {
    if a != [] {
      if a[0] == order[0] && Sublist(a[1..], order[1..]) {
        SublistSorted(a[1..], order[1..]);
        forall i, j | 0 <= i < j < |a| ensures !Before(a[j], a[i]) {
          if i == 0 {
            var k := SublistElement(a[1..], order[1..], j - 1);
            assert order[k + 1] == a[j];
          } else {
            assert a[i] == a[1..][i - 1] && a[j] == a[1..][j - 1];
          }
        }
      } else {
        SublistSorted(a, order[1..]);
      }
    }
  }

  lemma {:induction false} OneOf(order: seq<Expr>, j: nat)
    requires j < |order|
    ensures Sublist([order[j]], order)
  {
    if j > 0 {
      OneOf(order[1..], j - 1);
    } else {
      assert [order[0]][1..] == [];
    }
  }

  lemma {:induction false} TwoOf(order: seq<Expr>, i: nat, j: nat)
    requires i < j < |order|
    ensures Sublist([order[i], order[j]], order)
  {
    if i > 0 {
      TwoOf(order[1..], i - 1, j - 1);
    } else {
      OneOf(order[1..], j - 1);
      assert [order[0], order[j]][1..] == [order[j]];
    }
  }

  /** Two hypotheses out of order: the later one is common to both sides and lost. */
  lemma InversionLoses(g: Expr, h: Expr)
    requires Before(h, g)
    ensures MergeWalk([g, h], [h]) == [] && h in Meet(Elems([g, h]), Elems([h]))
  {
    NameLessTotal(Dump(g), Dump(h));
    assert [h][1..] == [];
    assert MergeWalk([g, h], [h]) == MergeWalk([g, h], [h][1..]);
    assert h in [h] && [g, h][1] == h;
  }

  /** A concrete loss: the sets {b, a} and {a} meet in nothing when b has the lower address. */
  lemma MergeLoses()
    ensures MergeWalk([Ident("b"), Ident("a")], [Ident("a")]) == []
    ensures Ident("a") in Meet(Elems([Ident("b"), Ident("a")]), Elems([Ident("a")]))
  {
    assert "a"[0] < "b"[0];
    InversionLoses(Ident("b"), Ident("a"));
  }

  /** The hypotheses of a run sit at addresses in some order. Every merge of sets of them yields every
      common name exactly when the names never go down in that order; every merge yields every common
      hypothesis exactly when moreover names tell the hypotheses apart. */
  lemma MergeCompleteExactly(order: seq<Expr>)
    ensures (forall a, b | Sublist(a, order) && Sublist(b, order) :: Names(MergeWalk(a, b)) == Names(a) * Names(b))
            <==> SortedByName(order)
    ensures (forall a, b | Sublist(a, order) && Sublist(b, order) :: Elems(MergeWalk(a, b)) == Meet(Elems(a), Elems(b)))
            <==> SortedByName(order) && NamesTellApart(order)
  {
    if SortedByName(order) {
      forall a, b | Sublist(a, order) && Sublist(b, order)
        ensures Names(MergeWalk(a, b)) == Names(a) * Names(b)
        ensures NamesTellApart(order) ==> Elems(MergeWalk(a, b)) == Meet(Elems(a), Elems(b))
      {
        SublistSorted(a, order);
        SublistSorted(b, order);
        if NamesTellApart(order) { SublistTellsApart(a, order); }
        MergeWalkComplete(a, b);
      }
      if !NamesTellApart(order) { AliasLost(order); }
    } else {
      var i, j :| 0 <= i < j < |order| && Before(order[j], order[i]);
      var g, h := order[i], order[j];
      TwoOf(order, i, j);
      OneOf(order, j);
      InversionLoses(g, h);
      assert h in [g, h] && h in [h];
      assert Dump(h) in Names([g, h]) * Names([h]) && Dump(h) !in Names(MergeWalk([g, h], [h]));
    }
  }

  lemma SublistTellsApart(a: seq<Expr>, order: seq<Expr>)
    requires Sublist(a, order) && NamesTellApart(order)
    ensures NamesTellApart(a)
  {
    forall i, j | 0 <= i < |a| && 0 <= j < |a| && Dump(a[i]) == Dump(a[j]) ensures a[i] == a[j] {
      var k := SublistElement(a, order, i);
      var l := SublistElement(a, order, j);
    }
  }

  /** Of two different hypotheses of one name, the walk keeps the first only. */
  lemma AliasLost(order: seq<Expr>)
    requires !NamesTellApart(order)
    ensures exists a, b :: Sublist(a, order) && Sublist(b, order) && Elems(MergeWalk(a, b)) != Meet(Elems(a), Elems(b))
  {
    var i, j :| 0 <= i < |order| && 0 <= j < |order| && Dump(order[i]) == Dump(order[j]) && order[i] != order[j];
    var lo, hi := if i < j then i else j, if i < j then j else i;
    var g, h := order[lo], order[hi];
    TwoOf(order, lo, hi);
    OneOf(order, lo);
    NameLessTotal(Dump(g), Dump(g));
    assert [g, h][1..] == [h] && [g][1..] == [];
    assert MergeWalk([g, h], [g]) == [g] + MergeWalk([h], []);
    assert [g, h][1] == h && g in [g];
    assert h in Meet(Elems([g, h]), Elems([g])) && h !in MergeWalk([g, h], [g]);
  }

  // ----- every set has an order that loses nothing -----

  function SortedInsert(h: Expr, hs: seq<Expr>): seq<Expr> {
    if hs == [] || !Before(hs[0], h) then [h] + hs else [hs[0]] + SortedInsert(h, hs[1..])
  }

  lemma {:induction false} SortedInsertElems(h: Expr, hs: seq<Expr>)
    ensures forall g :: g in SortedInsert(h, hs) <==> g == h || g in hs
  {
    if hs != [] && Before(hs[0], h) {
      SortedInsertElems(h, hs[1..]);
      assert hs == [hs[0]] + hs[1..];
    }
  }

  lemma SortedCons(g: Expr, hs: seq<Expr>)
    requires SortedByName(hs) && forall k | k in hs :: !Before(k, g)
    ensures SortedByName([g] + hs)
  {
    var r := [g] + hs;
    forall i, j | 0 <= i < j < |r| ensures !Before(r[j], r[i]) {
      assert r[j] == hs[j - 1] && r[j] in hs;
      if i > 0 { assert r[i] == hs[i - 1]; }
    }
  }

  lemma {:induction false} SortedInsertKeeps(h: Expr, hs: seq<Expr>)
    requires SortedByName(hs)
    ensures SortedByName(SortedInsert(h, hs))
  {
    if hs != [] {
      forall k | k in hs ensures k == hs[0] || !Before(k, hs[0]) {
        var i :| 0 <= i < |hs| && hs[i] == k;
      }
    }
    if hs == [] || !Before(hs[0], h) {
      forall k | k in hs ensures !Before(k, h) { NotBeforeChain(h, hs[0], k); }
      SortedCons(h, hs);
    } else {
      SortedInsertKeeps(h, hs[1..]);
      SortedInsertElems(h, hs[1..]);
      NameLessTotal(Dump(hs[0]), Dump(h));
      NameLessTotal(Dump(hs[0]), Dump(hs[0]));
      forall k | k in SortedInsert(h, hs[1..]) ensures !Before(k, hs[0]) {}
      SortedCons(hs[0], SortedInsert(h, hs[1..]));
    }
  }

  lemma NotBeforeChain(h: Expr, g: Expr, k: Expr)
    requires !Before(g, h) && (k == g || !Before(k, g))
    ensures !Before(k, h)
  {
    var a, b, c := Dump(h), Dump(g), Dump(k);
    NameLessTotal(a, b);
    NameLessTotal(b, c);
    NameLessTotal(a, c);
    if NameLess(a, b) && NameLess(b, c) { NameLessTransitive(a, b, c); }
  }

  lemma {:induction false} SortedList(S: set<Expr>) returns (hs: seq<Expr>)
    ensures SortedByName(hs) && Elems(hs) == S
    decreases |S|
  {
    hs := [];
    if S != {} {
      var h :| h in S;
      var rest := SortedList(S - {h});
      hs := SortedInsert(h, rest);
      SortedInsertKeeps(h, rest);
      SortedInsertElems(h, rest);
      forall g ensures g in hs <==> g in S { assert g in rest <==> g in Elems(rest); }
    }
  }

  // ----- the state of the analysis -----

  lemma EraseOne(hs: seq<Expr>, i: nat)
    requires i < |hs|
    ensures multiset(hs[..i] + hs[i + 1..]) <= multiset(hs)
    ensures forall h | h in hs :: h == hs[i] || h in hs[..i] + hs[i + 1..]
  {
    var rest := hs[..i] + hs[i + 1..];
    assert hs == hs[..i] + [hs[i]] + hs[i + 1..];
    assert multiset(hs) == multiset(rest) + multiset{hs[i]};
    forall h | h in hs ensures h == hs[i] || h in rest {
      assert multiset(hs)[h] > 0;
    }
  }

  lemma SubMultiset(a: seq<Expr>, b: seq<Expr>)
    requires multiset(a) <= multiset(b)
    ensures forall h | h in a :: h in b
  {
    forall h | h in a ensures h in b { assert multiset(a)[h] > 0; }
  }

  lemma ElemsSnoc(hs: seq<Expr>, h: Expr)
    ensures Elems(hs + [h]) == Elems(hs) + {h} && multiset(hs + [h]) == multiset(hs) + multiset{h}
  {
    forall g | g in Elems(hs) + {h} ensures g in Elems(hs + [h]) {
      if g == h { assert (hs + [h])[|hs|] == g; } else { assert g in hs; }
    }
  }

  /** One step of the walk from positions `i` and `j`, with what has been output so far in front. */
  lemma WalkStep(a: seq<Expr>, b: seq<Expr>, i: nat, j: nat, out: seq<Expr>)
    requires i < |a| && j < |b|
    ensures var walk := MergeWalk(a[i..], b[j..]);
            if Before(a[i], b[j]) then walk == MergeWalk(a[i + 1..], b[j..])
            else if Before(b[j], a[i]) then walk == MergeWalk(a[i..], b[j + 1..])
            else out + walk == out + [a[i]] + MergeWalk(a[i + 1..], b[j + 1..])
  {
    assert a[i..][1..] == a[i + 1..] && b[j..][1..] == b[j + 1..];
    var rest := MergeWalk(a[i + 1..], b[j + 1..]);
    assert out + [a[i]] + rest == out + ([a[i]] + rest);
  }

  class Predicate {
    /** The hypotheses in the order of their addresses. */
    var hypotheses: seq<Expr>

    constructor ()
      ensures hypotheses == []
    {
      hypotheses := [];
    }

    constructor Copy(p: Predicate)
      ensures hypotheses == p.hypotheses
    {
      hypotheses := p.hypotheses;
    }

    /** `operator=` fills a new object and returns it; the receiver stays as it was. */
    method Assign(p: Predicate) returns (ret: Predicate)
      ensures fresh(ret) && ret.hypotheses == p.hypotheses
    {
      ret := new Predicate.Copy(p);
    }

    /** A new hypothesis lands wherever the allocator puts it. */
    method Insert(h: Expr)
      modifies this
      ensures multiset(hypotheses) == old(multiset(hypotheses)) + multiset{h}
      ensures Elems(hypotheses) == old(Elems(hypotheses)) + {h}
    {
      var k :| 0 <= k <= |hypotheses|;
      assert hypotheses == hypotheses[..k] + hypotheses[k..];
      hypotheses := hypotheses[..k] + [h] + hypotheses[k..];
    }

    /** Erase every hypothesis that mentions `name`. */
    method Invalidate(name: string)
      modifies this
      ensures Elems(hypotheses) == Kill(old(Elems(hypotheses)), name)
      ensures multiset(hypotheses) <= old(multiset(hypotheses))
    {
      var i := 0;
      ghost var was := hypotheses;
      while i < |hypotheses|
        invariant i <= |hypotheses|
        invariant forall k | 0 <= k < i :: !ContainsExpr(hypotheses[k], name)
        invariant forall h | h in was :: ContainsExpr(h, name) || h in hypotheses
        invariant multiset(hypotheses) <= multiset(was)
        decreases |hypotheses| - i
      {
        if ContainsExpr(hypotheses[i], name) {
          EraseOne(hypotheses, i);
          hypotheses := hypotheses[..i] + hypotheses[i + 1..];
        } else {
          i := i + 1;
        }
      }
      SubMultiset(hypotheses, was);
    }

    /** `PCondit::merge` into this predicate. */
    method Merge(p1: seq<Expr>, p2: seq<Expr>)
      modifies this
      ensures multiset(hypotheses) == old(multiset(hypotheses)) + multiset(MergeWalk(p1, p2))
      ensures Elems(hypotheses) == old(Elems(hypotheses)) + Elems(MergeWalk(p1, p2))
    {
      var i, j := 0, 0;
      ghost var out: seq<Expr> := [];
      while i < |p1| && j < |p2|
        invariant i <= |p1| && j <= |p2|
        invariant out + MergeWalk(p1[i..], p2[j..]) == MergeWalk(p1, p2)
        invariant multiset(hypotheses) == old(multiset(hypotheses)) + multiset(out)
        invariant Elems(hypotheses) == old(Elems(hypotheses)) + Elems(out)
        decreases |p1| + |p2| - i - j
      {
        WalkStep(p1, p2, i, j, out);
        if Before(p1[i], p2[j]) {
          i := i + 1;
        } else {
          if !Before(p2[j], p1[i]) {
            ElemsSnoc(out, p1[i]);
            out := out + [p1[i]];
            Insert(p1[i]);
            i := i + 1;
          }
          j := j + 1;
        }
      }
    }
  }
}
