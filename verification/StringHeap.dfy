/** The permanent string heap and its lexical cache (StringHeap.h, StringHeap.cc).
 */
module StringHeaps {

  newtype byte = x: int | 0 <= x < 256

  const HEAPCELL: nat := 0x10000
  const HASH_SIZE: nat := 4096

  /** The counters are 32-bit unsigned. */
  const WRAP: nat := 0x1_0000_0000

  /** A character pointer: an offset into a heap cell. */
  datatype Ptr = Ptr(cell: array<byte>, off: nat)

  /** C string contents: no terminator inside. */
  predicate Text(t: seq<byte>) {
    forall i | 0 <= i < |t| :: t[i] != 0
  }

  /** The bytes from `off` on are the text `t` and a terminator. */
  predicate Holds(bytes: seq<byte>, off: nat, t: seq<byte>) {
    Text(t) && off + |t| < |bytes| && (forall i | 0 <= i < |t| :: bytes[off + i] == t[i]) && bytes[off + |t|] == 0
  }

  /** The pointer reads back as `t`. */
  predicate Reads(p: Ptr, t: seq<byte>)
    reads p.cell
  {
    Holds(p.cell[..], p.off, t)
  }

  function CharAt(t: seq<byte>, i: nat): byte {
    if i < |t| then t[i] else 0
  }

  /** Bytes read back as one text only. */
  lemma HoldsUnique(bytes: seq<byte>, off: nat, s: seq<byte>, t: seq<byte>)
    requires Holds(bytes, off, s) && Holds(bytes, off, t)
    ensures s == t
  {
    assert CharAt(t, |s|) == bytes[off + |s|] && CharAt(s, |t|) == bytes[off + |t|];
    assert |s| == |t|;
    assert forall i | 0 <= i < |s| :: s[i] == bytes[off + i] == t[i];
  }

  /** Copy a text and its terminator into a cell. */
  method Store(base: array<byte>, off: nat, text: seq<byte>)
    requires Text(text) && off + |text| < base.Length
    modifies base
    ensures Reads(Ptr(base, off), text)
    ensures forall i | 0 <= i < base.Length && !(off <= i <= off + |text|) :: base[i] == old(base[i])
  {
    forall i | 0 <= i < |text| {
      base[off + i] := text[i];
    }
    base[off + |text|] := 0;
  }

  /** A text whose bytes are not written stays readable. */
  lemma HoldsKept(bytes: seq<byte>, bytes': seq<byte>, off: nat, t: seq<byte>)
    requires Holds(bytes, off, t) && |bytes'| == |bytes|
    requires forall i | off <= i <= off + |t| :: bytes'[i] == bytes[i]
    ensures Holds(bytes', off, t)
  {
  }

  /** One allocation: where it is and the text it was made for. */
  datatype Alloc = Alloc(p: Ptr, text: seq<byte>) {
    function End(): nat { p.off + |text| + 1 }
  }

  predicate Disjoint(a: Alloc, b: Alloc) {
    a.p.cell == b.p.cell ==> a.End() <= b.p.off || b.End() <= a.p.off
  }

  class StringHeap {
    var cellBase: array?<byte>
    var cellPtr: nat
    var cellCount: nat

    /** Every cell and every allocation so far. */
    ghost var cells: set<array<byte>>
    ghost var allocs: seq<Alloc>

    ghost predicate Valid()
      reads this, cells
    {
      cellPtr <= HEAPCELL &&
      (cellBase == null ==> cellPtr == HEAPCELL) &&
      (cellBase != null ==> cellBase in cells) &&
      (forall c | c in cells :: c.Length == HEAPCELL) &&
      (forall a | a in allocs :: a.p.cell in cells && Reads(a.p, a.text)) &&
      (forall a | a in allocs :: a.p.cell == cellBase ==> a.End() <= cellPtr) &&
      (forall i, j | 0 <= i < j < |allocs| :: Disjoint(allocs[i], allocs[j]))
    }

    constructor ()
      ensures Valid() && cells == {} && allocs == [] && cellCount == 0
    {
      cellBase := null;
      cellPtr := HEAPCELL;
      cellCount := 0;
      cells := {};
      allocs := [];
    }

    /** Allocate a copy of the text. Whatever was allocated before keeps its place and its text. */
    method Add(text: seq<byte>) returns (res: Ptr)
      requires Valid() && Text(text) && |text| + 1 <= HEAPCELL
      modifies this, cells
      ensures Valid() && fresh(cells - old(cells)) && old(cells) <= cells
      ensures allocs == old(allocs) + [Alloc(res, text)]
      ensures Reads(res, text)
      ensures if HEAPCELL - old(cellPtr) < |text| + 1
              then fresh(res.cell) && res.off == 0 && cellCount == (old(cellCount) + 1) % WRAP
              else res == Ptr(old(cellBase), old(cellPtr)) && cellCount == old(cellCount)
      ensures cellBase == res.cell && cellPtr == res.off + |text| + 1
    {
      var len := |text|;
      var rem := HEAPCELL - cellPtr;
      if rem < len + 1 {
        var cell := new byte[HEAPCELL];
        cellBase := cell;
        cells := cells + {cell};
        cellPtr := 0;
        cellCount := (cellCount + 1) % WRAP;
      }
      res := Ptr(cellBase, cellPtr);
      Store(cellBase, cellPtr, text);
      cellPtr := cellPtr + len + 1;
      forall a | a in allocs ensures Reads(a.p, a.text) {
        HoldsKept(old(a.p.cell[..]), a.p.cell[..], a.p.off, a.text);
      }
      allocs := allocs + [Alloc(res, text)];
    }
  }

  // ----- the lexical heap -----

  /** Sign extension of a plain (signed) char. */
  function SignExtend(c: byte): bv32 {
    if c < 128 then c as bv32 else (c as bv32) | 0xFFFF_FF00
  }

  function HashFrom(h: bv32, text: seq<byte>): bv32
    decreases |text|
  {
    if text == [] then h else HashFrom((h << 4) ^ (h >> 28) ^ SignExtend(text[0]), text[1..])
  }

  method HashString(text: seq<byte>) returns (h: bv32)
    ensures h == HashFrom(0, text) == HashOf(text)
  {
    HashIsXor(0, text);
    TurnedZero(|text|);
    XorAssociative(0, 0, HashOf(text));
    h := 0;
    var k := 0;
    while k < |text|
      invariant k <= |text|
      invariant HashFrom(h, text[k..]) == HashFrom(0, text)
    {
      assert text[k..][1..] == text[k + 1..];
      h := (h << 4) ^ (h >> 28) ^ SignExtend(text[k]);
      k := k + 1;
    }
  }

  /** `h` turned left by four bits. */
  function Turn(h: bv32): bv32 {
    (h << 4) | (h >> 28)
  }

  function Turned(h: bv32, k: nat): bv32
    decreases k
  {
    if k == 0 then h else Turned(Turn(h), k - 1)
  }

  function Xor(a: bv32, b: bv32): bv32 {
    a ^ b
  }

  /** Each character turned once for every character after it, all of them xored. */
  function HashOf(text: seq<byte>): bv32 {
    if text == [] then 0 else Xor(Turned(SignExtend(text[0]), |text| - 1), HashOf(text[1..]))
  }

  lemma TurnXor(a: bv32, b: bv32)
    ensures Turn(Xor(a, b)) == Xor(Turn(a), Turn(b))
  {
  }

  lemma {:induction false} TurnedXor(a: bv32, b: bv32, k: nat)
    ensures Turned(Xor(a, b), k) == Xor(Turned(a, k), Turned(b, k))
    decreases k
  {
    hide Turn, Xor;
    if k > 0 {
      TurnXor(a, b);
      TurnedXor(Turn(a), Turn(b), k - 1);
    }
  }

  lemma XorAssociative(a: bv32, b: bv32, c: bv32)
    ensures Xor(Xor(a, b), c) == Xor(a, Xor(b, c)) && Xor(0, c) == c == Xor(c, 0)
  {
  }

  lemma HashStep(h: bv32, text: seq<byte>)
    requires text != []
    ensures HashFrom(h, text) == HashFrom(Xor(Turn(h), SignExtend(text[0])), text[1..])
  {
    hide SignExtend;
  }

  lemma HashEnd(h: bv32)
    ensures HashFrom(h, []) == h == Turned(h, 0)
  {
  }

  /** What the loop computes. */
  lemma {:induction false} HashIsXor(h: bv32, text: seq<byte>)
    ensures HashFrom(h, text) == Xor(Turned(h, |text|), HashOf(text))
    decreases |text|
  {
    hide Turn, SignExtend, Xor, HashFrom;
    if text != [] {
      var n, c := |text| - 1, SignExtend(text[0]);
      HashStep(h, text);
      HashIsXor(Xor(Turn(h), c), text[1..]);
      TurnedXor(Turn(h), c, n);
      XorAssociative(Turned(Turn(h), n), Turned(c, n), HashOf(text[1..]));
    } else {
      HashEnd(h);
      XorAssociative(h, h, h);
    }
  }

  lemma {:induction false} TurnedZero(k: nat)
    ensures Turned(0, k) == 0
  {
    if k > 0 {
      assert Turn(0) == 0;
      TurnedZero(k - 1);
    }
  }

  /** A character keeps its eight bits; those above repeat its top bit. */
  lemma SignExtends(c: byte)
    ensures SignExtend(c) & 0xFF == c as bv32 && SignExtend(c) >> 8 == if c >= 128 then 0xFF_FFFF else 0
  {
  }

  function Bucket(text: seq<byte>): (b: nat)
    ensures b < HASH_SIZE
  {
    (HashFrom(0, text) as nat) % HASH_SIZE
  }

  /** A text's bucket is its hash modulo 4096. */
  lemma BucketOf(text: seq<byte>)
    ensures Bucket(text) == (HashOf(text) as nat) % 4096
  {
    HashIsXor(0, text);
    TurnedZero(|text|);
    XorAssociative(0, 0, HashOf(text));
  }

  datatype Slot = Empty | Full(p: Ptr)

  /** One call of `add` and its answer. */
  datatype Call = Call(text: seq<byte>, res: Ptr)

  /** A full bucket points at an earlier allocation. */
  ghost predicate Held(slot: Slot, allocs: seq<Alloc>) {
    slot.Full? ==> exists a | a in allocs :: a.p == slot.p
  }

  lemma HeldMore(slot: Slot, allocs: seq<Alloc>, a: Alloc)
    requires Held(slot, allocs)
    ensures Held(slot, allocs + [a])
  {
    if slot.Full? {
      var w :| w in allocs && w.p == slot.p;
      assert w in allocs + [a];
    }
  }

  ghost predicate AllHeld(table: seq<Slot>, allocs: seq<Alloc>) {
    forall k | 0 <= k < |table| :: Held(table[k], allocs)
  }

  lemma TableHeld(table: seq<Slot>, allocs: seq<Alloc>, a: Alloc, b: nat)
    requires b < |table| && AllHeld(table, allocs)
    ensures AllHeld(table[b := Full(a.p)], allocs + [a])
  {
    var after := table[b := Full(a.p)];
    forall k | 0 <= k < |after| ensures Held(after[k], allocs + [a]) {
      if k == b {
        assert (allocs + [a])[|allocs|] == a;
      } else {
        HeldMore(table[k], allocs, a);
      }
    }
  }

  class StringHeapLex {
    var heap: StringHeap
    var hashTable: array<Slot>
    var addCount: nat
    var hitCount: nat

    /** Every call so far, and how many of them were answered from the table. */
    ghost var calls: seq<Call>
    ghost var hits: nat

    ghost predicate Valid()
      reads this, heap, heap.cells, hashTable
    {
      heap.Valid() && hashTable.Length == HASH_SIZE &&
      (forall c | c in calls :: Alloc(c.res, c.text) in heap.allocs) &&
      (forall b | 0 <= b < HASH_SIZE :: Held(hashTable[b], heap.allocs)) &&
      hits <= |calls| && |heap.allocs| == |calls| - hits &&
      hitCount == hits % WRAP && addCount == |heap.allocs| % WRAP
    }

    constructor ()
      ensures Valid() && fresh(heap) && fresh(hashTable) && calls == [] && hits == 0 && heap.cells == {}
    {
      heap := new StringHeap();
      hitCount := 0;
      addCount := 0;
      calls := [];
      hits := 0;
      hashTable := new Slot[HASH_SIZE](i => Empty);
    }

    /** `strcmp(p, text) == 0`. */
    method SameText(p: Ptr, text: seq<byte>, ghost t: seq<byte>) returns (same: bool)
      requires Reads(p, t) && Text(text)
      ensures same <==> text == t
    {
      var k := 0;
      while k < |text| && p.cell[p.off + k] == text[k]
        invariant k <= |text| && k <= |t| && text[..k] == t[..k]
        invariant forall i | 0 <= i < |t| :: p.cell[p.off + i] == t[i]
      {
        assert k < |t|;
        k := k + 1;
      }
      assert k < |t| ==> p.cell[p.off + k] == t[k] && t[k] != 0;
      same := k == |text| && p.cell[p.off + k] == 0;
      if same {
        assert k == |t|;
        assert text == text[..k] && t == t[..k];
      } else if k < |t| && k < |text| {
        assert text[k] != t[k];
      }
    }

    method Hit(text: seq<byte>, b: nat) returns (res: Ptr)
      requires Valid() && b < HASH_SIZE && hashTable[b].Full? && Alloc(hashTable[b].p, text) in heap.allocs
      modifies this
      ensures Valid() && heap == old(heap) && hashTable == old(hashTable)
      ensures calls == old(calls) + [Call(text, res)] && hits == old(hits) + 1
      ensures res == hashTable[b].p
    {
      hitCount := (hitCount + 1) % WRAP;
      hits := hits + 1;
      res := hashTable[b].p;
      calls := calls + [Call(text, res)];
    }

    /** Every answer ever given still reads back the text it was asked for, and two allocations
        never overlap. */
    lemma Permanence()
      requires Valid()
      ensures forall c | c in calls :: Reads(c.res, c.text)
      ensures forall i, j | 0 <= i < j < |heap.allocs| :: Disjoint(heap.allocs[i], heap.allocs[j])
    {
      forall c | c in calls ensures Reads(c.res, c.text) {
        assert Alloc(c.res, c.text) in heap.allocs;
      }
    }

    /** Hits and additions account for every call, in the arithmetic of the counters. */
    lemma Accounting()
      requires Valid()
      ensures (hitCount + addCount) % WRAP == |calls| % WRAP
    {
      WrapSum(hits, |heap.allocs|);
    }

    /** Allocate the text and make its bucket point at it. */
    method Replace(text: seq<byte>, b: nat) returns (res: Ptr)
      requires Valid() && Text(text) && |text| + 1 <= HEAPCELL && b < HASH_SIZE
      modifies this, heap, heap.cells, hashTable
      ensures Valid() && heap == old(heap) && hashTable == old(hashTable)
      ensures fresh(heap.cells - old(heap.cells))
      ensures calls == old(calls) + [Call(text, res)] && hits == old(hits)
      ensures heap.allocs == old(heap.allocs) + [Alloc(res, text)] && Reads(res, text)
      ensures hashTable[b] == Full(res)
      ensures forall k | 0 <= k < HASH_SIZE && k != b :: hashTable[k] == old(hashTable[k])
    {
      ghost var before, table := heap.allocs, hashTable[..];
      res := heap.Add(text);
      hashTable[b] := Full(res);
      addCount := (addCount + 1) % WRAP;
      calls := calls + [Call(text, res)];
      assert heap.allocs[|before|] == Alloc(res, text);
      assert hashTable[..] == table[b := Full(res)];
      TableHeld(table, before, Alloc(res, text), b);
      forall k | 0 <= k < HASH_SIZE ensures Held(hashTable[k], heap.allocs) {
        assert hashTable[k] == hashTable[..][k];
      }
    }

    /** Does the bucket hold the text? */
    method Lookup(text: seq<byte>, b: nat) returns (hit: bool)
      requires Valid() && Text(text) && b < HASH_SIZE
      ensures hit <==> hashTable[b].Full? && Reads(hashTable[b].p, text)
      ensures hit ==> Alloc(hashTable[b].p, text) in heap.allocs
    {
      if hashTable[b].Full? {
        assert Held(hashTable[b], heap.allocs);
        ghost var a :| a in heap.allocs && a.p == hashTable[b].p;
        hit := SameText(hashTable[b].p, text, a.text);
        if Reads(hashTable[b].p, text) { HoldsUnique(a.p.cell[..], a.p.off, a.text, text); }
      } else {
        hit := false;
      }
    }

    /** Intern a text: every answer ever given still reads back the text it was asked for, and the
        answer is an earlier pointer exactly when the bucket holds the text. */
    method Add(text: seq<byte>) returns (res: Ptr)
      requires Valid() && Text(text) && |text| + 1 <= HEAPCELL
      modifies this, heap, heap.cells, hashTable
      ensures Valid() && heap == old(heap) && hashTable == old(hashTable)
      ensures fresh(heap.cells - old(heap.cells))
      ensures calls == old(calls) + [Call(text, res)]
      ensures Reads(res, text)
      ensures var slot := old(hashTable[Bucket(text)]);
              if slot.Full? && old(Reads(slot.p, text))
              then res == slot.p && hits == old(hits) + 1 && heap.allocs == old(heap.allocs)
              else hits == old(hits) && heap.allocs == old(heap.allocs) + [Alloc(res, text)]
      ensures hashTable[Bucket(text)] == Full(res)
      ensures forall b | 0 <= b < HASH_SIZE && b != Bucket(text) :: hashTable[b] == old(hashTable[b])
    {
      var h := HashString(text);
      var b := (h as nat) % HASH_SIZE;
      var hit := Lookup(text, b);
      if hit {
        res := Hit(text, b);
      } else {
        res := Replace(text, b);
      }
    }
  }

  /** After any sequence of calls, every pointer that was returned reads back the text it was asked
      for. */
  method AddAll(lex: StringHeapLex, texts: seq<seq<byte>>) returns (res: seq<Ptr>)
    requires lex.Valid() && lex.calls == []
    requires forall k | 0 <= k < |texts| :: Text(texts[k]) && |texts[k]| + 1 <= HEAPCELL
    modifies lex, lex.heap, lex.heap.cells, lex.hashTable
    ensures lex.Valid() && |res| == |texts| == |lex.calls|
    ensures forall k | 0 <= k < |texts| :: lex.calls[k] == Call(texts[k], res[k]) && Reads(res[k], texts[k])
  {
    res := [];
    for k := 0 to |texts|
      invariant lex.Valid() && lex.heap == old(lex.heap) && lex.hashTable == old(lex.hashTable)
      invariant fresh(lex.heap.cells - old(lex.heap.cells))
      invariant |res| == k == |lex.calls|
      invariant forall i | 0 <= i < k :: lex.calls[i] == Call(texts[i], res[i])
    {
      var p := lex.Add(texts[k]);
      res := res + [p];
    }
    lex.Permanence();
    forall k | 0 <= k < |texts| ensures Reads(res[k], texts[k]) {
      assert lex.calls[k] in lex.calls;
    }
  }

  lemma WrapSum(a: nat, b: nat)
    ensures (a % WRAP + b % WRAP) % WRAP == (a + b) % WRAP
  {
    var q, r := a / WRAP, b / WRAP;
    assert a + b == (a % WRAP + b % WRAP) + WRAP * (q + r);
  }
}
