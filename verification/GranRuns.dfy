/** Whole runs of the granule allocator: what every sequence of allocations and matching
    frees keeps.  One step is one call of Gran.Alloc or Gran.Free. */
module GranRuns {
  import opened Arith
  import opened GranAllocator

  datatype Block = Block(first: nat, count: nat) {
    predicate Holds(i: nat) {
      first <= i < first + count
    }
  }

  datatype Heap = Heap(table: Table, n: nat, live: set<Block>)

  datatype Op = Allocated(b: Block) | Refused(count: nat) | Freed(b: Block)

  ghost predicate Step(h: Heap, op: Op, h': Heap)
    requires h.n <= 32 * |h.table|
  {
    h'.n == h.n &&
    match op
    case Allocated(b) =>
      && 1 <= b.count <= 32 && FirstFit(h.table, h.n, b.first, b.count)
      && h'.table == WithRange(h.table, b.first, b.count, true) && h'.live == h.live + {b}
    case Refused(k) =>
      h' == h && forall p: nat :: !Fits(h.table, h.n, p, k)
    case Freed(b) =>
      && b in h.live
      && h'.table == WithRange(h.table, b.first, b.count, false) && h'.live == h.live - {b}
  }

  /** hs is the sequence of states of a run performing ops from an empty heap. */
  ghost predicate Run(hs: seq<Heap>, ops: seq<Op>)
  {
    && |hs| == |ops| + 1
    && (forall i | 0 <= i < |hs| :: hs[i].n <= 32 * |hs[i].table|)
    && hs[0].live == {}
    && (forall i: nat | i < 32 * |hs[0].table| :: !Bit(hs[0].table, i))
    && (forall i | 0 <= i < |ops| :: Step(hs[i], ops[i], hs[i + 1]))
  }

  /** The set bits are exactly the union of the live blocks, which lie in the heap and do not
      overlap. */
  ghost predicate Inv(h: Heap)
  {
    && h.n <= 32 * |h.table|
    && (forall b | b in h.live :: b.count >= 1 && b.first + b.count <= h.n)
    && (forall b, c | b in h.live && c in h.live && b != c :: Apart(b, c))
    && (forall i: nat | i < 32 * |h.table| :: Bit(h.table, i) <==> Covered(h.live, i))
  }

  ghost predicate Apart(b: Block, c: Block) {
    b.first + b.count <= c.first || c.first + c.count <= b.first
  }

  ghost predicate Covered(live: set<Block>, i: nat) {
    exists b :: b in live && b.Holds(i)
  }

  lemma AllocKeeps(h: Heap, b: Block, h': Heap)
    requires Inv(h) && Step(h, Allocated(b), h')
    ensures Inv(h')
  {
    forall c | c in h.live ensures Apart(b, c) {
      if !Apart(b, c) {
        var i := if b.first < c.first then c.first else b.first;
        assert c.Holds(i) && !Bit(h.table, i);
        assert Covered(h.live, i);
      }
    }
    forall i: nat | i < 32 * |h'.table| ensures Bit(h'.table, i) <==> Covered(h'.live, i) {
      if b.Holds(i) {
        assert b in h'.live;
      } else if Covered(h.live, i) {
        var c :| c in h.live && c.Holds(i);
        assert c in h'.live;
      }
    }
  }

  lemma FreeKeeps(h: Heap, b: Block, h': Heap)
    requires Inv(h) && Step(h, Freed(b), h')
    ensures Inv(h')
  {
    forall i: nat | i < 32 * |h'.table| ensures Bit(h'.table, i) <==> Covered(h'.live, i) {
      if b.Holds(i) {
        forall c | c in h'.live ensures !c.Holds(i) {
          assert Apart(b, c);
        }
      } else if Covered(h.live, i) {
        var c :| c in h.live && c.Holds(i);
        assert c in h'.live;
      }
    }
  }

  /** What gran_free demands of its caller holds for every live block. */
  lemma LiveBitsSet(h: Heap, b: Block, i: nat)
    requires Inv(h) && b in h.live && b.Holds(i)
    ensures i < h.n && Bit(h.table, i)
  {
    assert Covered(h.live, i);
  }

  /** Every state of every run satisfies Inv. */
  lemma {:induction false} RunsKeepInv(hs: seq<Heap>, ops: seq<Op>, j: nat)
    requires Run(hs, ops) && j < |hs|
    ensures Inv(hs[j])
  {
    if j > 0 {
      RunsKeepInv(hs, ops, j - 1);
      assert Step(hs[j - 1], ops[j - 1], hs[j]);
      match ops[j - 1]
      case Allocated(b) => AllocKeeps(hs[j - 1], b, hs[j]);
      case Freed(b) => FreeKeeps(hs[j - 1], b, hs[j]);
      case Refused(_) =>
    }
  }

  /** In bytes: the live blocks of any run are aligned, inside the memory given to
      gran_initialize, behind the header with its table and apart from each other. */
  lemma BlocksInMemory(hs: seq<Heap>, ops: seq<Op>, j: nat, heapstart: nat, log2gran: nat, log2align: nat,
                       behindHeader: nat, end: nat, b: Block, c: Block)
    requires Run(hs, ops) && j < |hs| && b in hs[j].live && c in hs[j].live
    requires log2align <= log2gran && heapstart % Pow2(log2align) == 0
    requires behindHeader <= heapstart && heapstart + hs[j].n * Pow2(log2gran) <= end
    ensures (heapstart + b.first * Pow2(log2gran)) % Pow2(log2align) == 0
    ensures behindHeader <= heapstart + b.first * Pow2(log2gran)
    ensures heapstart + (b.first + b.count) * Pow2(log2gran) <= end
    ensures b != c ==>
              || heapstart + (b.first + b.count) * Pow2(log2gran) <= heapstart + c.first * Pow2(log2gran)
              || heapstart + (c.first + c.count) * Pow2(log2gran) <= heapstart + b.first * Pow2(log2gran)
  {
    RunsKeepInv(hs, ops, j);
    var g := Pow2(log2gran);
    MulMono(b.first + b.count, hs[j].n, g);
    MulMono(0, b.first, g);
    AlignedOffset(heapstart, b.first, log2gran, log2align);
    if b != c {
      if b.first + b.count <= c.first {
        MulMono(b.first + b.count, c.first, g);
      } else {
        assert Apart(b, c);
        MulMono(c.first + c.count, b.first, g);
      }
    }
  }

  lemma AlignedOffset(start: nat, p: nat, log2gran: nat, log2align: nat)
    requires log2align <= log2gran && start % Pow2(log2align) == 0
    ensures (start + p * Pow2(log2gran)) % Pow2(log2align) == 0
  {
    Pow2Add(log2align, log2gran - log2align);
    AddMultiple(start, p, Pow2(log2align), Pow2(log2gran - log2align));
  }

  lemma AddMultiple(start: int, p: int, a: int, m: int)
    requires a > 0 && start % a == 0
    ensures (start + p * (a * m)) % a == 0
  {
    var q := start / a;
    assert p * (a * m) == (p * m) * a;
    MulDist(q, p * m, a);
    DivMul(q + p * m, a);
  }
}
