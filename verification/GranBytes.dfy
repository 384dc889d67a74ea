/** The granule allocator as its callers see it: addresses and sizes in bytes. */
module GranBytes {
  import opened Arith
  import opened Basics
  import opened Words
  import opened GranAllocator
  import opened GranRuns

  /** What a caller holds: a size in bytes, and the granules behind it. */
  datatype Loan = Loan(size: nat, block: Block)

  /** The allocation table, and the blocks in use by address. */
  datatype Books = Books(h: Heap, loans: map<nat, Loan>)

  /** Enough granules for size bytes, and not one more. */
  ghost predicate Serves(count: nat, size: nat, gran: nat) {
    (count - 1) * gran < size <= count * gran
  }

  /** The blocks in use are those of the table, and each is as long as was asked for. */
  ghost predicate Kept(start: nat, gran: nat, b: Books) {
    GranRuns.Inv(b.h) && b.h.live == Blocks(b.loans) && AllSized(start, gran, b.loans)
  }

  ghost predicate AllSized(start: nat, gran: nat, loans: map<nat, Loan>) {
    forall a | a in loans :: Sized(start, gran, a, loans[a])
  }

  /** The block is at address a and has the size asked for. */
  ghost predicate Sized(start: nat, gran: nat, a: nat, l: Loan) {
    a == start + l.block.first * gran && 0 < l.size <= 32 * gran && Serves(l.block.count, l.size, gran)
  }

  ghost function Blocks(loans: map<nat, Loan>): (bs: set<Block>) {
    set a | a in loans :: loans[a].block
  }

  /** The bytes lent lie in the heap, and no byte is lent twice. */
  lemma BytesApart(start: nat, gran: nat, b: Books, x: nat, y: nat)
    requires Kept(start, gran, b) && x in b.loans && y in b.loans
    ensures start <= x && x + b.loans[x].size <= start + b.h.n * gran
    ensures x != y ==> x + b.loans[x].size <= y || y + b.loans[y].size <= x
  {
    var c, d := b.loans[x].block, b.loans[y].block;
    assert Sized(start, gran, x, b.loans[x]) && Sized(start, gran, y, b.loans[y]);
    assert c in b.h.live && d in b.h.live;
    MulMono(0, c.first, gran);
    MulDist(c.first, c.count, gran);
    MulDist(d.first, d.count, gran);
    MulMono(c.first + c.count, b.h.n, gran);
    if x != y {
      assert Apart(c, d);
      if c.first + c.count <= d.first {
        MulMono(c.first + c.count, d.first, gran);
      } else {
        MulMono(d.first + d.count, c.first, gran);
      }
    }
  }

  // ---------------------------------------------------------------------------------
  // Runs

  datatype Op = Got(block: Block, size: nat) | Denied(count: nat, size: nat) | Gave(memory: nat)

  ghost predicate Step(start: nat, gran: nat, b: Books, op: Op, b': Books)
    requires b.h.n <= 32 * |b.h.table|
  {
    match op
    case Got(c, size) =>
      && 0 < size <= 32 * gran && Serves(c.count, size, gran) && GranRuns.Step(b.h, Allocated(c), b'.h)
      && b'.loans == b.loans[start + c.first * gran := Loan(size, c)]
    case Denied(k, size) =>
      b' == b && Serves(k, size, gran) && (size == 0 || GranRuns.Step(b.h, Refused(k), b.h))
    case Gave(a) =>
      && a in b.loans && GranRuns.Step(b.h, Freed(b.loans[a].block), b'.h) && b'.loans == b.loans - {a}
  }

  ghost predicate Run(start: nat, gran: nat, bs: seq<Books>, ops: seq<Op>) {
    && |bs| == |ops| + 1 && bs[0].loans == map[] && bs[0].h.live == {}
    && (forall i: nat | i < 32 * |bs[0].h.table| :: !Bit(bs[0].h.table, i))
    && (forall i | 0 <= i < |bs| :: bs[i].h.n <= 32 * |bs[i].h.table|)
    && (forall i | 0 <= i < |ops| :: Step(start, gran, bs[i], ops[i], bs[i + 1]))
  }

  lemma MoreBlocks(loans: map<nat, Loan>, a: nat, l: Loan)
    requires a !in loans
    ensures Blocks(loans[a := l]) == Blocks(loans) + {l.block}
  {
    var more := loans[a := l];
    assert more[a] == l;
    forall x | x in loans ensures x in more && more[x] == loans[x] {
    }
  }

  lemma GotBlock(h: Heap, c: Block, h': Heap)
    requires GranRuns.Inv(h) && GranRuns.Step(h, Allocated(c), h')
    ensures GranRuns.Inv(h') && h'.live == h.live + {c} && c.count >= 1 && Fits(h.table, h.n, c.first, c.count)
  {
    AllocKeeps(h, c, h');
  }

  lemma MoreSized(start: nat, gran: nat, loans: map<nat, Loan>, a: nat, l: Loan)
    requires AllSized(start, gran, loans) && Sized(start, gran, a, l)
    ensures AllSized(start, gran, loans[a := l])
  {
    hide Sized;
  }

  lemma GotKeeps(start: nat, gran: nat, b: Books, c: Block, size: nat, b': Books)
    requires gran > 0 && Kept(start, gran, b) && Step(start, gran, b, Got(c, size), b')
    ensures Kept(start, gran, b') && start + c.first * gran !in b.loans
  {
    hide GranRuns.Inv, GranRuns.Step, Fits, Blocks, Serves;
    var a, l := start + c.first * gran, Loan(size, c);
    GotBlock(b.h, c, b'.h);
    NewPlace(start, gran, b, c);
    MoreBlocks(b.loans, a, l);
    MoreSized(start, gran, b.loans, a, l);
  }

  /** A free place is no address in use. */
  lemma NewPlace(start: nat, gran: nat, b: Books, c: Block)
    requires gran > 0 && c.count >= 1 && Kept(start, gran, b) && Fits(b.h.table, b.h.n, c.first, c.count)
    ensures start + c.first * gran !in b.loans
  {
    forall a | a in b.loans ensures a != start + c.first * gran {
      var d := b.loans[a].block;
      if d.first == c.first {
        LiveBitsSet(b.h, d, d.first);
        assert false;
      } else {
        OtherPlace(c.first, d.first, gran);
      }
    }
  }

  lemma OtherPlace(p: nat, q: nat, gran: nat)
    requires gran > 0 && p != q
    ensures p * gran != q * gran
  {
    if p < q {
      MulMono(p + 1, q, gran);
    } else {
      MulMono(q + 1, p, gran);
    }
  }

  lemma GaveKeeps(start: nat, gran: nat, b: Books, a: nat, b': Books)
    requires gran > 0 && Kept(start, gran, b) && Step(start, gran, b, Gave(a), b')
    ensures Kept(start, gran, b')
  {
    var c := b.loans[a].block;
    FreeKeeps(b.h, c, b'.h);
    forall x | x in b'.loans ensures b.loans[x].block != c {
      assert x != a;
    }
    forall d | d in b'.h.live ensures d in Blocks(b'.loans) {
      var x :| x in b.loans && b.loans[x].block == d;
      assert x in b'.loans && b'.loans[x].block == d;
    }
  }

  lemma {:induction false} RunKeeps(start: nat, gran: nat, bs: seq<Books>, ops: seq<Op>, j: nat)
    requires gran > 0 && Run(start, gran, bs, ops) && j < |bs|
    ensures Kept(start, gran, bs[j])
  {
    if j > 0 {
      RunKeeps(start, gran, bs, ops, j - 1);
      assert Step(start, gran, bs[j - 1], ops[j - 1], bs[j]);
      match ops[j - 1]
      case Got(c, size) => GotKeeps(start, gran, bs[j - 1], c, size, bs[j]);
      case Denied(k, size) =>
      case Gave(a) => GaveKeeps(start, gran, bs[j - 1], a, bs[j]);
    }
  }

  /** Over every run: the bytes of the blocks in use lie in the heap and are apart from each other. */
  lemma LoansApart(start: nat, gran: nat, bs: seq<Books>, ops: seq<Op>, j: nat, x: nat, y: nat)
    requires gran > 0 && Run(start, gran, bs, ops) && j < |bs| && x in bs[j].loans && y in bs[j].loans
    ensures start <= x && x + bs[j].loans[x].size <= start + bs[j].h.n * gran
    ensures x != y ==> x + bs[j].loans[x].size <= y || y + bs[j].loans[y].size <= x
  {
    RunKeeps(start, gran, bs, ops, j);
    BytesApart(start, gran, bs[j], x, y);
  }

  // ---------------------------------------------------------------------------------
  // The code makes these steps

  ghost predicate Shows(g: Gran, b: Books)
    reads g.gat
  {
    g.Valid() && b.h.table == g.gat[..] && b.h.n == g.ngranules && Kept(g.heapstart, Pow2(g.log2gran), b)
  }

  /** gran_alloc */
  method AllocBytes(g: Gran, size: nat, beyond: Word32, ghost b: Books)
    returns (r: Option<nat>, ghost op: Op, ghost b': Books)
    requires Shows(g, b) && size <= 32 * Pow2(g.log2gran)
    modifies g.gat
    ensures Shows(g, b') && Step(g.heapstart, Pow2(g.log2gran), b, op, b')
    ensures if r.Some? then op.Got? && op.size == size && r.value == g.heapstart + op.block.first * Pow2(g.log2gran)
            else op.Denied? && op.size == size
  {
    ghost var k, gran := g.Granules(size), Pow2(g.log2gran);
    g.GranulesFit(size);
    op, b' := Denied(k, size), b;
    r := g.Alloc(size, beyond);
    if r.Some? {
      ghost var p: nat :| FirstFit(b.h.table, b.h.n, p, k) && r.value == g.heapstart + p * gran
                          && g.gat[..] == WithRange(b.h.table, p, k, true);
      ghost var c := Block(p, k);
      CountInRange(size, k, gran);
      op := Got(c, size);
      b' := Books(Heap(g.gat[..], b.h.n, b.h.live + {c}), b.loans[r.value := Loan(size, c)]);
      assert Step(g.heapstart, gran, b, op, b');
      GotKeeps(g.heapstart, gran, b, c, size, b');
    }
  }

  lemma CountInRange(size: nat, k: nat, gran: nat)
    requires gran > 0 && 0 < size <= 32 * gran && Serves(k, size, gran)
    ensures 1 <= k <= 32
  {
    if k > 32 {
      MulMono(32, k - 1, gran);
    }
  }

  lemma SameCount(k: nat, c: nat, size: nat, gran: nat)
    requires gran > 0 && Serves(k, size, gran) && Serves(c, size, gran)
    ensures k == c
  {
    if k < c {
      MulMono(k, c - 1, gran);
    } else if c < k {
      MulMono(c, k - 1, gran);
    }
  }

  /** gran_free of a block in use, with the size it was asked for. */
  method FreeBytes(g: Gran, memory: nat, size: nat, ghost b: Books) returns (ghost b': Books)
    requires Shows(g, b) && memory in b.loans && b.loans[memory].size == size
    modifies g.gat
    ensures Shows(g, b') && Step(g.heapstart, Pow2(g.log2gran), b, Gave(memory), b')
  {
    ghost var c := b.loans[memory].block;
    g.GranulesFit(size);
    SameCount(g.Granules(size), c.count, size, Pow2(g.log2gran));
    forall i | c.first <= i < c.first + c.count ensures Bit(g.gat[..], i) {
      LiveBitsSet(b.h, c, i);
    }
    g.Free(memory, size, c.first);
    b' := Books(Heap(g.gat[..], b.h.n, b.h.live - {c}), b.loans - {memory});
    assert Step(g.heapstart, Pow2(g.log2gran), b, Gave(memory), b');
    GaveKeeps(g.heapstart, Pow2(g.log2gran), b, memory, b');
  }
}
