/** The code of sys_mmap without an address and of sys_brk, on the areas of a task in bytes, the
    granule allocator and the translation tables. */
module MmapCode {
  import opened Arith
  import opened Basics
  import opened Words
  import opened GranAllocator
  import opened GranRuns
  import opened PageTable
  import opened Mmap

  const PAGE := 4096

  // ---------------------------------------------------------------------------------
  // Areas

  /** x is the lowest of mmap_base and all area starts. */
  ghost predicate Lowest(a: Areas, x: int) {
    && x <= a.base && (forall i | 0 <= i < |a.vmas| :: x <= a.vmas[i].start)
    && (x == a.base || exists i :: 0 <= i < |a.vmas| && a.vmas[i].start == x)
  }

  /** The area at the head of the list is the lowest one. */
  lemma HeadIsLowest(a: Areas)
    requires Tiled(a)
    ensures Lowest(a, a.Bottom())
  {
    forall i | 0 <= i < |a.vmas| ensures a.Bottom() <= a.vmas[i].start {
      StartsRise(a, i);
    }
  }

  lemma {:induction false} StartsRise(a: Areas, i: nat)
    requires Tiled(a) && i < |a.vmas|
    ensures a.vmas[0].start <= a.vmas[i].start
  {
    if i > 0 {
      StartsRise(a, i - 1);
    }
  }

  datatype Result = Ok(address: int) | Invalid

  const MAP_SHARED: bv32 := 0x01
  const MAP_PRIVATE: bv32 := 0x02

  /** The memory areas of a task, in bytes. */
  class Mm {
    const base: int
    const startBrk: int
    var brk: int
    var vmas: seq<Vma>

    function View(): (a: Areas)
      reads this
    {
      Areas(base, startBrk, brk, vmas)
    }

    /** find_free_vma: len bytes right below the lowest area. */
    method FindFreeVma(len: int) returns (v: Vma)
      ensures v.end == v.start + len && v.end == View().Bottom()
      ensures Tiled(View()) ==> Lowest(View(), v.end)
    {
      if Tiled(View()) {
        HeadIsLowest(View());
      }
      if vmas == [] {
        return Vma(base - len, base);
      }
      v := Vma(vmas[0].start - len, vmas[0].start);
    }

    /** sys_mmap with start 0, and do_mmap up to the mapping of pages [at, at + n) bytes. */
    method AddArea(len: nat, flags: bv32) returns (r: Result, n: nat)
      modifies this`vmas
      ensures r.Ok? <==> len > 0 && (flags & MAP_PRIVATE != 0 || flags & MAP_SHARED != 0)
      ensures r.Ok? ==> n == PageEnd(len) && r.address == old(View()).Bottom() - n && View() == WithArea(old(View()), n)
      ensures r.Ok? ==> vmas == [Vma(r.address, r.address + n)] + old(vmas)
      ensures r.Ok? && Tiled(old(View())) ==> Lowest(old(View()), r.address + n)
      ensures !r.Ok? ==> View() == old(View()) && n == 0
    {
      n := 0;
      if flags & MAP_PRIVATE == 0 && flags & MAP_SHARED == 0 {
        return Invalid, 0;
      }
      if len == 0 {
        return Invalid, 0;
      }
      n := PageEnd(len);
      var v := FindFreeVma(n);
      vmas := [v] + vmas;
      r := Ok(v.start);
    }

    /** sys_brk: the break moves, and the bytes [at, at + n) are to be mapped. */
    method MoveBrk(to: int) returns (r: int, at: int, n: int)
      modifies this`brk
      ensures View() == WithBrk(old(View()), to) && r == brk && at == old(brk)
      ensures brk == if to < startBrk then old(brk) else to
      ensures n > 0 <==> startBrk <= to && old(brk) < to
      ensures n > 0 ==> at + n == brk
    {
      at, n := brk, 0;
      if to < startBrk {
        return brk, at, n;
      }
      var heapSize := to - brk;
      if heapSize > 0 {
        n := heapSize;
      }
      brk := to;
      r := brk;
    }
  }

  // ---------------------------------------------------------------------------------
  // Pages from the allocator

  /** g manages a heap of pages that starts at page number at of the kernel's addresses, and h is what
      its table says. */
  ghost predicate Shows(g: Gran, h: Heap, at: nat)
    reads g.gat
  {
    && g.Valid() && g.log2gran == 12 && g.heapstart == PAGE * at
    && GranRuns.Inv(h) && h.table == g.gat[..] && h.n == g.ngranules
  }

  /** After the blocks bs have been handed out, k pages in a row are not to be had. */
  ghost predicate Refuses(h: Heap, bs: seq<Block>, k: nat) {
    && Handed(h, bs) && AfterAll(h, bs).n <= 32 * |AfterAll(h, bs).table|
    && forall p: nat :: !Fits(AfterAll(h, bs).table, AfterAll(h, bs).n, p, k)
  }

  /** Of requests for so many pages each, the first |bs| were met, by bs, and the next one is refused. */
  ghost predicate Short(h: Heap, bs: seq<Block>, sizes: seq<nat>) {
    && |bs| < |sizes| && (forall i | 0 <= i < |bs| :: bs[i].count == sizes[i])
    && Refuses(h, bs, sizes[|bs|])
  }

  /** The requests for n pages at page v, on tables m: the pages, and a page for each table that mapping
      them takes. */
  function Requests(m: Memory, root: nat, v: int, n: nat): (sizes: seq<nat>) {
    [n] + if v < 0 then [] else seq(TablesTaken(m, root, v, n), _ => 1)
  }

  /** So few pages are never mapped by a block, so it does not matter where to. */
  function TablesTaken(m: Memory, root: nat, v: nat, n: nat): (k: nat) {
    Need(m, root, Region(v, v + n, 0, {}), v + n)
  }

  lemma {:induction false} SameNeed(m: Memory, root: nat, v: nat, n: nat, d: int, flags: set<nat>, hi: nat)
    requires n <= 32
    ensures Need(m, root, Region(v, v + n, d, flags), hi) == Need(m, root, Region(v, v + n, 0, {}), hi)
  {
    if hi > v {
      SameNeed(m, root, v, n, d, flags, hi - 1);
    }
  }

  /** All requests for so many pages each were met, by bs. */
  ghost predicate Met(bs: seq<Block>, sizes: seq<nat>) {
    |bs| == |sizes| && forall i | 0 <= i < |bs| :: bs[i].count == sizes[i]
  }

  /** gran_alloc of k pages; beyond is the word behind the table. */
  method TakePages(g: Gran, k: nat, beyond: Word32, ghost h: Heap, ghost at: nat)
    returns (r: Option<nat>, ghost b: Block)
    requires Shows(g, h, at) && 1 <= k <= 32
    modifies g.gat
    ensures r.None? ==> Shows(g, h, at) && Refuses(h, [], k)
    ensures r.Some? ==> b.count == k && Handed(h, [b]) && Shows(g, After(h, b), at) && r.value == at + b.first
  {
    b := Block(0, 0);
    assert Pow2(12) == 4096;
    assert (k * PAGE + 4095) / 4096 == k && g.Granules(k * PAGE) == k;
    var a := g.Alloc(k * PAGE, beyond);
    if a.Some? {
      ghost var p: nat :| FirstFit(h.table, h.n, p, k) && a.value == g.heapstart + p * Pow2(12)
                          && g.gat[..] == WithRange(h.table, p, k, true);
      b := Block(p, k);
      assert GranRuns.Step(h, Allocated(b), After(h, b));
      AllocKeeps(h, b, After(h, b));
      assert [b][1..] == [];
      r := Some(a.value / PAGE);
    } else {
      r := None;
    }
  }

  /** Two rows of allocations, one after the other. */
  lemma {:induction false} HandedOn(h: Heap, xs: seq<Block>, bs: seq<Block>)
    requires Handed(h, xs) && Handed(AfterAll(h, xs), bs)
    ensures Handed(h, xs + bs) && AfterAll(h, xs + bs) == AfterAll(AfterAll(h, xs), bs)
    decreases |xs|
  {
    var cs := xs + bs;
    if |xs| == 0 {
      assert cs == bs;
    } else {
      HandedOn(After(h, xs[0]), xs[1..], bs);
      assert cs[0] == xs[0] && cs[1..] == xs[1..] + bs;
    }
  }

  lemma {:induction false} HandedPart(h: Heap, bs: seq<Block>, k: nat)
    requires Handed(h, bs) && k <= |bs|
    ensures Handed(h, bs[..k]) && Handed(AfterAll(h, bs[..k]), bs[k..])
    decreases k
  {
    if k > 0 {
      var xs := bs[..k];
      HandedPart(After(h, bs[0]), bs[1..], k - 1);
      assert xs[0] == bs[0] && xs[1..] == bs[1..][..k - 1] && bs[1..][k - 1..] == bs[k..];
    } else {
      assert bs[..0] == [] && bs[0..] == bs;
    }
  }

  /** The pages that pt_alloc can be asked for, taken one after the other, as far as there are any. */
  method Reserve(g: Gran, need: nat, beyond: Word32, ghost h: Heap, ghost at: nat)
    returns (pool: seq<int>, ghost ts: seq<Block>)
    requires Shows(g, h, at)
    modifies g.gat
    ensures Handed(h, ts) && Shows(g, AfterAll(h, ts), at) && |pool| == |ts| <= need
    ensures forall i | 0 <= i < |ts| :: ts[i].count == 1 && pool[i] == at + ts[i].first
    ensures |ts| < need ==> Refuses(h, ts, 1)
  {
    pool, ts := [], [];
    hide Shows;
    while |pool| < need
      invariant Handed(h, ts) && Shows(g, AfterAll(h, ts), at) && |pool| == |ts| <= need
      invariant forall i | 0 <= i < |ts| :: ts[i].count == 1 && pool[i] == at + ts[i].first
      decreases need - |pool|
    {
      var r; ghost var b;
      r, b := TakePages(g, 1, beyond, AfterAll(h, ts), at);
      if r.None? {
        return;
      }
      HandedOn(h, ts, [b]);
      assert AfterAll(AfterAll(h, ts), [b]) == After(AfterAll(h, ts), b) by {
        assert [b][1..] == [];
      }
      pool, ts := pool + [r.value], ts + [b];
    }
  }

  /** Unused pages go back, the last one first: the table is as if they had never been taken. */
  method GiveBack(g: Gran, pool: seq<int>, k: nat, ghost h: Heap, ghost ts: seq<Block>, ghost at: nat)
    requires Handed(h, ts) && GranRuns.Inv(h) && Shows(g, AfterAll(h, ts), at) && k <= |ts| == |pool|
    requires forall i | 0 <= i < |ts| :: ts[i].count == 1 && pool[i] == at + ts[i].first
    modifies g.gat
    ensures Shows(g, AfterAll(h, ts[..k]), at)
  {
    var i := |pool|;
    assert ts[..i] == ts;
    hide Shows;
    while i > k
      invariant k <= i <= |ts| && Shows(g, AfterAll(h, ts[..i]), at)
    {
      HandedPart(h, ts, i - 1);
      HandedPart(h, ts, i);
      ghost var xs, b := ts[..i - 1], ts[i - 1];
      LastTaken(h, ts, i);
      HandedFree(h, xs);
      FreePage(g, pool[i - 1], AfterAll(h, xs), b, at);
      i := i - 1;
    }
  }

  lemma LastTaken(h: Heap, ts: seq<Block>, i: nat)
    requires Handed(h, ts) && 0 < i <= |ts|
    ensures var r := AfterAll(h, ts[..i - 1]);
            AfterAll(h, ts[..i]) == After(r, ts[i - 1]) && r.n <= 32 * |r.table|
            && GranRuns.Step(r, Allocated(ts[i - 1]), After(r, ts[i - 1]))
  {
    HandedPart(h, ts, i - 1);
    var xs, b := ts[..i - 1], ts[i - 1];
    assert ts[i - 1..][0] == b && ts[..i] == xs + [b] && [b][1..] == [];
    HandedOn(h, xs, [b]);
  }

  /** gran_free of the page that was taken last. */
  method FreePage(g: Gran, page: int, ghost h: Heap, ghost b: Block, ghost at: nat)
    requires GranRuns.Inv(h) && h.n <= 32 * |h.table| && GranRuns.Step(h, Allocated(b), After(h, b))
    requires Shows(g, After(h, b), at) && b.count == 1 && page == at + b.first
    modifies g.gat
    ensures Shows(g, h, at)
  {
    assert Pow2(12) == 4096;
    MarkThenFree(h.table, h.n, b.first, 1);
    g.Free(page * PAGE, PAGE, b.first);
  }

  // ---------------------------------------------------------------------------------
  // The calls

  /** The allocator and the tables before a call: heap h of pages, the first of which is frame first. */
  ghost predicate Ready(g: Gran, t: Tables, h: Heap, first: nat)
    reads g.gat, t
  {
    && 0 < first + t.offset && Shows(g, h, first + t.offset) && t.Valid() && Backed(t.mem, t.root, h, first)
  }

  ghost predicate Faults(m: Memory, root: nat, v: int, n: int) {
    forall x: nat | v <= x < v + n :: Walk(m, root, x).Fault?
  }

  /** Since the tables were m and the heap h, the blocks bs have been handed out, block k is mapped at
      page v, and the blocks after it are its new tables. */
  ghost predicate Backs(g: Gran, t: Tables, m: Memory, h: Heap, first: nat, v: nat, flags: set<nat>, bs: seq<Block>,
                        k: nat)
    reads g.gat, t
  {
    && t.Valid() && Handed(h, bs) && 0 < first + t.offset && Shows(g, AfterAll(h, bs), first + t.offset)
    && k < |bs| && AsMap(m, t.mem, t.root, first, v, bs[k], flags, bs[k + 1..])
  }

  lemma Prepended(g: Gran, t: Tables, m: Memory, h: Heap, b: Block, first: nat, v: nat, flags: set<nat>,
                  bs: seq<Block>, k: nat)
    requires Handed(h, [b]) && Backs(g, t, m, After(h, b), first, v, flags, bs, k)
    ensures Backs(g, t, m, h, first, v, flags, [b] + bs, k + 1)
  {
    assert [b][1..] == [];
    hide Shows, AsMap, Tables.Valid;
    HandedOn(h, [b], bs);
    var cs := [b] + bs;
    assert cs[k + 1] == bs[k] && cs[k + 2..] == bs[k + 1..];
  }

  lemma BackedMore(m: Memory, root: nat, h: Heap, r: Heap, first: nat)
    requires Backed(m, root, h, first) && GranRuns.Inv(r) && r.n == h.n && h.live <= r.live
    ensures Backed(m, root, r, first)
  {
    forall f: int | Taken(h, first, f) ensures Taken(r, first, f) {
      StillTaken(h, r, first, f);
    }
  }

  lemma FaultsNoConflict(m: Memory, root: nat, r: Region)
    requires Faults(m, root, r.first, r.end - r.first)
    ensures !Conflicts(m, root, r)
  {
    PageTableRuns.UnmappedNoConflict(m, root, r);
  }

  /** as_map of b at page v, with the pages of the blocks us for new tables. */
  method MapWith(t: Tables, v: nat, b: Block, flags: set<nat>, pool: seq<int>, first: nat, ghost h: Heap,
                 ghost us: seq<Block>)
    returns (o: Outcome, k: nat)
    requires t.Valid() && 0 < first + t.offset && Backed(t.mem, t.root, h, first) && Handed(h, us)
    requires 0 < b.count <= 32 && v + b.count <= PAGES && |pool| == |us|
    requires Faults(t.mem, t.root, v, b.count)
    requires forall i | 0 <= i < |us| :: us[i].count == 1 && pool[i] == first + t.offset + us[i].first
    modifies t
    ensures !o.StrayWrite? && (o.OutOfMemory? <==> |us| < TablesTaken(old(t.mem), t.root, v, b.count))
    ensures k <= |us| && (o.Done? ==> k == TablesTaken(old(t.mem), t.root, v, b.count))
    ensures o.Done? ==> t.Valid() && AsMap(old(t.mem), t.mem, t.root, first, v, b, flags, us[..k])
  {
    hide Backed, Handed, Tables.Valid, Conflicts, AsMap, Need, RunsOut, Faults;
    ghost var r := Region(v, v + b.count, first + b.first - v, flags);
    FaultsNoConflict(t.mem, t.root, r);
    RunsOutIff(t.mem, t.root, r, |us|);
    SameNeed(t.mem, t.root, v, b.count, r.d, flags, v + b.count);
    PoolFresh(t.mem, t.root, h, first, us);
    t.Supply(pool);
    o := MapBlock(t, v, b, flags, first, us);
    k := if o.Done? then |pool| - |t.pool| else 0;
  }

  /** The same on the allocator, b having been taken.  pt_alloc takes its pages one at a time; here as
      many as the call can need are taken before it and the rest is given back after it, which leaves
      the same table. */
  method MapTaken(g: Gran, t: Tables, v: nat, b: Block, flags: set<nat>, beyond: Word32, first: nat, ghost h: Heap)
    returns (o: Outcome, ghost bs: seq<Block>)
    requires Handed(h, [b]) && Ready(g, t, After(h, b), first) && 0 < b.count <= 32 && v + b.count <= PAGES
    requires Faults(t.mem, t.root, v, b.count)
    modifies g.gat, t
    ensures !o.StrayWrite? && (o.OutOfMemory? ==> Short(h, bs, Requests(old(t.mem), t.root, v, b.count)))
    ensures o.Done? ==> Backs(g, t, old(t.mem), h, first, v, flags, bs, 0) && bs[0] == b
    ensures o.Done? ==> Met(bs, Requests(old(t.mem), t.root, v, b.count))
  {
    ghost var r := After(h, b);
    assert GranRuns.Inv(r);
    hide Shows, GranRuns.Inv, Backed, Handed, After, AfterAll, Tables.Valid, AsMap, TablesFor, TablesTaken, Faults;
    hide Met, Short, Requests;
    EnoughPages(t.mem, t.root, v, b.count);
    ghost var m := t.mem;
    var at, pool, k := first + t.offset, [], 0;
    ghost var us;
    pool, us := Reserve(g, TablesFor(v, v + b.count), beyond, r, at);
    o, k := MapWith(t, v, b, flags, pool, first, r, us);
    bs := [b] + us[..k];
    if o.OutOfMemory? {
      bs := [b] + us;
      ShortOfTables(h, b, us, m, t.root, v);
    }
    if o.Done? {
      GiveBack(g, pool, k, r, us, at);
      HandedPart(r, us, k);
      OneHanded(h, b);
      HandedOn(h, [b], us[..k]);
      assert bs[1..] == us[..k];
      MetTables(b, us[..k], m, t.root, v);
    }
  }

  lemma MetTables(b: Block, us: seq<Block>, m: Memory, root: nat, v: nat)
    requires |us| == TablesTaken(m, root, v, b.count) && forall i | 0 <= i < |us| :: us[i].count == 1
    ensures Met([b] + us, Requests(m, root, v, b.count))
  {
    hide TablesTaken;
  }

  lemma MetAfter(b: Block, bs: seq<Block>, sizes: seq<nat>)
    requires Met(bs, sizes)
    ensures Met([b] + bs, [b.count] + sizes)
  {
  }

  lemma EnoughPages(m: Memory, root: nat, v: nat, n: nat)
    ensures TablesTaken(m, root, v, n) <= TablesFor(v, v + n)
  {
    NeedBound(m, root, Region(v, v + n, 0, {}), v + n);
  }

  lemma ShortOfTables(h: Heap, b: Block, us: seq<Block>, m: Memory, root: nat, v: nat)
    requires Handed(h, [b]) && Refuses(After(h, b), us, 1) && |us| < TablesTaken(m, root, v, b.count)
    requires forall i | 0 <= i < |us| :: us[i].count == 1
    ensures Short(h, [b] + us, Requests(m, root, v, b.count))
  {
    hide TablesTaken;
    OneHanded(h, b);
    HandedOn(h, [b], us);
  }

  lemma ShortNow(h: Heap, k: nat, sizes: seq<nat>)
    requires Refuses(h, [], k)
    ensures Short(h, [], [k] + sizes)
  {
  }

  lemma ShortAfter(h: Heap, b: Block, bs: seq<Block>, sizes: seq<nat>)
    requires Handed(h, [b]) && Short(After(h, b), bs, sizes)
    ensures Short(h, [b] + bs, [b.count] + sizes)
  {
    OneHanded(h, b);
    HandedOn(h, [b], bs);
  }

  lemma OneHanded(h: Heap, b: Block)
    requires Handed(h, [b])
    ensures AfterAll(h, [b]) == After(h, b)
  {
    assert [b][1..] == [];
  }

  /** mmap_calloc of n pages and as_map of them at page v. */
  method MapFresh(g: Gran, t: Tables, v: nat, n: nat, flags: set<nat>, beyond: Word32, first: nat, ghost h: Heap)
    returns (o: Outcome, ghost bs: seq<Block>)
    requires Ready(g, t, h, first) && 1 <= n <= 32 && v + n <= PAGES && Faults(t.mem, t.root, v, n)
    modifies g.gat, t
    ensures !o.StrayWrite? && (o.OutOfMemory? ==> Short(h, bs, Requests(old(t.mem), t.root, v, n)))
    ensures o.Done? ==> Backs(g, t, old(t.mem), h, first, v, flags, bs, 0) && bs[0].count == n
    ensures o.Done? ==> Met(bs, Requests(old(t.mem), t.root, v, n))
  {
    var at := first + t.offset;
    hide Faults, Backs, Shows, Tables.Valid, Backed, Handed, After, AfterAll, Refuses, TablesTaken;
    var p; ghost var b;
    p, b := TakePages(g, n, beyond, h, at);
    if p.None? {
      return OutOfMemory, [];
    }
    OneTaken(t.mem, t.root, h, b, first);
    o, bs := MapTaken(g, t, v, Block(p.value - at, n), flags, beyond, first, h);
  }

  lemma OneTaken(m: Memory, root: nat, h: Heap, b: Block, first: nat)
    requires Backed(m, root, h, first) && Handed(h, [b])
    ensures Backed(m, root, After(h, b), first)
  {
    AllocKeeps(h, b, After(h, b));
    BackedMore(m, root, h, After(h, b), first);
  }

  /** Pages up to address x, the last one in part. */
  function PagesTo(x: int): (n: int)
    ensures (n - 1) * PAGE < x <= n * PAGE
  {
    (x + (PAGE - 1)) / PAGE
  }

  /** Areas in pages; the heap ends with the page in which its break is. */
  function Paged(a: Areas): (r: Areas) {
    Areas(a.base / PAGE, a.startBrk / PAGE, PagesTo(a.brk),
          seq(|a.vmas|, i requires 0 <= i < |a.vmas| => Vma(a.vmas[i].start / PAGE, a.vmas[i].end / PAGE)))
  }

  ghost predicate Aligned(a: Areas) {
    && a.base % PAGE == 0 && a.startBrk % PAGE == 0
    && forall i | 0 <= i < |a.vmas| :: a.vmas[i].start % PAGE == 0 && a.vmas[i].end % PAGE == 0
  }

  lemma PagedArea(a: Areas, n: nat)
    requires Aligned(a)
    ensures Aligned(WithArea(a, PAGE * n)) && Paged(WithArea(a, PAGE * n)) == WithArea(Paged(a), n)
    ensures (a.Bottom() - PAGE * n) / PAGE == Paged(a).Bottom() - n
    ensures a.brk + PAGE * n <= a.Bottom() ==> Paged(a).brk <= Paged(a).Bottom() - n
  {
    assert Paged(WithArea(a, PAGE * n)).vmas == WithArea(Paged(a), n).vmas;
  }

  lemma PagedBrk(a: Areas, to: int)
    requires Aligned(a) && a.startBrk <= to
    ensures Aligned(WithBrk(a, to)) && Paged(WithBrk(a, to)) == WithBrk(Paged(a), PagesTo(to))
    ensures to <= a.Bottom() ==> PagesTo(to) <= Paged(a).Bottom()
  {
  }

  /** The task's memory as a whole, in pages. */
  ghost function State(mm: Mm, t: Tables, h: Heap): (s: Space)
    reads mm, t
  {
    Space(Paged(mm.View()), t.mem, h)
  }

  /** The task's memory has made the step c from state s, the heap being h now, and the invariants hold. */
  ghost predicate Stepped(g: Gran, mm: Mm, t: Tables, s: Space, c: Call, h: Heap, first: nat)
    reads g.gat, mm, t
  {
    && Aligned(mm.View()) && Mmap.Step(s, c, State(mm, t, h), t.root, first)
    && Mmap.Inv(State(mm, t, h), t.root, first) && Ready(g, t, h, first)
  }

  datatype Answer = At(address: int) | Rejected | NoMemory

  /** The record of the area, then its pages, mapped at page v. */
  method MapArea(g: Gran, t: Tables, v: nat, n: nat, attr: set<nat>, beyond: Word32, first: nat, ghost h: Heap)
    returns (o: Outcome, ghost bs: seq<Block>)
    requires Ready(g, t, h, first) && 1 <= n <= 32 && v + n <= PAGES && Faults(t.mem, t.root, v, n)
    modifies g.gat, t
    ensures !o.StrayWrite? && (o.OutOfMemory? ==> Short(h, bs, [1] + Requests(old(t.mem), t.root, v, n)))
    ensures o.Done? ==> Backs(g, t, old(t.mem), h, first, v, attr, bs, 1) && bs[1].count == n
    ensures o.Done? ==> Met(bs, [1] + Requests(old(t.mem), t.root, v, n))
  {
    var at := first + t.offset;
    hide Faults, Shows, Tables.Valid, Backed, Handed, After, AfterAll, AsMap, Short, Met, Requests;
    var p; ghost var b, ds;
    p, b := TakePages(g, 1, beyond, h, at);
    if p.None? {
      ShortNow(h, 1, Requests(t.mem, t.root, v, n));
      return OutOfMemory, [];
    }
    OneTaken(t.mem, t.root, h, b, first);
    o, ds := MapFresh(g, t, v, n, attr, beyond, first, After(h, b));
    bs := [b] + ds;
    if o.OutOfMemory? {
      ShortAfter(h, b, ds, Requests(old(t.mem), t.root, v, n));
    } else {
      Prepended(g, t, old(t.mem), h, b, first, v, attr, ds, 0);
      MetAfter(b, ds, Requests(old(t.mem), t.root, v, n));
    }
  }

  /** The end of a call: what holds of allocator and tables holds of the state again. */
  lemma MmapDone(g: Gran, t: Tables, s: Space, n: nat, attr: set<nat>, bs: seq<Block>, first: nat)
    requires Mmap.Inv(s, t.root, first) && 0 < n && s.a.brk <= s.a.Bottom() - n
    requires Backs(g, t, s.mem, s.heap, first, s.a.Bottom() - n, attr, bs, 1) && bs[1].count == n
    ensures var s' := Space(WithArea(s.a, n), t.mem, AfterAll(s.heap, bs));
            && Mmap.Step(s, SysMmap(n, attr, bs), s', t.root, first)
            && Mmap.Inv(s', t.root, first) && Ready(g, t, s'.heap, first)
  {
    hide Handed, AfterAll, AsMap, Tables.Valid, Shows;
    MmapKeeps(s, Space(WithArea(s.a, n), t.mem, AfterAll(s.heap, bs)), t.root, first, n, attr, bs);
  }

  lemma BrkDone(g: Gran, t: Tables, s: Space, to: int, attr: set<nat>, bs: seq<Block>, first: nat)
    requires Mmap.Inv(s, t.root, first) && s.a.brk < to <= s.a.Bottom()
    requires Backs(g, t, s.mem, s.heap, first, s.a.brk, attr, bs, 0) && bs[0].count == to - s.a.brk
    ensures var s' := Space(WithBrk(s.a, to), t.mem, AfterAll(s.heap, bs));
            && Mmap.Step(s, SysBrk(to, attr, bs), s', t.root, first)
            && Mmap.Inv(s', t.root, first) && Ready(g, t, s'.heap, first)
  {
    hide Handed, AfterAll, AsMap, Tables.Valid, Shows;
    BrkKeeps(s, Space(WithBrk(s.a, to), t.mem, AfterAll(s.heap, bs)), t.root, first, to, attr, bs);
  }

  lemma InGap(s: Space, root: nat, first: nat, v: int, n: nat)
    requires Mmap.Inv(s, root, first) && s.a.brk <= v && v + n <= s.a.Bottom()
    ensures 0 <= v && v + n <= PAGES && Faults(s.mem, root, v, n)
  {
  }

  /** mmap_region for the area of n pages at the head of the list, the areas having been a before it. */
  method BackArea(g: Gran, mm: Mm, t: Tables, start: int, n: nat, attr: set<nat>, beyond: Word32, first: nat,
                  ghost h: Heap, ghost a: Areas)
    returns (ok: bool, ghost bs: seq<Block>)
    requires Ready(g, t, h, first) && Aligned(a) && Mmap.Inv(Space(Paged(a), t.mem, h), t.root, first)
    requires mm.View() == WithArea(a, PAGE * n) && start == a.Bottom() - PAGE * n
    requires 1 <= n <= 32 && a.brk + PAGE * n <= a.Bottom()
    modifies g.gat, t
    ensures if ok then Met(bs, [1] + Requests(old(t.mem), t.root, start / PAGE, n))
            else Short(h, bs, [1] + Requests(old(t.mem), t.root, start / PAGE, n))
    ensures ok ==> Stepped(g, mm, t, Space(Paged(a), old(t.mem), h), SysMmap(n, attr, bs), AfterAll(h, bs), first)
  {
    hide Ready, Faults, Backs, Mmap.Inv, Mmap.Step, AfterAll, Paged, Aligned, WithArea, Short, Met, Requests;
    ghost var s := Space(Paged(a), t.mem, h);
    PagedArea(a, n);
    InGap(s, t.root, first, start / PAGE, n);
    var o;
    o, bs := MapArea(g, t, start / PAGE, n, attr, beyond, first, h);
    ok := o.Done?;
    if ok {
      MmapDone(g, t, s, n, attr, bs, first);
    }
  }

  /** sys_mmap with start 0, for every length the allocator serves: a step of the model, unless the call
      is rejected or one of the requests for pages that it makes is refused. */
  method SysMmapCall(g: Gran, mm: Mm, t: Tables, len: nat, flags: bv32, attr: set<nat>, beyond: Word32, first: nat,
                     ghost h: Heap)
    returns (r: Answer, ghost bs: seq<Block>)
    requires Ready(g, t, h, first) && Aligned(mm.View()) && Mmap.Inv(State(mm, t, h), t.root, first)
    requires len <= 32 * PAGE && mm.brk + PageEnd(len) <= mm.View().Bottom()
    modifies g.gat, mm`vmas, t
    ensures r.Rejected? <==> len == 0 || (flags & MAP_PRIVATE == 0 && flags & MAP_SHARED == 0)
    ensures r.Rejected? ==> mm.View() == old(mm.View()) && t.mem == old(t.mem) && g.gat[..] == old(g.gat[..])
    ensures var n, start := PageEnd(len) / PAGE, old(mm.View()).Bottom() - PageEnd(len);
            && (r.NoMemory? ==> Short(h, bs, [1] + Requests(old(t.mem), t.root, start / PAGE, n)))
            && (r.At? ==> r.address == start && Met(bs, [1] + Requests(old(t.mem), t.root, start / PAGE, n)))
            && (r.At? ==> Stepped(g, mm, t, old(State(mm, t, h)), SysMmap(n, attr, bs), AfterAll(h, bs), first))
  {
    hide Ready, Mmap.Inv, Stepped, AfterAll, Paged, Aligned, WithArea, Short, Met, Requests;
    ghost var a := mm.View();
    var v, size := mm.AddArea(len, flags);
    if v.Invalid? {
      return Rejected, [];
    }
    var ok;
    ok, bs := BackArea(g, mm, t, v.address, size / PAGE, attr, beyond, first, h, a);
    r := if ok then At(v.address) else NoMemory;
  }

  lemma BrkPages(mm: Mm, t: Tables, h: Heap, to: int, first: nat)
    requires Aligned(mm.View()) && mm.brk % PAGE == 0 && Mmap.Inv(State(mm, t, h), t.root, first)
    requires mm.brk < to <= mm.View().Bottom() && to - mm.brk <= 32 * PAGE
    ensures var v, n := mm.brk / PAGE, PagesTo(to - mm.brk);
            && v + n == PagesTo(to) && 0 <= v && 1 <= n <= 32 && v + n <= PAGES && Faults(t.mem, t.root, v, n)
            && v == Paged(mm.View()).brk && v + n <= Paged(mm.View()).Bottom() && mm.startBrk <= mm.brk
            && Aligned(WithBrk(mm.View(), to)) && Paged(WithBrk(mm.View(), to)) == WithBrk(Paged(mm.View()), v + n)
  {
    assert Paged(mm.View()).startBrk <= Paged(mm.View()).brk;
    PagedBrk(mm.View(), to);
    hide Paged, Aligned;
    InGap(State(mm, t, h), t.root, first, mm.brk / PAGE, PagesTo(to - mm.brk));
  }

  /** The pages of a grown heap, the areas having been a before; the new break is page v + n. */
  method BackBrk(g: Gran, mm: Mm, t: Tables, v: nat, n: nat, attr: set<nat>, beyond: Word32, first: nat,
                 ghost h: Heap, ghost a: Areas)
    returns (ok: bool, ghost bs: seq<Block>)
    requires Ready(g, t, h, first) && Mmap.Inv(Space(Paged(a), t.mem, h), t.root, first)
    requires v == Paged(a).brk && 1 <= n <= 32 && v + n <= Paged(a).Bottom() && v + n <= PAGES
    requires Faults(t.mem, t.root, v, n) && Aligned(mm.View()) && Paged(mm.View()) == WithBrk(Paged(a), v + n)
    modifies g.gat, t
    ensures if ok then Met(bs, Requests(old(t.mem), t.root, v, n)) else Short(h, bs, Requests(old(t.mem), t.root, v, n))
    ensures ok ==> Stepped(g, mm, t, Space(Paged(a), old(t.mem), h), SysBrk(v + n, attr, bs), AfterAll(h, bs), first)
  {
    hide Ready, Faults, Backs, Mmap.Inv, Mmap.Step, AfterAll, Paged, Aligned, WithBrk, Short, Met, Requests;
    ghost var s := Space(Paged(a), t.mem, h);
    var o;
    o, bs := MapFresh(g, t, v, n, attr, beyond, first, h);
    ok := o.Done?;
    if ok {
      BrkDone(g, t, s, v + n, attr, bs, first);
    }
  }

  /** sys_brk from a page boundary, which pt_map asserts, to any address above it, growing by what the
      allocator serves: a step of the model, unless one of the requests for pages that it makes is refused. */
  method SysBrkCall(g: Gran, mm: Mm, t: Tables, to: int, attr: set<nat>, beyond: Word32, first: nat, ghost h: Heap)
    returns (r: int, ok: bool, ghost bs: seq<Block>)
    requires Ready(g, t, h, first) && Aligned(mm.View()) && Mmap.Inv(State(mm, t, h), t.root, first)
    requires mm.brk % PAGE == 0 && mm.brk < to <= mm.View().Bottom() && to - mm.brk <= 32 * PAGE
    modifies g.gat, mm`brk, t
    ensures r == mm.brk == to
    ensures var sizes := Requests(old(t.mem), t.root, old(mm.brk) / PAGE, PagesTo(to - old(mm.brk)));
            if ok then Met(bs, sizes) else Short(h, bs, sizes)
    ensures ok ==> Stepped(g, mm, t, old(State(mm, t, h)), SysBrk(PagesTo(to), attr, bs), AfterAll(h, bs), first)
  {
    hide Ready, Faults, Stepped, Mmap.Inv, Paged, Aligned, Short, Met, Requests, AfterAll;
    ghost var a := mm.View();
    BrkPages(mm, t, h, to, first);
    var at, n;
    r, at, n := mm.MoveBrk(to);
    ok, bs := BackBrk(g, mm, t, at / PAGE, PagesTo(n), attr, beyond, first, h, a);
  }
}
