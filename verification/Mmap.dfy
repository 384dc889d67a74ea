/** sys_mmap without an address and sys_brk: where areas go, and what backs them, composed from the
    granule allocator and the translation tables.  One granule is one page; addresses are page
    numbers. */
module Mmap {
  import opened GranAllocator
  import opened GranRuns
  import opened PageTable
  import PageTableRuns

  // ---------------------------------------------------------------------------------
  // Areas

  datatype Vma = Vma(start: int, end: int)

  /** The areas of a task, the one mapped last at the head, and its heap. */
  datatype Areas = Areas(base: int, startBrk: int, brk: int, vmas: seq<Vma>) {
    /** The lowest address in use by the mapped areas. */
    function Bottom(): (b: int) {
      if vmas == [] then base else vmas[0].start
    }

    predicate Holds(x: int) {
      startBrk <= x < brk || Bottom() <= x < base
    }
  }

  /** The areas follow each other without gap or overlap, downward from mmap_base, above the heap. */
  ghost predicate Tiled(a: Areas) {
    && (forall i | 0 <= i < |a.vmas| :: a.vmas[i].start < a.vmas[i].end)
    && (forall i | 0 <= i < |a.vmas| - 1 :: a.vmas[i].end == a.vmas[i + 1].start)
    && (a.vmas != [] ==> a.vmas[|a.vmas| - 1].end == a.base)
    && a.startBrk <= a.brk <= a.Bottom() <= a.base
  }

  /** Every address from the lowest area up to mmap_base is in exactly one area. */
  lemma {:induction false} TilesOnce(vmas: seq<Vma>, base: int, x: int) returns (i: nat)
    requires vmas != [] && vmas[|vmas| - 1].end == base && vmas[0].start <= x < base
    requires forall k | 0 <= k < |vmas| :: vmas[k].start < vmas[k].end
    requires forall k | 0 <= k < |vmas| - 1 :: vmas[k].end == vmas[k + 1].start
    ensures i < |vmas| && vmas[i].start <= x < vmas[i].end
    ensures forall k | 0 <= k < |vmas| && k != i :: x < vmas[k].start || vmas[k].end <= x
  {
    i := 0;
    while vmas[i].end <= x
      invariant i < |vmas| && vmas[i].start <= x
      invariant forall k | 0 <= k < i :: vmas[k].end <= x
    {
      i := i + 1;
    }
    var j := i + 1;
    while j < |vmas|
      invariant i < j <= |vmas| && (j < |vmas| ==> x < vmas[j].start)
      invariant forall k | i < k < j :: x < vmas[k].start
    {
      j := j + 1;
    }
  }

  // ---------------------------------------------------------------------------------
  // Allocations in a row

  ghost function After(h: Heap, b: Block): (r: Heap) {
    Heap(WithRange(h.table, b.first, b.count, true), h.n, h.live + {b})
  }

  /** gran_alloc hands out the blocks bs, one after the other. */
  ghost predicate Handed(h: Heap, bs: seq<Block>)
    decreases |bs|
  {
    |bs| == 0 ||
    (h.n <= 32 * |h.table| && GranRuns.Step(h, Allocated(bs[0]), After(h, bs[0])) && Handed(After(h, bs[0]), bs[1..]))
  }

  ghost function AfterAll(h: Heap, bs: seq<Block>): (r: Heap)
    decreases |bs|
  {
    if |bs| == 0 then h else AfterAll(After(h, bs[0]), bs[1..])
  }

  ghost predicate Free(h: Heap, b: Block) {
    forall g: nat | b.Holds(g) :: g < h.n && !Covered(h.live, g)
  }

  lemma FitsFree(h: Heap, b: Block)
    requires GranRuns.Inv(h) && GranRuns.Step(h, Allocated(b), After(h, b))
    ensures Free(h, b) && b !in h.live
  {
    forall g: nat | b.Holds(g) ensures g < h.n && !Covered(h.live, g) {
      assert !Bit(h.table, g);
    }
    if b in h.live {
      assert b.Holds(b.first) && Covered(h.live, b.first);
    }
  }

  lemma MoreCovered(a: set<Block>, b: set<Block>, g: nat)
    requires a <= b && Covered(a, g)
    ensures Covered(b, g)
  {
    var c :| c in a && c.Holds(g);
    assert c in b;
  }

  /** The blocks handed out lie in granules that were free before, each apart from the others, and
      are what is allocated in addition afterwards. */
  lemma {:induction false} HandedFree(h: Heap, bs: seq<Block>)
    requires GranRuns.Inv(h) && Handed(h, bs)
    ensures var r := AfterAll(h, bs); GranRuns.Inv(r) && r.n == h.n && h.live <= r.live
    ensures forall i | 0 <= i < |bs| :: bs[i] in AfterAll(h, bs).live && Free(h, bs[i]) && bs[i].count >= 1
    ensures forall i, j | 0 <= i < j < |bs| :: Apart(bs[i], bs[j])
    decreases |bs|
  {
    if |bs| > 0 {
      var m, rest := After(h, bs[0]), bs[1..];
      AllocKeeps(h, bs[0], m);
      FitsFree(h, bs[0]);
      HandedFree(m, rest);
      forall i | 1 <= i < |bs| ensures Free(h, bs[i]) && Apart(bs[0], bs[i]) {
        assert bs[i] == rest[i - 1];
        LaterFree(h, m, bs[0], bs[i]);
      }
      forall i, j | 1 <= i < j < |bs| ensures Apart(bs[i], bs[j]) {
        assert bs[i] == rest[i - 1] && bs[j] == rest[j - 1];
      }
    }
  }

  lemma LaterFree(h: Heap, m: Heap, b: Block, c: Block)
    requires m.n == h.n && m.live == h.live + {b} && Free(m, c) && b.count >= 1 && c.count >= 1
    ensures Free(h, c) && Apart(b, c)
  {
    forall g: nat | c.Holds(g) ensures g < h.n && !Covered(h.live, g) {
      if Covered(h.live, g) {
        MoreCovered(h.live, m.live, g);
      }
    }
    if !Apart(b, c) {
      var g := if b.first < c.first then c.first else b.first;
      assert c.Holds(g) && b.Holds(g) && b in m.live;
    }
  }

  // ---------------------------------------------------------------------------------
  // Frames

  /** A frame of the heap, whose first frame is first, belongs to an allocated granule. */
  ghost predicate Taken(h: Heap, first: nat, f: int) {
    first <= f < first + h.n ==> Covered(h.live, f - first)
  }

  /** Mapped pages and tables are in allocated memory, and no mapped page is a table. */
  ghost predicate Backed(m: Memory, root: nat, h: Heap, first: nat) {
    && GranRuns.Inv(h) && (forall f | f in m :: Taken(h, first, f))
    && (forall x: nat | x < PAGES && Walk(m, root, x).Mapped? ::
          Taken(h, first, Walk(m, root, x).frame) && Walk(m, root, x).frame !in m)
  }

  /** No two pages are mapped to one frame. */
  ghost predicate Private(m: Memory, root: nat) {
    forall x: nat, y: nat | x < y < PAGES && Walk(m, root, x).Mapped? && Walk(m, root, y).Mapped? ::
      Walk(m, root, x).frame != Walk(m, root, y).frame
  }

  ghost function Frames(first: nat, bs: seq<Block>): (s: set<nat>) {
    set i | 0 <= i < |bs| :: first + bs[i].first
  }

  /** as_map of block b at page v: the tables afterwards are m', with the blocks ts as new tables. */
  ghost predicate AsMap(m: Memory, m': Memory, root: nat, first: nat, v: nat, b: Block, flags: set<nat>,
                        ts: seq<Block>)
  {
    && Updated(m, m', root, Region(v, v + b.count, first + b.first - v, flags))
    && m'.Keys == m.Keys + Frames(first, ts) && forall i | 0 <= i < |ts| :: ts[i].count == 1
  }

  /** pt_map on tables whose pool are the pages that gran_alloc hands out next, the blocks ts: it acts
      as as_map does, with the first few of these blocks. */
  method MapBlock(t: Tables, v: nat, b: Block, flags: set<nat>, first: nat, ghost ts: seq<Block>) returns (o: Outcome)
    requires t.Valid() && 0 < b.count && v + b.count <= PAGES && |ts| == |t.pool|
    requires forall i | 0 <= i < |ts| :: t.pool[i] - t.offset == first + ts[i].first && ts[i].count == 1
    modifies t`mem, t`pool, t`at
    ensures Ends(old(t.mem), t.root, Region(v, v + b.count, first + b.first - v, flags), |ts|, o)
    ensures o.Done? ==>
              && t.Valid()
              && |ts| == |t.pool| +
                 Need(old(t.mem), t.root, Region(v, v + b.count, first + b.first - v, flags), v + b.count)
              && AsMap(old(t.mem), t.mem, t.root, first, v, b, flags, ts[..|ts| - |t.pool|])
  {
    hide Tables.Valid, Drawn, Updated, Ends, Need;
    ghost var pool0, keys0 := t.pool, t.mem.Keys;
    KeysDrawn(t);
    o := t.MapPages(v, b.count, first + b.first, flags);
    if o.Done? {
      KeysDrawn(t);
      DrawnOf(t.before, t.supply, t.offset, keys0, pool0, t.mem.Keys, t.pool, first, ts);
    }
  }

  lemma KeysDrawn(t: Tables)
    requires t.Valid()
    ensures Drawn(t.before, t.supply, t.offset, t.mem.Keys, t.pool)
  {
    hide Drawn;
    assert t.at.Keys == t.mem.Keys;
  }

  lemma DrawnOf(before: set<nat>, supply: seq<int>, offset: int, keys0: set<nat>, pool0: seq<int>,
                keys1: set<nat>, pool1: seq<int>, first: nat, ts: seq<Block>)
    requires Drawn(before, supply, offset, keys0, pool0) && Drawn(before, supply, offset, keys1, pool1)
    requires |ts| == |pool0| && forall i | 0 <= i < |ts| :: pool0[i] - offset == first + ts[i].first
    requires |pool1| <= |pool0|
    ensures keys1 == keys0 + Frames(first, ts[..|ts| - |pool1|])
  {
    var n0, n1 := |supply| - |pool0|, |supply| - |pool1|;
    var k := n1 - n0;
    assert forall i | 0 <= i < k :: supply[n0 + i] == pool0[i];
    MoreFrames(supply, offset, n0, k, first, ts[..k]);
  }

  lemma {:induction false} MoreFrames(supply: seq<int>, offset: int, n: nat, k: nat, first: nat, ts: seq<Block>)
    requires n + k <= |supply| && |ts| == k && forall i | 0 <= i < k :: supply[n + i] - offset == first + ts[i].first
    ensures FramesOf(supply, n + k, offset) == FramesOf(supply, n, offset) + Frames(first, ts)
  {
    if k > 0 {
      var us, f := ts[..k - 1], first + ts[k - 1].first;
      MoreFrames(supply, offset, n, k - 1, first, us);
      assert FramesOf(supply, n + k, offset) == FramesOf(supply, n + k - 1, offset) + {f} by {
        assert supply[n + k - 1] - offset == f;
      }
      assert Frames(first, ts) == Frames(first, us) + {f} by {
        assert forall i | 0 <= i < k - 1 :: ts[i] == us[i];
      }
    }
  }

  /** The frame that page x of the new area is mapped to. */
  lemma NewPage(m: Memory, m': Memory, root: nat, first: nat, v: nat, b: Block, flags: set<nat>, ts: seq<Block>, x: nat)
    requires AsMap(m, m', root, first, v, b, flags, ts) && v <= x < v + b.count && x < PAGES
    ensures Walk(m', root, x).Mapped? && Walk(m', root, x).frame == first + b.first + (x - v)
  {
    assert Walk(m', root, x) == Update(Region(v, v + b.count, first + b.first - v, flags), Walk(m, root, x), x);
  }

  lemma OldPage(m: Memory, m': Memory, root: nat, first: nat, v: nat, b: Block, flags: set<nat>, ts: seq<Block>, x: nat)
    requires AsMap(m, m', root, first, v, b, flags, ts) && !(v <= x < v + b.count) && x < PAGES
    ensures Walk(m', root, x) == Walk(m, root, x)
  {
    assert Walk(m', root, x) == Update(Region(v, v + b.count, first + b.first - v, flags), Walk(m, root, x), x);
  }

  /** Frames that are taken are not in free blocks. */
  lemma TakenNotFree(h: Heap, first: nat, f: int, b: Block, g: nat)
    requires Taken(h, first, f) && Free(h, b) && b.Holds(g)
    ensures f != first + g
  {
  }

  lemma StillTaken(h: Heap, r: Heap, first: nat, f: int)
    requires Taken(h, first, f) && r.n == h.n && h.live <= r.live
    ensures Taken(r, first, f)
  {
    if first <= f < first + h.n {
      MoreCovered(h.live, r.live, f - first);
    }
  }

  /** The data block and the blocks for tables, all handed out in this call. */
  ghost predicate Given(h: Heap, r: Heap, b: Block, ts: seq<Block>) {
    && r.n == h.n && h.live <= r.live && b in r.live && Free(h, b)
    && forall i | 0 <= i < |ts| :: ts[i] in r.live && Free(h, ts[i]) && Apart(b, ts[i]) && ts[i].count == 1
  }

  /** A table allocated now lies in none of the frames taken before. */
  lemma NewTables(h: Heap, r: Heap, b: Block, ts: seq<Block>, first: nat, f: int)
    requires Given(h, r, b, ts) && Taken(h, first, f)
    ensures f !in Frames(first, ts)
  {
    forall i | 0 <= i < |ts| ensures f != first + ts[i].first {
      TakenNotFree(h, first, f, ts[i], ts[i].first);
    }
  }

  lemma TablesTaken(m: Memory, m': Memory, root: nat, first: nat, v: nat, flags: set<nat>, h: Heap, r: Heap,
                    b: Block, ts: seq<Block>, f: nat)
    requires Backed(m, root, h, first) && Given(h, r, b, ts) && AsMap(m, m', root, first, v, b, flags, ts) && f in m'
    ensures Taken(r, first, f)
  {
    assert f in m'.Keys;
    if f in m {
      StillTaken(h, r, first, f);
    } else {
      var i :| 0 <= i < |ts| && f == first + ts[i].first;
      assert ts[i].Holds(f - first) && ts[i] in r.live;
    }
  }

  lemma PageBacked(m: Memory, m': Memory, root: nat, first: nat, v: nat, flags: set<nat>, h: Heap, r: Heap,
                   b: Block, ts: seq<Block>, x: nat)
    requires Backed(m, root, h, first) && Given(h, r, b, ts) && AsMap(m, m', root, first, v, b, flags, ts)
    requires x < PAGES && Walk(m', root, x).Mapped?
    ensures Taken(r, first, Walk(m', root, x).frame) && Walk(m', root, x).frame !in m'
  {
    hide Updated, GranRuns.Inv;
    var f := Walk(m', root, x).frame;
    if v <= x < v + b.count {
      NewPage(m, m', root, first, v, b, flags, ts, x);
      var g := b.first + (x - v);
      hide Walk;
      assert b.Holds(g) && f == first + g;
      if f in m {
        TakenNotFree(h, first, f, b, g);
      }
      assert f !in m'.Keys;
    } else {
      OldPage(m, m', root, first, v, b, flags, ts, x);
      hide Walk;
      StillTaken(h, r, first, f);
      NewTables(h, r, b, ts, first, f);
      assert f !in m'.Keys;
    }
  }

  lemma PagesPrivate(m: Memory, m': Memory, root: nat, first: nat, v: nat, flags: set<nat>, h: Heap, r: Heap,
                     b: Block, ts: seq<Block>, x: nat, y: nat)
    requires Backed(m, root, h, first) && Private(m, root) && Given(h, r, b, ts)
    requires AsMap(m, m', root, first, v, b, flags, ts)
    requires x < PAGES && y < PAGES && x != y && Walk(m', root, x).Mapped? && Walk(m', root, y).Mapped?
    ensures Walk(m', root, x).frame != Walk(m', root, y).frame
  {
    hide Updated, GranRuns.Inv;
    if v <= x < v + b.count {
      NewPage(m, m', root, first, v, b, flags, ts, x);
      if v <= y < v + b.count {
        NewPage(m, m', root, first, v, b, flags, ts, y);
      } else {
        OldPage(m, m', root, first, v, b, flags, ts, y);
        TakenNotFree(h, first, Walk(m, root, y).frame, b, b.first + (x - v));
      }
    } else {
      OldPage(m, m', root, first, v, b, flags, ts, x);
      if v <= y < v + b.count {
        NewPage(m, m', root, first, v, b, flags, ts, y);
        TakenNotFree(h, first, Walk(m, root, x).frame, b, b.first + (y - v));
      } else {
        OldPage(m, m', root, first, v, b, flags, ts, y);
      }
    }
  }

  /** as_map of freshly allocated pages keeps mapped pages private and apart from tables. */
  lemma MapKeeps(m: Memory, m': Memory, root: nat, first: nat, v: nat, flags: set<nat>, h: Heap, r: Heap,
                 b: Block, ts: seq<Block>)
    requires Backed(m, root, h, first) && Private(m, root) && Given(h, r, b, ts) && GranRuns.Inv(r)
    requires AsMap(m, m', root, first, v, b, flags, ts)
    ensures Backed(m', root, r, first) && Private(m', root)
  {
    forall f | f in m' ensures Taken(r, first, f) {
      TablesTaken(m, m', root, first, v, flags, h, r, b, ts, f);
    }
    forall x: nat | x < PAGES && Walk(m', root, x).Mapped?
      ensures Taken(r, first, Walk(m', root, x).frame) && Walk(m', root, x).frame !in m'
    {
      PageBacked(m, m', root, first, v, flags, h, r, b, ts, x);
    }
    forall x: nat, y: nat | x < y < PAGES && Walk(m', root, x).Mapped? && Walk(m', root, y).Mapped?
      ensures Walk(m', root, x).frame != Walk(m', root, y).frame
    {
      PagesPrivate(m, m', root, first, v, flags, h, r, b, ts, x, y);
    }
  }

  // ---------------------------------------------------------------------------------
  // Runs of calls

  /** find_free_vma and list_add: an area of n pages below all others. */
  function WithArea(a: Areas, n: int): (r: Areas) {
    a.(vmas := [Vma(a.Bottom() - n, a.Bottom())] + a.vmas)
  }

  function WithBrk(a: Areas, to: int): (r: Areas) {
    if to < a.startBrk then a else a.(brk := to)
  }

  datatype Space = Space(a: Areas, mem: Memory, heap: Heap)

  /** bs are the blocks gran_alloc hands out during the call: for sys_mmap the area's record, the
      pages, then tables; for a growing sys_brk the pages, then tables. */
  datatype Call =
    | SysMmap(n: nat, flags: set<nat>, bs: seq<Block>)
    | SysBrk(to: int, flags: set<nat>, bs: seq<Block>)

  ghost predicate Backing(s: Space, s': Space, root: nat, first: nat, v: int, n: int, flags: set<nat>,
                          bs: seq<Block>, k: nat)
  {
    && k < |bs| && Handed(s.heap, bs) && s'.heap == AfterAll(s.heap, bs) && bs[k].count == n
    && 0 <= v && AsMap(s.mem, s'.mem, root, first, v, bs[k], flags, bs[k + 1..])
  }

  /** One successful call, while the heap and the mapped areas have not met. */
  ghost predicate Step(s: Space, c: Call, s': Space, root: nat, first: nat) {
    match c
    case SysMmap(n, flags, bs) =>
      && 0 < n && s.a.brk <= s.a.Bottom() - n && s'.a == WithArea(s.a, n)
      && Backing(s, s', root, first, s.a.Bottom() - n, n, flags, bs, 1)
    case SysBrk(to, flags, bs) =>
      && s'.a == WithBrk(s.a, to)
      && if to < s.a.startBrk || to == s.a.brk then s' == s.(a := s'.a)
         else s.a.brk < to <= s.a.Bottom() && Backing(s, s', root, first, s.a.brk, to - s.a.brk, flags, bs, 0)
  }

  /** Every page of the heap and of the areas is mapped, and none between them. */
  ghost predicate Filled(a: Areas, m: Memory, root: nat) {
    && (forall x: nat | a.Holds(x) :: Walk(m, root, x).Mapped?)
    && (forall x: nat | a.brk <= x < a.Bottom() :: Walk(m, root, x).Fault?)
  }

  ghost predicate Inv(s: Space, root: nat, first: nat) {
    && Tiled(s.a) && 0 <= s.a.startBrk && s.a.base <= PAGES
    && Backed(s.mem, root, s.heap, first) && Private(s.mem, root) && Filled(s.a, s.mem, root)
  }

  /** Pages [v, v + n) walk to consecutive frames from f on, with these attribute bits, all others as before. */
  ghost predicate PagesAt(m: Memory, m': Memory, root: nat, v: int, n: int, f: int, attr: set<nat>) {
    forall x: nat | x < PAGES ::
      var l := Walk(m', root, x);
      if v <= x < v + n then l.Mapped? && l.frame == f + (x - v) && l.attr == attr - {0, 1}
      else l == Walk(m, root, x)
  }

  /** What a call maps: the area below all others, or the pages the heap grows by, to the frames of the block
      handed out for them. */
  lemma StepMaps(s: Space, c: Call, s': Space, root: nat, first: nat)
    requires Step(s, c, s', root, first)
    ensures c.SysMmap? ==> PagesAt(s.mem, s'.mem, root, s.a.Bottom() - c.n, c.n, first + c.bs[1].first, c.flags)
    ensures c.SysBrk? && c.to > s.a.brk && c.to >= s.a.startBrk ==>
              PagesAt(s.mem, s'.mem, root, s.a.brk, c.to - s.a.brk, first + c.bs[0].first, c.flags)
  {
    assert Attr(c.flags) == c.flags - {0, 1};
    hide Walk;
  }

  lemma AreaTiled(a: Areas, n: int)
    requires Tiled(a) && 0 < n && a.brk <= a.Bottom() - n
    ensures Tiled(WithArea(a, n))
  {
    var r := WithArea(a, n);
    assert forall i | 1 <= i < |r.vmas| :: r.vmas[i] == a.vmas[i - 1];
  }

  /** Mapping the pages [v, v + b.count) next to the gap, inside it, keeps areas filled. */
  lemma GapFilled(a: Areas, r: Areas, m: Memory, m': Memory, root: nat, first: nat, v: nat, b: Block,
                  flags: set<nat>, ts: seq<Block>)
    requires Tiled(a) && Tiled(r) && 0 <= a.startBrk && a.base <= PAGES
    requires r.startBrk == a.startBrk && r.base == a.base
    requires Filled(a, m, root) && AsMap(m, m', root, first, v, b, flags, ts)
    requires || (v == a.brk && r.brk == v + b.count && r.Bottom() == a.Bottom())
             || (v + b.count == a.Bottom() && r.Bottom() == v && r.brk == a.brk)
    ensures Filled(r, m', root)
  {
    assert a.brk <= a.Bottom() <= a.base && r.brk <= r.Bottom();
    hide AsMap, Tiled, Walk;
    forall x: nat | r.Holds(x) ensures Walk(m', root, x).Mapped? {
      if v <= x < v + b.count {
        NewPage(m, m', root, first, v, b, flags, ts, x);
      } else {
        OldPage(m, m', root, first, v, b, flags, ts, x);
      }
    }
    forall x: nat | r.brk <= x < r.Bottom() ensures Walk(m', root, x).Fault? {
      OldPage(m, m', root, first, v, b, flags, ts, x);
    }
  }

  lemma GivenByCall(h: Heap, bs: seq<Block>, k: nat)
    requires GranRuns.Inv(h) && Handed(h, bs) && k < |bs| && forall i | k < i < |bs| :: bs[i].count == 1
    ensures GranRuns.Inv(AfterAll(h, bs)) && Given(h, AfterAll(h, bs), bs[k], bs[k + 1..])
  {
    HandedFree(h, bs);
    var ts := bs[k + 1..];
    hide AfterAll, Handed;
    assert forall i | 0 <= i < |ts| :: ts[i] == bs[k + 1 + i];
  }

  lemma BackingKeeps(s: Space, s': Space, root: nat, first: nat, v: int, n: int, flags: set<nat>, bs: seq<Block>,
                     k: nat)
    requires Inv(s, root, first) && Backing(s, s', root, first, v, n, flags, bs, k)
    ensures Backed(s'.mem, root, s'.heap, first) && Private(s'.mem, root)
  {
    var ts := bs[k + 1..];
    forall i | k < i < |bs| ensures bs[i].count == 1 {
      assert bs[i] == ts[i - k - 1];
    }
    GivenByCall(s.heap, bs, k);
    hide Given, AsMap, Private;
    MapKeeps(s.mem, s'.mem, root, first, v, flags, s.heap, s'.heap, bs[k], ts);
  }

  lemma MmapKeeps(s: Space, s': Space, root: nat, first: nat, n: nat, flags: set<nat>, bs: seq<Block>)
    requires Inv(s, root, first) && Step(s, SysMmap(n, flags, bs), s', root, first)
    ensures Inv(s', root, first)
  {
    var v := s.a.Bottom() - n;
    BackingKeeps(s, s', root, first, v, n, flags, bs, 1);
    AreaTiled(s.a, n);
    hide Backed, Private, Tiled, Filled, AsMap;
    GapFilled(s.a, s'.a, s.mem, s'.mem, root, first, v, bs[1], flags, bs[2..]);
  }

  lemma BrkKeeps(s: Space, s': Space, root: nat, first: nat, to: int, flags: set<nat>, bs: seq<Block>)
    requires Inv(s, root, first) && Step(s, SysBrk(to, flags, bs), s', root, first) && s.a.brk < to
    ensures Inv(s', root, first)
  {
    BackingKeeps(s, s', root, first, s.a.brk, to - s.a.brk, flags, bs, 0);
    assert Tiled(s'.a);
    hide Backed, Private, Tiled, Filled, AsMap;
    GapFilled(s.a, s'.a, s.mem, s'.mem, root, first, s.a.brk, bs[0], flags, bs[1..]);
  }

  /** Each call keeps the invariant. */
  lemma StepKeeps(s: Space, c: Call, s': Space, root: nat, first: nat)
    requires Inv(s, root, first) && Step(s, c, s', root, first)
    ensures Inv(s', root, first)
  {
    if c.SysMmap? {
      MmapKeeps(s, s', root, first, c.n, c.flags, c.bs);
    } else if s.a.brk < c.to {
      BrkKeeps(s, s', root, first, c.to, c.flags, c.bs);
    } else {
      assert s' == s;
    }
  }

  /** pt_map is asked only for pages not mapped yet, so it never takes a block for a table. */
  lemma CallsNeverConflict(s: Space, root: nat, first: nat, r: Region)
    requires Inv(s, root, first) && s.a.brk <= r.first && r.end <= s.a.Bottom()
    ensures !Conflicts(s.mem, root, r)
  {
    forall x: nat | x < PAGES && r.Holds(x) ensures Walk(s.mem, root, x).Fault? {
    }
    PageTableRuns.UnmappedNoConflict(s.mem, root, r);
  }

  /** sys_brk lowers the break without unmapping: for a break that does not grow, the gap above the
      heap stays unmapped exactly when the break does not move. */
  lemma ShrinkingIff(s: Space, root: nat, first: nat, to: int)
    requires Inv(s, root, first) && to <= s.a.brk
    ensures Filled(WithBrk(s.a, to), s.mem, root) <==> to < s.a.startBrk || to == s.a.brk
  {
    if s.a.startBrk <= to < s.a.brk {
      var x: nat := to;
      assert s.a.Holds(x) && Walk(s.mem, root, x).Mapped?;
    } else {
      assert WithBrk(s.a, to) == s.a;
    }
  }

  /** A task without areas, on tables that map nothing and lie in allocated memory or outside the heap. */
  lemma StartInv(a: Areas, m: Memory, root: nat, h: Heap, first: nat)
    requires a.vmas == [] && 0 <= a.startBrk == a.brk <= a.base <= PAGES && GranRuns.Inv(h)
    requires (forall f | f in m :: Taken(h, first, f)) && forall x: nat | x < PAGES :: Walk(m, root, x).Fault?
    ensures Inv(Space(a, m, h), root, first)
  {
  }

  /** The pages handed out next serve as new tables: none is a table yet and no two are the same. */
  lemma PoolFresh(m: Memory, root: nat, h: Heap, first: nat, ts: seq<Block>)
    requires Backed(m, root, h, first) && Handed(h, ts)
    ensures forall i | 0 <= i < |ts| :: first + ts[i].first !in m
    ensures forall i, j | 0 <= i < j < |ts| :: ts[i].first != ts[j].first
  {
    HandedFree(h, ts);
    hide Handed, GranRuns.Inv;
    forall i | 0 <= i < |ts| ensures first + ts[i].first !in m {
      assert ts[i].Holds(ts[i].first) && Free(h, ts[i]);
      if first + ts[i].first in m {
        TakenNotFree(h, first, first + ts[i].first, ts[i], ts[i].first);
      }
    }
    forall i, j | 0 <= i < j < |ts| ensures ts[i].first != ts[j].first {
      assert Apart(ts[i], ts[j]);
    }
  }

  ghost predicate Run(ss: seq<Space>, cs: seq<Call>, root: nat, first: nat) {
    && |ss| == |cs| + 1 && Inv(ss[0], root, first)
    && forall k | 0 <= k < |cs| :: Step(ss[k], cs[k], ss[k + 1], root, first)
  }

  /** Along every run the areas tile downward from mmap_base, all pages of areas and heap are
      mapped, and no two mapped pages share a frame with each other or with a table. */
  lemma {:induction false} RunKeepsInv(ss: seq<Space>, cs: seq<Call>, root: nat, first: nat, k: nat)
    requires Run(ss, cs, root, first) && k <= |cs|
    ensures Inv(ss[k], root, first)
  {
    if k > 0 {
      RunKeepsInv(ss, cs, root, first, k - 1);
      hide Inv, Step;
      StepKeeps(ss[k - 1], cs[k - 1], ss[k], root, first);
    }
  }
}
